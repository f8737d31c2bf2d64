/**
 * Java's integer division and remainder, which truncate toward zero (Dafny's
 * `/` and `%` are Euclidean), and the "floor to a multiple of HASH_SIZE" step
 * `x -= x % HASH_SIZE` that both CreateBlocks and MergeBlocks apply to buffer
 * sizes.
 */
module JavaArith {
  import opened Bytes

  function Abs(x: int): nat
  {
    if x < 0 then -x else x
  }

  /** Java's `a / b` on ints: the quotient rounded toward zero. */
  function Div(a: int, b: int): (q: int)
    requires b != 0
  {
    if (a < 0) == (b < 0) then Abs(a) / Abs(b) else -(Abs(a) / Abs(b))
  }

  /** Java's `a % b` on ints: what is left after `Div`. */
  function Rem(a: int, b: int): (r: int)
    requires b != 0
  {
    a - b * Div(a, b)
  }

  /**
   * The two agree with the Java language's definition: the quotient and the
   * remainder rebuild the dividend, the remainder is smaller than the divisor
   * in magnitude and has the dividend's sign, and on non-negative operands
   * they are ordinary division and remainder.
   */
  lemma DivRemSpec(a: int, b: int)
    requires b != 0
    ensures Div(a, b) * b + Rem(a, b) == a
    ensures Abs(Rem(a, b)) < Abs(b)
    ensures a >= 0 ==> Rem(a, b) >= 0
    ensures a < 0 ==> Rem(a, b) <= 0
    ensures a >= 0 && b > 0 ==> Div(a, b) == a / b && Rem(a, b) == a % b
  {
    var q := Abs(a) / Abs(b);
    var m := Abs(a) % Abs(b);
    assert Abs(a) == q * Abs(b) + m;
    if (a < 0) == (b < 0) {
      assert Div(a, b) * b == (if a < 0 then -(q * Abs(b)) else q * Abs(b));
    } else {
      assert Div(a, b) * b == (if a < 0 then -(q * Abs(b)) else q * Abs(b));
    }
  }

  /** For a non-negative dividend and a positive divisor, the quotient is the largest q with q * b <= a. */
  lemma DivBounds(a: int, b: int)
    requires a >= 0 && b >= 1
    ensures 0 <= Div(a, b)
    ensures Div(a, b) * b <= a < Div(a, b) * b + b
  {
    DivRemSpec(a, b);
    if Div(a, b) < 0 {
      NegativeTimesPositive(Div(a, b), b);
    }
  }

  /** A negative multiple of a positive number is at most its negation. */
  lemma {:induction false} NegativeTimesPositive(q: int, b: int)
    requires q <= -1 && b >= 1
    ensures q * b <= -b
    decreases -q
  {
    if q < -1 {
      NegativeTimesPositive(q + 1, b);
      assert q * b == (q + 1) * b - b;
    }
  }

  /** `x -= x % HASH_SIZE`: x rounded toward zero to a multiple of 16. */
  function FloorToRecord(x: int): (f: int)
  {
    x - Rem(x, HASH_SIZE)
  }

  /**
   * The floored size is a multiple of 16 that is at most 15 away from x,
   * toward zero; it is positive exactly when x holds at least one record.
   */
  lemma FloorToRecordSpec(x: int)
    ensures FloorToRecord(x) % HASH_SIZE == 0
    ensures x >= 0 ==> 0 <= FloorToRecord(x) <= x < FloorToRecord(x) + HASH_SIZE
    ensures x < 0 ==> x <= FloorToRecord(x) <= 0
    ensures FloorToRecord(x) > 0 <==> x >= HASH_SIZE
  {
    DivRemSpec(x, HASH_SIZE);
  }
}
