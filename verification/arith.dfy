/** Exact integer replacements for the floating-point helpers the backend uses:
    `round` (half away from zero), `ceil` of a quotient, and clamping. */
module Arith {

  function Abs(x: int): nat {
    if x < 0 then -x else x
  }

  /** PHP `round(num / den)`: the integer nearest to num/den, a tie going away from zero. */
  function RoundHalfAway(num: int, den: int): (r: int)
    requires den > 0
    ensures -den <= 2 * (num - r * den) <= den
    ensures 2 * (num - r * den) == den ==> num < 0
    ensures 2 * (num - r * den) == -den ==> num > 0
    ensures num >= 0 ==> r >= 0
    ensures num <= 0 ==> r <= 0
  {
    if num >= 0 then
      HalfUp(num, den);
      (2 * num + den) / (2 * den)
    else
      HalfUp(-num, den);
      -((2 * (-num) + den) / (2 * den))
  }

  /** Rounding a non-negative a / den half up leaves an error in [-den/2, den/2). */
  lemma HalfUp(a: int, den: int)
    requires a >= 0 && den > 0
    ensures var q := (2 * a + den) / (2 * den);
            && q >= 0 && (a == 0 ==> q == 0)
            && -den <= 2 * (a - q * den) < den
            && (-q) * den == -(q * den)
  {
    var q := (2 * a + den) / (2 * den);
    DivBounds(2 * a + den, 2 * den);
    assert q * (2 * den) == 2 * (q * den);
    if a == 0 {
      assert 2 * a + den < 2 * den;
    }
  }

  /** Euclidean division of a non-negative numerator, stated as bounds. */
  lemma DivBounds(a: int, b: int)
    requires a >= 0 && b > 0
    ensures (a / b) * b <= a < (a / b) * b + b
    ensures a / b >= 0
  {
  }

  /** Two integers that both meet the rounding contract are equal: the contract
      of `RoundHalfAway` pins its result down. */
  lemma {:induction false} RoundHalfAwayUnique(num: int, den: int, r: int)
    requires den > 0
    requires -den <= 2 * (num - r * den) <= den
    requires 2 * (num - r * den) == den ==> num < 0
    requires 2 * (num - r * den) == -den ==> num > 0
    ensures r == RoundHalfAway(num, den)
  {
    var q := RoundHalfAway(num, den);
    // two candidates at least one den apart cannot both be within half a den
    if r < q {
      Apart(num, den, r, q);
    } else if r > q {
      Apart(num, den, q, r);
    }
  }

  /** Of two distinct candidates, the lower one's error exceeds the higher one's by a whole den. */
  lemma Apart(num: int, den: int, lo: int, hi: int)
    requires den > 0 && lo < hi
    ensures 2 * (num - lo * den) >= 2 * (num - hi * den) + 2 * den
  {
    MulMono(hi - lo, 1, den);
    assert (hi - lo) * den == hi * den - lo * den;
  }

  /** A positive factor can be cancelled from a strict inequality. */
  lemma MulCancel(a: int, b: int, c: int)
    requires c > 0 && a * c < b * c
    ensures a < b
  {
    if a >= b {
      MulMono(a, b, c);
      assert false;
    }
  }

  lemma MulNeg(a: int, b: int)
    ensures a * -b == -(a * b)
  {
  }

  lemma MulMono(a: int, b: int, c: int)
    requires a >= b && c > 0
    ensures a * c >= b * c
  {
  }

  /** PHP `ceil(a / b)` for a count and a page size. */
  function CeilDiv(a: nat, b: nat): (r: nat)
    requires b > 0
    ensures (r - 1) * b < a <= r * b || (a == 0 && r == 0)
  {
    var q := (a + b - 1) / b;
    DivBounds(a + b - 1, b);
    q
  }

  /** PHP `min(hi, max(lo, x))`. */
  function Clamp(lo: int, hi: int, x: int): (r: int)
    requires lo <= hi
    ensures lo <= r <= hi
    ensures lo <= x <= hi ==> r == x
    ensures x < lo ==> r == lo
    ensures x > hi ==> r == hi
  {
    if x < lo then lo else if x > hi then hi else x
  }
}
