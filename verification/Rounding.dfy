/** Rounding a rational num/den to an integer: decimal.ROUND_HALF_UP (ties away from zero) and
    the default ROUND_HALF_EVEN.  Amounts are scaled so that the unit being kept is 1. */
module Rounding {

  function Abs(x: int): nat { if x < 0 then -x else x }

  function HalfUp(num: int, den: int): int
    requires den > 0
  {
    if num >= 0 then (2 * num + den) / (2 * den) else -((-2 * num + den) / (2 * den))
  }

  function HalfEven(num: int, den: int): int
    requires den > 0
  {
    var q := num / den;
    var r := 2 * (num % den);
    if r < den || (r == den && q % 2 == 0) then q else q + 1
  }

  /** v is a nearest integer to num/den. */
  predicate Nearest(v: int, num: int, den: int)
    requires den > 0
  {
    -den <= 2 * (v * den - num) <= den
  }

  /** num/den lies exactly half way between two integers. */
  predicate Tie(num: int, den: int)
    requires den > 0
  {
    2 * (num % den) == den
  }

  /** How far a nonzero multiple of b is from zero. */
  lemma MulFar(d: int, b: int)
    requires b > 0
    ensures d >= 1 ==> d * b >= b
    ensures d >= 2 ==> d * b >= 2 * b
    ensures d <= -1 ==> d * b <= -b
  {
    assert d * b == (d - 1) * b + b;
    assert d * b == (d + 1) * b - b;
    assert d * b == (d - 2) * b + 2 * b;
  }

  lemma DivBounds(a: int, b: int)
    requires b > 0
    ensures (a / b) * b <= a < (a / b) * b + b
  {
  }

  lemma DivIs(a: int, b: int, q: int)
    requires b > 0 && q * b <= a < q * b + b
    ensures a / b == q
  {
    DivBounds(a, b);
    var d := a / b - q;
    assert (a / b) * b - q * b == d * b;
    MulFar(d, b);
  }

  /** Half-up gives a nearest integer, and on a tie the one farther from zero. */
  lemma HalfUpNearest(num: int, den: int)
    requires den > 0
    ensures Nearest(HalfUp(num, den), num, den)
    ensures num >= 0 ==> HalfUp(num, den) >= 0 && 2 * (HalfUp(num, den) * den - num) > -den
    ensures num <= 0 ==> HalfUp(num, den) <= 0 && 2 * (HalfUp(num, den) * den - num) < den
  {
    var n := Abs(num);
    var h := (2 * n + den) / (2 * den);
    DivBounds(2 * n + den, 2 * den);
    assert h * (2 * den) == 2 * (h * den);
    MulFar(h, 2 * den);
    assert (-h) * den == -(h * den);
  }

  /** The result is the only nearest integer when num/den is strictly within half a unit of it. */
  lemma HalfUpIs(num: int, den: int, v: int)
    requires den > 0 && -den < 2 * (v * den - num) < den
    ensures HalfUp(num, den) == v
  {
    HalfUpNearest(num, den);
    NearestClose(HalfUp(num, den), v, num, den);
  }

  lemma NearestClose(v: int, w: int, num: int, den: int)
    requires den > 0 && Nearest(v, num, den) && -den < 2 * (w * den - num) < den
    ensures v == w
  {
    var d := v - w;
    assert v * den - w * den == d * den;
    MulFar(d, den);
  }

  lemma HalfUpExact(v: int, den: int)
    requires den > 0
    ensures HalfUp(v * den, den) == v
  {
    HalfUpIs(v * den, den, v);
  }

  lemma HalfUpMonotone(a: int, b: int, den: int)
    requires den > 0 && 0 <= a <= b
    ensures HalfUp(a, den) <= HalfUp(b, den)
  {
    var m, n := 2 * a + den, 2 * b + den;
    DivBounds(m, 2 * den);
    DivBounds(n, 2 * den);
    var d := m / (2 * den) - n / (2 * den);
    assert (m / (2 * den)) * (2 * den) - (n / (2 * den)) * (2 * den) == d * (2 * den);
    MulFar(d, 2 * den);
  }

  lemma HalfEvenNearest(num: int, den: int)
    requires den > 0
    ensures Nearest(HalfEven(num, den), num, den)
    ensures Tie(num, den) ==> HalfEven(num, den) % 2 == 0
  {
    var q := num / den;
    assert q * den + num % den == num;
    assert (q + 1) * den == q * den + den;
  }

  lemma DivMod(num: int, den: int)
    requires den > 0
    ensures (num / den) * den == num - num % den
    ensures (num / den + 1) * den == num - num % den + den
  {
  }

  /** The two modes differ only on a tie whose half-up result is odd, and then by one unit. */
  lemma ModesDifferOnlyOnTies(num: int, den: int)
    requires den > 0
    ensures Abs(HalfUp(num, den) - HalfEven(num, den)) <= 1
    ensures HalfUp(num, den) != HalfEven(num, den) <==> Tie(num, den) && HalfUp(num, den) % 2 != 0
  {
    var q, r := num / den, num % den;
    DivMod(num, den);
    if 2 * r < den {
      HalfUpIs(num, den, q);
    } else if 2 * r > den {
      HalfUpIs(num, den, q + 1);
    } else {
      HalfUpNearest(num, den);
      TieNeighbours(HalfUp(num, den), num, den);
    }
  }

  lemma TieNeighbours(v: int, num: int, den: int)
    requires den > 0 && Nearest(v, num, den) && Tie(num, den)
    ensures v == num / den || v == num / den + 1
  {
    var q := num / den;
    assert q * den + num % den == num;
    var d := v - q;
    assert v * den - q * den == d * den;
    MulFar(d, den);
  }
}
