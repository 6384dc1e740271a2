/** Numeric conventions of the program: C conversions and divisions, and powers with natural exponents. */
module Arith {

  /** Time dilation factors are positive. */
  type Tdf = t: real | t > 0.0 witness 1.0

  /** A floating value converted to an integer type loses its fraction, that is, it is rounded
      toward zero (section 6.3.1.4 of ISO/IEC 9899:1999). */
  function Trunc(r: real): (n: int)
    ensures 0.0 <= r ==> 0 <= n && n as real <= r < n as real + 1.0
    ensures r <= 0.0 ==> n <= 0 && n as real - 1.0 < r <= n as real
  {
    if r >= 0.0 then r.Floor else -(-r).Floor
  }

  lemma TruncMonotone(x: real, y: real)
    requires x <= y
    ensures Trunc(x) <= Trunc(y)
  {
  }

  /** Moving the argument by at most a whole number moves the result by at most that number. */
  lemma TruncShift(x: real, y: real, k: nat)
    requires y <= x + k as real
    ensures Trunc(y) <= Trunc(x) + k
  {
    TruncMonotone(y, x + k as real);
    if x < 0.0 <= x + k as real {
      assert Trunc(x + k as real) as real <= x + k as real <= Trunc(x) as real + k as real;
    }
  }

  /** Integer division of C rounds toward zero too (section 6.5.5 of ISO/IEC 9899:1999). */
  function CDiv(a: int, b: int): int
    requires b > 0
  {
    if a >= 0 then a / b else -(-a / b)
  }

  function Abs(x: real): (y: real)
    ensures y >= 0.0
    ensures y == x || y == -x
  {
    if x < 0.0 then -x else x
  }

  lemma QuotientMonotone(a: real, b: real, t: Tdf)
    requires a <= b
    ensures a / t <= b / t
  {
    assert b / t - a / t == (b - a) / t;
  }

  lemma QuotientShrinks(a: real, t: Tdf)
    requires 0.0 <= a && 1.0 <= t
    ensures 0.0 <= a / t <= a
  {
    var q := a / t;
    assert q * t == a;
    assert q * (t - 1.0) >= 0.0;
  }

  lemma SmallerDivisor(a: real, t: Tdf, u: Tdf)
    requires 0.0 <= a && t <= u
    ensures a / u <= a / t
  {
    var p, q := a / u, a / t;
    assert p * u == a && q * t == a;
    assert p * t <= p * u;
    assert (q - p) * t >= 0.0;
  }

  lemma QuotientCross(a: real, t: Tdf, u: Tdf)
    ensures (a / t - a / u) * (t * u) == a * (u - t)
  {
    var p, q := a / u, a / t;
    assert p * u == a && q * t == a;
    assert (q - p) * (t * u) == (q * t) * u - (p * u) * t;
  }

  lemma Scaled(x: real, y: real, d: real)
    requires x <= y && 0.0 <= d
    ensures x * d <= y * d
  {
  }

  lemma StrictlyScaled(x: real, y: real, d: real)
    requires x < y && 0.0 < d
    ensures x * d < y * d
  {
  }

  lemma ScaledByPower(s: real, p: real)
    requires 0.0 <= s && 0.0 <= p
    ensures 0.0 <= s * p
    ensures p <= 1.0 ==> s * p <= s
    ensures 0.0 < s && 1.0 < p ==> s < s * p
  {
    assert s * p - s == s * (p - 1.0);
  }

  /** A weighted mean is a move by a fraction of the distance. */
  lemma Blend(alpha: real, a: real, x: real, d: real)
    requires d == x - a
    ensures Average(alpha, a, x) == a + alpha * d
  {
  }

  /** One step of an exponentially weighted moving average. */
  function Average(alpha: real, avg: real, x: real): real {
    (1.0 - alpha) * avg + alpha * x
  }

  lemma AverageBetween(alpha: real, avg: real, x: real, lo: real, hi: real)
    requires 0.0 < alpha <= 1.0 && lo <= avg <= hi && lo <= x <= hi
    ensures lo <= Average(alpha, avg, x) <= hi
  {
    AverageIsMove(alpha, avg, x, x - avg);
  }

  lemma AverageIsMove(alpha: real, avg: real, x: real, d: real)
    requires 0.0 < alpha <= 1.0 && d == x - avg
    ensures d >= 0.0 ==> avg <= Average(alpha, avg, x) <= x
    ensures d < 0.0 ==> x <= Average(alpha, avg, x) <= avg
  {
    Blend(alpha, avg, x, d);
    Fraction(alpha, d);
  }

  lemma Fraction(alpha: real, d: real)
    requires 0.0 < alpha <= 1.0
    ensures 0.0 <= d ==> 0.0 <= alpha * d <= d
    ensures d < 0.0 ==> d <= alpha * d < 0.0
  {
    assert d - alpha * d == (1.0 - alpha) * d;
  }

  lemma SignOfProduct(d: real, m: real)
    requires 0.0 < m && 0.0 <= d * m
    ensures 0.0 <= d
  {
  }

  lemma CrossMultiplied(x: real, y: real, e: real, d: real)
    requires 0.0 < y && 0.0 < d && x * d < y * e
    ensures x / y < e / d
  {
    var q, f := x / y, e / d;
    assert q * y == x && f * d == e;
    assert (f - q) * (y * d) == (f * d) * y - (q * y) * d;
    if f <= q {
      SignOfProduct(q - f, y * d);
    }
  }

  lemma QuotientsApart(a: real, t: Tdf, u: Tdf)
    requires t < u && t * u <= a * (u - t)
    ensures a / u + 1.0 <= a / t
  {
    QuotientCross(a, t, u);
    var d := a / t - a / u - 1.0;
    assert d * (t * u) == a * (u - t) - t * u;
    SignOfProduct(d, t * u);
  }

  lemma QuotientsDrawApart(t: Tdf, u: Tdf) returns (n: nat)
    requires t < u
    ensures n as real / u + 1.0 <= n as real / t
  {
    n := Archimedes(t * u, u - t);
    QuotientsApart(n as real, t, u);
  }

  lemma Archimedes(a: real, gap: real) returns (n: nat)
    requires 0.0 < a && 0.0 < gap
    ensures a <= n as real * gap
  {
    var x := a / gap;
    assert x * gap == a;
    n := x.Floor + 1;
    var excess := n as real - x;
    assert excess * gap >= 0.0;
    assert n as real * gap == x * gap + excess * gap;
  }

  /** What holds from each entry of a sequence to the next one holds between any two entries. */
  lemma {:induction false} Chained(vs: seq<int>, ts: seq<int>, bounded: bool, i: nat, j: nat)
    requires |vs| == |ts| && i <= j < |vs|
    requires forall k :: 0 <= k < |vs| - 1 ==>
               vs[k] <= vs[k + 1] && (bounded ==> vs[k + 1] - vs[k] <= ts[k + 1] - ts[k])
    ensures vs[i] <= vs[j]
    ensures bounded ==> vs[j] - vs[i] <= ts[j] - ts[i]
  {
    if i < j {
      Chained(vs, ts, bounded, i, j - 1);
      assert vs[j - 1] <= vs[(j - 1) + 1];
    }
  }

  /** pow() of the C library, for natural exponents. */
  function Pow(b: real, n: nat): real
  {
    if n == 0 then 1.0 else b * Pow(b, n - 1)
  }

  lemma {:induction false} PowNonNegative(b: real, n: nat)
    requires 0.0 <= b
    ensures 0.0 <= Pow(b, n)
    ensures 0.0 < b ==> 0.0 < Pow(b, n)
  {
    if n > 0 {
      PowNonNegative(b, n - 1);
    }
  }

  lemma {:induction false} PowProduct(a: real, b: real, n: nat)
    ensures Pow(a * b, n) == Pow(a, n) * Pow(b, n)
  {
    if n > 0 {
      PowProduct(a, b, n - 1);
      var p, q := Pow(a, n - 1), Pow(b, n - 1);
      assert (a * b) * (p * q) == (a * p) * (b * q);
    }
  }

  lemma {:induction false} PowMonotone(a: real, b: real, n: nat)
    requires 0.0 <= a <= b
    ensures Pow(a, n) <= Pow(b, n)
  {
    if n > 0 {
      PowMonotone(a, b, n - 1);
      PowNonNegative(a, n - 1);
      var p, q := Pow(a, n - 1), Pow(b, n - 1);
      assert a * p <= b * p;
      assert b * p <= b * q;
    }
  }

  lemma {:induction false} PowOfOne(n: nat)
    ensures Pow(1.0, n) == 1.0
  {
    if n > 0 {
      PowOfOne(n - 1);
    }
  }

  /** A power stays at most one exactly when its base does. */
  lemma {:induction false} PowAtMostOne(b: real, n: nat)
    requires 0.0 <= b && 0 < n
    ensures Pow(b, n) <= 1.0 <==> b <= 1.0
  {
    PowOfOne(n);
    if b <= 1.0 {
      PowMonotone(b, 1.0, n);
    } else {
      PowOfOne(n - 1);
      PowMonotone(1.0, b, n - 1);
      var p := Pow(b, n - 1);
      assert b * p >= b * 1.0;
    }
  }
}
