/** Arithmetic on real numbers behind the fixed-point updates of DCTCP. */
module RealSteps {

  function RealTimes(a: real, b: real): real { a * b }

  lemma RealMulSign(a: real, b: real)
    requires a >= 0.0 && b >= 0.0
    ensures a * b >= 0.0
  {
  }

  lemma RealMulLess(m: real, x: real, y: real)
    requires m > 0.0 && m * x < m * y
    ensures x < y
  {
    if x >= y { RealMulSign(m, x - y); }
    assert m * (x - y) == m * x - m * y;
  }

  lemma RealMulAtMost(m: real, x: real, y: real)
    requires m >= 0.0 && x <= y
    ensures x * m <= y * m
  {
    RealMulSign(y - x, m);
    assert (y - x) * m == y * m - x * m;
  }

  lemma RealMulNotNegative(m: real, x: real)
    requires m > 0.0 && m * x >= 0.0
    ensures x >= 0.0
  {
    assert m * -x == -(m * x);
    if x < 0.0 { RealMulPositive(m, -x); }
  }

  lemma RealMulPositive(a: real, b: real)
    requires a > 0.0 && b > 0.0
    ensures a * b > 0.0
  {
  }

  lemma QuotientInReals(x: real, d: real, q: real, r: real)
    requires d > 0.0 && x == d * q + r && 0.0 <= r < d
    ensures q == (x - r) / d && 0.0 <= x / d - q < 1.0
  {
    assert d * (x / d) == x;
    var e := x / d - q;
    assert d * e == d * (x / d) - d * q;
    RealMulNotNegative(d, e);
    RealMulLess(d, e, 1.0);
  }

  /** The error bound of an average with gain `w / m`. */
  predicate Within(err: real, w: real, m: real)
    requires w > 0.0
  {
    0.0 <= err < (m + w) / w
  }

  /** The error after one update: `e` is the error of the fraction, `d` the error so
      far, `c` what the last division loses. */
  function NextError(e: real, d: real, c: real, w: real, m: real): real
    requires m > 0.0
  {
    (e * w + d * (m - w) + c) / m
  }

  /** An update keeps the error within its bound. */
  lemma ErrorStays(e: real, d: real, c: real, w: real, m: real)
    requires 0.0 < w <= m && 0.0 <= e < 1.0 && 0.0 <= c < m
    ensures Within(d, w, m) ==> Within(NextError(e, d, c, w, m), w, m)
  {
    if Within(d, w, m) {
      var bound, d' := (m + w) / w, NextError(e, d, c, w, m);
      ErrorParts(d, bound, w, m);
      RealMulSign(e, w);
      StrictPart(e, w);
      var sum := RealTimes(e, w) + RealTimes(d, m - w) + c;
      assert 0.0 <= sum < RealTimes(m, bound);
      QuotientBelow(sum, m, bound);
    }
  }

  lemma ErrorParts(d: real, bound: real, w: real, m: real)
    requires 0.0 < w <= m && 0.0 <= d < bound && bound == (m + w) / w
    ensures 0.0 <= RealTimes(d, m - w) <= RealTimes(m, bound) - (m + w)
  {
    assert w * bound == m + w;
    RealMulSign(d, m - w);
    RealMulAtMost(m - w, d, bound);
    assert bound * (m - w) == m * bound - w * bound;
  }

  lemma QuotientBelow(sum: real, m: real, bound: real)
    requires m > 0.0
    ensures 0.0 <= sum < RealTimes(m, bound) ==> 0.0 <= sum / m < bound
  {
    var q := sum / m;
    assert m * q == sum;
    if 0.0 <= sum < RealTimes(m, bound) {
      RealMulNotNegative(m, q);
      RealMulLess(m, q, bound);
    }
  }

  lemma StrictPart(e: real, w: real)
    requires e < 1.0 && w > 0.0
    ensures e * w < w
  {
    assert (1.0 - e) * w > 0.0;
    assert (1.0 - e) * w == w - e * w;
  }

  /** How the errors of one update add up. */
  lemma ErrorSum(x: real, f: real, exact: real, rate: real, w: real, m: real, c: real)
    requires m > 0.0
    ensures (x * w + exact * (m - w)) / m - (f * w + rate * (m - w) - c) / m
         == NextError(x - f, exact - rate, c, w, m)
  {
    assert (x - f) * w == x * w - f * w;
    assert (exact - rate) * (m - w) == exact * (m - w) - rate * (m - w);
    DivideDifference(x * w + exact * (m - w), f * w + rate * (m - w) - c, m);
  }

  lemma DivideDifference(a: real, b: real, m: real)
    requires m > 0.0
    ensures a / m - b / m == (a - b) / m
  {
    assert m * (a / m - b / m) == m * (a / m) - m * (b / m);
  }

  /** The quotient that the division rounds down by `lost`, and the exact cut. */
  function Quotient(w: real, h: real, m: real): real
    requires m > 0.0
  {
    w * (m - h) / m
  }

  function RealCut(w: real, h: real, b: real, m: real): real
    requires m > 0.0
  {
    w * (1.0 - (2.0 * h + b) / (2.0 * m))
  }

  lemma CutInReals(w: real, h: real, b: real, m: real, lost: real)
    requires 0.0 <= b <= 1.0 && 0.0 <= w <= m && m > 0.0 && 0.0 <= lost < 1.0
    ensures -1.0 < Quotient(w, h, m) - lost - RealCut(w, h, b, m) <= 0.5
  {
    CutsApart(w, h, b, m);
    PartOf(b, w);
    HalfAtMost(m, Quotient(w, h, m) - RealCut(w, h, b, m));
  }

  lemma PartOf(b: real, w: real)
    requires 0.0 <= b <= 1.0 && 0.0 <= w
    ensures 0.0 <= RealTimes(b, w) <= w
  {
    RealMulSign(b, w);
    RealMulSign(1.0 - b, w);
    assert (1.0 - b) * w == w - b * w;
  }

  lemma HalfAtMost(m: real, x: real)
    requires m > 0.0
    ensures 0.0 <= RealTimes(m, x) <= m / 2.0 ==> 0.0 <= x <= 0.5
  {
    if 0.0 <= RealTimes(m, x) <= m / 2.0 {
      RealMulNotNegative(m, x);
      assert m * (x - 0.5) == m * x - m / 2.0;
      if x > 0.5 { RealMulPositive(m, x - 0.5); }
    }
  }

  lemma CutsApart(w: real, h: real, b: real, m: real)
    requires m > 0.0
    ensures RealTimes(m, Quotient(w, h, m) - RealCut(w, h, b, m)) == RealTimes(b, w) / 2.0
  {
    var z, e, r := Quotient(w, h, m), RealCut(w, h, b, m), 2.0 * h + b;
    var part := r / (2.0 * m);
    assert 2.0 * m * part == r;
    assert m * z == w * (m - h);
    assert w * (m - h) == w * m - w * h;
    assert 2.0 * (m * e) == w * (2.0 * m - 2.0 * m * part);
    assert w * (2.0 * m - r) == 2.0 * (w * m) - 2.0 * (w * h) - b * w;
    assert m * (z - e) == m * z - m * e;
  }
}
