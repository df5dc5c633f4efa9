/** Running mean and variance in integer arithmetic. */
module Statistics {
  import opened Arithmetic

  function Sum(xs: seq<int>): int {
    if xs == [] then 0 else Sum(xs[..|xs| - 1]) + xs[|xs| - 1]
  }

  function Square(x: int): int {
    x * x
  }

  /** Sum of squared deviations from `m`. */
  function Deviation(xs: seq<int>, m: int): int {
    if xs == [] then 0 else Deviation(xs[..|xs| - 1], m) + Square(xs[|xs| - 1] - m)
  }

  /** Sum of deviations from `m`. */
  function Excess(xs: seq<int>, m: int): int {
    if xs == [] then 0 else Excess(xs[..|xs| - 1], m) + (xs[|xs| - 1] - m)
  }

  lemma {:induction false} ExcessIs(xs: seq<int>, m: int)
    ensures Excess(xs, m) == Sum(xs) - |xs| * m
  {
    if xs != [] {
      ExcessIs(xs[..|xs| - 1], m);
    }
  }

  /** Mean `m` with remainder `p`, variance `v` with remainder `w`, of `n` samples. */
  datatype Stats = Stats(n: nat, m: int, p: int, v: int, w: int)

  /** Magnitude below `n`, as a remainder has. */
  predicate Small(r: int, n: int) {
    0 - n < r < n
  }

  /** The state holds the exact sum and the exact sum of squared deviations from `m`. */
  ghost predicate Tracks(st: Stats, xs: seq<int>) {
    && st.n == |xs|
    && (st.n == 0 ==> st == Stats(0, 0, 0, 0, 0))
    && (st.n == 1 ==> st == Stats(1, xs[0], 0, 0, 0))
    && (st.n >= 1 ==> st.n * st.m + st.p == Sum(xs) && Small(st.p, st.n))
    && (st.n >= 2 ==> (st.n - 1) * st.v + st.w == Deviation(xs, st.m) && Small(st.w, st.n - 1))
  }

  // ----- Moving the centre -----

  lemma SquareDiff(a: int, d: int)
    ensures Square(a - d) == Square(a) - 2 * d * a + Square(d)
  {
  }

  /** Moving the centre by `d` changes the sum of squares in a known way. */
  lemma {:induction false} Recentre(xs: seq<int>, m: int, d: int)
    ensures Deviation(xs, m + d) == Deviation(xs, m) - 2 * d * Excess(xs, m) + |xs| * Square(d)
  {
    if xs != [] {
      var p, x := xs[..|xs| - 1], xs[|xs| - 1];
      Recentre(p, m, d);
      SquareDiff(x - m, d);
      hide Square;
      assert x - (m + d) == (x - m) - d;
      RecentreStep(Deviation(p, m), Excess(p, m), |p|, x - m, d, Square(d));
    }
  }

  lemma RecentreStep(dev: int, e: int, n: int, a: int, d: int, dd: int)
    ensures (dev - 2 * d * e + n * dd) - 2 * d * a + dd == dev - 2 * d * (e + a) + (n + 1) * dd
  {
  }

  /** The sum of squares after one more sample, around a centre moved by `d`. */
  lemma OneMore(xs: seq<int>, x: int, m1: int, d: int)
    ensures Deviation(xs + [x], m1 + d) ==
      Deviation(xs, m1) + Square(x - m1) - 2 * d * (Excess(xs, m1) + (x - m1)) + (|xs| + 1) * Square(d)
  {
    var ys, n := xs + [x], |xs|;
    assert ys[..n] == xs && ys[n] == x;
    Recentre(ys, m1, d);
  }

  // ----- The update -----

  /** The state after sample `x`. */
  function Updated(st: Stats, x: int): Stats {
    var n := st.n + 1;
    if n == 1 then st.(n := 1, m := x) else
      var normalised := x - st.m;
      var p_ := st.p + normalised;
      var dm := TruncDiv(p_, n);
      var w_ := st.w + Square(normalised) - st.v;
      var w__ := w_ - 2 * dm * p_ + n * Square(dm);
      var dv := TruncDiv(w__, st.n);
      Stats(n, st.m + dm, p_ - n * dm, st.v + dv, w__ - st.n * dv)
  }

  lemma KeepsSum(st: Stats, xs: seq<int>, x: int)
    requires Tracks(st, xs) && st.n >= 1
    ensures var q := Updated(st, x);
      q.n == st.n + 1 && q.n * q.m + q.p == Sum(xs + [x]) && Small(q.p, q.n)
  {
    assert (xs + [x])[..|xs|] == xs;
    var p_ := st.p + (x - st.m);
    SumStep(st.n, st.m, st.p, x, TruncDiv(p_, st.n + 1));
    hide TruncDiv, Sum, Square;
  }

  lemma SumStep(n: int, m: int, p: int, x: int, d: int)
    ensures (n + 1) * (m + d) + (p + (x - m) - (n + 1) * d) == n * m + p + x
  {
  }

  lemma KeepsDeviation(st: Stats, xs: seq<int>, x: int)
    requires Tracks(st, xs) && st.n >= 1
    ensures var q := Updated(st, x);
      (q.n - 1) * q.v + q.w == Deviation(xs + [x], q.m) && Small(q.w, q.n - 1)
  {
    var p_ := st.p + (x - st.m);
    var dm := TruncDiv(p_, st.n + 1);
    var w__ := st.w + Square(x - st.m) - st.v - 2 * dm * p_ + (st.n + 1) * Square(dm);
    var dv := TruncDiv(w__, st.n);
    var dev := Deviation(xs, st.m);
    ExcessIs(xs, st.m);
    assert Excess(xs, st.m) == st.p;
    OneMore(xs, x, st.m, dm);
    assert dev == (st.n - 1) * st.v + st.w by {
      if st.n == 1 {
        assert xs[..0] == [];
      }
    }
    VarianceStep(st.n, st.v, st.w, dev, w__ + st.v - st.w, dv);
    hide TruncDiv, Square, Deviation, Sum, Excess, Tracks;
  }

  lemma VarianceStep(n: int, v: int, w: int, dev: int, more: int, dv: int)
    requires dev == (n - 1) * v + w
    ensures n * (v + dv) + ((more - v + w) - n * dv) == dev + more
  {
  }

  /** Every update keeps the sums exact. */
  lemma UpdateTracks(st: Stats, xs: seq<int>, x: int)
    requires Tracks(st, xs)
    ensures Tracks(Updated(st, x), xs + [x])
  {
    if st.n == 0 {
      assert xs == [] && [x][..0] == [] && xs + [x] == [x];
    } else {
      hide Updated, Deviation, Sum, Small;
      KeepsSum(st, xs, x);
      KeepsDeviation(st, xs, x);
    }
  }

  function Fed(xs: seq<int>): Stats {
    if xs == [] then Stats(0, 0, 0, 0, 0) else Updated(Fed(xs[..|xs| - 1]), xs[|xs| - 1])
  }

  /** After any samples, the incremental state holds the exact sums. */
  lemma {:induction false} FedTracks(xs: seq<int>)
    ensures Tracks(Fed(xs), xs)
  {
    if xs != [] {
      hide Tracks, Updated;
      var p := xs[..|xs| - 1];
      FedTracks(p);
      UpdateTracks(Fed(p), p, xs[|xs| - 1]);
      assert p + [xs[|xs| - 1]] == xs;
    }
  }

  // ----- What the results mean -----

  ghost predicate Within(xs: seq<int>, lo: int, hi: int) {
    forall i :: 0 <= i < |xs| ==> lo <= xs[i] <= hi
  }

  lemma {:induction false} SumBounds(xs: seq<int>, lo: int, hi: int)
    requires Within(xs, lo, hi)
    ensures |xs| * lo <= Sum(xs) <= |xs| * hi
  {
    if xs != [] {
      var p := xs[..|xs| - 1];
      SumBounds(p, lo, hi);
      assert |xs| * lo == |p| * lo + lo && |xs| * hi == |p| * hi + hi;
    }
  }

  /** The rough mean lies between the smallest and the largest sample, and within one of the true mean. */
  lemma MeanInRange(st: Stats, xs: seq<int>, lo: int, hi: int)
    requires Tracks(st, xs) && xs != [] && Within(xs, lo, hi)
    ensures lo <= st.m <= hi && Small(Sum(xs) - st.n * st.m, st.n)
  {
    SumBounds(xs, lo, hi);
    MeanBounds(st.n, st.m, st.p, Sum(xs), lo, hi);
  }

  lemma MeanBounds(n: nat, m: int, p: int, s: int, lo: int, hi: int)
    requires n > 0 && n * m + p == s && n * lo <= s <= n * hi && Small(p, n)
    ensures lo <= m <= hi
  {
    if m > hi {
      MulMono(n, hi + 1, m);
    }
    if m < lo {
      MulMono(n, m, lo - 1);
    }
  }

  function RealSquare(x: real): real {
    x * x
  }

  /** Sum of squared deviations from a real centre. */
  function RealDeviation(xs: seq<int>, c: real): real {
    if xs == [] then 0.0 else RealDeviation(xs[..|xs| - 1], c) + RealSquare(xs[|xs| - 1] as real - c)
  }

  lemma RealSquareDiff(a: int, e: real)
    ensures RealSquare(a as real - e) == Square(a) as real - 2.0 * e * a as real + RealSquare(e)
  {
    SquareReal(a);
    RealSquareExpand(a as real, e);
  }

  lemma RealSquareExpand(a: real, e: real)
    ensures RealSquare(a - e) == RealSquare(a) - 2.0 * e * a + RealSquare(e)
  {
  }

  lemma SquareReal(a: int)
    ensures RealSquare(a as real) == Square(a) as real
  {
  }

  lemma {:induction false} RealRecentre(xs: seq<int>, m: int, e: real)
    ensures RealDeviation(xs, m as real + e) ==
      Deviation(xs, m) as real - 2.0 * e * Excess(xs, m) as real + |xs| as real * RealSquare(e)
  {
    hide Square, RealSquare;
    if xs != [] {
      var p, x := xs[..|xs| - 1], xs[|xs| - 1];
      RealRecentre(p, m, e);
      RealSquareDiff(x - m, e);
      assert x as real - (m as real + e) == (x - m) as real - e;
      var t, n := Excess(p, m) as real + (x - m) as real, |p| as real + 1.0;
      assert Excess(xs, m) as real == t && |xs| as real == n;
      assert 2.0 * e * Excess(xs, m) as real == 2.0 * e * t;
      RealRecentreStep(Deviation(p, m) as real, Excess(p, m) as real, |p| as real, (x - m) as real, e, RealSquare(e));
      assert RealDeviation(xs, m as real + e) == RealDeviation(p, m as real + e) + RealSquare((x - m) as real - e);
      assert Deviation(xs, m) as real == Deviation(p, m) as real + Square(x - m) as real;
      assert |xs| as real * RealSquare(e) == n * RealSquare(e);
    }
  }

  lemma RealRecentreStep(dev: real, t: real, n: real, a: real, e: real, ee: real)
    ensures (dev - 2.0 * e * t + n * ee) - 2.0 * e * a + ee == dev - 2.0 * e * (t + a) + (n + 1.0) * ee
  {
  }

  /** The mean as the API computes it, in exact arithmetic. */
  function Mean(st: Stats): real {
    if st.n == 0 then 0.0 else st.m as real + st.p as real / st.n as real
  }

  /** The variance as the API computes it, in exact arithmetic. */
  function Variance(st: Stats): real {
    if st.n < 2 then 0.0 else VarianceOf(st.n as real, st.v as real, st.w as real, Mean(st) - st.m as real)
  }

  function VarianceOf(n: real, v: real, w: real, e: real): real
    requires n >= 2.0
  {
    v + w / (n - 1.0) - n * e * e / (n - 1.0)
  }

  lemma IntReal(n: int, a: int, b: int, c: int)
    requires n * a + b == c
    ensures n as real * a as real + b as real == c as real
  {
  }

  lemma MeanFormula(n: real, m: real, p: real)
    requires n > 0.0
    ensures n * (m + p / n) == n * m + p && n * (p / n) == p
  {
    assert n * (p / n) == p;
  }

  /** The mean of the state is the true mean. */
  lemma MeanExact(st: Stats, xs: seq<int>)
    requires Tracks(st, xs) && st.n >= 1
    ensures st.n as real * Mean(st) == Sum(xs) as real
  {
    hide Sum, Deviation;
    IntReal(st.n, st.m, st.p, Sum(xs));
    MeanFormula(st.n as real, st.m as real, st.p as real);
  }

  lemma VarianceFormula(n: real, v: real, w: real, e: real, p: real, d: real)
    requires n >= 2.0 && n * e == p && (n - 1.0) * v + w == d
    ensures (n - 1.0) * VarianceOf(n, v, w, e) == d - 2.0 * e * p + n * RealSquare(e)
  {
    var k, ep := n - 1.0, e * p;
    assert n * e * e == ep && n * RealSquare(e) == ep;
    Quotients(k, v, w, ep);
  }

  lemma Quotients(k: real, v: real, w: real, x: real)
    requires k > 0.0
    ensures k * (v + w / k - x / k) == k * v + w - x
  {
    var a, b := w / k, x / k;
    assert k * a == w && k * b == x;
    assert k * (v + a - b) == k * v + k * a - k * b;
  }

  /** The variance of the state is the sample variance: squared deviations from the true mean, over `n - 1`. */
  lemma VarianceExact(st: Stats, xs: seq<int>)
    requires Tracks(st, xs) && st.n >= 2
    ensures (st.n - 1) as real * Variance(st) == RealDeviation(xs, Mean(st))
  {
    hide RealDeviation, Deviation, Sum, Excess, RealSquare, VarianceOf;
    var e := Mean(st) - st.m as real;
    MeanFormula(st.n as real, st.m as real, st.p as real);
    ExcessIs(xs, st.m);
    RealRecentre(xs, st.m, e);
    IntReal(st.n - 1, st.v, st.w, Deviation(xs, st.m));
    VarianceFormula(st.n as real, st.v as real, st.w as real, e, st.p as real, Deviation(xs, st.m) as real);
  }

  lemma QuotientBetween(k: real, w: real, lo: real, hi: real)
    requires k > 0.0 && lo * k < w < hi * k
    ensures lo < w / k < hi
  {
    var q := w / k;
    assert q * k == w;
    assert (q - lo) * k > 0.0 && (hi - q) * k > 0.0;
  }

  lemma UnitSquare(e: real)
    requires -1.0 < e < 1.0
    ensures 0.0 <= e * e < 1.0
  {
    var d := if e >= 0.0 then e else 0.0 - e;
    var rest := 1.0 - d;
    assert e * e == d * d && d * rest >= 0.0;
    assert d * rest == d - d * d;
  }

  lemma VarianceNear(n: real, v: real, w: real, e: real)
    requires n >= 2.0 && 1.0 - n < w < n - 1.0 && -1.0 < e < 1.0
    ensures v - 3.0 < VarianceOf(n, v, w, e) < v + 1.0
  {
    var k, ee := n - 1.0, e * e;
    QuotientBetween(k, w, -1.0, 1.0);
    UnitSquare(e);
    var ne := n * ee;
    assert n * e * e == ne;
    assert ne >= 0.0 && n * (1.0 - ee) > 0.0 && ne < 2.0 * k;
    var q := ne / k;
    assert q * k == ne;
    assert (2.0 - q) * k > 0.0;
  }

  /** The integer part kept by the state is less than three above and less than one below the variance. */
  lemma RoughNear(st: Stats, xs: seq<int>)
    requires Tracks(st, xs) && st.n >= 2
    ensures st.v as real - 3.0 < Variance(st) < st.v as real + 1.0
  {
    var n := st.n as real;
    QuotientBetween(n, st.p as real, -1.0, 1.0);
    hide Deviation, Sum, VarianceOf;
    VarianceNear(n, st.v as real, st.w as real, Mean(st) - st.m as real);
  }

  // ----- Machine integers -----

  /** Every value that an update computes, and every field it stores, fits its variable. */
  ghost predicate Fits(st: Stats, x: int)
    requires st.n >= 1
  {
    var p_, q := st.p + (x - st.m), Updated(st, x);
    && Int64(p_) && Int32(q.m) && Int32(q.p) && Int64(q.v) && Int64(q.w)
    && SquaresFit(st.n + 1, x - st.m, p_, TruncDiv(p_, st.n + 1), st.w, st.v)
  }

  /** The values on the way to the variance, in the order they are computed. */
  ghost predicate SquaresFit(n: int, normalised: int, p_: int, dm: int, w: int, v: int)
    requires n >= 2
  {
    var sq, shift, spread := Square(normalised), 2 * dm * p_, n * Square(dm);
    var w__ := w + sq - v - shift + spread;
    && Int64(n * dm) && Int64(sq) && Int64(w + sq) && Int64(w + sq - v)
    && Int64(shift) && Int64(w + sq - v - shift) && Int64(spread) && Int64(w__)
    && Int64((n - 1) * TruncDiv(w__, n - 1))
  }

  /** Largest number whose square fits a signed 64-bit variable. */
  const SPREAD := 3037000499

  /** Samples after which the 32-bit remainder of the mean could overflow. */
  const COUNT := 0x8000_0000

  lemma SquareBound(a: int, b: nat)
    requires 0 - b <= a <= b
    ensures 0 <= Square(a) <= b * b
  {
    var c: nat := if a >= 0 then a else 0 - a;
    assert Square(a) == c * c;
    MulMono(c, c, b);
    MulMono(b, c, b);
  }

  /** A sample between the ends of an interval lies below the chord of the square over it. */
  lemma BelowChord(y: int, a: int, b: int)
    requires a <= y <= b
    ensures Square(y) <= (a + b) * y - a * b
  {
    var u, v: nat := y - a, b - y;
    assert u * v >= 0;
    assert u * v == (a + b) * y - a * b - y * y;
  }

  lemma {:induction false} DeviationChord(xs: seq<int>, m: int, lo: int, hi: int)
    requires Within(xs, lo, hi)
    ensures 0 <= Deviation(xs, m) <= (lo - m + (hi - m)) * Excess(xs, m) - |xs| * ((lo - m) * (hi - m))
    decreases |xs|
  {
    if xs != [] {
      var p, x, a, b := xs[..|xs| - 1], xs[|xs| - 1], lo - m, hi - m;
      DeviationChord(p, m, lo, hi);
      BelowChord(x - m, a, b);
      SquareBound(x - m, if x >= m then x - m else m - x);
      hide Square;
      ChordStep(a + b, Excess(p, m), x - m, |p|, a * b);
    }
  }

  lemma ChordStep(c: int, e: int, y: int, n: int, d: int)
    ensures c * e - n * d + (c * y - d) == c * (e + y) - (n + 1) * d
  {
  }

  /** Four times the product of two numbers is at most the square of their sum. */
  lemma QuarterSquare(u: nat, v: nat, s: nat)
    requires u + v <= s
    ensures 0 <= 4 * (u * v) <= s * s
  {
    var d: nat := if u >= v then u - v else v - u;
    assert (u + v) * (u + v) == d * d + 4 * (u * v);
    MulMono(u + v, u + v, s);
    MulMono(s, u + v, s);
  }

  /** Four times the sum of squared deviations, for a centre within one of the mean. */
  lemma DeviationBound(xs: seq<int>, m: int, lo: int, hi: int)
    requires xs != [] && Within(xs, lo, hi) && lo <= m <= hi && hi - lo <= SPREAD && Small(Excess(xs, m), |xs|)
    ensures 0 <= 4 * Deviation(xs, m) <= |xs| * (SPREAD * SPREAD + 4 * SPREAD)
  {
    DeviationChord(xs, m, lo, hi);
    QuarterSquare(m - lo, hi - m, SPREAD);
    NegativeProduct(m - lo, hi - m);
    hide Deviation, Excess;
    ChordBound(|xs|, Deviation(xs, m), lo - m + (hi - m), Excess(xs, m), (lo - m) * (hi - m), SPREAD, SPREAD * SPREAD);
  }

  lemma NegativeProduct(u: int, b: int)
    ensures (0 - u) * b == 0 - u * b
  {
  }

  lemma ChordBound(n: nat, dev: int, c: int, e: int, d: int, s: nat, ss: nat)
    requires dev <= c * e - n * d && 0 - 4 * d <= ss && 0 - s <= c <= s && 0 - n <= e <= n
    ensures 4 * dev <= n * (ss + 4 * s)
  {
    ProductBound(c, e, s, n);
    MulMono(n, 0 - 4 * d, ss);
    assert n * (ss + 4 * s) == n * ss + 4 * (s * n) && n * (0 - 4 * d) == 0 - 4 * (n * d);
  }

  lemma ProductBound(c: int, e: int, s: nat, n: nat)
    requires 0 - s <= c <= s && 0 - n <= e <= n
    ensures c * e <= s * n
  {
    var d: nat, f: nat := if c >= 0 then c else 0 - c, if e >= 0 then e else 0 - e;
    assert c * e <= d * f;
    MulMono(d, f, n);
    MulMono(n, d, s);
  }

  lemma VarianceBound(n: nat, v: int, w: int, d: int, b: nat)
    requires n >= 2 && (n - 1) * v + w == d && Small(w, n - 1) && 0 <= 4 * d <= n * b
    ensures 0 <= v && 2 * v <= b + 2
  {
    var k := n - 1;
    if v < 0 {
      MulMono(k, v, -1);
    }
    assert n * b == k * b + b;
    MulMono(b, 1, k);
    assert k * (b + 3) == k * b + 3 * k && k * (2 * v) == 2 * (k * v);
    if 2 * v > b + 2 {
      MulMono(k, b + 3, 2 * v);
    }
  }

  function Abs(x: int): nat {
    if x >= 0 then x else 0 - x
  }

  /** `dm` is the truncated quotient of `p` by `n`. */
  ghost predicate Truncated(n: nat, p: int, dm: int) {
    Small(p - n * dm, n) && (p >= 0 ==> p - n * dm >= 0) && (p <= 0 ==> p - n * dm <= 0)
  }

  /** A truncated quotient has the sign of its dividend, and does not exceed it when multiplied back. */
  lemma TruncatedAbs(n: nat, p: int, dm: int)
    requires n > 0 && Truncated(n, p, dm)
    ensures n * Abs(dm) <= Abs(p) && dm * p == Abs(dm) * Abs(p) && n * Square(dm) == n * (Abs(dm) * Abs(dm))
  {
    if p >= 0 && dm < 0 {
      MulMono(n, dm, -1);
    }
    if p <= 0 && dm > 0 {
      MulMono(n, 1, dm);
    }
    assert Square(dm) == Abs(dm) * Abs(dm);
  }

  lemma ShiftBounds(n: nat, p: int, dm: int)
    requires n > 0 && Truncated(n, p, dm)
    ensures 0 <= n * Square(dm) <= dm * p && n * (dm * p) <= Square(Abs(p)) && Abs(n * dm) <= Abs(p)
  {
    TruncatedAbs(n, p, dm);
    var a, d := Abs(p), Abs(dm);
    MulMono(a, n * d, a);
    MulMono(d, n * d, a);
    MulAssoc(n, d, a);
    MulAssoc(n, d, d);
    assert Abs(n * dm) == n * d;
  }

  /** With a third sample or later, the shift of the centre changes the squares by two thirds at most. */
  lemma ThirdBound(n: nat, a: nat, x: nat, p: nat)
    requires n >= 3 && p <= a + n && n * x <= Square(p)
    ensures 3 * x <= Square(a) + 6 * a + 3 * n
  {
    SquareBound(p, a + n);
    assert (a + n) * (a + n) == Square(a) + n * (2 * a + n);
    var y := x - (2 * a + n);
    if y > 0 {
      assert n * x == n * y + n * (2 * a + n);
      MulMono(y, 3, n);
    }
  }

  lemma QuotientFits(x: int, n: nat)
    requires n > 0 && Int64(x)
    ensures Int64(n * TruncDiv(x, n))
  {
    var q := TruncDiv(x, n);
    hide TruncDiv;
    if x >= 0 && q < 0 {
      MulMono(n, q, -1);
    }
    if x <= 0 && q > 0 {
      MulMono(n, 1, q);
    }
  }

  /** The sums on the way to the variance; the products are parameters. */
  lemma SumsFit(n: nat, a: nat, sq: nat, x: nat, spread: nat, w: int, v: nat, w_: int)
    requires 2 <= n <= COUNT && a <= SPREAD && sq <= SPREAD * SPREAD && spread <= x
    requires if n == 2 then w == v == 0 && 2 * x <= sq else 3 * x <= sq + 6 * a + 3 * n && Small(w, n)
    requires 2 * v <= SPREAD * SPREAD + 4 * SPREAD + 2 && w_ == w + sq - v
    ensures Int64(sq) && Int64(w + sq) && Int64(w_) && Int64(2 * x) && Int64(w_ - 2 * x) && Int64(spread)
    ensures Int64(w_ - 2 * x + spread)
  {
    assert SPREAD * SPREAD == 9223372030926249001;
  }

  /** The products on the way to the variance. */
  lemma ProductsFit(n: nat, normalised: int, p_: int, dm: int)
    requires 2 <= n <= COUNT && Abs(normalised) <= SPREAD && Truncated(n, p_, dm)
    requires if n == 2 then p_ == normalised else Abs(p_ - normalised) < n
    ensures 0 <= n * Square(dm) <= dm * p_ && Int64(n * dm) && 0 <= Square(normalised) <= SPREAD * SPREAD
    ensures var x, a, sq := dm * p_, Abs(normalised), Square(normalised);
      if n == 2 then 2 * x <= sq else 3 * x <= sq + 6 * a + 3 * n
  {
    hide Square, Truncated;
    ShiftBounds(n, p_, dm);
    SquareBound(normalised, SPREAD);
    SquareAbs(normalised);
    ShiftCases(n, Abs(normalised), dm * p_, Abs(p_));
  }

  lemma SquareAbs(x: int)
    ensures Square(Abs(x)) == Square(x)
  {
  }

  lemma ShiftCases(n: nat, a: nat, x: nat, p: nat)
    requires n >= 2 && n * x <= Square(p) && if n == 2 then p == a else p <= a + n
    ensures if n == 2 then 2 * x <= Square(a) else 3 * x <= Square(a) + 6 * a + 3 * n
  {
    hide Square;
    if n >= 3 {
      ThirdBound(n, a, x, p);
    }
  }

  /** All values on the way to the variance, for samples of limited spread. */
  lemma SquaresBounded(n: nat, normalised: int, p_: int, dm: int, w: int, v: int)
    requires 2 <= n <= COUNT && Abs(normalised) <= SPREAD && Truncated(n, p_, dm)
    requires if n == 2 then p_ == normalised && w == v == 0 else Abs(p_ - normalised) < n && Small(w, n)
    requires 0 <= v && 2 * v <= SPREAD * SPREAD + 4 * SPREAD + 2
    ensures SquaresFit(n, normalised, p_, dm, w, v)
  {
    hide Square, TruncDiv, Truncated, SquaresFit;
    var x, sq, spread := dm * p_, Square(normalised), n * Square(dm);
    ProductsFit(n, normalised, p_, dm);
    SumsFit(n, Abs(normalised), sq, x, spread, w, v, w + sq - v);
    AllFit(n, normalised, p_, dm, w, v, x, sq, spread);
  }

  lemma AllFit(n: nat, normalised: int, p_: int, dm: int, w: int, v: int, x: int, sq: int, spread: int)
    requires n >= 2 && x == dm * p_ && sq == Square(normalised) && spread == n * Square(dm)
    requires Int64(n * dm) && Int64(sq) && Int64(w + sq) && Int64(w + sq - v) && Int64(2 * x) && Int64(spread)
    requires Int64(w + sq - v - 2 * x) && Int64(w + sq - v - 2 * x + spread)
    ensures SquaresFit(n, normalised, p_, dm, w, v)
  {
    hide Square, TruncDiv;
    MulAssoc(2, dm, p_);
    QuotientFits(w + sq - v - 2 * x + spread, n - 1);
  }

  lemma MeansClose(st: Stats, xs: seq<int>, x: int, lo: int, hi: int)
    requires Tracks(st, xs) && 1 <= st.n && Within(xs + [x], lo, hi)
    ensures Within(xs, lo, hi) && lo <= x <= hi && lo <= st.m <= hi && lo <= Updated(st, x).m <= hi
  {
    hide Updated, Tracks;
    assert (xs + [x])[|xs|] == x;
    forall i | 0 <= i < |xs| ensures lo <= xs[i] <= hi {
      assert (xs + [x])[i] == xs[i];
    }
    assert xs != [] by {
      NonEmpty(st, xs);
    }
    MeanInRange(st, xs, lo, hi);
    UpdateTracks(st, xs, x);
    MeanInRange(Updated(st, x), xs + [x], lo, hi);
  }

  lemma NonEmpty(st: Stats, xs: seq<int>)
    requires Tracks(st, xs) && st.n >= 1
    ensures xs != []
  {
  }

  /** The fields of a state that tracks samples of limited spread. */
  lemma FieldsBounded(st: Stats, xs: seq<int>, lo: int, hi: int)
    requires Tracks(st, xs) && 1 <= st.n && Within(xs, lo, hi) && lo <= st.m <= hi && hi - lo <= SPREAD
    ensures 0 <= st.v && 2 * st.v <= SPREAD * SPREAD + 4 * SPREAD + 2 && Small(st.w, st.n) && Small(st.p, st.n)
    ensures st.n == 1 ==> st.p == st.w == st.v == 0
  {
    if st.n >= 2 {
      ExcessIs(xs, st.m);
      DeviationBound(xs, st.m, lo, hi);
      VarianceBound(st.n, st.v, st.w, Deviation(xs, st.m), SPREAD * SPREAD + 4 * SPREAD);
    }
  }

  lemma TruncatedDiv(p: int, n: nat)
    requires n > 0
    ensures Truncated(n, p, TruncDiv(p, n))
  {
  }

  lemma UpdatedMean(st: Stats, x: int)
    requires st.n >= 1
    ensures Updated(st, x).n == st.n + 1 && Updated(st, x).m == st.m + TruncDiv(st.p + (x - st.m), st.n + 1)
  {
  }

  /** Samples of a spread whose square fits 64 bits never overflow, up to 2^31 of them. */
  lemma NeverOverflows(st: Stats, xs: seq<int>, x: int, lo: int, hi: int)
    requires Tracks(st, xs) && 1 <= st.n < COUNT && Within(xs + [x], lo, hi)
    requires hi - lo <= SPREAD && Int32(lo) && Int32(hi)
    ensures Fits(st, x)
  {
    hide Tracks, Within, TruncDiv, SquaresFit, Updated, Truncated;
    var q, p_ := Updated(st, x), st.p + (x - st.m);
    MeansClose(st, xs, x, lo, hi);
    UpdateTracks(st, xs, x);
    UpdatedMean(st, x);
    FieldsBounded(st, xs, lo, hi);
    FieldsBounded(q, xs + [x], lo, hi);
    TruncatedDiv(p_, st.n + 1);
    SquaresBounded(st.n + 1, x - st.m, p_, TruncDiv(p_, st.n + 1), st.w, st.v);
  }

  /** Two samples further apart do overflow. */
  lemma FarApart(lo: int, spread: nat)
    requires spread > SPREAD
    ensures Fed([lo]) == Stats(1, lo, 0, 0, 0) && !Fits(Fed([lo]), lo + spread)
  {
    assert [lo][..0] == [] && [lo][0] == lo;
    MulMono(spread, SPREAD + 1, spread);
    MulMono(SPREAD + 1, SPREAD + 1, spread);
    assert Square(spread) >= 0x8000_0000_0000_0000;
  }

  /** 32-bit samples, up to 2^31 of them, within an interval of the given width. */
  ghost predicate Narrow(xs: seq<int>, x: int, lo: int, spread: nat) {
    1 <= |xs| < COUNT && Int32(lo) && Int32(lo + spread) && Within(xs + [x], lo, lo + spread)
  }

  /** Samples of a spread never overflow if and only if the square of the spread fits 64 bits. */
  lemma OverflowExact(spread: nat)
    requires spread < U32
    ensures (forall xs, x, lo :: Narrow(xs, x, lo, spread) ==> Fed(xs).n >= 1 && Fits(Fed(xs), x)) <==> spread <= SPREAD
  {
    if spread <= SPREAD {
      forall xs, x, lo | Narrow(xs, x, lo, spread) ensures Fed(xs).n >= 1 && Fits(Fed(xs), x) {
        FedTracks(xs);
        NeverOverflows(Fed(xs), xs, x, lo, lo + spread);
      }
    } else {
      var lo := -0x8000_0000;
      FarApart(lo, spread);
      assert Narrow([lo], lo + spread, lo, spread);
    }
  }

  // ----- The state object -----

  class Accumulator {
    var n: nat
    var m: int
    var p: int
    var v: int
    var w: int

    ghost function View(): Stats
      reads this
    {
      Stats(n, m, p, v, w)
    }

    constructor ()
      ensures View() == Fed([])
    {
      n, m, p, v, w := 0, 0, 0, 0, 0;
    }

    method Update(x: int)
      modifies this
      ensures View() == Updated(old(View()), x)
    {
      var m1, p1, w1, v1, n1 := m, p, w, v, n;
      n := n1 + 1;
      if n == 1 {
        m := x;
        return;
      }
      var normalised := x - m1;
      var p_ := p1 + normalised;
      var dm := TruncDiv(p_, n);
      m := m1 + dm;
      p := p_ - n * dm;
      var w_ := w1 + normalised * normalised - v1;
      var w__ := w_ - 2 * dm * p_ + n * (dm * dm);
      var dv := TruncDiv(w__, n1);
      v := v1 + dv;
      w := w__ - n1 * dv;
    }

    /** The rough variance drops the fraction and the distance of the rough mean from the mean. */
    method VarianceRough(ghost xs: seq<int>) returns (r: int)
      requires Tracks(View(), xs)
      ensures n < 2 ==> r == 0
      ensures n >= 2 ==> r == v && Small(Deviation(xs, m) - (n - 1) * r, n - 1)
      ensures n >= 2 ==> r as real - 3.0 < Variance(View()) < r as real + 1.0
    {
      if n < 2 {
        return 0;
      }
      r := v + TruncDiv(w, n - 1);
      SmallQuotient(w, n - 1);
      RoughNear(View(), xs);
    }
  }

  lemma SmallQuotient(w: int, n: nat)
    requires n > 0 && Small(w, n)
    ensures TruncDiv(w, n) == 0
  {
    var q := TruncDiv(w, n);
    hide TruncDiv;
    if q >= 1 {
      MulMono(n, 1, q);
    }
    if q <= -1 {
      MulMono(n, q, -1);
    }
  }
}
