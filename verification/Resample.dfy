/** Linear downsampling of IMU samples by a ratio of two small integers. */
module Resample {
  import opened Arithmetic

  datatype Sample = Sample(x: int, y: int, z: int)

  /** Output frequency over input frequency, at most one. */
  datatype Ratio = Ratio(mult: nat, div: nat)

  ghost predicate Valid(c: Ratio) {
    1 <= c.mult <= c.div <= 255
  }

  /** `part` of `mult` on the way from `a` to `b`, rounded toward `a`. */
  function Lerp(a: int, b: int, part: int, mult: nat): int
    requires mult > 0
  {
    a + TruncDiv(part * (b - a), mult)
  }

  function Between(a: Sample, b: Sample, part: int, mult: nat): Sample
    requires mult > 0
  {
    Sample(Lerp(a.x, b.x, part, mult), Lerp(a.y, b.y, part, mult), Lerp(a.z, b.z, part, mult))
  }

  /** An interpolated value lies between the two it comes from, and equals the second at the end. */
  lemma LerpBounds(a: int, b: int, part: nat, mult: nat)
    requires 0 < mult && part <= mult
    ensures (a <= b ==> a <= Lerp(a, b, part, mult) <= b) && (b <= a ==> b <= Lerp(a, b, part, mult) <= a)
    ensures part == mult ==> Lerp(a, b, part, mult) == b
  {
    hide TruncDiv;
    if a <= b {
      MulMono(b - a, part, mult);
      TruncBounds(part * (b - a), b - a, mult);
      LerpEnd(b - a, mult);
    } else {
      MulMono(a - b, part, mult);
      TruncBounds(part * (a - b), a - b, mult);
      LerpEnd(a - b, mult);
      assert part * (b - a) == 0 - part * (a - b);
    }
  }

  lemma LerpEnd(d: nat, mult: nat)
    requires 0 < mult
    ensures TruncDiv(mult * d, mult) == d && TruncDiv(0 - mult * d, mult) == 0 - d
  {
    DivModUnique(d, 0, mult);
  }

  // ----- The resampled signal -----

  /** Position of output `k` in the input: whole samples, and parts of `mult` beyond. */
  function Whole(c: Ratio, k: nat): nat
    requires c.mult > 0
  {
    assert k * c.div >= 0;
    (k * c.div) / c.mult
  }

  function Part(c: Ratio, k: nat): nat
    requires c.mult > 0
  {
    (k * c.div) % c.mult
  }

  /** Enough input for output `k`. */
  predicate Ready(c: Ratio, k: nat, n: nat)
    requires c.mult > 0
  {
    Whole(c, k) < n && (Part(c, k) > 0 ==> Whole(c, k) + 1 < n)
  }

  /** The input interpolated at time `k * div / mult`. */
  function At(c: Ratio, xs: seq<Sample>, k: nat): Sample
    requires c.mult > 0 && Ready(c, k, |xs|)
  {
    if Part(c, k) == 0 then xs[Whole(c, k)] else Between(xs[Whole(c, k)], xs[Whole(c, k) + 1], Part(c, k), c.mult)
  }

  /** The first `m` outputs. */
  function Outputs(c: Ratio, xs: seq<Sample>, m: nat): (ys: seq<Sample>)
    requires c.mult > 0 && forall k :: 0 <= k < m ==> Ready(c, k, |xs|)
    ensures |ys| == m
  {
    if m == 0 then [] else Outputs(c, xs, m - 1) + [At(c, xs, m - 1)]
  }

  /** Outputs after `n` inputs. */
  function Count(c: Ratio, n: nat): nat
    requires c.div > 0
  {
    if n == 0 then 0 else Quotient(n - 1, c.mult, c.div) + 1
  }

  function Quotient(n: nat, mult: nat, div: nat): nat
    requires div > 0
  {
    assert n * mult >= 0;
    (n * mult) / div
  }

  lemma Multiples(a: nat, b: nat, r: nat, m: nat)
    requires r < m
    ensures a * m + r <= b * m <==> (if r == 0 then a <= b else a + 1 <= b)
  {
    var x, y := a * m, b * m;
    if a < b {
      MulMono(m, a + 1, b);
      assert x + m <= y;
    } else if b < a {
      MulMono(m, b + 1, a);
      assert y + m <= x;
    }
  }

  /** An output is ready when its time has been reached. */
  lemma ReadyIff(c: Ratio, k: nat, last: nat)
    requires c.mult > 0
    ensures Ready(c, k, last + 1) <==> k * c.div <= last * c.mult
  {
    var q, r := DivMod(k * c.div, c.mult);
    Multiples(q, last, r, c.mult);
  }

  /** Exactly the outputs that are ready are counted. */
  lemma CountIff(c: Ratio, k: nat, n: nat)
    requires c.mult > 0 && c.div > 0
    ensures k < Count(c, n) <==> Ready(c, k, n)
  {
    if n > 0 {
      ReadyIff(c, k, n - 1);
      var q, r := DivMod((n - 1) * c.mult, c.div);
      CountedIff(k, q, r, c.div);
      assert Count(c, n) == q + 1;
    }
  }

  lemma CountedIff(k: nat, q: nat, r: nat, div: nat)
    requires r < div
    ensures k * div <= q * div + r <==> k <= q
  {
    if k <= q {
      MulMono(div, k, q);
    } else {
      MulMono(div, q + 1, k);
    }
  }

  /** The whole resampled signal of an input. */
  function Signal(c: Ratio, xs: seq<Sample>): seq<Sample>
    requires c.mult > 0 && c.div > 0
  {
    assert forall k :: 0 <= k < Count(c, |xs|) ==> Ready(c, k, |xs|) by {
      forall k | 0 <= k < Count(c, |xs|) ensures Ready(c, k, |xs|) {
        CountIff(c, k, |xs|);
      }
    }
    Outputs(c, xs, Count(c, |xs|))
  }

  lemma {:induction false} OutputsAt(c: Ratio, xs: seq<Sample>, m: nat, k: nat)
    requires c.mult > 0 && (forall k :: 0 <= k < m ==> Ready(c, k, |xs|)) && k < m
    ensures Outputs(c, xs, m)[k] == At(c, xs, k)
    decreases m
  {
    if k < m - 1 {
      OutputsAt(c, xs, m - 1, k);
    }
  }

  predicate Mid(a: int, b: int, v: int) {
    a <= v <= b || b <= v <= a
  }

  /** Output `k` is the input at time `k * div / mult`, and lies between the two samples around it. */
  lemma OutputBetween(c: Ratio, xs: seq<Sample>, k: nat)
    requires Valid(c) && k < Count(c, |xs|)
    ensures Ready(c, k, |xs|) && |Signal(c, xs)| == Count(c, |xs|) && Signal(c, xs)[k] == At(c, xs, k)
    ensures var a, b, v := xs[Whole(c, k)], xs[Whole(c, k) + if Part(c, k) > 0 then 1 else 0], At(c, xs, k);
      Mid(a.x, b.x, v.x) && Mid(a.y, b.y, v.y) && Mid(a.z, b.z, v.z)
  {
    CountIff(c, k, |xs|);
    forall j | 0 <= j < Count(c, |xs|) ensures Ready(c, j, |xs|) {
      CountIff(c, j, |xs|);
    }
    OutputsAt(c, xs, Count(c, |xs|), k);
    PartBelow(c, k);
    hide Lerp, Whole, Part, Outputs;
    if Part(c, k) > 0 {
      var a, b := xs[Whole(c, k)], xs[Whole(c, k) + 1];
      LerpBounds(a.x, b.x, Part(c, k), c.mult);
      LerpBounds(a.y, b.y, Part(c, k), c.mult);
      LerpBounds(a.z, b.z, Part(c, k), c.mult);
    }
  }

  lemma PartBelow(c: Ratio, k: nat)
    requires c.mult > 0
    ensures Part(c, k) < c.mult
  {
  }

  /** More input does not change outputs that were ready. */
  lemma {:induction false} OutputsPrefix(c: Ratio, xs: seq<Sample>, ys: seq<Sample>, m: nat)
    requires c.mult > 0 && xs <= ys && forall k :: 0 <= k < m ==> Ready(c, k, |xs|)
    ensures (forall k :: 0 <= k < m ==> Ready(c, k, |ys|)) && Outputs(c, ys, m) == Outputs(c, xs, m)
    decreases m
  {
    hide Whole, Part, Between;
    if m > 0 {
      OutputsPrefix(c, xs, ys, m - 1);
      assert Ready(c, m - 1, |xs|);
    }
  }

  // ----- The machine -----

  /** Phase within the output period, and the previous sample. */
  datatype State = State(idx: nat, last: Sample)

  predicate Emits(c: Ratio, idx: nat, first: bool) {
    idx >= c.div || first
  }

  function Value(c: Ratio, st: State, s: Sample, first: bool): Sample
    requires c.mult > 0
  {
    if first then s else Between(st.last, s, c.mult - (st.idx - c.div), c.mult)
  }

  /** The phase is kept in eight bits. */
  function NextIdx(c: Ratio, idx: nat, first: bool): nat {
    ((if Emits(c, idx, first) && !first then idx - c.div else idx) + c.mult) % 256
  }

  /** State after the samples of one call, and the outputs they produced. */
  function Feed(c: Ratio, st: State, xs: seq<Sample>, first: bool): (r: (State, seq<Sample>))
    requires c.mult > 0
  {
    if xs == [] then (st, []) else
      var n := |xs| - 1;
      var (p, out) := Feed(c, st, xs[..n], first);
      var f := first && n == 0;
      (State(NextIdx(c, p.idx, f), xs[n]), if Emits(c, p.idx, f) then out + [Value(c, p, xs[n], f)] else out)
  }

  // ----- Without overflow of the phase -----

  function Residue(n: nat, mult: nat, div: nat): (r: nat)
    requires div > 0
    ensures r < div
  {
    (n * mult) % div
  }

  /** The phase after one more input. */
  lemma PhaseStep(n: nat, mult: nat, div: nat)
    requires 0 < mult <= div
    ensures var q, r := Quotient(n, mult, div), Residue(n, mult, div) + mult;
      && (r < div ==> Quotient(n + 1, mult, div) == q && Residue(n + 1, mult, div) == r)
      && (r >= div ==> Quotient(n + 1, mult, div) == q + 1 && Residue(n + 1, mult, div) == r - div)
  {
    var q, r := DivMod(n * mult, div);
    assert (n + 1) * mult == n * mult + mult;
    if r + mult < div {
      DivModUnique(q, r + mult, div);
    } else {
      assert q * div + r + mult == (q + 1) * div + (r + mult - div);
      DivModUnique(q + 1, r + mult - div, div);
    }
  }

  ghost predicate Exact(c: Ratio, st: State, xs: seq<Sample>, out: seq<Sample>)
    requires c.mult > 0 && c.div > 0
  {
    && |xs| > 0 && st.last == xs[|xs| - 1] && out == Signal(c, xs)
    && st.idx == c.mult + Residue(|xs| - 1, c.mult, c.div)
  }

  lemma PositionIs(c: Ratio, k: nat, n: nat, part: nat)
    requires part < c.mult && k * c.div == n * c.mult + part
    ensures Whole(c, k) == n && Part(c, k) == part
  {
    DivModUnique(n, part, c.mult);
  }

  /** When an output falls due between the last sample and the next, this is where it lies. */
  lemma DuePosition(c: Ratio, n: nat, q: nat, r: nat)
    requires Valid(c) && n * c.mult == q * c.div + r && r < c.div <= r + c.mult
    ensures var k, part := q + 1, c.div - r;
      && (part == c.mult ==> Whole(c, k) == n + 1 && Part(c, k) == 0)
      && (part < c.mult ==> Whole(c, k) == n && Part(c, k) == part)
  {
    hide Whole, Part;
    var part := c.div - r;
    assert (q + 1) * c.div == n * c.mult + part;
    if part == c.mult {
      assert (n + 1) * c.mult == n * c.mult + part;
      PositionIs(c, q + 1, n + 1, 0);
    } else {
      PositionIs(c, q + 1, n, part);
    }
  }

  /** The value emitted is the input interpolated at the time of the output. */
  lemma DueValue(c: Ratio, st: State, xs: seq<Sample>, s: Sample, k: nat)
    requires Valid(c) && |xs| > 0 && st.last == xs[|xs| - 1]
    requires st.idx == c.mult + Residue(|xs| - 1, c.mult, c.div) && st.idx >= c.div
    requires k == Quotient(|xs| - 1, c.mult, c.div) + 1 && Ready(c, k, |xs| + 1)
    ensures At(c, xs + [s], k) == Value(c, st, s, false)
  {
    var n := |xs| - 1;
    var q, r := DivMod(n * c.mult, c.div);
    DuePosition(c, n, q, r);
    var part := c.div - r;
    assert st.idx == c.mult + r && k == q + 1;
    hide Whole, Part, Residue, Quotient, Lerp;
    if part == c.mult {
      LerpBounds(st.last.x, s.x, part, c.mult);
      LerpBounds(st.last.y, s.y, part, c.mult);
      LerpBounds(st.last.z, s.z, part, c.mult);
      assert (xs + [s])[n + 1] == s;
    } else {
      assert (xs + [s])[n] == st.last && (xs + [s])[n + 1] == s;
    }
  }

  lemma StepExact(c: Ratio, st: State, xs: seq<Sample>, out: seq<Sample>, s: Sample)
    requires Valid(c) && Exact(c, st, xs, out) && c.mult + Residue(|xs|, c.mult, c.div) < 256
    ensures Exact(c, State(NextIdx(c, st.idx, false), s), xs + [s],
                  if Emits(c, st.idx, false) then out + [Value(c, st, s, false)] else out)
  {
    var n, ys := |xs| - 1, xs + [s];
    var m := Count(c, |xs|);
    PhaseStep(n, c.mult, c.div);
    forall k | 0 <= k < m ensures Ready(c, k, |xs|) {
      CountIff(c, k, |xs|);
    }
    OutputsPrefix(c, xs, ys, m);
    if st.idx >= c.div {
      CountIff(c, m, |ys|);
      DueValue(c, st, xs, s, m);
    }
    hide Residue, Quotient, Value, Ready, At;
  }

  function Gcd(a: nat, b: nat): (g: nat)
    requires b > 0
    ensures 0 < g <= b && a % g == 0 && b % g == 0
    decreases b
  {
    if a % b == 0 then b else
      var g := Gcd(b, a % b);
      MultipleBack(a, b, g);
      g
  }

  lemma MultipleBack(a: nat, b: nat, g: nat)
    requires 0 < b && 0 < g && b % g == 0 && (a % b) % g == 0
    ensures a % g == 0
  {
    var q, r := DivMod(a, b);
    MultipleOfMultiple(q, b, g);
    var k := (q * b) / g;
    assert q * b == k * g;
    DivModShift(r, k, g);
  }

  /** The phase never needs more than eight bits. */
  predicate PhaseFits(c: Ratio)
    requires c.div > 0
  {
    c.mult + c.div - Gcd(c.mult, c.div) <= 255
  }

  lemma ResidueBound(c: Ratio, n: nat)
    requires Valid(c)
    ensures Residue(n, c.mult, c.div) <= c.div - Gcd(c.mult, c.div)
  {
    var g := Gcd(c.mult, c.div);
    hide Gcd;
    MultipleOfMultiple(n, c.mult, g);
    ModOfMultiples(n * c.mult, c.div, g);
    MultiplesApart(Residue(n, c.mult, c.div), c.div, g);
  }

  /** Later samples of a call, and later calls, extend the signal. */
  lemma {:induction false} FeedMore(c: Ratio, st: State, xs: seq<Sample>, out: seq<Sample>, ys: seq<Sample>)
    requires Valid(c) && PhaseFits(c) && Exact(c, st, xs, out)
    ensures var (q, more) := Feed(c, st, ys, false);
      Exact(c, q, xs + ys, out + more)
    decreases |ys|
  {
    hide Exact, NextIdx, Emits, Value;
    if ys == [] {
      assert xs + ys == xs && out + [] == out;
    } else {
      var n := |ys| - 1;
      var (p, more) := Feed(c, st, ys[..n], false);
      FeedMore(c, st, xs, out, ys[..n]);
      ResidueBound(c, |xs + ys[..n]|);
      StepExact(c, p, xs + ys[..n], out + more, ys[n]);
      assert xs + ys[..n] + [ys[n]] == xs + ys;
      assert out + more + [Value(c, p, ys[n], false)] == out + (more + [Value(c, p, ys[n], false)]);
    }
  }

  lemma ZeroPhase(c: Ratio)
    requires Valid(c)
    ensures Residue(0, c.mult, c.div) == 0 && Count(c, 1) == 1
  {
    DivModUnique(0, 0, c.div);
  }

  /** The first sample of all is the first output. */
  lemma FirstExact(c: Ratio, st: State, s: Sample)
    requires Valid(c) && st.idx == 0
    ensures Exact(c, State(NextIdx(c, 0, true), s), [s], [s])
  {
    ZeroPhase(c);
    DivModUnique(0, 0, c.mult);
    CountIff(c, 0, 1);
    assert Outputs(c, [s], 1) == Outputs(c, [s], 0) + [At(c, [s], 0)];
  }

  /** The first call treats its first sample apart from the others. */
  lemma {:induction false} FirstApart(c: Ratio, st: State, xs: seq<Sample>)
    requires c.mult > 0 && |xs| > 0 && st.idx == 0
    ensures var (q, more) := Feed(c, State(NextIdx(c, 0, true), xs[0]), xs[1..], false);
      Feed(c, st, xs, true) == (q, [xs[0]] + more)
    decreases |xs|
  {
    hide NextIdx;
    if |xs| == 1 {
      var none: seq<Sample> := [];
      assert xs[..0] == none && xs[1..] == none && none + [xs[0]] == [xs[0]] + none == [xs[0]];
    } else {
      hide Value;
      var n := |xs| - 1;
      FirstApart(c, st, xs[..n]);
      assert xs[1..][..n - 1] == xs[..n][1..] && xs[1..][n - 1] == xs[n];
      var (p, more) := Feed(c, State(NextIdx(c, 0, true), xs[0]), xs[..n][1..], false);
      var v := Value(c, p, xs[n], false);
      assert [xs[0]] + more + [v] == [xs[0]] + (more + [v]);
    }
  }

  /** One call on a fresh state gives the whole signal. */
  lemma FirstCall(c: Ratio, st: State, xs: seq<Sample>)
    requires Valid(c) && PhaseFits(c) && |xs| > 0 && st.idx == 0
    ensures var (q, out) := Feed(c, st, xs, true);
      Exact(c, q, xs, out)
  {
    hide NextIdx, Exact, Feed;
    FirstExact(c, st, xs[0]);
    FeedMore(c, State(NextIdx(c, 0, true), xs[0]), [xs[0]], [xs[0]], xs[1..]);
    FirstApart(c, st, xs);
    assert [xs[0]] + xs[1..] == xs;
  }

  // ----- Any sequence of calls -----

  function Joined(calls: seq<seq<Sample>>): seq<Sample> {
    if calls == [] then [] else Joined(calls[..|calls| - 1]) + calls[|calls| - 1]
  }

  /** Calls one after another; each decides by the phase whether it sees the first sample. */
  function Calls(c: Ratio, st: State, calls: seq<seq<Sample>>): (State, seq<Sample>)
    requires c.mult > 0
  {
    if calls == [] then (st, []) else
      var (p, out) := Calls(c, st, calls[..|calls| - 1]);
      var (q, more) := Feed(c, p, calls[|calls| - 1], p.idx == 0);
      (q, out + more)
  }

  lemma {:induction false} CallsExact(c: Ratio, st: State, calls: seq<seq<Sample>>)
    requires Valid(c) && PhaseFits(c) && st.idx == 0 && |calls| > 0
    requires forall i :: 0 <= i < |calls| ==> calls[i] != []
    ensures var (q, out) := Calls(c, st, calls);
      Exact(c, q, Joined(calls), out)
    decreases |calls|
  {
    hide Feed;
    var n := |calls| - 1;
    if n == 0 {
      assert calls[..0] == [] && [] + calls[0] == calls[0];
      FirstCall(c, st, calls[0]);
      var (q, more) := Feed(c, st, calls[0], true);
      assert [] + more == more;
    } else {
      CallsExact(c, st, calls[..n]);
      var (p, out) := Calls(c, st, calls[..n]);
      assert p.idx > 0;
      FeedMore(c, p, Joined(calls[..n]), out, calls[n]);
    }
  }

  /** However the samples are split into calls, the outputs are the resampled signal. */
  lemma SplitIndependent(c: Ratio, st: State, calls: seq<seq<Sample>>)
    requires Valid(c) && PhaseFits(c) && st.idx == 0 && |calls| > 0
    requires forall i :: 0 <= i < |calls| ==> calls[i] != []
    ensures Calls(c, st, calls).1 == Signal(c, Joined(calls))
  {
    CallsExact(c, st, calls);
  }

  // ----- When the phase overflows -----

  /** Multiples of `a` that exceed, or fall short of, a multiple of `b` by their common divisor. */
  lemma {:induction false} Bezout(a: nat, b: nat) returns (x: nat, y: nat, u: nat, v: nat)
    requires a > 0 && b > 0
    ensures x * a == y * b + Gcd(a, b) && u * a + Gcd(a, b) == v * b
    decreases b
  {
    var q, r := DivMod(a, b);
    if r == 0 {
      assert q > 0;
      x, y, u, v := 1, q - 1, 0, 1;
    } else {
      var x', y', u', v' := Bezout(b, r);
      x, y := v', u' + v' * q;
      u, v := y', x' + y' * q;
      Back(q, b, r, v', u', Gcd(b, r));
      Back(q, b, r, y', x', Gcd(b, r));
    }
  }

  lemma Back(q: nat, b: nat, r: nat, y: nat, x: nat, g: nat)
    ensures y * (q * b + r) == (x + y * q) * b - x * b + y * r
  {
  }

  /** Some number of inputs brings the phase to its largest value. */
  lemma LargestResidue(c: Ratio) returns (n: nat)
    requires Valid(c)
    ensures Residue(n, c.mult, c.div) == c.div - Gcd(c.mult, c.div)
  {
    var x, y, u, v := Bezout(c.mult, c.div);
    n := u;
    var g := Gcd(c.mult, c.div);
    hide Gcd;
    assert v > 0;
    assert u * c.mult == (v - 1) * c.div + (c.div - g);
    DivModUnique(v - 1, c.div - g, c.div);
  }

  predicate Overflows(c: Ratio, n: nat)
    requires c.div > 0
  {
    c.mult + Residue(n, c.mult, c.div) >= 256
  }

  lemma {:induction false} FirstOverflow(c: Ratio, n: nat) returns (j: nat)
    requires c.div > 0 && Overflows(c, n)
    ensures Overflows(c, j) && forall i :: 0 <= i < j ==> !Overflows(c, i)
    decreases n
  {
    if i :| 0 <= i < n && Overflows(c, i) {
      j := FirstOverflow(c, i);
    } else {
      j := n;
    }
  }

  lemma CountStep(c: Ratio, n: nat)
    requires Valid(c) && n > 0
    ensures Count(c, n + 1) == Count(c, n) + if c.mult + Residue(n - 1, c.mult, c.div) >= c.div then 1 else 0
  {
    PhaseStep(n - 1, c.mult, c.div);
  }

  lemma FirstPhase(c: Ratio)
    ensures NextIdx(c, 0, true) == c.mult % 256
  {
  }

  lemma NextPhase(c: Ratio, n: nat, idx: nat)
    requires Valid(c) && idx == c.mult + Residue(n, c.mult, c.div)
    ensures NextIdx(c, idx, false) == (c.mult + Residue(n + 1, c.mult, c.div)) % 256
  {
    hide Residue, Quotient;
    PhaseStep(n, c.mult, c.div);
  }

  /** Up to the first overflow, the number of outputs is right. */
  lemma {:induction false} CountsUntil(c: Ratio, st: State, xs: seq<Sample>)
    requires Valid(c) && st.idx == 0 && |xs| > 0
    requires forall i :: 0 <= i < |xs| - 1 ==> !Overflows(c, i)
    ensures var (q, out) := Feed(c, st, xs, true);
      |out| == Count(c, |xs|) && q.idx == (c.mult + Residue(|xs| - 1, c.mult, c.div)) % 256
    decreases |xs|
  {
    hide Residue, Quotient, Value, Count, NextIdx;
    var n := |xs| - 1;
    if n == 0 {
      ZeroPhase(c);
      FirstPhase(c);
      assert xs[..0] == [];
    } else {
      CountsUntil(c, st, xs[..n]);
      CountStep(c, n);
      assert !Overflows(c, n - 1);
      NextPhase(c, n - 1, Feed(c, st, xs[..n], true).0.idx);
    }
  }

  /** A phase that does not fit loses an output, whatever the samples. */
  lemma OverflowLoses(c: Ratio) returns (n: nat)
    requires Valid(c) && !PhaseFits(c)
    ensures n > 0 && forall st: State, xs: seq<Sample> ::
      st.idx == 0 && |xs| == n ==> |Feed(c, st, xs, true).1| == Count(c, n) - 1
  {
    var m := LargestResidue(c);
    var j := FirstOverflow(c, m);
    n := j + 2;
    forall st: State, xs: seq<Sample> | st.idx == 0 && |xs| == n
      ensures |Feed(c, st, xs, true).1| == Count(c, n) - 1
    {
      Loses(c, st, xs, j);
    }
    hide *;
  }

  lemma Loses(c: Ratio, st: State, xs: seq<Sample>, j: nat)
    requires Valid(c) && st.idx == 0 && |xs| == j + 2 && Overflows(c, j)
    requires forall i :: 0 <= i < j ==> !Overflows(c, i)
    ensures |Feed(c, st, xs, true).1| == Count(c, j + 2) - 1
  {
    hide Residue, Quotient, Value, Count;
    CountStep(c, j + 1);
    CountsUntil(c, st, xs[..j + 1]);
  }
}
