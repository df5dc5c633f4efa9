/** The resampler as the driver keeps it: phase, last sample and three output buffers. */
module ResampleDevice {
  import opened Resample

  class Resampler {
    const ratio: Ratio
    const outputX: array<int>
    const outputY: array<int>
    const outputZ: array<int>
    var offset: nat
    var idx: nat
    var last: Sample

    ghost predicate Ok()
      reads this
    {
      && Resample.Valid(ratio) && idx < 256
      && outputX.Length == outputY.Length == outputZ.Length
      && outputX != outputY && outputX != outputZ && outputY != outputZ
    }

    /** The buffers hold `out` from position `from` on. */
    ghost predicate Holds(from: nat, out: seq<Sample>)
      requires outputX.Length == outputY.Length == outputZ.Length
      reads outputX, outputY, outputZ
    {
      && from + |out| <= outputX.Length
      && forall i :: 0 <= i < |out| ==> out[i] == Sample(outputX[from + i], outputY[from + i], outputZ[from + i])
    }

    constructor (ratio: Ratio, size: nat)
      requires Resample.Valid(ratio)
      ensures Ok() && this.ratio == ratio && outputX.Length == size && offset == 0 && idx == 0
      ensures fresh(outputX) && fresh(outputY) && fresh(outputZ)
    {
      this.ratio := ratio;
      outputX, outputY, outputZ := new int[size], new int[size], new int[size];
      offset, idx, last := 0, 0, Sample(0, 0, 0);
    }

    /** Append one output; earlier ones stay. */
    method Put(s: Sample, ghost from: nat, ghost out: seq<Sample>)
      requires Ok() && offset < outputX.Length && Holds(from, out) && offset == from + |out|
      modifies `offset, outputX, outputY, outputZ
      ensures Holds(from, out + [s]) && offset == old(offset) + 1
      ensures forall i :: 0 <= i < from ==>
        outputX[i] == old(outputX[i]) && outputY[i] == old(outputY[i]) && outputZ[i] == old(outputZ[i])
    {
      outputX[offset] := s.x;
      outputY[offset] := s.y;
      outputZ[offset] := s.z;
      offset := offset + 1;
    }

    /** One sample: emit an output when one is due, then advance the phase. `out` was emitted before. */
    method Process(prev: Sample, s: Sample, first: bool, ghost from: nat, ghost out: seq<Sample>) returns (full: bool)
      requires Ok() && offset < outputX.Length && Holds(from, out) && offset == from + |out| && (first ==> idx == 0)
      modifies `offset, `idx, outputX, outputY, outputZ
      ensures Ok() && idx == NextIdx(ratio, old(idx), first)
      ensures var v := Value(ratio, State(old(idx), prev), s, first);
        var now := if Emits(ratio, old(idx), first) then out + [v] else out;
        Holds(from, now) && offset == from + |now|
      ensures full == (offset == outputX.Length) && offset <= outputX.Length
      ensures forall i :: 0 <= i < from ==>
        outputX[i] == old(outputX[i]) && outputY[i] == old(outputY[i]) && outputZ[i] == old(outputZ[i])
    {
      hide Between;
      if idx >= ratio.div || first {
        var suboffset := idx - ratio.div;
        var part := ratio.mult - suboffset;
        Put(if first then s else Between(prev, s, part, ratio.mult), from, out);
        if !first {
          idx := idx - ratio.div;
        }
      }
      idx := (idx + ratio.mult) % 256;
      full := offset == outputX.Length;
    }

    /** Consume samples until they run out or the buffers are full. */
    method Downsample(input: seq<Sample>) returns (consumed: nat)
      requires Ok() && input != [] && offset < outputX.Length
      modifies this, outputX, outputY, outputZ
      ensures Ok() && 0 < consumed <= |input| && (consumed < |input| ==> offset == outputX.Length)
      ensures offset <= outputX.Length
      ensures var (st, out) := Feed(ratio, State(old(idx), old(last)), input[..consumed], old(idx) == 0);
        State(idx, last) == st && offset == old(offset) + |out| && Holds(old(offset), out)
      ensures forall i :: 0 <= i < old(offset) ==>
        outputX[i] == old(outputX[i]) && outputY[i] == old(outputY[i]) && outputZ[i] == old(outputZ[i])
    {
      hide Feed, NextIdx, Emits, Value, Resample.Valid;
      var first, prev, i := idx == 0, last, 0;
      ghost var start, from := State(idx, last), offset;
      ghost var out: seq<Sample> := [];
      FeedNone(ratio, start, input);
      while i < |input|
        invariant 0 <= i <= |input| && Ok() && from <= offset < outputX.Length && ratio.mult > 0
        invariant first == (start.idx == 0 && i == 0) && (first ==> idx == 0) && (i > 0 ==> prev == input[i - 1])
        invariant (State(idx, prev), out) == Feed(ratio, start, input[..i], start.idx == 0)
        invariant offset == from + |out| && Holds(from, out)
        invariant forall j :: 0 <= j < from ==>
          outputX[j] == old(outputX[j]) && outputY[j] == old(outputY[j]) && outputZ[j] == old(outputZ[j])
      {
        ghost var p := State(idx, prev);
        FeedLast(ratio, start, input, i, p, out);
        var full := Process(prev, input[i], first, from, out);
        out := if Emits(ratio, p.idx, first) then out + [Value(ratio, p, input[i], first)] else out;
        first := false;
        if full {
          last := input[i];
          return i + 1;
        }
        prev := input[i];
        i := i + 1;
      }
      last := input[i - 1];
      assert input[..i] == input[..|input|];
      return |input|;
    }

    /** Read the outputs and empty the buffers. */
    method Take() returns (out: seq<Sample>)
      requires Ok() && offset <= outputX.Length
      modifies `offset
      ensures offset == 0 && |out| == old(offset) && Holds(0, out)
    {
      out := [];
      for i := 0 to offset
        invariant |out| == i && Holds(0, out)
      {
        out := out + [Sample(outputX[i], outputY[i], outputZ[i])];
      }
      offset := 0;
    }

    /** Empty the buffers and call again until all samples are consumed. */
    method DownsampleAll(input: seq<Sample>) returns (out: seq<Sample>)
      requires Ok() && PhaseFits(ratio) && idx == 0 && offset == 0 < outputX.Length
      modifies this, outputX, outputY, outputZ
      ensures Ok() && out == Signal(ratio, input)
    {
      hide Feed, Exact, Signal, Resample.Valid;
      var done := 0;
      out := [];
      NoSignal(ratio);
      while done < |input|
        invariant done <= |input| && Ok() && offset == 0 && ratio.mult > 0 && ratio.div > 0
        invariant if done == 0 then idx == 0 && out == [] else Exact(ratio, State(idx, last), input[..done], out)
      {
        ghost var st := State(idx, last);
        var n := Downsample(input[done..]);
        var more := Take();
        ghost var fed := Feed(ratio, st, input[done..][..n], st.idx == 0).1;
        assert more == fed;
        NextCall(ratio, st, input, done, out, n);
        out, done := out + more, done + n;
      }
      assert done > 0 ==> input[..done] == input && out == Signal(ratio, input) by {
        if done > 0 {
          assert input[..done] == input;
          ExactMeans(ratio, State(idx, last), input, out);
        }
      }
    }
  }

  lemma NoSignal(c: Ratio)
    requires Resample.Valid(c)
    ensures c.mult > 0 && c.div > 0 && Signal(c, []) == []
  {
  }

  lemma ExactMeans(c: Ratio, st: State, xs: seq<Sample>, out: seq<Sample>)
    requires Resample.Valid(c) && Exact(c, st, xs, out)
    ensures st.idx > 0 && out == Signal(c, xs)
  {
    hide Signal;
  }

  /** A call on the next `n` samples extends the signal by its outputs. */
  lemma NextCall(c: Ratio, st: State, input: seq<Sample>, done: nat, out: seq<Sample>, n: nat)
    requires Resample.Valid(c) && PhaseFits(c) && done < |input| && 0 < n <= |input| - done
    requires if done == 0 then st.idx == 0 && out == [] else Exact(c, st, input[..done], out)
    ensures var (q, more) := Feed(c, st, input[done..][..n], st.idx == 0);
      Exact(c, q, input[..done + n], out + more)
  {
    hide Feed, Exact, Signal;
    var xs := input[done..][..n];
    if done == 0 {
      FirstCall(c, st, xs);
      assert xs == input[..n] && [] + Feed(c, st, xs, true).1 == Feed(c, st, xs, true).1;
    } else {
      ExactMeans(c, st, input[..done], out);
      FeedMore(c, st, input[..done], out, xs);
      assert input[..done] + xs == input[..done + n];
    }
  }

  lemma FeedNone(c: Ratio, st: State, input: seq<Sample>)
    requires Resample.Valid(c)
    ensures c.mult > 0 && Feed(c, st, input[..0], st.idx == 0) == (st, [])
  {
  }

  lemma FeedStep(c: Ratio, st: State, xs: seq<Sample>, first: bool)
    requires c.mult > 0 && xs != []
    ensures var n := |xs| - 1;
      var (p, out) := Feed(c, st, xs[..n], first);
      var f := first && n == 0;
      Feed(c, st, xs, first) ==
        (State(NextIdx(c, p.idx, f), xs[n]), if Emits(c, p.idx, f) then out + [Value(c, p, xs[n], f)] else out)
  {
    hide NextIdx, Emits, Value;
  }

  /** Feeding one more sample of a call. */
  lemma FeedLast(c: Ratio, st: State, input: seq<Sample>, i: nat, p: State, out: seq<Sample>)
    requires c.mult > 0 && i < |input| && (p, out) == Feed(c, st, input[..i], st.idx == 0)
    ensures var f := st.idx == 0 && i == 0;
      Feed(c, st, input[..i + 1], st.idx == 0) ==
        (State(NextIdx(c, p.idx, f), input[i]), if Emits(c, p.idx, f) then out + [Value(c, p, input[i], f)] else out)
  {
    hide Feed, NextIdx, Emits, Value;
    assert input[..i + 1][..i] == input[..i] && input[..i + 1][i] == input[i];
    FeedStep(c, st, input[..i + 1], st.idx == 0);
  }
}
