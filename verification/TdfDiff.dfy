/**
 * Difference coding of homogeneous readings: each reading after the first is stored as one
 * narrow signed difference per field. Fields and differences are little-endian in memory.
 */
module TdfDiff {
  import opened Arithmetic
  import opened Bytes

  /** Field width and difference width. */
  datatype Kind = Diff16x8 | Diff32x8 | Diff32x16

  function FieldSize(k: Kind): nat { if k.Diff16x8? then 2 else 4 }

  function DiffSize(k: Kind): nat { if k.Diff32x16? then 2 else 1 }

  function FieldRange(k: Kind): nat { if k.Diff16x8? then U16 else U32 }

  function DiffRange(k: Kind): nat { if k.Diff32x16? then U16 else 256 }

  // ----- One field -----

  /** Signed reading of a stored difference. */
  function SignExtend(k: Kind, d: nat): int {
    if k.Diff32x16? then (if d < 0x8000 then d else d - U16) else (if d < 0x80 then d else d - 256)
  }

  /** Difference between two field values, truncated to the stored width. */
  function DiffValue(k: Kind, c: nat, n: nat): (d: nat)
    ensures d < DiffRange(k)
  {
    if k.Diff32x16? then (n - c) % U16 else (n - c) % 256
  }

  /** Field value plus stored difference, in modular field arithmetic. */
  function Advance(k: Kind, c: nat, d: nat): (n: nat)
    ensures n < FieldRange(k)
  {
    if k.Diff16x8? then (c + SignExtend(k, d)) % U16 else (c + SignExtend(k, d)) % U32
  }

  /** Can the step from `c` to `n` be stored? */
  predicate FieldOk(k: Kind, c: nat, n: nat) {
    Advance(k, c, DiffValue(k, c, n)) == n
  }

  // ----- Typed views of memory -----

  function Pack(vs: seq<nat>, w: nat): (r: seq<byte>)
  {
    if vs == [] then [] else ToLe(vs[0], w) + Pack(vs[1..], w)
  }

  function Unpack(bs: seq<byte>, w: nat): (r: seq<nat>)
    requires w > 0
  {
    if |bs| < w then [] else [Le(bs[..w])] + Unpack(bs[w..], w)
  }

  lemma {:induction false} PackLength(vs: seq<nat>, w: nat)
    ensures |Pack(vs, w)| == |vs| * w
    decreases |vs|
  {
    if vs != [] {
      PackLength(vs[1..], w);
      assert (|vs| - 1) * w + w == |vs| * w;
    }
  }

  lemma {:induction false} UnpackLength(bs: seq<byte>, w: nat, n: nat)
    requires w > 0 && |bs| == n * w
    ensures |Unpack(bs, w)| == n
    decreases n
  {
    if n > 0 {
      assert n * w == (n - 1) * w + w;
      UnpackLength(bs[w..], w, n - 1);
    }
  }

  lemma {:induction false} UnpackOfPack(vs: seq<nat>, w: nat)
    requires w > 0 && forall i :: 0 <= i < |vs| ==> vs[i] < Pow256(w)
    ensures Unpack(Pack(vs, w), w) == vs
    decreases |vs|
  {
    if vs != [] {
      var r := Pack(vs, w);
      assert r[..w] == ToLe(vs[0], w) && r[w..] == Pack(vs[1..], w);
      LeOfToLe(vs[0], w);
      UnpackOfPack(vs[1..], w);
    }
  }

  lemma {:induction false} PackOfUnpack(bs: seq<byte>, w: nat, n: nat)
    requires w > 0 && |bs| == n * w
    ensures Pack(Unpack(bs, w), w) == bs
    decreases n
  {
    if n > 0 {
      assert n * w == (n - 1) * w + w;
      PackOfUnpack(bs[w..], w, n - 1);
      ToLeOfLe(bs[..w]);
      var u := Unpack(bs, w);
      assert u[1..] == Unpack(bs[w..], w);
      assert bs == bs[..w] + bs[w..];
    }
  }

  /** Typed views of adjacent memory areas join up. */
  lemma {:induction false} UnpackConcat(a: seq<byte>, b: seq<byte>, w: nat, n: nat)
    requires w > 0 && |a| == n * w
    ensures Unpack(a + b, w) == Unpack(a, w) + Unpack(b, w)
    decreases n
  {
    if n == 0 {
      assert a + b == b;
    } else {
      assert n * w == (n - 1) * w + w;
      UnpackConcat(a[w..], b, w, n - 1);
      assert (a + b)[..w] == a[..w] && (a + b)[w..] == a[w..] + b;
    }
  }

  // ----- Readings of `f` fields each, as one stream of field values -----

  /** Can the field at `p` be stepped to the one `f` later? */
  predicate StepOk(k: Kind, u: seq<nat>, f: nat, p: int) {
    0 <= p && p + f < |u| && FieldOk(k, u[p], u[p + f])
  }

  /** The differences of `n` consecutive fields to the fields one reading later. */
  function Diffs(k: Kind, u: seq<nat>, f: nat, n: nat): (d: seq<nat>)
    requires n + f <= |u|
    ensures |d| == n
    ensures forall i :: 0 <= i < n ==> d[i] == DiffValue(k, u[i], u[i + f])
  {
    if n == 0 then [] else Diffs(k, u, f, n - 1) + [DiffValue(k, u[n - 1], u[n - 1 + f])]
  }

  function Apply(k: Kind, base: seq<nat>, d: seq<nat>): (r: seq<nat>)
    requires |base| <= |d|
    ensures |r| == |base|
    ensures forall i :: 0 <= i < |base| ==> r[i] == Advance(k, base[i], d[i])
  {
    seq(|base|, i requires 0 <= i < |base| => Advance(k, base[i], d[i]))
  }

  /** Starting from the base reading, apply `idx` groups of differences in turn. */
  function Reconstruct(k: Kind, base: seq<nat>, d: seq<nat>, idx: nat): (r: seq<nat>)
    requires Times(idx, |base|) <= |d|
    ensures |r| == |base|
    decreases idx
  {
    if idx == 0 then base else
      Reconstruct(k, Apply(k, base, d), d[|base|..], idx - 1)
  }

  ghost predicate AreDiffs(k: Kind, u: seq<nat>, f: nat, d: seq<nat>) {
    |d| + f <= |u| && forall i :: 0 <= i < |d| ==> d[i] == DiffValue(k, u[i], u[i + f])
  }

  /** Applying the differences found at `p` to the reading at `p` gives the next reading. */
  lemma ApplyStep(k: Kind, u: seq<nat>, f: nat, d: seq<nat>, p: nat)
    requires AreDiffs(k, u, f, d) && p + f <= |d|
    requires forall q :: p <= q < p + f ==> StepOk(k, u, f, q)
    ensures Apply(k, u[p..p + f], d[p..]) == u[p + f..p + f + f]
  {
    var r, x := Apply(k, u[p..p + f], d[p..]), u[p + f..p + f + f];
    forall j | 0 <= j < f ensures r[j] == x[j] {
      assert StepOk(k, u, f, p + j);
      assert d[p..][j] == d[p + j];
    }
  }

  /** Reconstruction gives back every reading reached over diffable steps. */
  lemma {:induction false} ReconstructExact(k: Kind, u: seq<nat>, f: nat, d: seq<nat>, p: nat, idx: nat)
    requires AreDiffs(k, u, f, d) && p + Times(idx, f) <= |d|
    requires forall q :: p <= q < p + Times(idx, f) ==> StepOk(k, u, f, q)
    ensures Reconstruct(k, u[p..p + f], d[p..], idx) == u[p + Times(idx, f)..p + Times(idx, f) + f]
    decreases idx
  {
    if idx > 0 {
      ApplyStep(k, u, f, d, p);
      assert d[p..][f..] == d[p + f..];
      ReconstructExact(k, u, f, d, p + f, idx - 1);
    }
  }

  // ----- Choosing what to difference -----

  /** Can the whole reading at `p` be stepped to the next one? */
  predicate ReadingOk(k: Kind, u: seq<nat>, f: nat, p: nat) {
    forall q :: p <= q < p + f ==> StepOk(k, u, f, q)
  }

  /** Diffability of each pair of neighbours among `n` readings. */
  function Pairs(k: Kind, u: seq<nat>, f: nat, n: nat): (ok: seq<bool>)
    requires n > 0
    ensures |ok| == n - 1
  {
    if n == 1 then [] else Pairs(k, u, f, n - 1) + [ReadingOk(k, u, f, Times(n - 2, f))]
  }

  lemma {:induction false} PairsAt(k: Kind, u: seq<nat>, f: nat, n: nat, i: nat)
    requires i + 1 < n
    ensures Pairs(k, u, f, n)[i] == ReadingOk(k, u, f, Times(i, f))
    decreases n
  {
    if i + 2 < n {
      PairsAt(k, u, f, n - 1, i);
    }
  }

  /** Two consecutive valid pairs. */
  predicate RunAt(ok: seq<bool>, i: int) {
    0 <= i && i + 1 < |ok| && ok[i] && ok[i + 1]
  }

  /** Index of the first two consecutive valid pairs from `i` on, or the number of candidates. */
  function FirstRun(ok: seq<bool>, i: nat): (j: nat)
    requires i < |ok|
    ensures i <= j < |ok|
    ensures j < |ok| - 1 ==> RunAt(ok, j)
    ensures forall m :: i <= m < j ==> !RunAt(ok, m)
    decreases |ok| - i
  {
    if i == |ok| - 1 || RunAt(ok, i) then i else FirstRun(ok, i + 1)
  }

  /** Length of the run of valid pairs that starts at `i`. */
  function RunLength(ok: seq<bool>, i: nat): (n: nat)
    requires i <= |ok|
    ensures i + n <= |ok|
    ensures forall m :: i <= m < i + n ==> ok[m]
    ensures i + n < |ok| ==> !ok[i + n]
    decreases |ok| - i
  {
    if i < |ok| && ok[i] then 1 + RunLength(ok, i + 1) else 0
  }

  const MAX_DIFFS := 63

  /**
   * Positive: number of differences to store from the first reading on. Negative: number of
   * readings to log plainly, up to the first two consecutive valid pairs or, without such
   * pairs, all of them, except that a lone valid pair before the last reading ends one early.
   */
  function Selection(ok: seq<bool>): (r: int)
    requires |ok| >= 2
    ensures r > 0 <==> ok[0] && ok[1]
    ensures r > 0 ==> 2 <= r <= MAX_DIFFS && r <= |ok| && forall m :: 0 <= m < r ==> ok[m]
    ensures r > 0 && r < MAX_DIFFS && r < |ok| ==> !ok[r]
    ensures r <= 0 ==> 1 <= -r <= |ok| + 1 && forall m :: 0 <= m < -r ==> !RunAt(ok, m)
    ensures r <= 0 && -r < |ok| ==> RunAt(ok, -r)
  {
    if ok[0] && ok[1] then
      assert RunLength(ok, 0) >= 2;
      if RunLength(ok, 0) < MAX_DIFFS then RunLength(ok, 0) else MAX_DIFFS
    else
      var j := FirstRun(ok, 0);
      if j < |ok| - 1 then 0 - j else if ok[|ok| - 2] then -|ok| else -|ok| - 1
  }

  /** Valid pairs of readings are valid steps of all their fields. */
  lemma {:induction false} PairsToSteps(k: Kind, u: seq<nat>, f: nat, r: nat)
    requires forall i :: 0 <= i < r ==> ReadingOk(k, u, f, Times(i, f))
    ensures forall q :: 0 <= q < Times(r, f) ==> StepOk(k, u, f, q)
    decreases r
  {
    if r > 0 {
      PairsToSteps(k, u, f, r - 1);
      assert ReadingOk(k, u, f, Times(r - 1, f));
    }
  }

  // ----- The loops -----

  method CheckReading(k: Kind, u: seq<nat>, f: nat, p: nat) returns (ok: bool)
    requires p + f + f <= |u|
    ensures ok <==> ReadingOk(k, u, f, p)
  {
    var i := 0;
    while i < f
      invariant i <= f && forall q :: p <= q < p + i ==> StepOk(k, u, f, q)
    {
      var c, n := u[p + i], u[p + f + i];
      var diff := DiffValue(k, c, n);
      var res := Advance(k, c, diff);
      if res != n {
        assert !StepOk(k, u, f, p + i);
        return false;
      }
      i := i + 1;
    }
    return true;
  }

  /** Encode differences into `out`, starting at `at`. */
  method EncodeFields(k: Kind, n: nat, u: seq<nat>, f: nat, out: array<nat>)
    requires n + f <= |u| && n <= out.Length
    modifies out
    ensures out[..n] == Diffs(k, u, f, n) && out[n..] == old(out[n..])
  {
    var i := 0;
    while i < n
      invariant i <= n
      invariant forall j :: 0 <= j < i ==> out[j] == DiffValue(k, u[j], u[j + f])
      invariant forall j :: i <= j < out.Length ==> out[j] == old(out[j])
    {
      out[i] := DiffValue(k, u[i], u[i + f]);
      i := i + 1;
    }
    ghost var d := Diffs(k, u, f, n);
    assert AreDiffs(k, u, f, d);
    forall j | 0 <= j < n ensures out[..n][j] == d[j] {
      assert d[j] == DiffValue(k, u[j], u[j + f]);
    }
  }

  /** Add one group of differences to a reading, in place. */
  method ApplyFields(k: Kind, out: array<nat>, d: seq<nat>)
    requires out.Length <= |d|
    modifies out
    ensures out[..] == Apply(k, old(out[..]), d)
  {
    var i := 0;
    while i < out.Length
      invariant i <= out.Length
      invariant forall j :: 0 <= j < i ==> out[j] == Advance(k, old(out[j]), d[j])
      invariant forall j :: i <= j < out.Length ==> out[j] == old(out[j])
    {
      out[i] := Advance(k, out[i], d[i]);
      i := i + 1;
    }
  }

  /** Rebuild reading `idx` in `out` from the base reading and the stored differences. */
  method ReconstructReading(k: Kind, base: seq<nat>, d: seq<nat>, idx: nat, out: array<nat>)
    requires out.Length == |base| && Times(idx, |base|) <= |d|
    modifies out
    ensures out[..] == Reconstruct(k, base, d, idx)
  {
    forall j | 0 <= j < out.Length {
      out[j] := base[j];
    }
    assert out[..] == base;
    var i, rest := 0, d;
    while i < idx
      invariant i <= idx && Times(idx - i, |base|) <= |rest|
      invariant Reconstruct(k, out[..], rest, idx - i) == Reconstruct(k, base, d, idx)
    {
      ApplyFields(k, out, rest);
      rest := rest[|base|..];
      i := i + 1;
    }
  }

  /** The selection, given the end of the scan over plain readings. */
  lemma PlainSelection(ok: seq<bool>, i: nat)
    requires 0 < i <= |ok| && |ok| >= 2
    requires forall m :: 0 <= m < i ==> !RunAt(ok, m)
    requires i < |ok| - 1 ==> RunAt(ok, i)
    requires i >= |ok| - 1 ==> (ok[|ok| - 2] <==> i == |ok|)
    ensures Selection(ok) == if i == |ok| - 1 then -(i + 2) else 0 - i
  {
    var j := FirstRun(ok, 0);
    assert j < |ok| - 1 ==> RunAt(ok, j);
  }

  /** The selection, given the length of the run of valid pairs, cut off at the limit. */
  lemma DiffSelection(ok: seq<bool>, i: nat)
    requires |ok| >= 2 && 2 <= i <= |ok| && i <= MAX_DIFFS
    requires forall m :: 0 <= m < i ==> ok[m]
    requires i < |ok| && i < MAX_DIFFS ==> !ok[i]
    ensures Selection(ok) == i
  {
    assert RunLength(ok, 0) >= i;
  }

  method CheckPair(k: Kind, u: seq<nat>, f: nat, n: nat, i: nat, p: nat) returns (ok: bool)
    requires i + 1 < n && Times(n, f) <= |u| && p == Times(i, f)
    ensures ok == Pairs(k, u, f, n)[i]
  {
    assert p + f + f == Times(i + 1, f) + f == Times(i + 2, f);
    TimesMono(i + 2, n, f);
    ok := CheckReading(k, u, f, p);
    PairsAt(k, u, f, n, i);
  }

  /** Scan `n` readings for pairs that can be stored as differences. */
  method NumValidDiffs(k: Kind, u: seq<nat>, f: nat, n: nat) returns (r: int)
    requires n > 2 && Times(n, f) <= |u|
    ensures r == Selection(Pairs(k, u, f, n))
  {
    ghost var ok := Pairs(k, u, f, n);
    var i, p := 0, 0;
    while i < n - 2
      invariant 0 <= i <= n - 1 && p == Times(i, f)
      invariant forall m :: 0 <= m < i ==> !RunAt(ok, m)
      invariant i >= n - 2 ==> (ok[n - 3] <==> i == n - 1)
      decreases n - i
    {
      var first := CheckPair(k, u, f, n, i, p);
      if first {
        p := p + f;
        var second := CheckPair(k, u, f, n, i + 1, p);
        if second {
          p := p + f;
          break;
        }
        i := i + 1;
      }
      p := p + f;
      i := i + 1;
    }
    if i == 0 {
      r := CountRun(k, u, f, n, p);
    } else {
      PlainSelection(ok, i);
      r := if i == n - 2 then -(i + 2) else 0 - i;
    }
  }

  /** Length of the run of valid pairs, given that the first two are valid. */
  method CountRun(k: Kind, u: seq<nat>, f: nat, n: nat, start: nat) returns (r: int)
    requires n > 2 && Times(n, f) <= |u| && start == Times(2, f)
    requires Pairs(k, u, f, n)[0] && Pairs(k, u, f, n)[1]
    ensures r == Selection(Pairs(k, u, f, n))
  {
    ghost var ok := Pairs(k, u, f, n);
    var limit := if n < MAX_DIFFS + 1 then n else MAX_DIFFS + 1;
    var i, p := 2, start;
    while i < limit - 1
      invariant 2 <= i <= limit - 1 && p == Times(i, f)
      invariant forall m :: 0 <= m < i ==> ok[m]
    {
      var valid := CheckPair(k, u, f, n, i, p);
      if !valid {
        break;
      }
      p := p + f;
      i := i + 1;
    }
    DiffSelection(ok, i);
    r := i;
  }
}
