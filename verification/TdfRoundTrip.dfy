/** Everything added to a buffer is parsed back, in order and unchanged. */
module TdfRoundTrip {
  import opened Arithmetic
  import opened Bytes
  import opened Options
  import opened TdfDiff
  import opened TdfWire
  import opened Tdf

  // ----- One request -----

  /** Period as far as the wire format can express it. */
  function Rounded(period: nat): nat {
    if period <= PERIOD_MASK then period else period / SCALE * SCALE
  }

  /** Bytes of reading `i` of the request. */
  function Reading(a: Args, i: nat): seq<byte>
    requires Times(i, a.len) + a.len <= |a.data|
  {
    a.data[Times(i, a.len)..Times(i, a.len) + a.len]
  }

  predicate IsDiffType(p: Parsed) {
    DIFF_16_8 <= p.dataType < INVALID_FORMAT
  }

  /** Rebuild one reading of a parsed difference array. */
  function Rebuild(p: Parsed, idx: nat): (r: Option<seq<byte>>)
  {
    if !IsDiffType(p) || idx > p.num || |p.data| < p.len then None else
      var k := KindOfCode(p.dataType - DIFF_16_8 + 1);
      var f := p.len / FieldSize(k);
      var base, d := Unpack(p.data[..p.len], FieldSize(k)), Unpack(p.data[p.len..], DiffSize(k));
      if |base| != f || Times(idx, f) > |d| then None
      else Some(Pack(Reconstruct(k, base, d, idx), FieldSize(k)) + p.data[f * FieldSize(k)..p.len])
  }

  /** The parsed record carries exactly `n` readings of the request. */
  ghost predicate Matches(a: Args, c: Choice, n: nat, p: Parsed) {
    && p.time == a.time && p.id == a.id && p.len == a.len && n > 0
    && if IsIdx(a) then
         p.dataType == IDX_ARRAY && p.num == n && p.period == a.period % U16 && p.data == Prefix(a, a.len * n)
       else if n == 1 then
         p.dataType == SINGLE && p.num == 1 && p.period == 0 && p.data == Prefix(a, a.len)
       else if !c.isDiff then
         p.dataType == TIME_ARRAY && p.num == n && p.period == Rounded(a.period) && p.data == Prefix(a, a.len * n)
       else
         && p.dataType == Format(a) && p.num == n - 1 && p.period == Rounded(a.period)
         && if Precomputed(a) then p.data == Prefix(a, DataLen(a, true, n))
            else forall i :: 0 <= i < n ==> Rebuilt(a, p, i)
  }

  function Prefix(a: Args, m: nat): seq<byte> {
    if m <= |a.data| then a.data[..m] else a.data
  }

  ghost predicate Rebuilt(a: Args, p: Parsed, i: nat) {
    Times(i, a.len) + a.len <= |a.data| && Rebuild(p, i) == Some(Reading(a, i))
  }

  /** The period field holds 15 bits, scaled or not; records that are not time arrays do not use it. */
  const PERIOD_RANGE := (PERIOD_MASK + 1) * SCALE

  predicate PeriodHeld(a: Args, n: nat) {
    IsIdx(a) || n == 1 || a.period < PERIOD_RANGE
  }

  /** Requests whose record fits, whose count fits, and whose time and period the format can hold. */
  ghost predicate Safe(s: State, a: Args) {
    && ValidState(s) && ValidArgs(a) && s.time < ABSOLUTE_RANGE && a.time < ABSOLUTE_RANGE
    && (Outcome(s, a).Added? ==>
          var c := Choose(a);
          && !Corner(s, a, c) && CountFits(a, c, Outcome(s, a).num)
          && PeriodHeld(a, Outcome(s, a).num))
  }

  /** The period survives, rounded, if and only if it is below 2^28 ticks. */
  lemma PeriodExact(a: Args)
    requires !IsIdx(a)
    ensures ParsePeriod(1, WordFor(a)) == Rounded(a.period) <==> a.period < PERIOD_RANGE
    ensures ParsePeriod(2, WordFor(a)) == ParsePeriod(1, WordFor(a))
  {
  }

  /** The differences of the chosen readings are all valid steps. */
  lemma ChosenSteps(s: State, a: Args, c: Choice, n: nat)
    requires Accepted(s, a, c, n) && c.isDiff && !Precomputed(a) && n > 1
    ensures forall q :: 0 <= q < Times(n - 1, FieldsPer(a)) ==> StepOk(KindFor(a), Values(a), FieldsPer(a), q)
  {
    var k, u, f := KindFor(a), Values(a), FieldsPer(a);
    var ok := Pairs(k, u, f, a.num);
    forall i | 0 <= i < n - 1 ensures ReadingOk(k, u, f, Times(i, f)) {
      PairsAt(k, u, f, a.num, i);
      assert ok[i];
    }
    PairsToSteps(k, u, f, n - 1);
  }

  /** A typed view of memory restricted to a group of fields is the view of those bytes. */
  lemma SliceOfView(bs: seq<byte>, w: nat, m: nat, f: nat, pos: nat, size: nat)
    requires w > 0 && pos == m * w && size == f * w && pos + size <= |bs|
    ensures m + f <= |Unpack(bs, w)|
    ensures Pack(Unpack(bs, w)[m..m + f], w) == bs[pos..pos + size]
  {
    hide Pack, Unpack;
    var a, b, c := bs[..pos], bs[pos..pos + size], bs[pos + size..];
    assert bs == a + (b + c);
    UnpackConcat(a, b + c, w, m);
    UnpackConcat(b, c, w, f);
    UnpackLength(a, w, m);
    UnpackLength(b, w, f);
    PackOfUnpack(b, w, f);
    assert Unpack(bs, w)[m..m + f] == Unpack(b, w);
  }

  lemma StoredDiffs(k: Kind, d: seq<nat>, u: seq<nat>, f: nat)
    requires AreDiffs(k, u, f, d)
    ensures Unpack(Pack(d, DiffSize(k)), DiffSize(k)) == d
  {
    Powers();
    forall i | 0 <= i < |d| ensures d[i] < Pow256(DiffSize(k)) {
      assert d[i] == DiffValue(k, u[i], u[i + f]);
    }
    UnpackOfPack(d, DiffSize(k));
  }

  /** Position of a reading in bytes and in fields. */
  lemma ReadingPosition(i: nat, f: nat, w: nat, len: nat)
    requires len == f * w
    ensures Times(i, len) == Times(i, f) * w
  {
    TimesIsProduct(i, len);
    TimesIsProduct(i, f);
    MulAssoc(i, f, w);
  }

  /** Rebuilding any stored reading gives the original bytes. */
  lemma RebuildExact(s: State, a: Args, c: Choice, n: nat, p: Parsed, i: nat)
    requires Accepted(s, a, c, n) && Encodable(a, c.isDiff, n) && c.isDiff && !Precomputed(a) && 1 < n && i < n
    requires p.len == a.len && p.dataType == Format(a) && p.num == n - 1 && p.data == PayloadFor(a, true, n)
    ensures Rebuilt(a, p, i)
  {
    var k, f := KindFor(a), FieldsPer(a);
    DiffLenPositive(k, a.len);
    ValuesCover(a, n);
    ChosenSteps(s, a, c, n);
    var d := Diffs(k, Values(a), f, NumDiffs(a, n));
    assert a.len <= a.len * n by { MulMono(a.len, 1, n); }
    assert p.data[a.len..] == Pack(d, DiffSize(k)) && p.data[..a.len] == a.data[..a.len];
    TimesIsProduct(n - 1, f);
    BaseView(a, f, FieldSize(k));
    RebuildAt(p, k, f, Values(a), d, n, i);
    ReadingBytes(a, n, f, FieldSize(k), i);
  }

  /** Rebuilding gives the fields of reading `i`. */
  lemma RebuildAt(p: Parsed, k: Kind, f: nat, u: seq<nat>, d: seq<nat>, n: nat, i: nat)
    requires IsDiffType(p) && k == KindOfCode(p.dataType - DIFF_16_8 + 1) && p.num == n - 1 && i < n
    requires p.len <= |p.data| && p.len == f * FieldSize(k) && p.len / FieldSize(k) == f
    requires p.data[p.len..] == Pack(d, DiffSize(k))
    requires AreDiffs(k, u, f, d) && |d| == Times(n - 1, f) && Unpack(p.data[..p.len], FieldSize(k)) == u[..f]
    requires forall q :: 0 <= q < |d| ==> StepOk(k, u, f, q)
    ensures Times(i, f) + f <= |u|
    ensures Rebuild(p, i) == Some(Pack(u[Times(i, f)..Times(i, f) + f], FieldSize(k)))
  {
    hide Pack, Unpack, Reconstruct, Rebuild, Times, DiffValue, FieldOk;
    StoredDiffs(k, d, u, f);
    TimesMono(i, n - 1, f);
    RebuildUnfolds(p, k, f, u[..f], d, i);
    assert u[0..0 + f] == u[..f] && d[0..] == d;
    ReconstructExact(k, u, f, d, 0, i);
  }

  lemma RebuildUnfolds(p: Parsed, k: Kind, f: nat, base: seq<nat>, d: seq<nat>, i: nat)
    requires IsDiffType(p) && k == KindOfCode(p.dataType - DIFF_16_8 + 1) && i <= p.num && p.len <= |p.data|
    requires p.len == f * FieldSize(k) && p.len / FieldSize(k) == f
    requires base == Unpack(p.data[..p.len], FieldSize(k)) && d == Unpack(p.data[p.len..], DiffSize(k))
    requires |base| == f && Times(i, f) <= |d|
    ensures Rebuild(p, i) == Some(Pack(Reconstruct(k, base, d, i), FieldSize(k)))
  {
    var r := Pack(Reconstruct(k, base, d, i), FieldSize(k));
    assert r + p.data[p.len..p.len] == r;
  }

  lemma BaseView(a: Args, f: nat, w: nat)
    requires w > 0 && a.len == f * w <= |a.data|
    ensures |Unpack(a.data, w)| >= f && Unpack(a.data[..a.len], w) == Unpack(a.data, w)[..f]
    ensures |Unpack(a.data[..a.len], w)| == f
  {
    UnpackLength(a.data[..a.len], w, f);
    UnpackConcat(a.data[..a.len], a.data[a.len..], w, f);
    assert a.data == a.data[..a.len] + a.data[a.len..];
  }

  lemma ReadingBytes(a: Args, n: nat, f: nat, w: nat, i: nat)
    requires w > 0 && a.len == f * w && i < n && a.len * n <= |a.data|
    ensures Times(i, a.len) + a.len <= |a.data|
    ensures Times(i, f) + f <= |Unpack(a.data, w)|
    ensures Pack(Unpack(a.data, w)[Times(i, f)..Times(i, f) + f], w) == Reading(a, i)
  {
    hide Pack, Unpack, Times;
    ReadingPosition(i, f, w, a.len);
    ReadingInData(a.len, n, i);
    SliceOfView(a.data, w, Times(i, f), f, Times(i, a.len), a.len);
  }

  lemma ReadingInData(len: nat, n: nat, i: nat)
    requires i < n
    ensures Times(i, len) + len <= len * n
  {
    TimesIsProduct(n, len);
    TimesMono(i + 1, n, len);
  }

  /** A difference array is reported with the count, type and data to rebuild every reading. */
  lemma DiffReport(s: State, a: Args, c: Choice, n: nat, p: Parsed)
    requires Accepted(s, a, c, n) && Encodable(a, c.isDiff, n) && CountFits(a, c, n) && c.isDiff && n > 1
    requires p.time == a.time && p.id == a.id && p.len == a.len
    requires p.dataType == DIFF_16_8 + KindCode(KindFor(a)) - 1 && p.num == DiffCount(KindFor(a), n - 1) % 64
    requires p.period == ParsePeriod(2, WordFor(a)) && p.data == PayloadFor(a, true, n)
    ensures Matches(a, c, n, p) <==> PeriodHeld(a, n)
  {
    PeriodExact(a);
    CountExact(KindFor(a), n - 1);
    if !Precomputed(a) {
      forall i | 0 <= i < n ensures Rebuilt(a, p, i) {
        RebuildExact(s, a, c, n, p, i);
      }
    }
  }

  /** Plain records are reported with their count, period or index, and data. */
  lemma PlainReport(a: Args, c: Choice, n: nat, p: Parsed)
    requires Encodable(a, c.isDiff, n) && !(c.isDiff && n > 1) && (c.isDiff ==> WantsDiff(a))
    requires p == if IsIdx(a) then Parsed(a.time, a.id, a.len, IDX_ARRAY, n, WordFor(a), PayloadFor(a, c.isDiff, n))
      else if n == 1 then Parsed(a.time, a.id, a.len, SINGLE, 1, 0, PayloadFor(a, c.isDiff, n))
      else Parsed(a.time, a.id, a.len, TIME_ARRAY, n, ParsePeriod(1, WordFor(a)), PayloadFor(a, c.isDiff, n))
    ensures Matches(a, c, n, p) <==> PeriodHeld(a, n)
  {
    if !IsIdx(a) {
      PeriodExact(a);
    }
  }

  /** The parser reports what was asked to be stored if and only if the format can hold the period. */
  lemma ReportMatches(s: State, a: Args, c: Choice, n: nat)
    requires Accepted(s, a, c, n) && Encodable(a, c.isDiff, n) && CountFits(a, c, n)
    requires s.time < ABSOLUTE_RANGE && a.time < ABSOLUTE_RANGE
    ensures var w := WireFor(s, a, c.isDiff, n);
      TimeOf(w, s.time) >= 0 && (Matches(a, c, n, Report(w, s.time)) <==> PeriodHeld(a, n))
  {
    hide ChooseTag, StampFor, Matches, PayloadFor, Choose, Fit, PeriodHeld, WordFor, Report;
    TimeExact(s, a, c, n);
    var p := Report(WireFor(s, a, c.isDiff, n), s.time);
    ReportFields(s, a, c, n);
    if c.isDiff && n > 1 {
      DiffReport(s, a, c, n, p);
    } else {
      PlainReport(a, c, n, p);
    }
  }

  /** The fields that are reported, told from the request. */
  lemma ReportFields(s: State, a: Args, c: Choice, n: nat)
    requires 0 < n && Encodable(a, c.isDiff, n) && (c.isDiff ==> !IsIdx(a))
    requires TimeOf(WireFor(s, a, c.isDiff, n), s.time) == a.time
    ensures var p, data := Report(WireFor(s, a, c.isDiff, n), s.time), PayloadFor(a, c.isDiff, n);
      p == if IsIdx(a) then Parsed(a.time, a.id, a.len, IDX_ARRAY, n, WordFor(a), data)
        else if n == 1 then Parsed(a.time, a.id, a.len, SINGLE, 1, 0, data)
        else if !c.isDiff then Parsed(a.time, a.id, a.len, TIME_ARRAY, n, ParsePeriod(1, WordFor(a)), data)
        else Parsed(a.time, a.id, a.len, DIFF_16_8 + KindCode(KindFor(a)) - 1, DiffCount(KindFor(a), n - 1) % 64,
                    ParsePeriod(2, WordFor(a)), data)
  {
    hide ChooseTag, StampFor, PayloadFor, WordFor, ParsePeriod, DiffCount, Encodable;
  }

  // ----- Sequences of requests -----

  function Step(s: State, a: Args): (t: State)
    requires Safe(s, a)
    ensures ValidState(t) && t.time < ABSOLUTE_RANGE && t.size == s.size
    ensures !Outcome(s, a).Added? ==> t == s
  {
    StepFits(s, a);
    Next(s, a)
  }

  lemma StepFits(s: State, a: Args)
    requires Safe(s, a)
    ensures |Next(s, a).bytes| <= s.size
  {
    if Outcome(s, a).Added? {
      var c, n := Choose(a), Outcome(s, a).num;
      AcceptedOf(s, a);
      EncodableOf(s, a, c, n);
      EncodedLength(s, a, c, n);
      FitsExactly(s, a, c, n);
    }
  }

  ghost predicate AllSafe(s: State, reqs: seq<Args>)
    decreases |reqs|
  {
    reqs == [] || (Safe(s, reqs[0]) && AllSafe(Step(s, reqs[0]), reqs[1..]))
  }

  function AddAll(s: State, reqs: seq<Args>): State
    requires AllSafe(s, reqs)
    decreases |reqs|
  {
    if reqs == [] then s else AddAll(Step(s, reqs[0]), reqs[1..])
  }

  /** Parse until nothing is left, or until a record is malformed. */
  function ParseAll(base: nat, buf: seq<byte>): (r: (seq<Parsed>, ParseResult))
    decreases |buf|
  {
    match Parse(base, buf)
    case Ok(rec, base', rest) => var (recs, end) := ParseAll(base', rest); ([rec] + recs, end)
    case other => ([], other)
  }

  /** The parsed records are the accepted requests, one for one and in order. */
  ghost predicate AllMatch(s: State, reqs: seq<Args>, recs: seq<Parsed>)
    requires AllSafe(s, reqs)
    decreases |reqs|
  {
    if reqs == [] then recs == []
    else if Outcome(s, reqs[0]).Added? then
      && recs != []
      && Matches(reqs[0], Choose(reqs[0]), Outcome(s, reqs[0]).num, recs[0])
      && AllMatch(Step(s, reqs[0]), reqs[1..], recs[1..])
    else AllMatch(s, reqs[1..], recs)
  }

  /** Requests only ever append. */
  lemma {:induction false} AddAllAppends(s: State, reqs: seq<Args>)
    requires AllSafe(s, reqs)
    ensures s.bytes <= AddAll(s, reqs).bytes
    decreases |reqs|
  {
    if reqs != [] {
      AddAllAppends(Step(s, reqs[0]), reqs[1..]);
    }
  }

  /**
   * Round trip: parsing what a sequence of requests appended yields the accepted requests in
   * order and then reports that nothing is left. Both ends agree on the base time throughout.
   */
  lemma {:induction false} RoundTrip(s: State, reqs: seq<Args>)
    requires AllSafe(s, reqs) && ValidState(s) && s.time < ABSOLUTE_RANGE
    ensures s.bytes <= AddAll(s, reqs).bytes
    ensures var (recs, end) := ParseAll(s.time, AddAll(s, reqs).bytes[|s.bytes|..]);
      AllMatch(s, reqs, recs) && end == NoMore
    decreases |reqs|
  {
    hide Parse, Matches, Choose, Outcome, Safe, Step, ParseAll, ValidState;
    AddAllAppends(s, reqs);
    if reqs == [] {
      NothingLeft(s.time);
      assert s.bytes[|s.bytes|..] == [];
    } else {
      var a, t := reqs[0], Step(s, reqs[0]);
      AddAllAppends(t, reqs[1..]);
      RoundTrip(t, reqs[1..]);
      if Outcome(s, a).Added? {
        var added := AddAll(t, reqs[1..]).bytes[|t.bytes|..];
        StepParses(s, a, added);
        assert AddAll(s, reqs).bytes[|s.bytes|..] == t.bytes[|s.bytes|..] + added;
        FirstRecord(s.time, t.bytes[|s.bytes|..] + added);
      }
    }
  }

  lemma NothingLeft(base: nat)
    ensures ParseAll(base, []) == ([], NoMore)
  {
  }

  lemma FirstRecord(base: nat, buf: seq<byte>)
    requires Parse(base, buf).Ok?
    ensures var r, all := Parse(base, buf), ParseAll(base, buf);
      var more := ParseAll(r.time, r.rest);
      all.0 == [r.rec] + more.0 && all.0[1..] == more.0 && all.1 == more.1
  {
    hide Parse;
  }

  /** One accepted request, followed by anything. */
  lemma StepParses(s: State, a: Args, rest: seq<byte>)
    requires Safe(s, a) && Outcome(s, a).Added?
    ensures var t := Step(s, a);
      && s.bytes <= t.bytes
      && var r := Parse(s.time, t.bytes[|s.bytes|..] + rest);
         r.Ok? && r.time == t.time && r.rest == rest && Matches(a, Choose(a), Outcome(s, a).num, r.rec)
  {
    var c, n := Choose(a), Outcome(s, a).num;
    AcceptedOf(s, a);
    EncodableOf(s, a, c, n);
    WireValid(s, a, c, n);
    TimeExact(s, a, c, n);
    ReportMatches(s, a, c, n);
    RecordRoundTrip(WireFor(s, a, c.isDiff, n), s.time, rest);
    assert Step(s, a).bytes[|s.bytes|..] == Encode(WireFor(s, a, c.isDiff, n));
  }

  /** A fresh buffer. */
  lemma FreshRoundTrip(size: nat, reqs: seq<Args>)
    requires size < U16 && AllSafe(State(0, size, []), reqs)
    ensures var (recs, end) := ParseAll(0, AddAll(State(0, size, []), reqs).bytes);
      AllMatch(State(0, size, []), reqs, recs) && end == NoMore
  {
    var s := State(0, size, []);
    RoundTrip(s, reqs);
    assert AddAll(s, reqs).bytes[0..] == AddAll(s, reqs).bytes;
  }

  // ----- Accepted requests that do not survive -----

  /** The limit on the period is not checked for index arrays, and a precomputed one is stored as a time array. */
  lemma PeriodLost()
    ensures var s, a := State(0, 10, []), Args(1, 2, 2, 0, PERIOD_RANGE, [0, 0, 0, 0], IDX_ARRAY + PRECOMPUTED);
      && ValidState(s) && ValidArgs(a) && Outcome(s, a) == Added(2)
      && Parse(0, Next(s, a).bytes) == Ok(Parsed(0, 1, 2, TIME_ARRAY, 2, 0, a.data), 0, [])
  {
    var s, a := State(0, 10, []), Args(1, 2, 2, 0, PERIOD_RANGE, [0, 0, 0, 0], IDX_ARRAY + PRECOMPUTED);
    var c := Choice(false, 2);
    hide Encode, Parse;
    AcceptedOf(s, a);
    EncodableOf(s, a, c, 2);
    var w := Wire(1, 2, NoTime, 0, TimeArray, 2, PERIOD_MASK + 1, a.data);
    assert Next(s, a).bytes == Encode(w);
    hide Outcome, Next;
    RecordRoundTrip(w, 0, []);
    assert Encode(w) + [] == Encode(w);
  }

  lemma CutPayload(w: Wire, k: nat)
    requires w.id < 4096 && w.len < 256 && w.count < 256 && k <= |w.payload|
    ensures Encode(w.(payload := w.payload[..k])) + w.payload[k..] == Encode(w)
  {
    hide HeaderBytes, TimeBytes, ArrayBytes;
    var h, t, r := HeaderBytes(w), TimeBytes(w), ArrayBytes(w);
    var b, c := w.payload[..k], w.payload[k..];
    assert b + c == w.payload;
    Assoc(h, t + (r + b), c);
    Assoc(t, r + b, c);
    Assoc(r, b, c);
    SameHeader(w, b);
  }

  lemma SameHeader(w: Wire, b: seq<byte>)
    requires w.id < 4096 && w.len < 256 && w.count < 256
    ensures var v := w.(payload := b);
      HeaderBytes(v) == HeaderBytes(w) && TimeBytes(v) == TimeBytes(w) && ArrayBytes(v) == ArrayBytes(w)
  {
  }

  lemma LongRecord(data: seq<byte>)
    requires |data| == 67
    ensures var s, a := State(0, 73, []), Args(1, 2, 66, 0, 0, data, DIFF_16_8 + PRECOMPUTED);
      && ValidState(s) && ValidArgs(a) && Outcome(s, a) == Added(66)
      && Next(s, a).bytes == Encode(Wire(1, 2, NoTime, 0, DiffArray(Diff16x8), 65, 0, data))
  {
    hide Encode;
    var s, a := State(0, 73, []), Args(1, 2, 66, 0, 0, data, DIFF_16_8 + PRECOMPUTED);
    AcceptedOf(s, a);
    EncodableOf(s, a, Choice(true, 66), 66);
    assert data[..67] == data;
  }

  /** Sixty-five precomputed differences are reported as one, and the other 64 bytes are taken for a record. */
  lemma CountLost(data: seq<byte>)
    requires |data| == 67
    ensures var s, a := State(0, 73, []), Args(1, 2, 66, 0, 0, data, DIFF_16_8 + PRECOMPUTED);
      && ValidState(s) && ValidArgs(a) && Outcome(s, a) == Added(66)
      && Parse(0, Next(s, a).bytes) == Ok(Parsed(0, 1, 2, DIFF_16_8, 1, 0, data[..3]), 0, data[3..])
  {
    LongRecord(data);
    hide Encode, Parse, Outcome, Next;
    var w := Wire(1, 2, NoTime, 0, DiffArray(Diff16x8), 65, 0, data);
    RecordRoundTrip(w.(payload := data[..3]), 0, data[3..]);
    CutPayload(w, 3);
  }
}
