/** Adding records to a Tagged Data Format buffer. */
module Tdf {
  import opened Arithmetic
  import opened TdfDiff
  import opened TdfWire

  const PERIOD_MAX := PERIOD_MASK * SCALE
  const INVALID_FORMAT := 6
  /** Format bit saying that the data is already one reading followed by differences. */
  const PRECOMPUTED := 128

  datatype Args = Args(id: nat, len: nat, num: nat, time: nat, period: nat, data: seq<byte>, format: byte)

  /** Writer state: base time, capacity and contents. */
  datatype State = State(time: nat, size: nat, bytes: seq<byte>)

  datatype AddResult = EInval | ENoSpc | ENoMem | Added(num: nat)

  function Format(a: Args): nat { a.format % PRECOMPUTED }

  predicate Precomputed(a: Args) { a.format >= PRECOMPUTED }

  predicate IsIdx(a: Args) { a.format == IDX_ARRAY }

  predicate WantsDiff(a: Args) { DIFF_16_8 <= Format(a) < INVALID_FORMAT }

  function KindFor(a: Args): Kind {
    if Format(a) == DIFF_16_8 then Diff16x8 else if Format(a) == DIFF_16_8 + 1 then Diff32x8 else Diff32x16
  }

  /** Number of data bytes taken by `n` readings. */
  function DataLen(a: Args, isDiff: bool, n: nat): nat
    requires n > 0
  {
    if isDiff then a.len + (n - 1) * DiffLen(KindFor(a), a.len) else a.len * n
  }

  /** C integer widths, and as much data as the requested number of readings needs. */
  ghost predicate ValidArgs(a: Args) {
    && a.id < U16 && a.len < 256 && a.num < 256 && a.time < U64 && a.period < U32
    && (a.num > 0 ==> |a.data| >= DataLen(a, WantsDiff(a) && Precomputed(a) && a.num > 2, a.num))
  }

  ghost predicate ValidState(s: State) {
    |s.bytes| <= s.size < U16 && s.time < U64
  }

  predicate Refused(a: Args) {
    || a.id == 0 || a.id >= 4095 || a.len == 0 || a.num == 0 || Format(a) >= INVALID_FORMAT
    || (Format(a) != IDX_ARRAY && a.period > PERIOD_MAX)
  }

  function MinSize(a: Args): nat {
    3 + (if a.time != 0 then 6 else 0) + a.len
  }

  // ----- Timestamps -----

  /** Difference of two 64-bit times as a signed 64-bit number. */
  function Delta(time: nat, base: nat): int {
    var d := (time - base) % U64;
    if d < U64 / 2 then d else d - U64
  }

  function ChooseTag(base: nat, time: nat): TimeTag {
    if time == 0 then NoTime
    else if base == 0 then Absolute
    else if 0 <= Delta(time, base) < U16 then Relative
    else if -(U24 / 2) <= Delta(time, base) < U24 / 2 then Extended
    else Absolute
  }

  function StampFor(base: nat, time: nat): nat {
    match ChooseTag(base, time)
    case NoTime => 0
    case Absolute => time % ABSOLUTE_RANGE
    case Relative => Delta(time, base)
    case Extended => Delta(time, base) % U24
  }

  // ----- How many readings, in which form -----

  datatype Choice = Choice(isDiff: bool, num: nat)

  function FieldsPer(a: Args): nat {
    a.len / FieldSize(KindFor(a))
  }

  /** The input data as a stream of field values. */
  function Values(a: Args): seq<nat> {
    Unpack(a.data, FieldSize(KindFor(a)))
  }

  /** Difference coding needs more than two readings and two valid differences in a row. */
  function Choose(a: Args): (c: Choice)
    requires a.num > 0
    ensures 1 <= c.num <= a.num
    ensures c.isDiff ==> WantsDiff(a) && c.num >= 3
    ensures c.isDiff && !Precomputed(a) ==> c.num <= MAX_DIFFS + 1
  {
    if !WantsDiff(a) || a.num <= 2 then Choice(false, a.num)
    else if Precomputed(a) then Choice(true, a.num)
    else
      var diffs := Selection(Pairs(KindFor(a), Values(a), FieldsPer(a), a.num));
      if diffs < 0 then Choice(false, -diffs) else Choice(true, 1 + diffs)
  }

  function HeaderLen(a: Args, c: Choice, tag: TimeTag): nat {
    3 + (if c.num > 1 || IsIdx(a) then 3 else 0) + TimeLen(tag)
  }

  /** Readings that fit in `space` bytes when each further one takes `per` bytes. */
  function FitDirect(isDiff: bool, len: nat, per: nat, space: nat): nat
    requires len > 0 && (isDiff ==> per > 0)
  {
    if !isDiff then space / len else if space >= len then 1 + (space - len) / per else 0
  }

  /** As above, but give up the array header when nothing fits next to it. */
  function FitCount(c: Choice, idx: bool, len: nat, per: nat, need: nat, space: nat): nat
    requires len > 0 && (c.isDiff ==> per > 0)
  {
    if space >= need then c.num else
      var direct := FitDirect(c.isDiff, len, per, space);
      if direct == 0 && c.num > 1 && !idx then (space + 3) / len else direct
  }

  /** Number of readings that fit in `space` payload bytes; zero when none does. */
  function Fit(a: Args, c: Choice, space: nat): nat
    requires a.len > 0 && c.num > 0
    requires c.isDiff ==> DiffLen(KindFor(a), a.len) > 0
  {
    FitCount(c, IsIdx(a), a.len, DiffLen(KindFor(a), a.len), DataLen(a, c.isDiff, c.num), space)
  }

  lemma DiffLenPositive(k: Kind, len: nat)
    requires len > 0 && len % FieldSize(k) == 0
    ensures DiffLen(k, len) > 0
    ensures len == len / FieldSize(k) * FieldSize(k)
  {
  }

  function Outcome(s: State, a: Args): (r: AddResult)
    requires ValidState(s)
  {
    if Refused(a) then EInval
    else if MinSize(a) > s.size then ENoSpc
    else if WantsDiff(a) && a.len % FieldSize(KindFor(a)) != 0 then EInval
    else
      var c := Choose(a);
      var header := HeaderLen(a, c, ChooseTag(s.time, a.time));
      var remaining := s.size - |s.bytes|;
      if remaining <= header then ENoMem else
        assert c.isDiff ==> DiffLen(KindFor(a), a.len) > 0 by {
          if c.isDiff { DiffLenPositive(KindFor(a), a.len); }
        }
        var n := Fit(a, c, remaining - header);
        if n == 0 then ENoMem else Added(n)
  }

  // ----- The record that is written -----

  /** Bitwise OR of two 2-bit numbers. */
  function Or2(x: nat, y: nat): nat {
    (if x % 2 == 1 || y % 2 == 1 then 1 else 0) + (if x / 2 % 2 == 1 || y / 2 % 2 == 1 then 2 else 0)
  }

  /** Count byte of a difference array: the code in the upper two bits, OR-ed with the count. */
  function DiffCount(k: Kind, diffs: nat): nat {
    Or2(KindCode(k), diffs / 64) * 64 + diffs % 64
  }

  function WordFor(a: Args): (w: nat)
    ensures w < U16
  {
    if IsIdx(a) then a.period % U16
    else if a.period > PERIOD_MASK then (PERIOD_MASK + 1) + a.period / SCALE % (PERIOD_MASK + 1)
    else a.period
  }

  function ArrayFor(a: Args, isDiff: bool, n: nat): ArrayTag {
    if IsIdx(a) then IdxArray
    else if n <= 1 then NoArray
    else if isDiff then DiffArray(KindFor(a)) else TimeArray
  }

  /** Number of field differences stored for `n` readings. */
  function NumDiffs(a: Args, n: nat): nat
    requires n > 0
  {
    (n - 1) * FieldsPer(a)
  }

  ghost predicate Encodable(a: Args, isDiff: bool, n: nat) {
    && 0 < n && DataLen(a, isDiff && (Precomputed(a) || n <= 1), n) <= |a.data|
    && (isDiff && n > 1 && !Precomputed(a) ==> NumDiffs(a, n) + FieldsPer(a) <= |Values(a)|)
  }

  function PayloadFor(a: Args, isDiff: bool, n: nat): seq<byte>
    requires Encodable(a, isDiff, n)
  {
    if isDiff && n > 1 && !Precomputed(a) then
      a.data[..a.len] +
      Pack(Diffs(KindFor(a), Values(a), FieldsPer(a), NumDiffs(a, n)), DiffSize(KindFor(a)))
    else a.data[..DataLen(a, isDiff, n)]
  }

  function WireFor(s: State, a: Args, isDiff: bool, n: nat): Wire
    requires Encodable(a, isDiff, n)
  {
    Wire(a.id, a.len, ChooseTag(s.time, a.time), StampFor(s.time, a.time),
         ArrayFor(a, isDiff, n),
         if isDiff && n > 1 then DiffCount(KindFor(a), n - 1) else n,
         WordFor(a), PayloadFor(a, isDiff, n))
  }

  lemma DataLenMono(a: Args, isDiff: bool, m: nat, n: nat)
    requires 0 < m <= n
    ensures DataLen(a, isDiff, m) <= DataLen(a, isDiff, n)
  {
    MulMono(DiffLen(KindFor(a), a.len), m - 1, n - 1);
    MulMono(a.len, m, n);
  }

  /** The number of readings that fit is never more than was asked for. */
  lemma FitBounds(a: Args, c: Choice, space: nat)
    requires a.len > 0 && c.num > 0 && space > 0
    requires c.isDiff ==> DiffLen(KindFor(a), a.len) > 0
    ensures Fit(a, c, space) <= c.num
    ensures var n := Fit(a, c, space);
      n == 0 || DataLen(a, c.isDiff, n) <= space ||
      (c.num > 1 && !IsIdx(a) && space < a.len && n == (space + 3) / a.len)
  {
    if space < DataLen(a, c.isDiff, c.num) {
      if !c.isDiff {
        PlainFit(a.len, c.num, space);
      } else if space >= a.len {
        DiffFit(a.len, DiffLen(KindFor(a), a.len), c.num, space);
      }
      if space < a.len {
        ReclaimBounds(a.len, space);
      }
    }
  }

  lemma PlainFit(len: nat, num: nat, space: nat)
    requires len > 0 && space < len * num
    ensures space / len < num && len * (space / len) <= space && (space < len ==> space / len == 0)
  {
    var q, r := DivMod(space, len);
    if q >= num { MulMono(len, num, q); }
  }

  lemma DiffFit(len: nat, per: nat, num: nat, space: nat)
    requires per > 0 && num > 0 && len <= space < len + (num - 1) * per
    ensures 1 + (space - len) / per < num && len + (space - len) / per * per <= space
  {
    PlainFit(per, num - 1, space - len);
  }

  /** With the array header given up there is room for one reading, or for two of two bytes. */
  lemma ReclaimBounds(len: nat, space: nat)
    requires 0 < space < len
    ensures (space + 3) / len <= 1 || (len == 2 && space == 1 && (space + 3) / len == 2)
  {
    var q, r := DivMod(space + 3, len);
    if q >= 2 {
      MulMono(len, 2, q);
    }
  }

  /** Everything the proofs below need to know about an accepted request. */
  ghost predicate Accepted(s: State, a: Args, c: Choice, n: nat) {
    && ValidState(s) && ValidArgs(a) && !Refused(a) && c == Choose(a)
    && (WantsDiff(a) ==> a.len % FieldSize(KindFor(a)) == 0)
    && (c.isDiff ==> DiffLen(KindFor(a), a.len) > 0)
    && HeaderLen(a, c, ChooseTag(s.time, a.time)) < s.size - |s.bytes|
    && n == Fit(a, c, s.size - |s.bytes| - HeaderLen(a, c, ChooseTag(s.time, a.time)))
    && 1 <= n <= c.num
  }

  lemma AcceptedOf(s: State, a: Args)
    requires ValidState(s) && ValidArgs(a) && Outcome(s, a).Added?
    ensures Accepted(s, a, Choose(a), Outcome(s, a).num)
  {
    var c := Choose(a);
    if c.isDiff { DiffLenPositive(KindFor(a), a.len); }
    FitBounds(a, c, s.size - |s.bytes| - HeaderLen(a, c, ChooseTag(s.time, a.time)));
  }

  lemma EncodableOf(s: State, a: Args, c: Choice, n: nat)
    requires Accepted(s, a, c, n)
    ensures Encodable(a, c.isDiff, n)
  {
    DataLenMono(a, c.isDiff, n, a.num);
    DataLenMono(a, false, n, a.num);
    if c.isDiff && n > 1 && !Precomputed(a) {
      ValuesCover(a, n);
    }
  }

  /** The readings of a request are whole groups of fields. */
  lemma ValuesCover(a: Args, n: nat)
    requires 0 < n <= a.num && |a.data| >= a.len * a.num
    requires a.len == FieldsPer(a) * FieldSize(KindFor(a))
    ensures NumDiffs(a, n) + FieldsPer(a) == n * FieldsPer(a) <= |Values(a)|
  {
    var f, w := FieldsPer(a), FieldSize(KindFor(a));
    var fields := a.num * f;
    MulAssoc(f, w, a.num);
    MulAssoc(a.num, f, w);
    var head, tail := a.data[..fields * w], a.data[fields * w..];
    UnpackLength(head, w, fields);
    UnpackConcat(head, tail, w, fields);
    assert a.data == head + tail;
    MulMono(f, n, a.num);
  }

  // ----- What is written can be read back -----

  /** The six-bit count holds every difference array except an over-long precomputed one. */
  predicate CountFits(a: Args, c: Choice, n: nat) {
    c.isDiff && Precomputed(a) ==> n <= MAX_DIFFS + 1
  }

  lemma CountExact(k: Kind, diffs: nat)
    requires diffs < 255
    ensures DiffCount(k, diffs) < 256
    ensures diffs <= MAX_DIFFS ==> DiffCount(k, diffs) / 64 == KindCode(k) && DiffCount(k, diffs) % 64 == diffs
    ensures diffs > MAX_DIFFS ==> DiffCount(k, diffs) % 64 != diffs
  {
    DivModUnique(Or2(KindCode(k), diffs / 64), diffs % 64, 64);
  }

  lemma PayloadLength(a: Args, isDiff: bool, n: nat)
    requires Encodable(a, isDiff, n)
    ensures |PayloadFor(a, isDiff, n)| == DataLen(a, isDiff, n)
  {
    if isDiff && n > 1 && !Precomputed(a) {
      var k, f := KindFor(a), FieldsPer(a);
      PackLength(Diffs(k, Values(a), f, NumDiffs(a, n)), DiffSize(k));
      MulAssoc(n - 1, f, DiffSize(k));
      assert a.len <= a.len * n by { MulMono(a.len, 1, n); }
    }
  }

  lemma WireValid(s: State, a: Args, c: Choice, n: nat)
    requires Accepted(s, a, c, n) && Encodable(a, c.isDiff, n) && CountFits(a, c, n)
    ensures ValidWire(WireFor(s, a, c.isDiff, n))
  {
    hide Choose, Fit, PayloadFor;
    PayloadLength(a, c.isDiff, n);
    MulMono(a.len, 1, n);
    if c.isDiff && n > 1 {
      CountExact(KindFor(a), n - 1);
      MulMono(DiffLen(KindFor(a), a.len), 0, n - 1);
    }
  }

  /** Times below 2^48 survive in whichever form they are stored. */
  lemma StampExact(base: nat, time: nat)
    requires base < ABSOLUTE_RANGE && time < ABSOLUTE_RANGE
    ensures TimeFrom(ChooseTag(base, time), StampFor(base, time), base) == time
  {
    assert Delta(time, base) == time - base by {
      if time < base {
        DivModUnique(-1, time - base + U64, U64);
      }
    }
  }

  /** Both ends keep the same base time. */
  lemma TimeExact(s: State, a: Args, c: Choice, n: nat)
    requires Encodable(a, c.isDiff, n) && s.time < ABSOLUTE_RANGE && a.time < ABSOLUTE_RANGE
    ensures var w := WireFor(s, a, c.isDiff, n);
      && TimeOf(w, s.time) == a.time
      && BaseAfter(w, s.time) == (if a.time == 0 then s.time else a.time)
      && (w.tag.Relative? || w.tag.Extended? ==> s.time != 0)
  {
    StampExact(s.time, a.time);
  }

  /** Later times do not: an absolute stamp keeps only 48 bits. */
  lemma AbsoluteTimeExact(s: State, a: Args, c: Choice, n: nat)
    requires Encodable(a, c.isDiff, n) && ChooseTag(s.time, a.time).Absolute?
    ensures TimeOf(WireFor(s, a, c.isDiff, n), s.time) == a.time <==> a.time < ABSOLUTE_RANGE
  {
  }

  // ----- Room -----

  /** Two-byte readings with one payload byte left: the reclaimed header is counted twice. */
  predicate Corner(s: State, a: Args, c: Choice) {
    && a.len == 2 && c.num > 1 && !IsIdx(a)
    && s.size - |s.bytes| == HeaderLen(a, c, ChooseTag(s.time, a.time)) + 1
  }

  function RecordLen(s: State, a: Args, c: Choice, n: nat): nat
    requires n > 0
  {
    3 + TimeLen(ChooseTag(s.time, a.time)) + (if n > 1 || IsIdx(a) then 3 else 0) + DataLen(a, c.isDiff, n)
  }

  lemma EncodedLength(s: State, a: Args, c: Choice, n: nat)
    requires Accepted(s, a, c, n) && Encodable(a, c.isDiff, n)
    ensures WireFor(s, a, c.isDiff, n).count < 256
    ensures |Encode(WireFor(s, a, c.isDiff, n))| == RecordLen(s, a, c, n)
  {
    PayloadLength(a, c.isDiff, n);
    if n > 1 { CountExact(KindFor(a), n - 1); }
  }

  /** An accepted record stays inside the buffer exactly outside the two-byte corner. */
  lemma FitsExactly(s: State, a: Args, c: Choice, n: nat)
    requires Accepted(s, a, c, n)
    ensures RecordLen(s, a, c, n) <= s.size - |s.bytes| <==> !Corner(s, a, c)
  {
    hide Choose, ChooseTag, FitCount;
    var space := s.size - |s.bytes| - HeaderLen(a, c, ChooseTag(s.time, a.time));
    FitBounds(a, c, space);
    if Corner(s, a, c) {
      CornerOverruns(a, c);
    } else if DataLen(a, c.isDiff, n) > space {
      ReclaimBounds(a.len, space);
      assert n == 1;
      assert DataLen(a, c.isDiff, 1) == a.len;
      assert a.len <= space + 3 by {
        var q, r := DivMod(space + 3, a.len);
      }
    }
  }

  lemma CornerOverruns(a: Args, c: Choice)
    requires a.len == 2 && c.num > 1 && !IsIdx(a) && (c.isDiff ==> DiffLen(KindFor(a), a.len) > 0)
    ensures Fit(a, c, 1) == 2 && DataLen(a, c.isDiff, 2) > 1
  {
    DataLenMono(a, c.isDiff, 2, c.num);
  }

  /** Writer state after one request; a refused request changes nothing. */
  function Next(s: State, a: Args): (t: State)
    requires ValidState(s) && ValidArgs(a)
    ensures !Outcome(s, a).Added? ==> t == s
  {
    if !Outcome(s, a).Added? then s else
      var c, n := Choose(a), Outcome(s, a).num;
      AcceptedOf(s, a);
      EncodableOf(s, a, c, n);
      EncodedLength(s, a, c, n);
      State(if a.time != 0 then a.time else s.time, s.size, s.bytes + Encode(WireFor(s, a, c.isDiff, n)))
  }

  /** The corner exists: ten bytes are written to a seven-byte buffer. */
  lemma CornerExample()
    ensures var s, a := State(0, 7, []), Args(1, 2, 2, 0, 0, [0, 0, 0, 0], 1);
      ValidState(s) && ValidArgs(a) && Outcome(s, a) == Added(2) && |Next(s, a).bytes| == 10
  {
    var s, a := State(0, 7, []), Args(1, 2, 2, 0, 0, [0, 0, 0, 0], 1);
    assert Choose(a) == Choice(false, 2);
    CornerOverruns(a, Choose(a));
    AcceptedOf(s, a);
    EncodableOf(s, a, Choose(a), 2);
    EncodedLength(s, a, Choose(a), 2);
  }
}
