/** The buffer objects: a writer that appends records in place and a parser that consumes them. */
module TdfBuffer {
  import opened Arithmetic
  import opened Bytes
  import opened Options
  import opened TdfDiff
  import opened TdfWire
  import opened Tdf
  import opened TdfRoundTrip

  /** Setting the array flags afterwards gives the header with both flags. */
  lemma PatchedHeader(id: nat, tag: TimeTag, arr: ArrayTag)
    requires id < 4096
    ensures var plain := id + 16384 * TimeCode(tag); var full := plain + 4096 * ArrayCode(arr);
      var high := plain / 256 + 16 * ArrayCode(arr);
      ToLe(full, 2) == [plain % 256, high % 256] && high < 256
  {
    var plain := id + 16384 * TimeCode(tag);
    var full := plain + 4096 * ArrayCode(arr);
    assert full / 256 == plain / 256 + 16 * ArrayCode(arr);
    assert ToLe(full, 2) == [full % 256] + ToLe(full / 256, 1);
    assert ToLe(full / 256, 1) == [full / 256 % 256] + ToLe(full / 256 / 256, 0);
  }

  lemma PatchInside(was: seq<byte>, x: byte, y: byte, z: byte, rest: seq<byte>, y': byte)
    ensures (was + [x, y, z] + rest)[|was| + 1 := y'] == was + ([x, y', z] + rest)
  {
  }

  /** Setting the array flags in the header of a record that was just started. */
  lemma MarkedHeader(was: seq<byte>, w: Wire)
    requires w.id < 4096 && w.len < 256
    ensures var flags := w.id + 16384 * TimeCode(w.tag);
      var bytes := was + [flags % 256, flags / 256 % 256, w.len] + StampBytes(w.tag, w.stamp);
      && bytes[|was| + 1] + 16 * ArrayCode(w.arr) < 256
      && bytes[|was| + 1 := bytes[|was| + 1] + 16 * ArrayCode(w.arr)] == was + (HeaderBytes(w) + TimeBytes(w))
  {
    hide ToLe;
    PatchedHeader(w.id, w.tag, w.arr);
    var flags := w.id + 16384 * TimeCode(w.tag);
    PatchInside(was, flags % 256, flags / 256 % 256, w.len, TimeBytes(w), flags / 256 + 16 * ArrayCode(w.arr));
  }

  /** Replacing the count byte of an array header. */
  lemma Recount(before: seq<byte>, num: byte, count: byte, word: seq<byte>)
    requires |word| == 2
    ensures var bs := before + ([num] + word);
      bs[|bs| - 3 := count] == before + ([count] + word)
  {
  }

  lemma JoinRecord(was: seq<byte>, w: Wire)
    requires w.id < 4096 && w.len < 256 && w.count < 256
    ensures was + (HeaderBytes(w) + TimeBytes(w)) + ArrayBytes(w) + w.payload == was + Encode(w)
  {
  }

  class Writer {
    const size: nat
    var time: nat
    var bytes: seq<byte>

    ghost function Value(): State
      reads this
    {
      State(time, size, bytes)
    }

    constructor (size: nat)
      ensures this.size == size && Value() == State(0, size, [])
    {
      this.size, time, bytes := size, 0, [];
    }

    /** Append the base header and the timestamp, and move the base time. */
    method AddHeader(id: nat, len: nat, tag: TimeTag, stamp: nat, now: nat)
      requires id < 4096 && len < 256
      modifies this
      ensures var flags := id + 16384 * TimeCode(tag);
        bytes == old(bytes) + [flags % 256, flags / 256 % 256, len] + StampBytes(tag, stamp)
      ensures time == if tag.NoTime? then old(time) else now
    {
      var flags := id + 16384 * TimeCode(tag);
      bytes := bytes + [flags % 256, flags / 256 % 256, len];
      bytes := bytes + StampBytes(tag, stamp);
      if !tag.NoTime? {
        time := now;
      }
    }

    /** Append the array header when one is needed, and mark it in the record header at `at`. */
    method AddArrayHeader(at: nat, arr: ArrayTag, count: nat, word: nat)
      requires at + 1 < |bytes| && bytes[at + 1] + 16 * ArrayCode(arr) < 256 && count < 256
      modifies `bytes
      ensures bytes == old(bytes)[at + 1 := old(bytes)[at + 1] + 16 * ArrayCode(arr)] +
        if arr.NoArray? then [] else [count] + ToLe(word, 2)
    {
      if arr.NoArray? {
        return;
      }
      bytes := bytes[at + 1 := bytes[at + 1] + 16 * ArrayCode(arr)];
      bytes := bytes + ([count] + ToLe(word, 2));
    }

    /** Both headers of a record; the count of a difference array replaces `num` at the end. */
    method AddHeaders(w: Wire, num: nat, now: nat)
      requires w.id < 4096 && w.len < 256 && w.count < 256 && num < 256
      requires !w.arr.DiffArray? ==> w.count == num
      modifies this
      ensures bytes == old(bytes) + (HeaderBytes(w) + TimeBytes(w)) + ArrayBytes(w)
      ensures time == if w.tag.NoTime? then old(time) else now
    {
      hide ToLe;
      ghost var was := bytes;
      var at := |bytes|;
      AddHeader(w.id, w.len, w.tag, w.stamp, now);
      MarkedHeader(was, w);
      hide HeaderBytes, TimeBytes;
      ghost var marked := was + (HeaderBytes(w) + TimeBytes(w));
      AddArrayHeader(at, w.arr, num, w.word);
      if w.arr.DiffArray? {
        Recount(marked, num, w.count, ToLe(w.word, 2));
        var count := |bytes| - 3;
        bytes := bytes[count := w.count];
      }
    }

    /** Data bytes of a record: a piece of the input, or one reading and the differences computed from the rest. */
    method Payload(a: Args, isDiff: bool, n: nat) returns (payload: seq<byte>)
      requires Encodable(a, isDiff, n)
      ensures payload == PayloadFor(a, isDiff, n)
    {
      hide Pack, Diffs, Values, FieldsPer, KindFor;
      if isDiff && n > 1 && !Precomputed(a) {
        MulMono(a.len, 1, n);
        var k, f, m := KindFor(a), FieldsPer(a), NumDiffs(a, n);
        var out := new nat[m];
        EncodeFields(k, m, Values(a), f, out);
        assert out[..] == out[..m];
        payload := a.data[..a.len] + Pack(out[..], DiffSize(k));
      } else {
        payload := a.data[..DataLen(a, isDiff, n)];
      }
    }

    /** Append the record for `n` readings. */
    method AddRecord(a: Args, isDiff: bool, n: nat, tag: TimeTag, stamp: nat)
      requires Encodable(a, isDiff, n) && a.id < 4096 && a.len < 256 && n < 256
      requires tag == ChooseTag(time, a.time) && stamp == StampFor(time, a.time)
      requires isDiff && n > 1 ==> !IsIdx(a) && DiffCount(KindFor(a), n - 1) < 256
      modifies this
      ensures bytes == old(bytes) + Encode(WireFor(old(Value()), a, isDiff, n))
      ensures time == if a.time != 0 then a.time else old(time)
    {
      ghost var was := bytes;
      var payload := Payload(a, isDiff, n);
      var w := Wire(a.id, a.len, tag, stamp, ArrayFor(a, isDiff, n),
                    if isDiff && n > 1 then DiffCount(KindFor(a), n - 1) else n, WordFor(a), payload);
      AddHeaders(w, n, a.time);
      bytes := bytes + w.payload;
      JoinRecord(was, w);
    }

    /** Decide between plain and difference coding by scanning the data. */
    method ChooseForm(a: Args) returns (isDiff: bool, num: nat)
      requires ValidArgs(a) && a.num > 0 && (WantsDiff(a) ==> a.len % FieldSize(KindFor(a)) == 0 && a.len > 0)
      ensures Choice(isDiff, num) == Choose(a)
    {
      isDiff, num := WantsDiff(a) && a.num > 2, a.num;
      if isDiff && !Precomputed(a) {
        DiffLenPositive(KindFor(a), a.len);
        ValuesCover(a, a.num);
        TimesIsProduct(a.num, FieldsPer(a));
        var diffs := NumValidDiffs(KindFor(a), Values(a), FieldsPer(a), a.num);
        if diffs < 0 {
          isDiff, num := false, -diffs;
        } else {
          num := 1 + diffs;
        }
      }
    }

    /** Add readings to the buffer: as many as fit, in the most compact form. */
    method AddCore(a: Args) returns (r: AddResult)
      requires ValidState(Value()) && ValidArgs(a)
      modifies this
      ensures r == Outcome(old(Value()), a)
      ensures Value() == Next(old(Value()), a)
      ensures !r.Added? ==> Value() == old(Value())
    {
      hide ChooseTag, StampFor, Choose, FitCount;
      ghost var s := Value();
      var remaining := size - |bytes|;
      if Refused(a) {
        return EInval;
      }
      if 3 + (if a.time != 0 then 6 else 0) + a.len > size {
        return ENoSpc;
      }
      var tag, stamp := ChooseTag(time, a.time), StampFor(time, a.time);
      if WantsDiff(a) && a.len % FieldSize(KindFor(a)) != 0 {
        return EInval;
      }
      var isDiff, num := ChooseForm(a);
      var header := 3 + (if num > 1 || IsIdx(a) then 3 else 0) + TimeLen(tag);
      if remaining <= header {
        return ENoMem;
      }
      if isDiff {
        DiffLenPositive(KindFor(a), a.len);
      }
      var n := Fit(a, Choice(isDiff, num), remaining - header);
      if n == 0 {
        return ENoMem;
      }
      AcceptedOf(s, a);
      EncodableOf(s, a, Choose(a), n);
      if n > 1 {
        CountExact(KindFor(a), n - 1);
      }
      AddRecord(a, isDiff, n, tag, stamp);
      return Added(n);
    }
  }

  /** Where the parser stops in a malformed record: base time and unread bytes, a proper suffix. */
  function Stopped(base: nat, buf: seq<byte>): (r: (nat, seq<byte>))
    requires |buf| > 3
    ensures |r.1| < |buf| && r.1 == buf[|buf| - |r.1|..]
  {
    var flags, rest := Le(buf[..2]), buf[3..];
    var id, tag := flags % 4096, TimeTagOf(flags / 16384);
    if id == 0 || id == 4095 || |rest| <= TimeLen(tag) then (base, rest)
    else match ParseTime(tag, base, rest)
      case None => (base, rest[TimeLen(tag)..])
      case Some((_, base', body)) =>
        if flags / 4096 % 4 != 0 && |body| > 3 then (base', body[3..]) else (base', body)
  }

  class Parser {
    var time: nat
    var buf: seq<byte>

    constructor (data: seq<byte>)
      ensures time == 0 && buf == data
    {
      time, buf := 0, data;
    }

    /** Pull one record off the front. On an error part of the record has been consumed. */
    method ParseNext() returns (r: ParseResult)
      modifies this
      ensures r == Parse(old(time), old(buf))
      ensures r.Ok? ==> time == r.time && buf == r.rest
      ensures r.NoMore? ==> time == old(time) && buf == old(buf)
      ensures r.Malformed? ==> |old(buf)| > 3 && (time, buf) == Stopped(old(time), old(buf))
    {
      if |buf| <= 3 {
        return NoMore;
      }
      var flags, len := Le(buf[..2]), buf[2] as int;
      buf := buf[3..];
      var id, tag := flags % 4096, TimeTagOf(flags / 16384);
      if id == 0 || id == 4095 || |buf| <= TimeLen(tag) {
        return Malformed;
      }
      var stamp := ParseTime(tag, time, buf);
      if stamp.None? {
        buf := buf[TimeLen(tag)..];
        return Malformed;
      }
      var parsedTime := stamp.value.0;
      time, buf := stamp.value.1, stamp.value.2;
      var code := flags / 4096 % 4;
      r := ParseBody(id, len, code, parsedTime, time, buf);
      if r.Ok? {
        buf := r.rest;
      } else if code != 0 && |buf| > 3 {
        buf := buf[3..];
      }
    }
  }

  /** Rebuild reading `idx` of a difference array into a fresh copy. */
  method DiffReconstruct(p: Parsed, idx: nat) returns (r: Option<seq<byte>>)
    ensures r == Rebuild(p, idx)
  {
    if !(DIFF_16_8 <= p.dataType < INVALID_FORMAT) || idx > p.num || |p.data| < p.len {
      return None;
    }
    var k := KindOfCode(p.dataType - DIFF_16_8 + 1);
    var f := p.len / FieldSize(k);
    var base, d := Unpack(p.data[..p.len], FieldSize(k)), Unpack(p.data[p.len..], DiffSize(k));
    if |base| != f || Times(idx, f) > |d| {
      return None;
    }
    var out := new nat[f];
    ReconstructReading(k, base, d, idx, out);
    return Some(Pack(out[..], FieldSize(k)) + p.data[f * FieldSize(k)..p.len]);
  }

  function StampBytes(tag: TimeTag, stamp: nat): (r: seq<byte>)
    ensures |r| == TimeLen(tag)
  {
    TimeBytes(Wire(0, 0, tag, stamp, NoArray, 0, 0, []))
  }
}
