/** Byte layout of one Tagged Data Format record, and the parser that reads it back. */
module TdfWire {
  import opened Arithmetic
  import opened Bytes
  import opened Options
  import opened TdfDiff

  const U64 := 0x1_0000_0000_0000_0000
  /** Absolute timestamps carry 32 bits of seconds and 16 bits of subseconds. */
  const ABSOLUTE_RANGE := 0x1_0000_0000_0000
  const U24 := 0x100_0000

  const SCALE := 8192
  const PERIOD_MASK := 0x7FFF

  /** Data formats, numbered as in the API. */
  const SINGLE := 0
  const TIME_ARRAY := 1
  const IDX_ARRAY := 2
  const DIFF_16_8 := 3

  datatype TimeTag = NoTime | Absolute | Relative | Extended

  datatype ArrayTag = NoArray | TimeArray | DiffArray(kind: Kind) | IdxArray

  function TimeCode(t: TimeTag): nat {
    match t case NoTime => 0 case Absolute => 1 case Relative => 2 case Extended => 3
  }

  function ArrayCode(a: ArrayTag): nat {
    match a case NoArray => 0 case TimeArray => 1 case DiffArray(_) => 2 case IdxArray => 3
  }

  /** Number stored in the upper two bits of the count byte of a difference array. */
  function KindCode(k: Kind): nat {
    match k case Diff16x8 => 1 case Diff32x8 => 2 case Diff32x16 => 3
  }

  /** Bytes of differences per reading. */
  function DiffLen(k: Kind, len: nat): nat {
    len / FieldSize(k) * DiffSize(k)
  }

  /** The contents of one record as laid out on the wire. `count` and `word` fill the array header. */
  datatype Wire = Wire(id: nat, len: nat, tag: TimeTag, stamp: nat, arr: ArrayTag, count: nat, word: nat,
                       payload: seq<byte>)

  /** Length of the payload that the other fields announce. */
  function PayloadLen(w: Wire): nat {
    match w.arr
    case NoArray => w.len
    case DiffArray(k) => w.len + w.count % 64 * DiffLen(k, w.len)
    case _ => w.len * w.count
  }

  ghost predicate ValidWire(w: Wire) {
    && 0 < w.id < 4095 && 0 < w.len < 256 && w.count < 256 && w.word < U16
    && (w.tag.Absolute? ==> w.stamp < ABSOLUTE_RANGE)
    && (w.tag.Relative? ==> w.stamp < U16)
    && (w.tag.Extended? ==> w.stamp < U24)
    && (w.arr.DiffArray? ==> w.count / 64 == KindCode(w.arr.kind))
    && 0 < |w.payload| == PayloadLen(w)
  }

  // ----- Encoding -----

  function HeaderBytes(w: Wire): (r: seq<byte>)
    requires w.id < 4096 && w.len < 256
    ensures |r| == 3
  {
    ToLe(w.id + 4096 * ArrayCode(w.arr) + 16384 * TimeCode(w.tag), 2) + [w.len]
  }

  function TimeLen(t: TimeTag): nat {
    match t case NoTime => 0 case Absolute => 6 case Relative => 2 case Extended => 3
  }

  function TimeBytes(w: Wire): (r: seq<byte>)
    ensures |r| == TimeLen(w.tag)
  {
    match w.tag
    case NoTime => []
    case Absolute => ToLe(w.stamp / U16, 4) + ToLe(w.stamp % U16, 2)
    case Relative => ToLe(w.stamp, 2)
    case Extended => ToLe(w.stamp, 3)
  }

  function ArrayBytes(w: Wire): (r: seq<byte>)
    requires w.count < 256
    ensures |r| == if w.arr.NoArray? then 0 else 3
  {
    if w.arr.NoArray? then [] else [w.count] + ToLe(w.word, 2)
  }

  function Encode(w: Wire): seq<byte>
    requires w.id < 4096 && w.len < 256 && w.count < 256
  {
    HeaderBytes(w) + (TimeBytes(w) + (ArrayBytes(w) + w.payload))
  }

  // ----- Parsing -----

  datatype Parsed = Parsed(time: nat, id: nat, len: nat, dataType: nat, num: nat, period: nat, data: seq<byte>)

  datatype ParseResult = NoMore | Malformed | Ok(rec: Parsed, time: nat, rest: seq<byte>)

  /** Signed value of a 24-bit field. */
  function SignExtend24(x: nat): int {
    if x < U24 / 2 then x else x - U24
  }

  function TimeTagOf(code: nat): TimeTag {
    if code == 1 then Absolute else if code == 2 then Relative else if code == 3 then Extended else NoTime
  }

  /** Reported time, new base time, remaining bytes. */
  function ParseTime(tag: TimeTag, base: nat, buf: seq<byte>): Option<(nat, nat, seq<byte>)> {
    if |buf| <= TimeLen(tag) then None else
      var rest := buf[TimeLen(tag)..];
      match tag
      case NoTime => Some((0, base, rest))
      case Absolute => var t := Le(buf[..4]) * U16 + Le(buf[4..6]); Some((t, t, rest))
      case Relative =>
        var t := (base + Le(buf[..2])) % U64;
        if base == 0 then None else Some((t, t, rest))
      case Extended =>
        var t := (base + SignExtend24(Le(buf[..3]))) % U64;
        if base == 0 then None else Some((t, t, rest))
  }

  function KindOfCode(code: nat): Kind {
    if code == 1 then Diff16x8 else if code == 2 then Diff32x8 else Diff32x16
  }

  /** Data type, count and data length announced by the array flags and the count byte. */
  function ParseCount(code: nat, len: nat, count: nat): Option<(nat, nat, nat)> {
    if code == 2 then
      if count / 64 == 0 then None else
        Some((DIFF_16_8 + count / 64 - 1, count % 64, len + count % 64 * DiffLen(KindOfCode(count / 64), len)))
    else if code == 1 then Some((TIME_ARRAY, count, len * count))
    else Some((IDX_ARRAY, count, len * count))
  }

  function ParsePeriod(code: nat, word: nat): nat {
    if code == 3 || word <= PERIOD_MASK then word else SCALE * (word - (PERIOD_MASK + 1))
  }

  function ParseBody(id: nat, len: nat, code: nat, time: nat, base: nat, buf: seq<byte>): ParseResult {
    if code == 0 then
      if |buf| < len then Malformed
      else Ok(Parsed(time, id, len, SINGLE, 1, 0, buf[..len]), base, buf[len..])
    else if |buf| <= 3 then Malformed
    else match ParseCount(code, len, buf[0])
      case None => Malformed
      case Some((dataType, num, dataLen)) =>
        var rest := buf[3..];
        if |rest| < dataLen then Malformed
        else
          var period := ParsePeriod(code, Le(buf[1..3]));
          Ok(Parsed(time, id, len, dataType, num, period, rest[..dataLen]), base, rest[dataLen..])
  }

  /** Parse one record; `base` is the running base time. */
  function Parse(base: nat, buf: seq<byte>): (r: ParseResult)
    ensures r.Ok? ==> |r.rest| < |buf|
  {
    if |buf| <= 3 then NoMore else
      var flags, len := Le(buf[..2]), buf[2] as int;
      var id := flags % 4096;
      if id == 0 || id == 4095 then Malformed
      else match ParseTime(TimeTagOf(flags / 16384), base, buf[3..])
        case None => Malformed
        case Some((time, base', rest)) => ParseBody(id, len, flags / 4096 % 4, time, base', rest)
  }

  // ----- Round trip of one record -----

  /** Time that the parser reports for a record read with base time `base`. */
  function TimeFrom(tag: TimeTag, stamp: nat, base: nat): int {
    match tag
    case NoTime => 0
    case Absolute => stamp
    case Relative => (base + stamp) % U64
    case Extended => (base + SignExtend24(stamp)) % U64
  }

  function TimeOf(w: Wire, base: nat): int {
    TimeFrom(w.tag, w.stamp, base)
  }

  function BaseAfter(w: Wire, base: nat): int {
    if w.tag.NoTime? then base else TimeOf(w, base)
  }

  /** What the parser is expected to report for a record. */
  function Report(w: Wire, base: nat): Parsed
    requires TimeOf(w, base) >= 0
  {
    match w.arr
    case NoArray => Parsed(TimeOf(w, base), w.id, w.len, SINGLE, 1, 0, w.payload)
    case TimeArray => Parsed(TimeOf(w, base), w.id, w.len, TIME_ARRAY, w.count, ParsePeriod(1, w.word), w.payload)
    case IdxArray => Parsed(TimeOf(w, base), w.id, w.len, IDX_ARRAY, w.count, w.word, w.payload)
    case DiffArray(k) =>
      Parsed(TimeOf(w, base), w.id, w.len, DIFF_16_8 + KindCode(k) - 1, w.count % 64, ParsePeriod(2, w.word), w.payload)
  }

  lemma Powers3()
    ensures Pow256(3) == U24
  {
    Powers();
    assert Pow256(3) == 256 * Pow256(2);
  }

  lemma HeaderRoundTrip(w: Wire, rest: seq<byte>)
    requires ValidWire(w)
    ensures var buf := HeaderBytes(w) + rest; var flags := Le(buf[..2]);
      && buf[2] == w.len && buf[3..] == rest
      && flags % 4096 == w.id && flags / 4096 % 4 == ArrayCode(w.arr) && TimeTagOf(flags / 16384) == w.tag
  {
    Powers();
    var flags := w.id + 4096 * ArrayCode(w.arr) + 16384 * TimeCode(w.tag);
    LeOfToLe(flags, 2);
    assert (HeaderBytes(w) + rest)[..2] == ToLe(flags, 2);
  }

  lemma TimeRoundTrip(w: Wire, base: nat, rest: seq<byte>)
    requires ValidWire(w) && rest != [] && base < U64
    requires w.tag.Relative? || w.tag.Extended? ==> base != 0
    ensures TimeOf(w, base) >= 0
    ensures ParseTime(w.tag, base, TimeBytes(w) + rest) == Some((TimeOf(w, base), BaseAfter(w, base), rest))
  {
    Powers();
    Powers3();
    var buf := TimeBytes(w) + rest;
    assert buf[TimeLen(w.tag)..] == rest;
    match w.tag
    case NoTime =>
    case Absolute =>
      assert buf[..4] == ToLe(w.stamp / U16, 4) && buf[4..6] == ToLe(w.stamp % U16, 2);
      LeOfToLe(w.stamp / U16, 4);
      LeOfToLe(w.stamp % U16, 2);
    case Relative =>
      assert buf[..2] == ToLe(w.stamp, 2);
      LeOfToLe(w.stamp, 2);
    case Extended =>
      assert buf[..3] == ToLe(w.stamp, 3);
      LeOfToLe(w.stamp, 3);
  }

  lemma BodyRoundTrip(w: Wire, time: nat, base: nat, rest: seq<byte>)
    requires ValidWire(w)
    ensures ParseBody(w.id, w.len, ArrayCode(w.arr), time, base, ArrayBytes(w) + w.payload + rest) ==
      Ok(Report(w.(tag := Absolute, stamp := time), 0), base, rest)
  {
    var body := w.payload + rest;
    assert body[..|w.payload|] == w.payload && body[|w.payload|..] == rest;
    if w.arr.NoArray? {
      assert ArrayBytes(w) + w.payload + rest == body;
    } else {
      Powers();
      var buf := ArrayBytes(w) + w.payload + rest;
      assert buf == ArrayBytes(w) + body;
      assert buf[0] == w.count && buf[1..3] == ToLe(w.word, 2) && buf[3..] == body;
      LeOfToLe(w.word, 2);
    }
  }

  /** A record is read back exactly, and what follows it is left unread. */
  lemma RecordRoundTrip(w: Wire, base: nat, rest: seq<byte>)
    requires ValidWire(w) && base < U64
    requires w.tag.Relative? || w.tag.Extended? ==> base != 0
    ensures TimeOf(w, base) >= 0
    ensures Parse(base, Encode(w) + rest) == Ok(Report(w, base), BaseAfter(w, base), rest)
  {
    var tail := ArrayBytes(w) + w.payload + rest;
    var mid := TimeBytes(w) + tail;
    assert Encode(w) + rest == HeaderBytes(w) + mid;
    HeaderRoundTrip(w, mid);
    TimeRoundTrip(w, base, tail);
    BodyRoundTrip(w, TimeOf(w, base), BaseAfter(w, base), rest);
  }
}
