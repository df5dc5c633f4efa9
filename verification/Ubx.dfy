/** UBX frames in a byte stream: a one-pass reference automaton and what it recognises. */
module Ubx {
  import opened Arithmetic
  import opened Bytes

  const SYNC_1: byte := 0xB5
  const SYNC_2: byte := 0x62
  /** Sync bytes, class, id and 16-bit length. */
  const HEADER := 6
  /** Header and checksum. */
  const OVERHEAD := 8

  /** Bytes of the frame being received, frames handed on, and whether a frame was too large. */
  datatype Ref = Ref(pending: seq<byte>, frames: seq<seq<byte>>, oversize: bool)

  /** Total length announced by a frame header. */
  function MessageLen(p: seq<byte>): nat
    requires |p| >= HEADER
  {
    OVERHEAD + Le16(p[4], p[5])
  }

  /** Consume one byte, with a receive buffer of `size` bytes. */
  function Step(size: nat, r: Ref, b: byte): Ref {
    var p := r.pending + [b];
    if r.oversize then r
    else if |p| == 1 then (if b == SYNC_1 then r.(pending := p) else r)
    else if |p| == 2 then (if b == SYNC_2 then r.(pending := p) else r.(pending := []))
    else if |p| < HEADER then r.(pending := p)
    else if MessageLen(p) >= size then r.(oversize := true)
    else if |p| >= MessageLen(p) then r.(pending := [], frames := r.frames + [p])
    else r.(pending := p)
  }

  function Run(size: nat, r: Ref, bs: seq<byte>): Ref
    decreases |bs|
  {
    if bs == [] then r else Run(size, Step(size, r, bs[0]), bs[1..])
  }

  lemma {:induction false} RunConcat(size: nat, r: Ref, a: seq<byte>, b: seq<byte>)
    ensures Run(size, r, a + b) == Run(size, Run(size, r, a), b)
    decreases |a|
  {
    if a == [] {
      assert a + b == b;
    } else {
      RunConcat(size, Step(size, r, a[0]), a[1..], b);
      assert (a + b)[1..] == a[1..] + b;
    }
  }

  lemma RunOne(size: nat, r: Ref, b: byte)
    ensures Run(size, r, [b]) == Step(size, r, b)
  {
    assert [b][1..] == [];
  }

  /** Once a frame was too large the automaton stops; so a clean run has clean prefixes. */
  lemma {:induction false} OversizeStays(size: nat, r: Ref, bs: seq<byte>)
    requires r.oversize
    ensures Run(size, r, bs) == r
    decreases |bs|
  {
    if bs != [] {
      OversizeStays(size, r, bs[1..]);
    }
  }

  // ----- Runs of bytes inside a frame -----

  ghost predicate Synced(r: Ref) {
    |r.pending| >= 2 && !r.oversize
  }

  /** Header bytes may arrive together. */
  lemma {:induction false} HeaderBytes(size: nat, r: Ref, bs: seq<byte>)
    requires Synced(r) && |r.pending| + |bs| < HEADER
    ensures Run(size, r, bs) == r.(pending := r.pending + bs)
    decreases |bs|
  {
    if bs == [] {
      assert r.pending + bs == r.pending;
    } else {
      HeaderBytes(size, Step(size, r, bs[0]), bs[1..]);
      assert r.pending + [bs[0]] + bs[1..] == r.pending + bs;
    }
  }

  /** So may the last ones, which decide whether the frame fits. */
  lemma HeaderEnd(size: nat, r: Ref, bs: seq<byte>)
    requires Synced(r) && bs != [] && |r.pending| + |bs| == HEADER
    ensures if MessageLen(r.pending + bs) >= size then Run(size, r, bs).oversize
      else Run(size, r, bs) == r.(pending := r.pending + bs)
  {
    hide Run;
    var a, z := bs[..|bs| - 1], bs[|bs| - 1];
    assert bs == a + [z];
    RunConcat(size, r, a, [z]);
    HeaderBytes(size, r, a);
    RunOne(size, r.(pending := r.pending + a), z);
    Assoc(r.pending, a, [z]);
    LastHeaderByte(size, r.(pending := r.pending + a), z);
  }

  lemma LastHeaderByte(size: nat, r: Ref, z: byte)
    requires Synced(r) && |r.pending| + 1 == HEADER
    ensures Step(size, r, z) ==
      if MessageLen(r.pending + [z]) >= size then r.(oversize := true) else r.(pending := r.pending + [z])
  {
  }

  /** Any part of a header, in one statement. */
  lemma HeaderPart(size: nat, r: Ref, bs: seq<byte>)
    requires r.oversize || (2 <= |r.pending| < HEADER && |r.pending| + |bs| <= HEADER)
    ensures var t := Run(size, r, bs);
      if r.oversize || (|r.pending| + |bs| == HEADER && MessageLen(r.pending + bs) >= size) then t.oversize
      else t == r.(pending := r.pending + bs)
  {
    hide Run;
    if r.oversize {
      OversizeStays(size, r, bs);
    } else if |r.pending| + |bs| < HEADER {
      HeaderBytes(size, r, bs);
    } else {
      HeaderEnd(size, r, bs);
    }
  }

  /** A frame whose header is complete and fits. */
  ghost predicate InFrame(size: nat, r: Ref) {
    && Synced(r) && HEADER <= |r.pending| && MessageLen(r.pending) < size && |r.pending| < MessageLen(r.pending)
  }

  /** Payload bytes may arrive together as well. */
  lemma {:induction false} PayloadBytes(size: nat, r: Ref, bs: seq<byte>)
    requires InFrame(size, r) && |r.pending| + |bs| <= MessageLen(r.pending)
    ensures Run(size, r, bs) ==
      if |r.pending| + |bs| < MessageLen(r.pending) then r.(pending := r.pending + bs)
      else r.(pending := [], frames := r.frames + [r.pending + bs])
    decreases |bs|
  {
    if bs == [] {
      assert r.pending + bs == r.pending;
    } else {
      var p := r.pending + [bs[0]];
      assert MessageLen(p) == MessageLen(r.pending);
      assert r.pending + bs == p + bs[1..];
      if |p| == MessageLen(p) {
        assert bs[1..] == [] && p + bs[1..] == p;
        assert Run(size, Step(size, r, bs[0]), bs[1..]) == Step(size, r, bs[0]);
      } else {
        PayloadBytes(size, Step(size, r, bs[0]), bs[1..]);
      }
    }
  }

  // ----- Messages as the transmitter builds them -----

  datatype Message = Message(cls: byte, id: byte, payload: seq<byte>)

  /** The two running sums over everything between the sync bytes and the checksum. */
  function Sums(bs: seq<byte>, a: byte, b: byte): (byte, byte)
    decreases |bs|
  {
    if bs == [] then (a, b) else
      var a1: byte := (a + bs[0]) % 256;
      Sums(bs[1..], a1, (b + a1) % 256)
  }

  ghost predicate Fits(size: nat, m: Message) {
    OVERHEAD + |m.payload| < size <= U16
  }

  /** A finished frame. */
  function Frame(m: Message): (f: seq<byte>)
    requires |m.payload| < U16
    ensures |f| == OVERHEAD + |m.payload|
  {
    var body := [m.cls, m.id, |m.payload| % 256, |m.payload| / 256] + m.payload;
    var (a, b) := Sums(body, 0, 0);
    [SYNC_1, SYNC_2] + body + [a, b]
  }

  function Idle(frames: seq<seq<byte>>): Ref {
    Ref([], frames, false)
  }

  /** An idle receiver hands on exactly the frame that was sent. */
  lemma FrameReceived(size: nat, m: Message, frames: seq<seq<byte>>)
    requires Fits(size, m)
    ensures Run(size, Idle(frames), Frame(m)) == Idle(frames + [Frame(m)])
  {
    hide Run, Step;
    var f := Frame(m);
    var sync, head, rest := f[..2], f[2..HEADER], f[HEADER..];
    assert f == sync + (head + rest);
    RunConcat(size, Idle(frames), sync, head + rest);
    SyncReceived(size, frames, sync);
    var r := Idle(frames).(pending := sync);
    RunConcat(size, r, head, rest);
    HeaderEnd(size, r, head);
    assert sync + head == f[..HEADER];
    assert MessageLen(f[..HEADER]) == |f|;
    PayloadBytes(size, r.(pending := f[..HEADER]), rest);
    assert f[..HEADER] + rest == f;
  }

  lemma SyncReceived(size: nat, frames: seq<seq<byte>>, sync: seq<byte>)
    requires sync == [SYNC_1, SYNC_2]
    ensures Run(size, Idle(frames), sync) == Idle(frames).(pending := sync)
  {
    var r := Idle(frames);
    assert sync == [SYNC_1] + [SYNC_2];
    RunConcat(size, r, [SYNC_1], [SYNC_2]);
    RunOne(size, r, SYNC_1);
    RunOne(size, r.(pending := [SYNC_1]), SYNC_2);
  }

  function Frames(ms: seq<Message>): seq<seq<byte>>
    requires forall i :: 0 <= i < |ms| ==> |ms[i].payload| < U16
  {
    if ms == [] then [] else [Frame(ms[0])] + Frames(ms[1..])
  }

  function Stream(ms: seq<Message>): seq<byte>
    requires forall i :: 0 <= i < |ms| ==> |ms[i].payload| < U16
  {
    if ms == [] then [] else Frame(ms[0]) + Stream(ms[1..])
  }

  /** Back-to-back messages are all received, in order. */
  lemma {:induction false} StreamReceived(size: nat, ms: seq<Message>, frames: seq<seq<byte>>)
    requires forall i :: 0 <= i < |ms| ==> Fits(size, ms[i])
    requires forall i :: 0 <= i < |ms| ==> |ms[i].payload| < U16
    ensures Run(size, Idle(frames), Stream(ms)) == Idle(frames + Frames(ms))
    decreases |ms|
  {
    hide Step, Frame;
    if ms == [] {
      assert frames + [] == frames;
    } else {
      FrameReceived(size, ms[0], frames);
      RunConcat(size, Idle(frames), Frame(ms[0]), Stream(ms[1..]));
      StreamReceived(size, ms[1..], frames + [Frame(ms[0])]);
      assert frames + [Frame(ms[0])] + Frames(ms[1..]) == frames + Frames(ms);
    }
  }

  /** Bytes other than the first sync byte are skipped while idle. */
  lemma {:induction false} NoiseSkipped(size: nat, r: Ref, noise: seq<byte>)
    requires r.pending == [] && !r.oversize && SYNC_1 !in noise
    ensures Run(size, r, noise) == r
    decreases |noise|
  {
    if noise != [] {
      NoiseSkipped(size, r, noise[1..]);
    }
  }

  // ----- Noise before a frame -----

  /** The two sync bytes nowhere follow each other. */
  ghost predicate NoPair(noise: seq<byte>) {
    forall i :: 0 < i < |noise| ==> !(noise[i - 1] == SYNC_1 && noise[i] == SYNC_2)
  }

  /** First sync bytes at the end. */
  function Trail(noise: seq<byte>): nat {
    if noise == [] || noise[|noise| - 1] != SYNC_1 then 0 else Trail(noise[..|noise| - 1]) + 1
  }

  /** Such noise leaves the receiver idle, or half synchronised after an odd number of first sync bytes. */
  lemma {:induction false} NoiseState(size: nat, frames: seq<seq<byte>>, noise: seq<byte>)
    requires NoPair(noise)
    ensures Run(size, Idle(frames), noise) ==
      if Trail(noise) % 2 == 0 then Idle(frames) else Idle(frames).(pending := [SYNC_1])
    decreases |noise|
  {
    if noise != [] {
      var p, b := noise[..|noise| - 1], noise[|noise| - 1];
      assert noise == p + [b];
      NoiseState(size, frames, p);
      RunConcat(size, Idle(frames), p, [b]);
      RunOne(size, Run(size, Idle(frames), p), b);
      assert Trail(p) > 0 ==> p[|p| - 1] == SYNC_1;
      hide Run;
    }
  }

  function TotalLen(frames: seq<seq<byte>>): nat {
    if frames == [] then 0 else TotalLen(frames[..|frames| - 1]) + |frames[|frames| - 1]|
  }

  lemma TotalMore(frames: seq<seq<byte>>, f: seq<byte>)
    ensures TotalLen(frames + [f]) == TotalLen(frames) + |f|
  {
    assert (frames + [f])[..|frames|] == frames;
  }

  /** Frames are made of the bytes received. */
  lemma {:induction false} NotMoreThanReceived(size: nat, r: Ref, bs: seq<byte>)
    ensures var t := Run(size, r, bs);
      TotalLen(t.frames) + |t.pending| <= TotalLen(r.frames) + |r.pending| + |bs|
    decreases |bs|
  {
    if bs != [] {
      TotalMore(r.frames, r.pending + [bs[0]]);
      NotMoreThanReceived(size, Step(size, r, bs[0]), bs[1..]);
    }
  }

  /**
   * A frame behind noise is received if and only if the noise ends in an even number of first sync
   * bytes: the byte that follows a first sync byte is not looked at again.
   */
  lemma NoisyFrame(size: nat, m: Message, frames: seq<seq<byte>>, noise: seq<byte>)
    requires Fits(size, m) && NoPair(noise)
    ensures Run(size, Idle(frames), noise + Frame(m)) == Idle(frames + [Frame(m)]) <==> Trail(noise) % 2 == 0
  {
    var f := Frame(m);
    RunConcat(size, Idle(frames), noise, f);
    NoiseState(size, frames, noise);
    if Trail(noise) % 2 == 0 {
      FrameReceived(size, m, frames);
    } else {
      HalfLoses(size, frames, f);
    }
    hide Run;
  }

  lemma HalfLoses(size: nat, frames: seq<seq<byte>>, f: seq<byte>)
    requires |f| > 0 && f[0] == SYNC_1
    ensures Run(size, Idle(frames).(pending := [SYNC_1]), f) != Idle(frames + [f])
  {
    hide Run;
    var half := Idle(frames).(pending := [SYNC_1]);
    assert f == [SYNC_1] + f[1..];
    RunConcat(size, half, [SYNC_1], f[1..]);
    RunOne(size, half, SYNC_1);
    NotMoreThanReceived(size, Idle(frames), f[1..]);
    TotalMore(frames, f);
  }
}
