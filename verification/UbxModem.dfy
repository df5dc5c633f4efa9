/** The resumable frame reader: a worker that runs whenever the pipe has bytes, however few. */
module UbxModem {
  import opened Arithmetic
  import opened Bytes
  import opened Ubx

  /** Buffer and handed frames are those of the reference after `bytes`, unless it met an oversize frame. */
  ghost predicate Follows(size: nat, bytes: seq<byte>, held: seq<byte>, handed: seq<seq<byte>>) {
    var r := Run(size, Idle([]), bytes);
    r.oversize || (r.pending == held && r.frames == handed)
  }

  ghost predicate Oversize(size: nat, bytes: seq<byte>) {
    Run(size, Idle([]), bytes).oversize
  }

  /** What is held after one more byte of a frame that is not synchronised. */
  ghost function NextSync(held: seq<byte>, b: byte): seq<byte> {
    if held == [] then (if b == SYNC_1 then [b] else []) else if b == SYNC_2 then held + [b] else []
  }

  /** One byte before the frame is synchronised. */
  lemma SyncByte(size: nat, bytes: seq<byte>, held: seq<byte>, handed: seq<seq<byte>>, b: byte)
    requires Follows(size, bytes, held, handed) && |held| < 2
    ensures Follows(size, bytes + [b], NextSync(held, b), handed)
  {
    hide Run;
    var r := Run(size, Idle([]), bytes);
    RunConcat(size, Idle([]), bytes, [b]);
    RunOne(size, r, b);
  }

  /** Header bytes, up to the end of the header. */
  lemma HeaderMore(size: nat, bytes: seq<byte>, held: seq<byte>, handed: seq<seq<byte>>, got: seq<byte>)
    requires Follows(size, bytes, held, handed) && 2 <= |held| < HEADER && |held| + |got| <= HEADER
    ensures |held| + |got| == HEADER && MessageLen(held + got) >= size ==> Oversize(size, bytes + got)
    ensures Follows(size, bytes + got, held + got, handed)
  {
    hide Run;
    var r := Run(size, Idle([]), bytes);
    RunConcat(size, Idle([]), bytes, got);
    HeaderPart(size, r, got);
  }

  /** Bytes behind a complete header, up to the end of the frame. */
  lemma PayloadMore(size: nat, bytes: seq<byte>, held: seq<byte>, handed: seq<seq<byte>>, got: seq<byte>)
    requires Follows(size, bytes, held, handed) && HEADER <= |held| && MessageLen(held) < size
    requires |held| < MessageLen(held) && |held| + |got| <= MessageLen(held)
    ensures if |held| + |got| < MessageLen(held) then Follows(size, bytes + got, held + got, handed)
      else Follows(size, bytes + got, [], handed + [held + got])
  {
    hide Run;
    var r := Run(size, Idle([]), bytes);
    RunConcat(size, Idle([]), bytes, got);
    if r.oversize {
      OversizeStays(size, r, got);
    } else {
      PayloadBytes(size, r, got);
    }
  }

  /** After an oversize frame the reference has stopped. */
  lemma OversizeMore(size: nat, bytes: seq<byte>, got: seq<byte>)
    requires Oversize(size, bytes)
    ensures Oversize(size, bytes + got)
  {
    hide Run;
    RunConcat(size, Idle([]), bytes, got);
    OversizeStays(size, Run(size, Idle([]), bytes), got);
  }

  lemma OversizeFollows(size: nat, bytes: seq<byte>, held: seq<byte>, handed: seq<seq<byte>>)
    requires Oversize(size, bytes)
    ensures Follows(size, bytes, held, handed)
  {
  }

  class Modem {
    const rx: array<byte>
    var pending: nat
    /** Frames passed to the message handlers. */
    var handed: seq<seq<byte>>
    /** Bytes the device will still deliver. */
    var pipe: seq<byte>
    /** Bytes delivered so far. */
    ghost var consumed: seq<byte>
    /** The last read got less than it asked for. */
    ghost var starved: bool

    /** The receive buffer never holds more than one unfinished frame, and it fits. */
    ghost predicate Shape()
      reads this, rx
    {
      && HEADER < rx.Length <= U16 && pending < rx.Length
      && (pending >= 1 ==> rx[0] == SYNC_1)
      && (pending >= 2 ==> rx[1] == SYNC_2)
      && (pending >= HEADER ==> MessageLen(rx[..pending]) < rx.Length && pending < MessageLen(rx[..pending]))
    }

    ghost predicate Agrees()
      requires pending <= rx.Length
      reads this, rx
    {
      Follows(rx.Length, consumed, rx[..pending], handed)
    }

    constructor (size: nat, stream: seq<byte>)
      requires HEADER < size <= U16
      ensures Shape() && Agrees() && handed == [] && pipe == stream && consumed == [] && fresh(rx) && rx.Length == size
    {
      rx := new byte[size];
      pending, handed, pipe, consumed, starved := 0, [], stream, [], false;
    }

    /** Read up to `n` bytes to the end of the buffer. The pipe may deliver fewer, or fail. */
    method Receive(n: nat) returns (received: int, ghost got: seq<byte>)
      requires pending + n <= rx.Length
      modifies rx, `pipe, `consumed, `starved
      ensures starved == (received < n) && -1 <= received <= n && |got| == if received < 0 then 0 else received
      ensures old(pipe) == got + pipe && consumed == old(consumed) + got
      ensures consumed + pipe == old(consumed) + old(pipe)
      ensures rx[..pending + |got|] == old(rx[..pending]) + got
    {
      ghost var held := rx[..pending];
      received :| -1 <= received <= n && received <= |pipe|;
      starved := received < n;
      if received > 0 {
        var data := pipe[..received];
        got := data;
        forall i | 0 <= i < received {
          rx[pending + i] := data[i];
        }
        pipe, consumed := pipe[received..], consumed + data;
        assert rx[..pending + received] == held + got;
      } else {
        got := [];
        assert held + got == held && consumed + got == consumed && got + pipe == pipe;
      }
      Assoc(old(consumed), got, pipe);
    }

    /** Pull one byte while the buffer is not synchronised, and keep it where it belongs to the sync bytes. */
    method PullSync() returns (stop: bool)
      requires Shape() && Agrees() && pending < 2
      modifies rx, `pipe, `consumed, `starved, `pending
      ensures Shape() && Agrees() && pending <= 2
      ensures if stop then starved else |pipe| < |old(pipe)|
      ensures |pipe| <= |old(pipe)| && consumed + pipe == old(consumed) + old(pipe)
    {
      hide Follows;
      ghost var was, held := consumed, rx[..pending];
      var received, got := Receive(1);
      if received <= 0 {
        assert got == [] && rx[..pending] == held && consumed == was;
        return true;
      }
      var b := rx[pending];
      assert got == [b] && consumed == was + [b];
      SyncByte(rx.Length, was, held, handed, b);
      ghost var next := NextSync(held, b);
      if (pending == 0 && b != SYNC_1) || (pending == 1 && b != SYNC_2) {
        pending := 0;
      } else {
        pending := pending + 1;
        assert rx[..pending] == held + [b];
      }
      assert rx[..pending] == next;
      return false;
    }

    /** Pull single bytes until both sync bytes are in the buffer. */
    method ReadToSync() returns (stop: bool)
      requires Shape() && Agrees()
      modifies rx, `pipe, `consumed, `starved, `pending
      ensures Shape() && Agrees() && handed == old(handed)
      ensures if stop then starved else pending >= 2
      ensures |pipe| <= |old(pipe)| && consumed + pipe == old(consumed) + old(pipe)
      ensures old(pending) >= 2 ==> !stop && pending == old(pending)
    {
      hide Follows;
      while pending < 2
        invariant Shape() && Agrees() && handed == old(handed)
        invariant |pipe| <= |old(pipe)| && consumed + pipe == old(consumed) + old(pipe)
        invariant old(pending) >= 2 ==> pending == old(pending)
        decreases |pipe|
      {
        stop := PullSync();
        if stop {
          return;
        }
      }
      return false;
    }

    /** Drop an oversize frame together with whatever the pipe has ready. */
    method Discard()
      requires HEADER < rx.Length <= U16 && Oversize(rx.Length, consumed)
      modifies rx, `pipe, `consumed, `starved, `pending
      ensures Shape() && Agrees() && Oversize(rx.Length, consumed)
      ensures |pipe| <= |old(pipe)| && consumed + pipe == old(consumed) + old(pipe)
    {
      hide Follows, Oversize;
      pending := 0;
      var dropped, lost := Receive(rx.Length);
      OversizeMore(rx.Length, old(consumed), lost);
      OversizeFollows(rx.Length, consumed, rx[..pending], handed);
    }

    /** Pull the rest of the frame header, and give up on frames that cannot fit. */
    method ReadHeader() returns (stop: bool)
      requires Shape() && Agrees() && pending >= 2
      modifies rx, `pipe, `consumed, `starved, `pending
      ensures Shape() && Agrees() && handed == old(handed)
      ensures if stop then starved || Oversize(rx.Length, consumed) else pending >= HEADER
      ensures |pipe| <= |old(pipe)| && consumed + pipe == old(consumed) + old(pipe)
    {
      if pending >= HEADER {
        return false;
      }
      hide Follows, Oversize;
      ghost var was, held := consumed, rx[..pending];
      var toRead := HEADER - pending;
      var received, got := Receive(toRead);
      HeaderMore(rx.Length, was, held, handed, got);
      assert rx[0] == (held + got)[0] && rx[1] == (held + got)[1];
      if received < 0 {
        return true;
      }
      pending := pending + received;
      if received != toRead {
        return true;
      }
      if OVERHEAD + Le16(rx[4], rx[5]) >= rx.Length {
        assert MessageLen(rx[..pending]) >= rx.Length;
        Discard();
        return true;
      }
      return false;
    }

    /** Pull the rest of the frame and hand it on once it is complete. */
    method ReadPayload() returns (stop: bool)
      requires Shape() && Agrees() && pending >= HEADER
      modifies rx, `pipe, `consumed, `starved, `pending, `handed
      ensures Shape() && Agrees()
      ensures if stop then starved else |pipe| < |old(pipe)|
      ensures consumed + pipe == old(consumed) + old(pipe)
    {
      hide Follows;
      ghost var was, held := consumed, rx[..pending];
      var messageLen := OVERHEAD + Le16(rx[4], rx[5]);
      assert messageLen == MessageLen(held);
      var toRead := messageLen - pending;
      var received, got := Receive(toRead);
      PayloadMore(rx.Length, was, held, handed, got);
      assert rx[0] == (held + got)[0] && rx[1] == (held + got)[1];
      assert MessageLen(held + got) == MessageLen(held);
      if received < 0 {
        return true;
      }
      pending := pending + received;
      if received != toRead {
        return true;
      }
      handed := handed + [rx[..pending]];
      pending := 0;
      assert rx[..0] == [];
      return false;
    }

    /**
     * One run of the worker. Whatever the pipe delivered in it, and in whatever pieces, the buffer
     * and the frames handed on depend only on the bytes delivered since the start. The run ends
     * only when the pipe has no more to give, or at an oversize frame.
     */
    method FifoReadRunner()
      requires Shape() && Agrees()
      modifies rx, `pipe, `consumed, `starved, `pending, `handed
      ensures Shape() && Agrees()
      ensures consumed + pipe == old(consumed) + old(pipe)
      ensures starved || Oversize(rx.Length, consumed)
    {
      hide Follows, Oversize;
      var stop := false;
      while !stop
        invariant Shape() && Agrees()
        invariant stop ==> starved || Oversize(rx.Length, consumed)
        invariant consumed + pipe == old(consumed) + old(pipe)
        decreases !stop, |pipe|
      {
        stop := ReadToSync();
        if !stop {
          stop := ReadHeader();
        }
        if !stop {
          stop := ReadPayload();
        }
      }
    }

    /** The worker is run again whenever the pipe reports more bytes. */
    method Runs(n: nat)
      requires Shape() && Agrees()
      modifies rx, `pipe, `consumed, `starved, `pending, `handed
      ensures Shape() && Agrees() && consumed + pipe == old(consumed) + old(pipe)
    {
      hide Follows, Oversize;
      for i := 0 to n
        invariant Shape() && Agrees() && consumed + pipe == old(consumed) + old(pipe)
      {
        FifoReadRunner();
      }
    }
  }

  /** More bytes only ever add frames. */
  lemma {:induction false} FramesGrow(size: nat, r: Ref, bytes: seq<byte>)
    ensures r.frames <= Run(size, r, bytes).frames
    decreases |bytes|
  {
    if bytes != [] {
      var q := Run(size, r, bytes[..1]);
      assert bytes == bytes[..1] + bytes[1..] && bytes[..1] == [bytes[0]];
      RunConcat(size, r, bytes[..1], bytes[1..]);
      RunOne(size, r, bytes[0]);
      FramesGrow(size, q, bytes[1..]);
    }
  }

  /** A stream without oversize frames has none in any prefix, and the frames of a prefix come first. */
  lemma PrefixFrames(size: nat, stream: seq<byte>, first: seq<byte>, more: seq<byte>)
    requires first + more == stream && !Oversize(size, stream)
    ensures !Oversize(size, first) && Run(size, Idle([]), first).frames <= Run(size, Idle([]), stream).frames
  {
    hide Run;
    if Oversize(size, first) {
      OversizeMore(size, first, more);
    }
    RunConcat(size, Idle([]), first, more);
    FramesGrow(size, Run(size, Idle([]), first), more);
  }

  /**
   * Two receivers of the same stream, in whatever pieces: the one that has been given less has handed
   * on the first of the frames of the other, and with as much left to come both have the same frames and
   * hold the same bytes.
   */
  lemma ChunkIndependence(a: Modem, b: Modem, stream: seq<byte>)
    requires a.Shape() && a.Agrees() && b.Shape() && b.Agrees() && a.rx.Length == b.rx.Length
    requires a.consumed + a.pipe == stream == b.consumed + b.pipe && !Oversize(a.rx.Length, stream)
    requires |a.pipe| >= |b.pipe|
    ensures a.handed <= b.handed
    ensures |a.pipe| == |b.pipe| ==> a.handed == b.handed && a.rx[..a.pending] == b.rx[..b.pending]
  {
    hide Run;
    var size, n := a.rx.Length, |b.consumed| - |a.consumed|;
    var between := b.consumed[|a.consumed|..];
    assert a.consumed == stream[..|a.consumed|] && b.consumed == stream[..|b.consumed|];
    assert a.consumed + between == b.consumed;
    PrefixFrames(size, stream, b.consumed, b.pipe);
    PrefixFrames(size, b.consumed, a.consumed, between);
    assert n == 0 ==> a.consumed == b.consumed;
  }

  /** Two fresh receivers of one stream, run any number of times each, with the pipe delivering as it likes. */
  method TwoReceivers(size: nat, stream: seq<byte>, runsA: nat, runsB: nat) returns (a: Modem, b: Modem)
    requires HEADER < size <= U16
    ensures a.Shape() && b.Shape() && a.rx.Length == b.rx.Length == size
    ensures !Oversize(size, stream) && |a.pipe| >= |b.pipe| ==> a.handed <= b.handed
    ensures !Oversize(size, stream) && |a.pipe| <= |b.pipe| ==> b.handed <= a.handed
    ensures !Oversize(size, stream) && |a.pipe| == |b.pipe| ==> a.rx[..a.pending] == b.rx[..b.pending]
    ensures !Oversize(size, stream) && a.pipe == [] ==> a.handed == Run(size, Idle([]), stream).frames
  {
    hide Follows, Oversize;
    a := new Modem(size, stream);
    b := new Modem(size, stream);
    a.Runs(runsA);
    b.Runs(runsB);
    if !Oversize(size, stream) {
      if |a.pipe| >= |b.pipe| {
        ChunkIndependence(a, b, stream);
      }
      if |a.pipe| <= |b.pipe| {
        ChunkIndependence(b, a, stream);
      }
      if a.pipe == [] {
        assert a.consumed + [] == a.consumed;
        AllFrames(size, stream, a.rx[..a.pending], a.handed);
      }
    }
  }

  lemma AllFrames(size: nat, bytes: seq<byte>, held: seq<byte>, handed: seq<seq<byte>>)
    requires Follows(size, bytes, held, handed) && !Oversize(size, bytes)
    ensures handed == Run(size, Idle([]), bytes).frames
  {
  }
}
