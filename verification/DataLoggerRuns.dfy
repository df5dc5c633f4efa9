/** Whole runs of a data logger: writes with faults, restarts and resets, in any order. */
module DataLoggerRuns {
  import opened Arithmetic
  import opened DataLogger
  import opened DataLoggerBoot

  datatype Event =
    | Write(blockType: byte, block: Block, fault: Fault)
    | Restart
    | Reset(everything: bool)

  /** The device together with the record of what was written to it. */
  datatype System = System(log: Log, h: Ghost)

  ghost predicate CleanDevice(g: Config, y: System)
    requires Inv(g, y.log, y.h)
  {
    Clean(g, y.log.flash, y.log.current, Oldest(g, y.log.current, y.h.ahead))
  }

  ghost predicate SettledDevice(g: Config, y: System)
    requires Inv(g, y.log, y.h)
  {
    Settled(g, y.log.flash, y.log.current, Oldest(g, y.log.current, y.h.ahead))
  }

  /** Write request: over-long blocks and a full logger are refused. */
  predicate Accepted(g: Config, s: Log, block: Block) {
    |block| <= g.blockSize && s.current < g.logical
  }

  /** Callers leave room for the two header bytes; a restart finds a clean device, or takes a torn block for written. */
  ghost predicate Legal(g: Config, y: System, e: Event)
    requires Inv(g, y.log, y.h)
  {
    match e
    case Write(_, block, fault) => 2 <= |block| && ValidFault(g, fault)
    case Restart => CleanDevice(g, y) || (y.log.current < g.logical && LooksWritten(g, y.log, y.h))
    case Reset(_) => true
  }

  /** Blocks erased by a reset: all of them, or those that may hold data. */
  function ResetCount(g: Config, s: Log, everything: bool): (n: nat)
    requires 0 < g.unit
  {
    RoundUp(if everything || s.current >= g.physical then g.physical else s.current, g.unit)
  }

  ghost function WriteGhost(g: Config, y: System, blockType: byte, block: Block, fault: Fault): Ghost
    requires Ready(g, y.log) && Writable(g, block, fault)
  {
    match fault
    case PowerFault => y.h
    case EraseFault => if NeedsErase(g, y.log.current) then y.h else CommittedGhost(g, y.log, y.h, blockType, block)
    case WriteFault(_) => PreparedGhost(g, y.log, y.h)
    case NoFault => CommittedGhost(g, y.log, y.h, blockType, block)
  }

  /** A torn block that a restart takes for written becomes part of the history. */
  ghost function RestartGhost(g: Config, y: System): Ghost
    requires Inv(g, y.log, y.h)
  {
    if CleanDevice(g, y) then y.h.(slack := 0) else WithTorn(g, y.log, y.h).1
  }

  ghost function Step(g: Config, y: System, e: Event): (z: System)
    requires Inv(g, y.log, y.h) && Legal(g, y, e)
    ensures Inv(g, z.log, z.h)
  {
    match e
    case Write(blockType, block, fault) =>
      if !Accepted(g, y.log, block) then y else
        WriteInv(g, y, blockType, block, fault);
        System(WriteStep(g, y.log, blockType, block, fault), WriteGhost(g, y, blockType, block, fault))
    case Restart =>
      RestartInv(g, y);
      var b := BootCounters(g, y.log.flash, {});
      System(Log(y.log.flash, b.current, b.earliest, 0), RestartGhost(g, y))
    case Reset(everything) =>
      ResetInv(g, y, everything);
      System(Log(EraseBlocks(g, y.log.flash, 0, ResetCount(g, y.log, everything)), 0, 0, y.log.bytesLogged),
             Ghost([], false, 0))
  }

  lemma WriteInv(g: Config, y: System, blockType: byte, block: Block, fault: Fault)
    requires Inv(g, y.log, y.h) && Writable(g, block, fault) && y.log.current < g.logical
    ensures Inv(g, WriteStep(g, y.log, blockType, block, fault), WriteGhost(g, y, blockType, block, fault))
  {
    match fault
    case PowerFault =>
    case WriteFault(torn) => TornInv(g, y.log, y.h, blockType, block, torn);
    case _ =>
      CommittedInv(g, y.log, y.h, blockType, block);
  }

  lemma RestartInv(g: Config, y: System)
    requires Inv(g, y.log, y.h) && Legal(g, y, Restart)
    ensures var b := BootCounters(g, y.log.flash, {});
      && b == Booted(if CleanDevice(g, y) then y.log.current else y.log.current + 1,
                     Oldest(g, y.log.current, y.h.ahead))
      && Inv(g, Log(y.log.flash, b.current, b.earliest, 0), RestartGhost(g, y))
  {
    hide BootCounters, Oldest, Clean, LooksWritten, Inv;
    if CleanDevice(g, y) {
      BootRecovers(g, y.log, y.h, {});
      NoSlack(g, y.log, y.h);
    } else {
      TornAsWritten(g, y.log, y.h);
      WithTornInv(g, y.log, y.h);
    }
  }

  /** A restart forgets by how much the advertised window was too small. */
  lemma NoSlack(g: Config, s: Log, h: Ghost)
    requires Inv(g, s, h)
    ensures Inv(g, Log(s.flash, s.current, Oldest(g, s.current, h.ahead), 0), h.(slack := 0))
  {
    hide Oldest, Occupied, Settled;
  }

  lemma ResetInv(g: Config, y: System, everything: bool)
    requires Inv(g, y.log, y.h)
    ensures Inv(g, Log(EraseBlocks(g, y.log.flash, 0, ResetCount(g, y.log, everything)), 0, 0, y.log.bytesLogged),
                Ghost([], false, 0))
  {
    RoundUpLeast(0, g.unit, 0);
  }

  // ----- Runs -----

  ghost predicate LegalRun(g: Config, evs: seq<Event>)
    requires ValidConfig(g)
    decreases |evs|, 0
  {
    evs == [] || (LegalRun(g, evs[..|evs| - 1]) && Legal(g, Run(g, evs[..|evs| - 1]), evs[|evs| - 1]))
  }

  /** State of a device that started blank, after any sequence of events. */
  ghost function Run(g: Config, evs: seq<Event>): (y: System)
    requires ValidConfig(g) && LegalRun(g, evs)
    ensures Inv(g, y.log, y.h)
    decreases |evs|, 1
  {
    if evs == [] then
      BlankInv(g);
      System(Blank(g), Ghost([], false, 0))
    else
      Step(g, Run(g, evs[..|evs| - 1]), evs[|evs| - 1])
  }

  /** Every block between the earliest and the current one is stored, and they fit the device. */
  ghost predicate Readable(g: Config, s: Log, hist: seq<Block>) {
    && ValidConfig(g) && ValidFlash(g, s.flash)
    && 0 <= s.earliest && s.current == |hist| <= g.logical
    && s.current <= s.earliest + g.physical
    && forall b :: s.earliest <= b < s.current ==> |hist[b]| == g.blockSize && s.flash[b % g.physical] == hist[b]
  }

  /** Reading is safe in every reachable state, whatever failed before. */
  lemma AlwaysReadable(g: Config, evs: seq<Event>)
    requires ValidConfig(g) && LegalRun(g, evs)
    ensures Readable(g, Run(g, evs).log, Run(g, evs).h.hist)
  {
    var y := Run(g, evs);
    OldestBounds(g, y.log.current, y.h.ahead);
  }

  /**
   * A restart after any run that left the device clean recovers the number of blocks written and
   * the first block still stored, which is never later than the one advertised before.
   */
  lemma RestartRecovers(g: Config, evs: seq<Event>)
    requires ValidConfig(g) && LegalRun(g, evs) && CleanDevice(g, Run(g, evs))
    ensures var y := Run(g, evs); var b := BootCounters(g, y.log.flash, {});
      b == Booted(|y.h.hist|, Oldest(g, y.log.current, y.h.ahead)) && b.earliest <= y.log.earliest
  {
    var y := Run(g, evs);
    BootRecovers(g, y.log, y.h, {});
  }

  // ----- Reading back -----

  /** Consecutive blocks as one run of bytes. */
  function Flat(bs: seq<Block>): seq<byte> {
    if bs == [] then [] else bs[0] + Flat(bs[1..])
  }

  lemma {:induction false} FlatConcat(a: seq<Block>, b: seq<Block>)
    ensures Flat(a + b) == Flat(a) + Flat(b)
    decreases |a|
  {
    if a == [] {
      assert a + b == b;
    } else {
      FlatConcat(a[1..], b);
      assert (a + b)[1..] == a[1..] + b;
    }
  }

  lemma {:induction false} FlatLength(bs: seq<Block>, size: nat)
    requires forall i :: 0 <= i < |bs| ==> |bs[i]| == size
    ensures |Flat(bs)| == |bs| * size
    decreases |bs|
  {
    if bs != [] {
      FlatLength(bs[1..], size);
      assert (|bs| - 1) * size + size == |bs| * size;
    }
  }

  /** Blocks touched beyond the first; an empty read at offset zero touches none. */
  function ExtraBlocks(g: Config, offset: nat, len: nat): nat
    requires 0 < g.blockSize
  {
    if offset + len == 0 then 0 else (offset + len - 1) / g.blockSize
  }

  /** The existence check, in the 32-bit arithmetic of the implementation. */
  predicate ReadAccepted(g: Config, s: Log, idx: nat, offset: nat, len: nat)
    requires 0 < g.blockSize
  {
    !(idx < s.earliest || (idx + ExtraBlocks(g, offset, len)) % U32 >= s.current || offset >= g.blockSize)
  }

  /** Accepted requests lie in the window exactly when the last block number does not wrap. */
  lemma AcceptedExact(g: Config, s: Log, idx: nat, offset: nat, len: nat)
    requires s.current <= g.logical < U32 && 0 < g.blockSize && idx < U32 && offset < U16 && len < U16
    requires ReadAccepted(g, s, idx, offset, len)
    ensures idx + ExtraBlocks(g, offset, len) < s.current <==> idx + ExtraBlocks(g, offset, len) < U32
  {
  }

  /** A request for the last block number is accepted on a device holding a single block. */
  lemma WrappedRequestAccepted(g: Config, block: Block)
    requires ValidConfig(g) && |block| == g.blockSize < U16 / 2
    ensures var s := WriteStep(g, Blank(g), 1, block, NoFault);
      ReadAccepted(g, s, U32 - 1, 0, g.blockSize + 1) && s.current == 1
  {
    DivModUnique(1, 0, g.blockSize);
    assert ExtraBlocks(g, 0, g.blockSize + 1) == 1;
    DivModUnique(0, 0, g.physical);
  }
}
