/**
 * Circular block log over erase-before-write storage.
 *
 * A logical block number `b` lives in physical block `b % physical`. Byte 0 of
 * every stored block is the wrap count `b / physical + 1`, byte 1 its type.
 */
module DataLogger {
  import opened Arithmetic

  /** Geometry of a logger: sizes are counted in blocks, except `blockSize`. */
  datatype Config = Config(physical: nat, unit: nat, logical: nat, blockSize: nat, eraseVal: byte)

  /** Geometry for which the code is well defined. */
  ghost predicate UsableConfig(g: Config) {
    0 < g.unit && 0 < g.physical < U32 / 2
  }

  ghost predicate ValidConfig(g: Config) {
    && 0 < g.unit < g.physical
    && g.physical % g.unit == 0
    && g.logical <= 254 * g.physical
    && g.physical < U32 / 2
    && 2 <= g.blockSize < U16
    && (g.eraseVal == 0x00 || g.eraseVal == 0xFF)
  }

  type Block = seq<byte>
  type Flash = seq<Block>

  ghost predicate ValidFlash(g: Config, f: Flash) {
    |f| == g.physical && forall j :: 0 <= j < |f| ==> |f[j]| == g.blockSize
  }

  /** Value of the storage and of the counters kept in memory. */
  datatype Log = Log(flash: Flash, current: nat, earliest: int, bytesLogged: nat)

  /** What the backend does during one write. `torn` is what a failed write leaves behind. */
  datatype Fault = NoFault | PowerFault | EraseFault | WriteFault(torn: Block)

  ghost predicate ValidFault(g: Config, fault: Fault) {
    fault.WriteFault? ==> |fault.torn| == g.blockSize
  }

  function ErasedBlock(g: Config): (r: Block)
    ensures |r| == g.blockSize
  {
    seq(g.blockSize, _ => g.eraseVal)
  }

  function EraseBlocks(g: Config, f: Flash, start: nat, num: nat): (r: Flash)
    requires ValidFlash(g, f)
    ensures ValidFlash(g, r)
    ensures forall j :: 0 <= j < |f| ==> r[j] == if start <= j < start + num then ErasedBlock(g) else f[j]
  {
    var r := seq(|f|, j requires 0 <= j < |f| => if start <= j < start + num then ErasedBlock(g) else f[j]);
    assert forall j :: 0 <= j < |f| ==> r[j] == if start <= j < start + num then ErasedBlock(g) else f[j];
    r
  }

  predicate NeedsErase(g: Config, current: nat)
    requires 0 < g.unit
  {
    current >= g.physical && current % g.unit == 0
  }

  /** The caller's block with the two header bytes overwritten. */
  function Stamp(block: Block, wrap: byte, blockType: byte): (r: Block)
    requires 2 <= |block|
    ensures |r| == |block|
  {
    [wrap, blockType] + block[2..]
  }

  /** Programming fewer bytes than a block leaves the remainder as it was. */
  function Program(cell: Block, data: Block): (r: Block)
    requires |data| <= |cell|
    ensures |r| == |cell|
  {
    data + cell[|data|..]
  }

  /** Wrap count stored for logical block `b`, cut to one byte. */
  function WrapFor(g: Config, b: nat): byte
    requires 0 < g.physical
  {
    (b / g.physical + 1) % 256
  }

  /** Wrap count found at the start of a stored block. */
  function WrapOf(block: Block): byte {
    if |block| == 0 then 0 else block[0]
  }

  ghost predicate Ready(g: Config, s: Log) {
    ValidConfig(g) && ValidFlash(g, s.flash)
  }

  ghost predicate Writable(g: Config, block: Block, fault: Fault) {
    2 <= |block| <= g.blockSize && ValidFault(g, fault)
  }

  /** State once the erase that precedes a write has been done, if one is due. */
  function Prepared(g: Config, s: Log): (t: Log)
    requires Ready(g, s)
    ensures Ready(g, t)
  {
    if NeedsErase(g, s.current) then
      s.(flash := EraseBlocks(g, s.flash, s.current % g.physical, g.unit), earliest := s.earliest + g.unit)
    else s
  }

  /** The block that a successful write leaves in its physical slot. */
  function Stored(g: Config, s: Log, blockType: byte, block: Block): (r: Block)
    requires Ready(g, s) && 2 <= |block| <= g.blockSize
    ensures |r| == g.blockSize
    ensures r[0] == WrapFor(g, s.current) && r[1] == blockType && r[2..|block|] == block[2..]
  {
    Program(Prepared(g, s).flash[s.current % g.physical], Stamp(block, WrapFor(g, s.current), blockType))
  }

  /** Storage and counters after an attempt to write one block. */
  function WriteStep(g: Config, s: Log, blockType: byte, block: Block, fault: Fault): (t: Log)
    requires Ready(g, s) && Writable(g, block, fault)
    ensures Ready(g, t)
  {
    var phy := s.current % g.physical;
    match fault
    case PowerFault => s
    case EraseFault => if NeedsErase(g, s.current) then s else Committed(g, s, blockType, block)
    case WriteFault(torn) => var p := Prepared(g, s); p.(flash := p.flash[phy := torn])
    case NoFault => Committed(g, s, blockType, block)
  }

  function Committed(g: Config, s: Log, blockType: byte, block: Block): (t: Log)
    requires Ready(g, s) && 2 <= |block| <= g.blockSize
    ensures Ready(g, t)
  {
    var p := Prepared(g, s);
    Log(p.flash[s.current % g.physical := Stored(g, s, blockType, block)],
        s.current + 1, p.earliest, s.bytesLogged + |block|)
  }

  // ----- Invariant -----

  /**
   * First logical block whose storage has not been erased. `ahead` says that the
   * erase unit at `c` has already been erased although block `c` is not written.
   */
  function Oldest(g: Config, c: nat, ahead: bool): (t: nat)
    requires 0 < g.unit
  {
    var end := RoundUp(if ahead then c + 1 else c, g.unit);
    if end <= g.physical then 0 else end - g.physical
  }

  ghost predicate Occupied(g: Config, f: Flash, hist: seq<Block>, t: nat)
    requires 0 < g.physical == |f|
  {
    forall b :: t <= b < |hist| ==> f[b % g.physical] == hist[b] && WrapOf(hist[b]) == WrapFor(g, b)
  }

  ghost predicate Vacant(g: Config, f: Flash, c: nat, t: nat)
    requires 0 < g.physical == |f|
  {
    forall b :: c <= b < t + g.physical ==> WrapOf(f[b % g.physical]) == g.eraseVal
  }

  /** Every vacant slot behind the write position is erased; the one at it may hold a torn write. */
  ghost predicate Settled(g: Config, f: Flash, c: nat, t: nat)
    requires 0 < g.physical == |f|
  {
    Vacant(g, f, c + 1, t)
  }

  /**
   * `hist` is every block written since the device was blank, or taken for written, `slack` the number of blocks by
   * which repeated erases of one unit have advanced the earliest block since boot.
   */
  datatype Ghost = Ghost(hist: seq<Block>, ahead: bool, slack: nat)

  ghost predicate Inv(g: Config, s: Log, h: Ghost) {
    && ValidConfig(g) && ValidFlash(g, s.flash)
    && s.current == |h.hist| <= g.logical
    && (h.ahead ==> NeedsErase(g, s.current))
    && s.earliest == Oldest(g, s.current, h.ahead) + h.slack
    && (forall b :: 0 <= b < |h.hist| ==> |h.hist[b]| == g.blockSize)
    && Occupied(g, s.flash, h.hist, Oldest(g, s.current, h.ahead))
    && (s.current >= g.physical ==> Settled(g, s.flash, s.current, Oldest(g, s.current, h.ahead)))
  }

  function Blank(g: Config): Log {
    Log(seq(g.physical, _ => ErasedBlock(g)), 0, 0, 0)
  }

  lemma BlankInv(g: Config)
    requires ValidConfig(g)
    ensures Inv(g, Blank(g), Ghost([], false, 0))
    ensures Vacant(g, Blank(g).flash, 0, 0)
  {
    RoundUpLeast(0, g.unit, 0);
  }

  /** The window that is still stored never spans more than the device. */
  lemma OldestBounds(g: Config, c: nat, ahead: bool)
    requires ValidConfig(g) && (ahead ==> NeedsErase(g, c))
    ensures var t := Oldest(g, c, ahead);
      && t <= c <= t + g.physical
      && (c < g.physical ==> t == 0)
      && (ahead ==> t + g.physical == c + g.unit)
      && (NeedsErase(g, c) && !ahead ==> t + g.physical == c)
      && (!NeedsErase(g, c) ==> c < t + g.physical)
  {
    var x := if ahead then c + 1 else c;
    RoundUpBounds(x, g.unit);
    if c <= g.physical && !ahead {
      RoundUpLeast(x, g.unit, g.physical);
    }
    if c % g.unit == 0 {
      if ahead {
        DivModShift(c, 1, g.unit);
        RoundUpIs(c + 1, g.unit, c + g.unit);
      } else {
        RoundUpIs(c, g.unit, c);
      }
    }
  }

  /** Completing a write does not move the window. */
  lemma OldestStep(g: Config, c: nat, ahead: bool)
    requires ValidConfig(g) && (ahead <==> NeedsErase(g, c))
    ensures Oldest(g, c + 1, false) == Oldest(g, c, ahead)
  {
    if !ahead {
      if c < g.physical {
        OldestBounds(g, c, false);
        RoundUpLeast(c + 1, g.unit, g.physical);
      } else {
        RoundUpBounds(c, g.unit);
        RoundUpIs(c + 1, g.unit, RoundUp(c, g.unit));
      }
    }
  }

  /** The history as it stands after the erase that precedes a write. */
  ghost function PreparedGhost(g: Config, s: Log, h: Ghost): Ghost
    requires 0 < g.unit
  {
    if NeedsErase(g, s.current) then
      h.(ahead := true, slack := if h.ahead then h.slack + g.unit else h.slack)
    else h
  }

  lemma PreparedInv(g: Config, s: Log, h: Ghost)
    requires Inv(g, s, h)
    ensures Inv(g, Prepared(g, s), PreparedGhost(g, s, h))
  {
    if NeedsErase(g, s.current) {
      OldestBounds(g, s.current, h.ahead);
      OldestBounds(g, s.current, true);
      EraseKeeps(g, s, h);
      EraseClears(g, s);
    }
  }

  lemma EraseKeeps(g: Config, s: Log, h: Ghost)
    requires Inv(g, s, h) && NeedsErase(g, s.current)
    ensures Occupied(g, Prepared(g, s).flash, h.hist, Oldest(g, s.current, true))
  {
    var c, phy := s.current, s.current % g.physical;
    OldestBounds(g, c, h.ahead);
    OldestBounds(g, c, true);
    UnitFits(g, c);
    var t, f := Oldest(g, c, true), Prepared(g, s).flash;
    forall b | t <= b < |h.hist| ensures f[b % g.physical] == s.flash[b % g.physical] {
      NotInUnit(g, c, b);
    }
    hide Oldest, RoundUp, WrapFor;
  }

  /** A block less than a device behind the end of the unit at `c` is not in its slots. */
  lemma NotInUnit(g: Config, c: nat, b: nat)
    requires ValidConfig(g) && c % g.unit == 0 && b < c && c + g.unit <= b + g.physical
    ensures !(c % g.physical <= b % g.physical < c % g.physical + g.unit)
  {
    var phy, j := c % g.physical, b % g.physical;
    if phy <= j < phy + g.unit {
      UnitFits(g, c);
      SlotOf(g, c, j - phy);
      DivModShift(b, 1, g.physical);
      ModDistinct(c + (j - phy), b + g.physical, g.physical);
    }
  }

  lemma EraseClears(g: Config, s: Log)
    requires Ready(g, s) && NeedsErase(g, s.current)
    ensures Vacant(g, Prepared(g, s).flash, s.current, Oldest(g, s.current, true))
  {
    var c := s.current;
    OldestBounds(g, c, true);
    UnitFits(g, c);
    forall b | c <= b < c + g.unit ensures WrapOf(Prepared(g, s).flash[b % g.physical]) == g.eraseVal {
      SlotOf(g, c, b - c);
    }
  }

  /** An erase unit that starts at an aligned block does not cross the end of the device. */
  lemma UnitFits(g: Config, c: nat)
    requires ValidConfig(g) && c % g.unit == 0
    ensures c % g.physical + g.unit <= g.physical
  {
    ModOfMultiples(c, g.physical, g.unit);
    MultiplesApart(c % g.physical, g.physical, g.unit);
  }

  /** Blocks that follow `c` inside the device occupy the following slots. */
  lemma SlotOf(g: Config, c: nat, i: nat)
    requires 0 < g.physical && c % g.physical + i < g.physical
    ensures (c + i) % g.physical == c % g.physical + i
  {
    DivModUnique(c / g.physical, c % g.physical + i, g.physical);
  }

  ghost function CommittedGhost(g: Config, s: Log, h: Ghost, blockType: byte, block: Block): Ghost
    requires Ready(g, s) && 2 <= |block| <= g.blockSize
  {
    PreparedGhost(g, s, h).(hist := h.hist + [Stored(g, s, blockType, block)], ahead := false)
  }

  lemma CommittedInv(g: Config, s: Log, h: Ghost, blockType: byte, block: Block)
    requires Inv(g, s, h) && s.current < g.logical && 2 <= |block| <= g.blockSize
    ensures Inv(g, Committed(g, s, blockType, block), CommittedGhost(g, s, h, blockType, block))
  {
    hide Oldest, Occupied, Settled, Vacant, Stored;
    PreparedInv(g, s, h);
    var c, k := s.current, PreparedGhost(g, s, h);
    OldestStep(g, c, NeedsErase(g, c));
    OldestBounds(g, c, NeedsErase(g, c));
    assert k.ahead == NeedsErase(g, c);
    hide Prepared, NeedsErase;
    CommitOccupied(g, s, h, blockType, block);
    if c + 1 >= g.physical {
      CommitSettled(g, s, h, blockType, block);
      VacantSettled(g, Committed(g, s, blockType, block).flash, c + 1, Oldest(g, c, k.ahead));
    }
  }

  lemma VacantSettled(g: Config, f: Flash, c: nat, t: nat)
    requires 0 < g.physical == |f| && Vacant(g, f, c, t)
    ensures Settled(g, f, c, t)
  {
  }

  /** A completed write stores its block and leaves the others. */
  lemma CommitOccupied(g: Config, s: Log, h: Ghost, blockType: byte, block: Block)
    requires Inv(g, s, h) && 2 <= |block| <= g.blockSize
    ensures Occupied(g, Committed(g, s, blockType, block).flash, CommittedGhost(g, s, h, blockType, block).hist,
                     Oldest(g, s.current, PreparedGhost(g, s, h).ahead))
  {
    PreparedInv(g, s, h);
    var c, k := s.current, PreparedGhost(g, s, h);
    OldestBounds(g, c, k.ahead);
    var n, m, t := Committed(g, s, blockType, block), CommittedGhost(g, s, h, blockType, block), Oldest(g, c, k.ahead);
    hide Prepared, Oldest, WrapFor, NeedsErase, Settled;
    forall b | t <= b < |m.hist| ensures n.flash[b % g.physical] == m.hist[b] && WrapOf(m.hist[b]) == WrapFor(g, b) {
      if b < c {
        OtherSlot(g, c, b);
      }
    }
  }

  /** A completed write leaves the slots behind it as they were. */
  lemma CommitSettled(g: Config, s: Log, h: Ghost, blockType: byte, block: Block)
    requires Inv(g, s, h) && 2 <= |block| <= g.blockSize
    requires s.current + 1 < g.physical ==> Settled(g, s.flash, s.current, Oldest(g, s.current, h.ahead))
    ensures var t := Oldest(g, s.current, NeedsErase(g, s.current));
      Vacant(g, Committed(g, s, blockType, block).flash, s.current + 1, t)
  {
    var c := s.current;
    var n, t := Committed(g, s, blockType, block), Oldest(g, c, NeedsErase(g, c));
    OldestBounds(g, c, NeedsErase(g, c));
    if NeedsErase(g, c) {
      EraseClears(g, s);
    }
    forall b | c + 1 <= b < t + g.physical ensures WrapOf(n.flash[b % g.physical]) == g.eraseVal {
      OtherSlot(g, b, c);
    }
  }

  lemma OtherSlot(g: Config, c: nat, b: nat)
    requires b < c < b + g.physical
    ensures b % g.physical != c % g.physical
  {
    if b % g.physical == c % g.physical {
      ModDistinct(b, c, g.physical);
    }
  }

  lemma TornInv(g: Config, s: Log, h: Ghost, blockType: byte, block: Block, torn: Block)
    requires Inv(g, s, h) && Writable(g, block, WriteFault(torn))
    ensures Inv(g, WriteStep(g, s, blockType, block, WriteFault(torn)), PreparedGhost(g, s, h))
  {
    PreparedInv(g, s, h);
    var c := s.current;
    var p, k := Prepared(g, s), PreparedGhost(g, s, h);
    var n := WriteStep(g, s, blockType, block, WriteFault(torn));
    OldestBounds(g, c, k.ahead);
    var t := Oldest(g, c, k.ahead);
    assert c < t + g.physical;
    forall b | t <= b < c ensures n.flash[b % g.physical] == p.flash[b % g.physical] {
      OtherSlot(g, c, b);
    }
    forall b | c < b < t + g.physical ensures n.flash[b % g.physical] == p.flash[b % g.physical] {
      OtherSlot(g, b, c);
    }
  }
}
