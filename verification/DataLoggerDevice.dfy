/** The logger object: block writes, window-checked reads and initialisation. */
module DataLoggerDevice {
  import opened Arithmetic
  import opened Options
  import opened DataLogger
  import opened DataLoggerBoot
  import opened DataLoggerRuns

  ghost predicate InWindow(g: Config, s: Log, hist: seq<Block>, idx: nat, extra: nat) {
    Readable(g, s, hist) && s.earliest <= idx && idx + extra < s.current
  }

  /** A block of the window is found in its slot, counted from the slot of an earlier block. */
  lemma SlotHolds(g: Config, s: Log, hist: seq<Block>, idx: nat, d: nat, extra: nat)
    requires InWindow(g, s, hist, idx, extra) && d <= extra
    ensures extra < g.physical
    ensures idx % g.physical + d < g.physical ==> s.flash[idx % g.physical + d] == hist[idx + d]
    ensures idx % g.physical + d >= g.physical ==> s.flash[idx % g.physical + d - g.physical] == hist[idx + d]
  {
    assert s.flash[(idx + d) % g.physical] == hist[idx + d];
    SlotAfter(g, idx, d);
  }

  /** Slot of a later block, before and after the end of the device. */
  lemma SlotAfter(g: Config, idx: nat, d: nat)
    requires 0 < g.physical && d < g.physical
    ensures (idx + d) % g.physical ==
      if idx % g.physical + d < g.physical then idx % g.physical + d else idx % g.physical + d - g.physical
  {
    var q, r := DivMod(idx, g.physical);
    if r + d < g.physical {
      DivModUnique(q, r + d, g.physical);
    } else {
      assert idx + d == (q + 1) * g.physical + (r + d - g.physical);
      DivModUnique(q + 1, r + d - g.physical, g.physical);
    }
  }

  /** The comparison of physical end points detects exactly the reads that cross the wrap. */
  lemma WrapTest(g: Config, idx: nat, extra: nat)
    requires 0 < g.physical && extra < g.physical
    ensures (idx + extra) % g.physical < idx % g.physical <==> idx % g.physical + extra >= g.physical
  {
    SlotAfter(g, idx, extra);
  }

  /** The requested bytes of the logical blocks `idx` to `idx + extra`, as they were written. */
  ghost predicate Returns(hist: seq<Block>, idx: nat, extra: nat, offset: nat, len: nat, data: seq<byte>) {
    && idx + extra < |hist|
    && offset + len <= |Flat(hist[idx..idx + extra + 1])|
    && data == Flat(hist[idx..idx + extra + 1])[offset..offset + len]
  }

  /** A request fits in the blocks it is said to touch. */
  lemma RequestFits(offset: nat, len: nat, extra: nat, size: nat)
    requires offset < size && extra == if offset + len == 0 then 0 else (offset + len - 1) / size
    ensures extra * size <= offset + len <= (extra + 1) * size
    ensures extra > 0 ==> extra * size < offset + len
  {
  }

  /** The blocks before the end of the device lie side by side. */
  lemma DirectBlocks(g: Config, s: Log, hist: seq<Block>, idx: nat, n: nat, extra: nat)
    requires InWindow(g, s, hist, idx, extra) && n <= extra + 1 && idx % g.physical + n <= g.physical
    ensures s.flash[idx % g.physical..idx % g.physical + n] == hist[idx..idx + n]
  {
    var here, there := s.flash[idx % g.physical..idx % g.physical + n], hist[idx..idx + n];
    forall d | 0 <= d < n ensures here[d] == there[d] {
      SlotHolds(g, s, hist, idx, d, extra);
    }
  }

  /** The blocks after it continue at the start of the device. */
  lemma WrappedBlocks(g: Config, s: Log, hist: seq<Block>, idx: nat, extra: nat)
    requires InWindow(g, s, hist, idx, extra) && idx % g.physical + extra >= g.physical
    ensures var w := g.physical - idx % g.physical;
      extra < g.physical && s.flash[..extra + 1 - w] == hist[idx + w..idx + extra + 1]
  {
    var w := g.physical - idx % g.physical;
    SlotHolds(g, s, hist, idx, extra, extra);
    var there := hist[idx + w..idx + extra + 1];
    forall i | 0 <= i < extra + 1 - w ensures s.flash[i] == there[i] {
      SlotHolds(g, s, hist, idx, w + i, extra);
    }
  }

  /** Reading part of a longer run of blocks. */
  lemma FlatPrefix(bs: seq<Block>, n: nat, offset: nat, len: nat)
    requires n <= |bs| && offset + len <= |Flat(bs[..n])|
    ensures offset + len <= |Flat(bs)| && Flat(bs)[offset..offset + len] == Flat(bs[..n])[offset..offset + len]
  {
    FlatConcat(bs[..n], bs[n..]);
    assert bs == bs[..n] + bs[n..];
  }

  /** A run of bytes that starts in `a` and ends in the first `m` blocks of `rest`. */
  lemma FlatSplit(a: seq<Block>, rest: seq<Block>, m: nat, offset: nat, len: nat)
    requires m <= |rest| && offset <= |Flat(a)| <= offset + len <= |Flat(a)| + |Flat(rest[..m])|
    ensures var k := offset + len - |Flat(a)|;
      && k <= |Flat(rest)|
      && offset + len <= |Flat(a + rest[..m])|
      && Flat(a + rest[..m])[offset..offset + len] == Flat(a)[offset..] + Flat(rest)[..k]
  {
    FlatConcat(a, rest[..m]);
    FlatPrefix(rest, m, 0, offset + len - |Flat(a)|);
  }

  /** Byte counts of the two parts of a read that crosses the end of the device. */
  lemma CrossingSizes(w: nat, extra: nat, size: nat, offset: nat, len: nat)
    requires 0 < w <= extra && offset < size && extra * size < offset + len <= (extra + 1) * size
    ensures offset < w * size <= offset + len <= w * size + (extra + 1 - w) * size
  {
    MulMono(size, 1, w);
    MulMono(size, w, extra);
    assert w * size + (extra + 1 - w) * size == (extra + 1) * size;
  }

  /** The two parts of a read that crosses the end of the device join up. */
  lemma CrossingRead(g: Config, s: Log, hist: seq<Block>, idx: nat, offset: nat, len: nat, extra: nat)
    requires InWindow(g, s, hist, idx, extra) && offset < g.blockSize && idx % g.physical + extra >= g.physical
    requires extra * g.blockSize < offset + len <= (extra + 1) * g.blockSize
    ensures var head := Flat(s.flash[idx % g.physical..]);
      && |head| == (g.physical - idx % g.physical) * g.blockSize
      && offset < |head| <= offset + len <= |head| + |Flat(s.flash)|
      && Returns(hist, idx, extra, offset, len, head[offset..] + Flat(s.flash)[..offset + len - |head|])
  {
    hide Flat;
    var phy, w := idx % g.physical, g.physical - idx % g.physical;
    var m := extra + 1 - w;
    WrappedBlocks(g, s, hist, idx, extra);
    DirectBlocks(g, s, hist, idx, w, extra);
    var a := s.flash[phy..];
    assert a == s.flash[phy..phy + w] == hist[idx..idx + w];
    FlatLength(a, g.blockSize);
    FlatLength(s.flash[..m], g.blockSize);
    CrossingSizes(w, extra, g.blockSize, offset, len);
    FlatSplit(a, s.flash, m, offset, len);
    assert hist[idx..idx + extra + 1] == a + s.flash[..m];
  }

  /** What the checks of an accepted request establish. */
  lemma RequestShape(g: Config, s: Log, hist: seq<Block>, idx: nat, offset: nat, len: nat)
    requires Readable(g, s, hist) && idx < U32 && idx + ExtraBlocks(g, offset, len) < U32
    requires ReadAccepted(g, s, idx, offset, len)
    ensures var extra := ExtraBlocks(g, offset, len);
      && InWindow(g, s, hist, idx, extra) && (idx + extra) % U32 == idx + extra
      && extra * g.blockSize <= offset + len <= (extra + 1) * g.blockSize
      && (extra > 0 ==> extra * g.blockSize < offset + len)
      && ((idx + extra) % g.physical < idx % g.physical <==> idx % g.physical + extra >= g.physical)
  {
    var extra := ExtraBlocks(g, offset, len);
    RequestFits(offset, len, extra, g.blockSize);
    SlotHolds(g, s, hist, idx, 0, extra);
    WrapTest(g, idx, extra);
  }

  datatype ReadResult = Busy | NoEntry | Data(bytes: seq<byte>)

  class Logger {
    const g: Config
    var flash: Flash
    var current: nat
    var earliest: int
    var bytesLogged: nat
    var bootBlock: int
    var erasing: bool

    ghost function Value(): Log
      reads this
    {
      Log(flash, current, earliest, bytesLogged)
    }

    constructor (g: Config, flash: Flash)
      requires UsableConfig(g) && ValidFlash(g, flash)
      ensures this.g == g && Value() == Log(flash, 0, 0, 0) && bootBlock == 0 && !erasing
    {
      this.g, this.flash := g, flash;
      current, earliest, bytesLogged, bootBlock, erasing := 0, 0, 0, 0, false;
    }

    /** One attempt to write a block, with `fault` deciding what the backend does. */
    method DoBlockWrite(blockType: byte, block: Block, fault: Fault) returns (ok: bool)
      requires Ready(g, Value()) && Writable(g, block, fault)
      modifies `flash, `current, `earliest, `bytesLogged
      ensures Value() == WriteStep(g, old(Value()), blockType, block, fault)
      ensures ok <==> current == old(current) + 1
    {
      var phy := current % g.physical;
      ok := !fault.PowerFault?;
      if ok {
        if current >= g.physical && current % g.unit == 0 {
          earliest := earliest + g.unit;
          ok := !fault.EraseFault?;
          if ok {
            flash := EraseBlocks(g, flash, phy, g.unit);
          } else {
            earliest := earliest - g.unit;
          }
        }
        if ok {
          var stamped := Stamp(block, (current / g.physical + 1) % 256, blockType);
          ok := !fault.WriteFault?;
          if ok {
            flash := flash[phy := Program(flash[phy], stamped)];
          } else {
            flash := flash[phy := fault.torn];
          }
        }
      }
      if ok {
        bytesLogged := bytesLogged + |block|;
        current := current + 1;
      }
    }

    /** Public write: refuses over-long blocks and a full logger, drops writes during an erase. */
    method BlockWrite(blockType: byte, block: Block, fault: Fault) returns (ok: bool)
      requires Ready(g, Value()) && 2 <= |block| && ValidFault(g, fault)
      modifies `flash, `current, `earliest, `bytesLogged
      ensures Value() == if Accepted(g, old(Value()), block) && !erasing
                         then WriteStep(g, old(Value()), blockType, block, fault) else old(Value())
      ensures !Accepted(g, old(Value()), block) ==> !ok
    {
      if |block| > g.blockSize || current >= g.logical {
        return false;
      }
      if erasing {
        return true;
      }
      ok := DoBlockWrite(blockType, block, fault);
    }

    /**
     * Last physical block whose wrap count is `counter`. Because block 0 carries it, the
     * upper bound never drops below zero, which would wrap in unsigned arithmetic.
     */
    method BinarySearch(counter: byte, bad: set<int>) returns (r: Option<int>)
      requires UsableConfig(g) && ValidFlash(g, flash) && counter == WrapOf(flash[0])
      ensures r == SearchLast(flash, bad, counter, 0, g.physical - 1, 0)
      ensures r.Some? ==> 0 <= r.value < g.physical
    {
      var low, high, res := 0, g.physical - 1, 0;
      while low <= high
        invariant 0 <= low && 0 <= high < g.physical && 0 <= res < g.physical
        invariant SearchLast(flash, bad, counter, low, high, res) ==
          SearchLast(flash, bad, counter, 0, g.physical - 1, 0)
        decreases high + 1 - low
      {
        assert low + high < U32;
        var mid := (low + high) / 2;
        if mid in bad {
          return None;
        }
        if WrapOf(flash[mid]) == counter {
          low := mid + 1;
          res := mid;
        } else {
          high := mid - 1;
        }
      }
      return Some(res);
    }

    /** Rebuild both counters by searching; the caller has seen `counter` in physical block 0. */
    method CurrentBlockSearch(counter: byte, bad: set<int>) returns (ok: bool)
      requires UsableConfig(g) && ValidFlash(g, flash)
      requires counter == WrapOf(flash[0]) && !IsErased(counter)
      modifies `current, `earliest
      ensures var b := SearchCounters(g, flash, bad, counter);
        (ok <==> b.Booted?) && (ok ==> b == Booted(current, earliest))
    {
      var res := BinarySearch(counter, bad);
      if res.None? {
        return false;
      }
      MulMono(g.physical, 0, counter - 1);
      current := (counter - 1) * g.physical + res.value + 1;
      if counter == 1 {
        earliest := 0;
        return true;
      }
      ok := ScanForward(bad);
    }

    /** Step over erased blocks, starting one whole device before the write position. */
    method ScanForward(bad: set<int>) returns (ok: bool)
      requires UsableConfig(g) && ValidFlash(g, flash)
      modifies `earliest
      ensures var start := current - g.physical;
        var a := ScanOldest(flash, bad, start % g.physical, start, 2 * g.unit);
        (ok <==> a.Some?) && (ok ==> earliest == a.value)
    {
      earliest := current - g.physical;
      ghost var start := earliest;
      var res := earliest % g.physical;
      var maxSearch := 2 * g.unit;
      while maxSearch > 0
        invariant 0 <= maxSearch && 0 <= res < g.physical
        invariant ScanOldest(flash, bad, res, earliest, maxSearch) ==
          ScanOldest(flash, bad, start % g.physical, start, 2 * g.unit)
      {
        if res in bad {
          return false;
        }
        if WrapOf(flash[res]) != 0x00 && WrapOf(flash[res]) != 0xFF {
          return true;
        }
        earliest := earliest + 1;
        if res + 1 == g.physical {
          return true;
        }
        res, maxSearch := res + 1, maxSearch - 1;
      }
      return false;
    }

    /** Initialisation of a persistent logger from the blocks found on the device. */
    method CommonInit(bad: set<int>) returns (ok: bool)
      requires UsableConfig(g) && ValidFlash(g, flash)
      modifies `current, `earliest, `bytesLogged, `bootBlock, `erasing
      ensures var b := BootCounters(g, flash, bad);
        && (ok <==> b.Booted?)
        && (ok ==> b == Booted(current, earliest) && bootBlock == current && bytesLogged == 0 && !erasing)
    {
      bytesLogged, bootBlock, current, earliest, erasing := 0, 0, 0, 0, false;
      if 0 in bad || g.physical - 1 in bad {
        return false;
      }
      var first, last := WrapOf(flash[0]), WrapOf(flash[g.physical - 1]);
      if first == last {
        if !IsErased(first) {
          current := first * g.physical;
          earliest := current - g.physical;
        }
      } else if IsErased(first) {
        current := last * g.physical;
        earliest := current - g.physical + g.unit;
      } else {
        ok := CurrentBlockSearch(first, bad);
        if !ok {
          return;
        }
      }
      bootBlock := current;
      return true;
    }

    /** Erase the whole device, or the part that may hold data. */
    method Erase(everything: bool, ok: bool) returns (rc: bool)
      requires Ready(g, Value())
      modifies `flash, `current, `earliest, `bootBlock, `erasing
      ensures rc == ok && !erasing
      ensures Value() == if ok
        then Log(EraseBlocks(g, old(flash), 0, ResetCount(g, old(Value()), everything)), 0, 0, old(bytesLogged))
        else old(Value())
    {
      var hint := if everything then g.physical else if current < g.physical then current else g.physical;
      erasing := true;
      if ok {
        flash := EraseBlocks(g, flash, 0, RoundUp(hint, g.unit));
        current, earliest, bootBlock := 0, 0, 0;
      }
      erasing := false;
      return ok;
    }

    /** Backend read: contiguous bytes of the device. */
    function PhysicalRead(phy: nat, offset: nat, len: nat): seq<byte>
      requires phy <= |flash| && offset + len <= |Flat(flash[phy..])|
      reads `flash
    {
      Flat(flash[phy..])[offset..offset + len]
    }

    /** Reads return exactly the logical bytes, whether or not they cross the physical wrap. */
    method BlockRead(idx: nat, offset: nat, len: nat, ghost hist: seq<Block>) returns (r: ReadResult)
      requires Readable(g, Value(), hist)
      requires idx < U32 && offset < U16 && len < U16
      requires ReadAccepted(g, Value(), idx, offset, len) ==> idx + ExtraBlocks(g, offset, len) < U32
      ensures erasing ==> r == Busy
      ensures !erasing && !ReadAccepted(g, Value(), idx, offset, len) ==> r == NoEntry
      ensures !erasing && ReadAccepted(g, Value(), idx, offset, len) ==>
        r.Data? && Returns(hist, idx, ExtraBlocks(g, offset, len), offset, len, r.bytes)
    {
      hide Flat, Returns, ExtraBlocks;
      var extra := ExtraBlocks(g, offset, len);
      var endLogical := (idx + extra) % U32;
      var phy := idx % g.physical;
      var endPhy := endLogical % g.physical;
      if erasing {
        return Busy;
      }
      if idx < earliest || endLogical >= current || offset >= g.blockSize {
        return NoEntry;
      }
      RequestShape(g, Value(), hist, idx, offset, len);
      var data;
      if endPhy < phy {
        data := ReadAcrossWrap(idx, offset, len, extra, hist);
      } else {
        data := ReadDirect(idx, offset, len, extra, hist);
      }
      return Data(data);
    }

    method ReadDirect(idx: nat, offset: nat, len: nat, extra: nat, ghost hist: seq<Block>) returns (data: seq<byte>)
      requires InWindow(g, Value(), hist, idx, extra) && idx % g.physical + extra < g.physical
      requires offset + len <= (extra + 1) * g.blockSize
      ensures Returns(hist, idx, extra, offset, len, data)
    {
      var phy := idx % g.physical;
      DirectBlocks(g, Value(), hist, idx, extra + 1, extra);
      assert flash[phy..][..extra + 1] == hist[idx..idx + extra + 1];
      FlatLength(hist[idx..idx + extra + 1], g.blockSize);
      FlatPrefix(flash[phy..], extra + 1, offset, len);
      data := PhysicalRead(phy, offset, len);
    }

    /** The two-part read: up to the end of the device, then on from its start. */
    method ReadAcrossWrap(idx: nat, offset: nat, len: nat, extra: nat, ghost hist: seq<Block>) returns (data: seq<byte>)
      requires InWindow(g, Value(), hist, idx, extra) && offset < g.blockSize && extra > 0
      requires extra * g.blockSize < offset + len <= (extra + 1) * g.blockSize
      requires idx % g.physical + extra >= g.physical
      ensures Returns(hist, idx, extra, offset, len, data)
    {
      var phy := idx % g.physical;
      var bytesToWrap := (g.physical - phy) * g.blockSize - offset;
      CrossingRead(g, Value(), hist, idx, offset, len, extra);
      var secondRead := len - bytesToWrap;
      assert flash[0..] == flash;
      var first := PhysicalRead(phy, offset, bytesToWrap);
      var second := PhysicalRead(0, 0, secondRead);
      data := first + second;
    }
  }
}
