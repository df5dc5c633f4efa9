/** Failed writes over whole runs: what torn slots and repeated erases do to a later restart. */
module DataLoggerFaults {
  import opened Arithmetic
  import opened DataLogger
  import opened DataLoggerBoot
  import opened DataLoggerRuns

  // ----- Torn slots -----

  /** A partial reset that ends right before a torn slot leaves it where it is. */
  ghost predicate Leaves(g: Config, s: Log, e: Event)
    requires 0 < g.unit && 0 < g.physical == |s.flash|
  {
    && e.Reset? && !e.everything && 0 < s.current < g.physical && s.current % g.unit == 0
    && WrapOf(s.flash[s.current]) != g.eraseVal
  }

  lemma VacantAt(g: Config, f: Flash, c: nat, t: nat, j: nat)
    requires 0 < g.physical == |f| && Vacant(g, f, c, t) && c <= j < t + g.physical && j < g.physical
    ensures WrapOf(f[j]) == g.eraseVal
  {
    DivModUnique(0, j, g.physical);
    assert WrapOf(f[j % g.physical]) == g.eraseVal;
  }

  /** After a reset every slot is blank, or only the torn slot it did not reach is not. */
  lemma ResetBlank(g: Config, y: System, everything: bool)
    requires Inv(g, y.log, y.h) && SettledDevice(g, y)
    ensures var s, f := y.log, EraseBlocks(g, y.log.flash, 0, ResetCount(g, y.log, everything));
      (forall j :: 0 <= j < g.physical ==> WrapOf(f[j]) == g.eraseVal) <==>
      everything || s.current >= g.physical || s.current % g.unit != 0 || WrapOf(s.flash[s.current]) == g.eraseVal
  {
    var s, c := y.log, y.log.current;
    var n := ResetCount(g, s, everything);
    var f := EraseBlocks(g, s.flash, 0, n);
    RoundUpBounds(if everything || c >= g.physical then g.physical else c, g.unit);
    OldestBounds(g, c, y.h.ahead);
    hide RoundUp, Oldest;
    forall j | 0 <= j < g.physical && (j < n || j != c) ensures WrapOf(f[j]) == g.eraseVal {
      if j >= n {
        VacantAt(g, s.flash, c + 1, Oldest(g, c, y.h.ahead), j);
      }
    }
    if !everything && c < g.physical && c % g.unit == 0 {
      RoundUpIs(c, g.unit, c);
      assert f[c] == s.flash[c];
    } else if c < g.physical {
      ReachesSlot(g, c, everything);
    }
  }

  lemma ReachesSlot(g: Config, c: nat, everything: bool)
    requires ValidConfig(g) && c < g.physical && (everything || c % g.unit != 0)
    ensures c < RoundUp(if everything then g.physical else c, g.unit)
  {
    RoundUpBounds(if everything then g.physical else c, g.unit);
  }

  lemma TornSettled(g: Config, y: System, blockType: byte, block: Block, torn: Block)
    requires Inv(g, y.log, y.h) && Writable(g, block, WriteFault(torn)) && SettledDevice(g, y)
    ensures var n, k := WriteStep(g, y.log, blockType, block, WriteFault(torn)), PreparedGhost(g, y.log, y.h);
      Settled(g, n.flash, n.current, Oldest(g, n.current, k.ahead))
  {
    var s, c := y.log, y.log.current;
    var n, k := WriteStep(g, s, blockType, block, WriteFault(torn)), PreparedGhost(g, s, y.h);
    var t := Oldest(g, c, k.ahead);
    OldestBounds(g, c, k.ahead);
    if NeedsErase(g, c) {
      EraseClears(g, s);
    }
    hide Oldest;
    forall b | c < b < t + g.physical ensures WrapOf(n.flash[b % g.physical]) == g.eraseVal {
      OtherSlot(g, b, c);
    }
  }

  /** The window of a device after a completed write. */
  lemma CommitWindow(g: Config, s: Log, h: Ghost)
    requires Inv(g, s, h)
    ensures Oldest(g, s.current + 1, false) == Oldest(g, s.current, NeedsErase(g, s.current))
    ensures s.current < Oldest(g, s.current, NeedsErase(g, s.current)) + g.physical
  {
    OldestStep(g, s.current, NeedsErase(g, s.current));
    OldestBounds(g, s.current, NeedsErase(g, s.current));
  }

  /** A completed write settles the device and leaves it clean, whatever was torn at its slot before. */
  lemma CommitClean(g: Config, y: System, blockType: byte, block: Block)
    requires Inv(g, y.log, y.h) && 2 <= |block| <= g.blockSize && y.log.current < g.logical
    requires y.log.current + 1 < g.physical ==> SettledDevice(g, y)
    ensures var z := System(Committed(g, y.log, blockType, block), CommittedGhost(g, y.log, y.h, blockType, block));
      Inv(g, z.log, z.h) && SettledDevice(g, z) && CleanDevice(g, z)
  {
    var c, t := y.log.current, Oldest(g, y.log.current, NeedsErase(g, y.log.current));
    CommittedInv(g, y.log, y.h, blockType, block);
    CommitSettled(g, y.log, y.h, blockType, block);
    CommitWindow(g, y.log, y.h);
    OldestBounds(g, c, NeedsErase(g, c));
    LaterClean(g, Committed(g, y.log, blockType, block).flash, c, t);
    hide Oldest, Clean, Inv, Stored;
  }

  /** Every event settles what was settled, except a partial reset that leaves a torn slot behind. */
  lemma StepSettled(g: Config, y: System, e: Event)
    requires Inv(g, y.log, y.h) && Legal(g, y, e) && SettledDevice(g, y)
    ensures SettledDevice(g, Step(g, y, e)) <==> !Leaves(g, y.log, e)
  {
    match e
    case Write(blockType, block, fault) =>
      if Accepted(g, y.log, block) {
        if fault.WriteFault? {
          TornSettled(g, y, blockType, block, fault.torn);
        } else {
          CommitClean(g, y, blockType, block);
        }
      }
    case Restart => RestartSettled(g, y);
    case Reset(everything) => ResetSettled(g, y, everything);
  }

  lemma RestartSettled(g: Config, y: System)
    requires Inv(g, y.log, y.h) && Legal(g, y, Restart) && SettledDevice(g, y)
    ensures SettledDevice(g, Step(g, y, Restart))
  {
    hide BootCounters, Oldest, Clean, Inv;
    RestartInv(g, y);
    if !CleanDevice(g, y) {
      WithTornInv(g, y.log, y.h);
    }
  }

  lemma ResetSettled(g: Config, y: System, everything: bool)
    requires Inv(g, y.log, y.h) && SettledDevice(g, y)
    ensures SettledDevice(g, Step(g, y, Reset(everything))) <==> !Leaves(g, y.log, Reset(everything))
  {
    var z, s, c := Step(g, y, Reset(everything)), y.log, y.log.current;
    var f := z.log.flash;
    RoundUpLeast(0, g.unit, 0);
    assert Oldest(g, 0, false) == 0;
    ResetBlank(g, y, everything);
    if Leaves(g, s, Reset(everything)) {
      RoundUpIs(c, g.unit, c);
      assert f[c] == s.flash[c];
      if SettledDevice(g, z) {
        VacantAt(g, f, 1, 0, c);
      }
    } else if c == 0 && !everything {
      RoundUpIs(0, g.unit, 0);
      OldestBounds(g, 0, y.h.ahead);
      assert f == s.flash;
    } else {
      forall b | 1 <= b < g.physical ensures WrapOf(f[b % g.physical]) == g.eraseVal {
        DivModUnique(0, b, g.physical);
      }
    }
  }

  /** A device that has wrapped is settled, whatever happened before. */
  lemma WrappedSettled(g: Config, y: System)
    requires Inv(g, y.log, y.h) && y.log.current >= g.physical
    ensures SettledDevice(g, y)
  {
  }

  /** A reset of everything settles any device. */
  lemma ResetAllSettled(g: Config, y: System)
    requires Inv(g, y.log, y.h)
    ensures SettledDevice(g, Step(g, y, Reset(true)))
  {
    RoundUpLeast(0, g.unit, 0);
    RoundUpBounds(g.physical, g.unit);
    var f := Step(g, y, Reset(true)).log.flash;
    assert Oldest(g, 0, false) == 0;
    forall b | 1 <= b < g.physical ensures WrapOf(f[b % g.physical]) == g.eraseVal {
      DivModUnique(0, b, g.physical);
    }
  }

  /** Runs that have not reset the device right behind a torn slot since they last wrapped or erased all of it. */
  ghost predicate Tidy(g: Config, evs: seq<Event>)
    requires ValidConfig(g) && LegalRun(g, evs)
  {
    || evs == [] || evs[|evs| - 1] == Reset(true) || Run(g, evs).log.current >= g.physical
    || (Tidy(g, evs[..|evs| - 1]) && !Leaves(g, Run(g, evs[..|evs| - 1]).log, evs[|evs| - 1]))
  }

  lemma {:induction false} TidySettled(g: Config, evs: seq<Event>)
    requires ValidConfig(g) && LegalRun(g, evs) && Tidy(g, evs)
    ensures SettledDevice(g, Run(g, evs))
    decreases |evs|
  {
    if evs == [] {
      BlankInv(g);
      RoundUpLeast(0, g.unit, 0);
    } else {
      hide SettledDevice, Inv, Leaves, Step;
      var p, e := evs[..|evs| - 1], evs[|evs| - 1];
      if Run(g, evs).log.current >= g.physical {
        WrappedSettled(g, Run(g, evs));
      } else if e == Reset(true) {
        ResetAllSettled(g, Run(g, p));
      } else {
        TidySettled(g, p);
        StepSettled(g, Run(g, p), e);
      }
    }
  }

  /** On every settled device a restart recovers exactly what was written if and only if the device is clean. */
  lemma RestartExact(g: Config, evs: seq<Event>)
    requires ValidConfig(g) && LegalRun(g, evs) && SettledDevice(g, Run(g, evs))
    ensures var y := Run(g, evs);
      BootCounters(g, y.log.flash, {}) == Booted(|y.h.hist|, Oldest(g, y.log.current, y.h.ahead)) <==> CleanDevice(g, y)
  {
    BootExact(g, Run(g, evs).log, Run(g, evs).h);
  }

  /** A full logger is always clean, after any run that does not leave torn slots behind. */
  lemma {:induction false} FullClean(g: Config, evs: seq<Event>)
    requires ValidConfig(g) && LegalRun(g, evs) && Tidy(g, evs) && 0 < Run(g, evs).log.current == g.logical
    ensures CleanDevice(g, Run(g, evs))
    decreases |evs|
  {
    assert evs != [] by {
      BlankInv(g);
    }
    hide Step, CleanDevice, SettledDevice, Inv, Legal;
    var p, e := evs[..|evs| - 1], evs[|evs| - 1];
    var y := Run(g, p);
    if y.log.current == g.logical {
      FullStays(g, y, e);
      FullClean(g, p);
    } else {
      if y.log.current + 1 < g.physical {
        TidySettled(g, p);
      }
      AddsClean(g, y, e);
    }
  }

  /** A full logger stays as it is until it is reset. */
  lemma FullStays(g: Config, y: System, e: Event)
    requires Inv(g, y.log, y.h) && Legal(g, y, e) && y.log.current == g.logical
    ensures var z := Step(g, y, e);
      z.log.current == 0 || (z.log.current == g.logical && (CleanDevice(g, y) ==> CleanDevice(g, z)))
  {
    if e.Restart? {
      RestartInv(g, y);
    }
    hide BootCounters, Oldest, Clean, LooksWritten;
  }

  /** Whatever adds a block leaves the device clean. */
  lemma AddsClean(g: Config, y: System, e: Event)
    requires Inv(g, y.log, y.h) && Legal(g, y, e) && Step(g, y, e).log.current > y.log.current
    requires y.log.current + 1 < g.physical ==> SettledDevice(g, y)
    ensures CleanDevice(g, Step(g, y, e)) && Step(g, y, e).log.current == y.log.current + 1
  {
    hide BootCounters, Oldest, Clean, LooksWritten;
    if e.Restart? {
      RestartInv(g, y);
      WithTornInv(g, y.log, y.h);
    } else {
      CommitClean(g, y, e.blockType, e.block);
    }
  }

  /** A torn write that is retried successfully leaves no trace: a restart finds the block after it. */
  lemma RetryRepairs(g: Config, evs: seq<Event>, blockType: byte, block: Block)
    requires ValidConfig(g) && LegalRun(g, evs) && SettledDevice(g, Run(g, evs)) && 2 <= |block|
    requires Accepted(g, Run(g, evs).log, block)
    ensures LegalRun(g, evs + [Write(blockType, block, NoFault)])
    ensures var y, z := Run(g, evs), Run(g, evs + [Write(blockType, block, NoFault)]);
      && CleanDevice(g, z)
      && BootCounters(g, z.log.flash, {}) == Booted(y.log.current + 1, Oldest(g, z.log.current, z.h.ahead))
  {
    var y, e := Run(g, evs), Write(blockType, block, NoFault);
    var more := evs + [e];
    assert more[..|evs|] == evs && more[|more| - 1] == e;
    CommitClean(g, y, blockType, block);
    RestartRecovers(g, more);
  }

  /** A write torn in its slot's wrap byte on a blank device: the restart counts a block that was never written. */
  lemma TornFirstWrite(g: Config, block: Block)
    requires ValidConfig(g) && g.logical > 0 && |block| == g.blockSize && WrapOf(block) == 1
    ensures var evs := [Write(0, block, WriteFault(block))];
      LegalRun(g, evs) && Run(g, evs).h.hist == [] && BootCounters(g, Run(g, evs).log.flash, {}) == Booted(1, 0)
  {
    var evs := [Write(0, block, WriteFault(block))];
    assert evs[..0] == [];
    BlankInv(g);
    TidySettled(g, []);
    StepSettled(g, Run(g, []), evs[0]);
    var y := Run(g, evs);
    DivModUnique(0, 0, g.physical);
    OldestBounds(g, 0, y.h.ahead);
    TornAsWritten(g, y.log, y.h);
  }

  // ----- Repeated erases -----

  /** What can be seen of an event: the block count before it, and what it did to the storage. */
  datatype Seen = Seen(count: nat, failed: bool, erases: bool, boot: bool, reset: bool)

  ghost function Observe(g: Config, s: Log, e: Event): Seen
    requires 0 < g.unit
  {
    var tries := e.Write? && Accepted(g, s, e.block);
    Seen(s.current,
         tries && e.fault.WriteFault?,
         tries && NeedsErase(g, s.current) && (e.fault.NoFault? || e.fault.WriteFault?),
         !e.Write?, e.Reset?)
  }

  /** The events of a run, as they can be seen. */
  ghost function Trace(g: Config, evs: seq<Event>): (tr: seq<Seen>)
    requires ValidConfig(g) && LegalRun(g, evs)
    ensures |tr| == |evs|
  {
    if evs == [] then [] else
      Trace(g, evs[..|evs| - 1]) + [Observe(g, Run(g, evs[..|evs| - 1]).log, evs[|evs| - 1])]
  }

  /** Event `j`, before `i`, failed to write block `c`, and no reset has happened since. */
  ghost predicate FailedAt(tr: seq<Seen>, j: nat, i: nat, c: nat) {
    j < i <= |tr| && tr[j].failed && tr[j].count == c && forall m :: j < m < i ==> !tr[m].reset
  }

  /** Some event before `i` did so. */
  ghost predicate Tried(tr: seq<Seen>, i: nat, c: nat) {
    exists j: nat :: FailedAt(tr, j, i, c)
  }

  /** Event `i` erases a unit that an earlier, failed write of the same block had erased. */
  ghost predicate ErasesAgain(tr: seq<Seen>, i: nat) {
    i < |tr| && tr[i].erases && Tried(tr, i, tr[i].count)
  }

  /** Since event `i` there was neither a restart nor a reset. */
  ghost predicate SinceBoot(tr: seq<Seen>, i: nat) {
    i < |tr| && forall m :: i <= m < |tr| ==> !tr[m].boot
  }

  /** What an event does to the block count, to an erase that ran ahead, and to the advertised window. */
  lemma StepEffect(g: Config, y: System, e: Event)
    requires Inv(g, y.log, y.h) && Legal(g, y, e)
    ensures var z, o := Step(g, y, e), Observe(g, y.log, e);
      && (o.reset ==> o.boot && z.log.current == 0 && !z.h.ahead)
      && z.h.slack == (if o.boot then 0 else y.h.slack + if o.erases && y.h.ahead then g.unit else 0)
      && (o.failed ==> z.log.current == y.log.current && z.h.ahead == NeedsErase(g, y.log.current) && !o.boot)
      && (!o.reset && !o.failed ==>
            || (z.log.current == y.log.current && z.h.ahead == y.h.ahead)
            || (z.log.current == y.log.current + 1 && !z.h.ahead))
  {
    if e.Restart? {
      RestartInv(g, y);
    }
  }

  /** Failed attempts at block `c` before and after one more event. */
  lemma TriedMore(tr: seq<Seen>, o: Seen, c: nat)
    ensures Tried(tr + [o], |tr| + 1, c) <==> (Tried(tr, |tr|, c) && !o.reset) || (o.failed && o.count == c)
  {
    var more := tr + [o];
    assert more[|tr|] == o && forall m :: 0 <= m < |tr| ==> more[m] == tr[m];
    if Tried(more, |more|, c) {
      var j: nat :| FailedAt(more, j, |more|, c);
      if j < |tr| {
        assert !more[|tr|].reset;
        assert FailedAt(tr, j, |tr|, c);
      }
    }
    if Tried(tr, |tr|, c) && !o.reset {
      var j: nat :| FailedAt(tr, j, |tr|, c);
      assert FailedAt(more, j, |more|, c);
    }
    if o.failed && o.count == c {
      assert FailedAt(more, |tr|, |more|, c);
    }
  }

  /** What happened before an event does not depend on it. */
  lemma TriedEarlier(tr: seq<Seen>, o: Seen, i: nat)
    requires i <= |tr|
    ensures forall c :: Tried(tr + [o], i, c) <==> Tried(tr, i, c)
    ensures i < |tr| ==> (ErasesAgain(tr + [o], i) <==> ErasesAgain(tr, i))
  {
    forall c: nat, j: nat ensures FailedAt(tr + [o], j, i, c) <==> FailedAt(tr, j, i, c) {
      if j < i {
        assert forall m :: j <= m < i ==> (tr + [o])[m] == tr[m];
      }
    }
  }

  /** A run with one more event. */
  lemma LastEvent(g: Config, evs: seq<Event>)
    requires ValidConfig(g) && LegalRun(g, evs) && evs != []
    ensures var p, e := evs[..|evs| - 1], evs[|evs| - 1];
      && LegalRun(g, p) && Legal(g, Run(g, p), e) && Run(g, evs) == Step(g, Run(g, p), e)
      && Trace(g, evs) == Trace(g, p) + [Observe(g, Run(g, p).log, e)]
      && Observe(g, Run(g, p).log, e).count == Run(g, p).log.current
  {
  }

  /** No write of a block that is still to come can have failed. */
  lemma {:induction false} NothingFailed(g: Config, evs: seq<Event>, c: nat)
    requires ValidConfig(g) && LegalRun(g, evs) && c > Run(g, evs).log.current
    ensures !Tried(Trace(g, evs), |evs|, c)
    decreases |evs|
  {
    hide Run, LegalRun, Trace, Step, Observe, Tried, Inv;
    if evs == [] {
      NothingTried(g, c);
    } else {
      var p, e := evs[..|evs| - 1], evs[|evs| - 1];
      LastEvent(g, evs);
      var y, o := Run(g, p), Observe(g, Run(g, p).log, e);
      StepEffect(g, y, e);
      TriedMore(Trace(g, p), o, c);
      if y.log.current < c {
        NothingFailed(g, p, c);
      }
    }
  }

  /** An erase has run ahead exactly when a write of the current block failed after erasing its unit. */
  lemma {:induction false} AheadExact(g: Config, evs: seq<Event>)
    requires ValidConfig(g) && LegalRun(g, evs)
    ensures var y := Run(g, evs);
      y.h.ahead <==> NeedsErase(g, y.log.current) && Tried(Trace(g, evs), |evs|, y.log.current)
    decreases |evs|
  {
    hide Run, LegalRun, Trace, Step, Observe, Tried, Inv, NeedsErase;
    if evs == [] {
      NothingAhead(g);
    } else {
      var p, e := evs[..|evs| - 1], evs[|evs| - 1];
      LastEvent(g, evs);
      AheadExact(g, p);
      StepEffect(g, Run(g, p), e);
      NothingFailed(g, p, Run(g, p).log.current + 1);
      AheadStep(g, Trace(g, p), Observe(g, Run(g, p).log, e), Run(g, p).h.ahead,
                Run(g, evs).log.current, Run(g, evs).h.ahead);
    }
  }

  lemma NothingTried(g: Config, c: nat)
    requires ValidConfig(g)
    ensures LegalRun(g, []) && !Tried(Trace(g, []), 0, c)
  {
  }

  lemma NothingAhead(g: Config)
    requires ValidConfig(g)
    ensures LegalRun(g, []) && !Run(g, []).h.ahead && !NeedsErase(g, Run(g, []).log.current)
  {
  }

  /** One event; `c` and `ahead` are what it leaves, `was` is what it found. */
  lemma AheadStep(g: Config, tr: seq<Seen>, o: Seen, was: bool, c: nat, ahead: bool)
    requires ValidConfig(g) && (was <==> NeedsErase(g, o.count) && Tried(tr, |tr|, o.count))
    requires !Tried(tr, |tr|, o.count + 1)
    requires o.reset ==> c == 0 && !ahead && !o.failed
    requires o.failed ==> c == o.count && ahead == NeedsErase(g, o.count)
    requires !o.reset && !o.failed ==> (c == o.count && ahead == was) || (c == o.count + 1 && !ahead)
    ensures ahead <==> NeedsErase(g, c) && Tried(tr + [o], |tr| + 1, c)
  {
    hide Tried;
    TriedMore(tr, o, c);
  }

  /** The advertised window has moved too far exactly when, since boot, an erase was repeated. */
  lemma {:induction false} SlackExact(g: Config, evs: seq<Event>)
    requires ValidConfig(g) && LegalRun(g, evs)
    ensures Run(g, evs).h.slack > 0 <==> exists i: nat :: SinceBoot(Trace(g, evs), i) && ErasesAgain(Trace(g, evs), i)
    decreases |evs|
  {
    if evs != [] {
      hide Run, LegalRun, Trace, Step, Observe, Tried, Inv;
      var p, e := evs[..|evs| - 1], evs[|evs| - 1];
      LastEvent(g, evs);
      var tr, o := Trace(g, p), Observe(g, Run(g, p).log, e);
      SlackExact(g, p);
      AheadExact(g, p);
      StepEffect(g, Run(g, p), e);
      SlackStep(tr, o);
    }
  }

  /** Repeated erases since boot, with one more event. */
  lemma SlackStep(tr: seq<Seen>, o: Seen)
    ensures (exists i: nat :: SinceBoot(tr + [o], i) && ErasesAgain(tr + [o], i)) <==>
      && !o.boot
      && ((exists i: nat :: SinceBoot(tr, i) && ErasesAgain(tr, i)) || (o.erases && Tried(tr, |tr|, o.count)))
  {
    var more := tr + [o];
    assert more[|tr|] == o && forall m :: 0 <= m < |tr| ==> more[m] == tr[m];
    forall i: nat | i < |tr|
      ensures SinceBoot(more, i) && ErasesAgain(more, i) <==> !o.boot && SinceBoot(tr, i) && ErasesAgain(tr, i)
    {
      TriedEarlier(tr, o, i);
    }
    TriedEarlier(tr, o, |tr|);
    assert SinceBoot(more, |tr|) <==> !o.boot;
    assert ErasesAgain(more, |tr|) <==> o.erases && Tried(tr, |tr|, o.count);
  }

  /**
   * A restart brings back the advertised window exactly when, since boot, no write erased a unit
   * again that a failed write of the same block had erased before.
   */
  lemma WindowsAgree(g: Config, evs: seq<Event>)
    requires ValidConfig(g) && LegalRun(g, evs) && CleanDevice(g, Run(g, evs))
    ensures var s, tr := Run(g, evs).log, Trace(g, evs);
      BootCounters(g, s.flash, {}) == Booted(s.current, s.earliest) <==>
        !exists i: nat :: SinceBoot(tr, i) && ErasesAgain(tr, i)
  {
    RestartRecovers(g, evs);
    SlackExact(g, evs);
  }

  /** `n` successful writes. */
  function Fill(g: Config, n: nat): (evs: seq<Event>)
    ensures |evs| == n
  {
    if n == 0 then [] else Fill(g, n - 1) + [Write(0, ErasedBlock(g), NoFault)]
  }

  /** One more write of a run that only writes. */
  lemma OneMore(g: Config, evs: seq<Event>, fault: Fault)
    requires ValidConfig(g) && LegalRun(g, evs) && Tidy(g, evs) && ValidFault(g, fault)
    ensures var e := Write(0, ErasedBlock(g), fault);
      && Legal(g, Run(g, evs), e) && LegalRun(g, evs + [e]) && Tidy(g, evs + [e])
      && Run(g, evs + [e]) == Step(g, Run(g, evs), e)
      && (fault.NoFault? && Run(g, evs).log.current < g.logical ==>
            Run(g, evs + [e]).log.current == Run(g, evs).log.current + 1)
  {
    var e := Write(0, ErasedBlock(g), fault);
    assert (evs + [e])[..|evs|] == evs;
  }

  lemma {:induction false} FillRuns(g: Config, n: nat)
    requires ValidConfig(g) && n <= g.logical
    ensures LegalRun(g, Fill(g, n)) && Tidy(g, Fill(g, n)) && Run(g, Fill(g, n)).log.current == n
    decreases n
  {
    hide Run, LegalRun, Tidy, Inv, Step;
    if n == 0 {
      NothingWritten(g);
    } else {
      FillRuns(g, n - 1);
      OneMore(g, Fill(g, n - 1), NoFault);
    }
  }

  lemma NothingWritten(g: Config)
    requires ValidConfig(g)
    ensures LegalRun(g, []) && Tidy(g, []) && Run(g, []).log.current == 0
  {
  }

  /**
   * Fill the device, fail the next write after its erase, and write again: the advertised window has
   * lost a unit that a restart finds.
   */
  lemma RepeatedErase(g: Config)
    requires ValidConfig(g) && g.logical > g.physical
    ensures var evs := Fill(g, g.physical) +
        [Write(0, ErasedBlock(g), WriteFault(ErasedBlock(g)))] + [Write(0, ErasedBlock(g), NoFault)];
      && LegalRun(g, evs) && CleanDevice(g, Run(g, evs))
      && BootCounters(g, Run(g, evs).log.flash, {}).Booted?
      && BootCounters(g, Run(g, evs).log.flash, {}).earliest < Run(g, evs).log.earliest
  {
    var full, torn := Fill(g, g.physical), WriteFault(ErasedBlock(g));
    FillRuns(g, g.physical);
    OneMore(g, full, torn);
    var failed := full + [Write(0, ErasedBlock(g), torn)];
    StepEffect(g, Run(g, full), Write(0, ErasedBlock(g), torn));
    OneMore(g, failed, NoFault);
    StepEffect(g, Run(g, failed), Write(0, ErasedBlock(g), NoFault));
    TidySettled(g, failed);
    RetryRepairs(g, failed, 0, ErasedBlock(g));
    RestartRecovers(g, failed + [Write(0, ErasedBlock(g), NoFault)]);
    hide Run, LegalRun, Step, BootCounters, Tidy, Clean;
  }
}
