/** Lockouts and timeouts of schedules, over whole runs of the task runner. */
module TaskRunnerTiming {
  import opened Arithmetic
  import opened TaskSchedule
  import opened TaskRunner
  import opened TaskRunnerRuns

  // ----- Lockouts -----

  ghost predicate Ordered(ks: seq<Tick>) {
    && (forall m, n :: 0 <= m <= n < |ks| ==> ks[m].x.uptime <= ks[n].x.uptime)
    && (forall m :: 0 <= m < |ks| ==> ks[m].x.uptime < U32)
  }

  /** Once a schedule has started, its last run is no earlier than that start. */
  lemma {:induction false} LastRunSince(ids: seq<nat>, num: nat, r: Runner, ks: seq<Tick>, i: nat)
    requires Shaped(ids, r) && ValidTicks(r, num, ks) && Ordered(ks) && |ks| > 0
    requires Final(ids, num, r, ks).r.reloads == r.reloads && i < |r.sch|
    requires i in Final(ids, num, r, ks[..1]).starts
    ensures var a := Final(ids, num, r, ks);
      a.r.sch == r.sch && ks[0].x.uptime <= a.r.states[i].lastRun <= ks[|ks| - 1].x.uptime
    decreases |ks|
  {
    hide Shaped, Iterate, LinkedTerminate, ShouldStart;
    var p, k := ks[..|ks| - 1], ks[|ks| - 1];
    var q := Final(ids, num, r, p).r;
    ReloadsGrow(ids, num, r, p);
    ReloadExact(ids, num, q, k);
    if |p| > 0 {
      assert p[..1] == ks[..1];
      LastRunSince(ids, num, r, p, i);
    } else {
      assert ks[..1] == ks;
    }
    StartRecorded(ids, num, q, k, i);
  }

  predicate HasLockout(p: Periodicity) {
    p.Lockout? || p.LockoutBattery?
  }

  lemma StartWaited(s: Schedule, lastRun: nat, linkedTerminate: nat, x: Inputs)
    requires WellFormed(s) && HasLockout(s.periodicity) && ShouldStart(s, lastRun, linkedTerminate, x)
    ensures LockoutPassed(LockoutValue(s.periodicity, x.battery), lastRun, x.uptime)
  {
  }

  lemma WaitedLong(wait: nat, first: nat, lastRun: nat, uptime: nat)
    requires LockoutPassed(wait, lastRun, uptime) && first <= lastRun <= uptime < U32
    ensures uptime - first >= wait % IGNORE_FIRST || (wait >= IGNORE_FIRST && first == 0)
  {
  }

  /** A start at uptime zero cannot have waited. */
  lemma NoWaitAtZero(wait: nat, lastRun: nat)
    requires LockoutPassed(wait, lastRun, 0) && lastRun == 0
    ensures wait % IGNORE_FIRST == 0
  {
  }

  ghost predicate PastRuns(r: Runner, uptime: nat) {
    forall i :: 0 <= i < |r.states| ==> r.states[i].lastRun <= uptime
  }

  /** No schedule ever claims a last run in the future. */
  lemma PastStep(ids: seq<nat>, num: nat, r: Runner, k: Tick, uptime: nat)
    requires Shaped(ids, r) && ValidTick(r, num, k) && PastRuns(r, uptime) && uptime <= k.x.uptime
    ensures PastRuns(Iterate(ids, num, r, k).r, k.x.uptime)
  {
    IterateCases(ids, num, r, k);
    ReadyExact(ids, r, k);
    var q, a := Ready(r, k), Iterate(ids, num, r, k);
    hide Iterate, Shaped, Wins, Active;
    assert PastRuns(q, k.x.uptime);
    if Pending(q) && !AnyRunning(q) {
      LoadedPast(ids, num, q, k);
      EvaluatedPast(ids, Loaded(ids, num, q, k), k, a);
    } else if !Pending(q) {
      EvaluatedPast(ids, q, k, a);
    }
  }

  lemma EvaluatedPast(ids: seq<nat>, q: Runner, k: Tick, a: Acc)
    requires Evaluated(ids, Acc(q, [], []), k, a, |q.sch|) && PastRuns(q, k.x.uptime)
    ensures PastRuns(a.r, k.x.uptime)
  {
    hide Wins, Active, Stops;
  }

  lemma LoadedPast(ids: seq<nat>, num: nat, q: Runner, k: Tick)
    requires |ids| < NONE && |k.loaded| <= |q.states| && PastRuns(q, k.x.uptime)
    ensures PastRuns(Loaded(ids, num, q, k), k.x.uptime)
  {
    forall i | 0 <= i < |q.states| ensures Loaded(ids, num, q, k).states[i].lastRun <= k.x.uptime {
      InitStatesAt(ids, k.loaded, q.states, num, |k.loaded|, i);
    }
  }

  lemma {:induction false} AlwaysPast(ids: seq<nat>, num: nat, r: Runner, ks: seq<Tick>)
    requires Shaped(ids, r) && ValidTicks(r, num, ks) && Ordered(ks) && |ks| > 0 && PastRuns(r, ks[0].x.uptime)
    ensures PastRuns(Final(ids, num, r, ks).r, ks[|ks| - 1].x.uptime)
    decreases |ks|
  {
    hide Shaped, Iterate;
    var p, k := ks[..|ks| - 1], ks[|ks| - 1];
    if p != [] {
      AlwaysPast(ids, num, r, p);
      PastStep(ids, num, Final(ids, num, r, p).r, k, p[|p| - 1].x.uptime);
    } else {
      PastStep(ids, num, r, k, k.x.uptime);
    }
  }

  /** What the first start of a run had waited for. */
  lemma FirstWait(ids: seq<nat>, num: nat, r: Runner, ks: seq<Tick>, i: nat)
    requires Shaped(ids, r) && ValidTicks(r, num, ks) && |ks| > 0
    requires Final(ids, num, r, ks).r.reloads == r.reloads && i < |r.sch| && i in Final(ids, num, r, ks[..1]).starts
    requires HasLockout(r.sch[i].periodicity) && r.sch[i].validity != VALID_PERMANENT
    ensures i < |r.states| && WellFormed(r.sch[i])
    ensures LockoutPassed(LockoutValue(r.sch[i].periodicity, ks[0].x.battery), r.states[i].lastRun, ks[0].x.uptime)
  {
    hide Iterate, LinkedTerminate, LockoutValue, Shaped;
    ShapedSizes(ids, r);
    NoReloadPrefix(ids, num, r, ks);
    assert ks[..1][..0] == [] && ks[..1][0] == ks[0];
    StartRecorded(ids, num, r, ks[0], i);
    StartWaited(r.sch[i], r.states[i].lastRun, LinkedTerminate(Ready(r, ks[0]), i), ks[0].x);
  }

  lemma {:induction false} NoReloadPrefix(ids: seq<nat>, num: nat, r: Runner, ks: seq<Tick>)
    requires Shaped(ids, r) && ValidTicks(r, num, ks) && |ks| > 0
    requires Final(ids, num, r, ks).r.reloads == r.reloads
    ensures Final(ids, num, r, ks[..1]).r.reloads == r.reloads
    decreases |ks|
  {
    hide Shaped, Iterate;
    var p, k := ks[..|ks| - 1], ks[|ks| - 1];
    if p == [] {
      assert ks[..1] == ks;
    } else {
      ReloadsGrow(ids, num, r, p);
      ReloadExact(ids, num, Final(ids, num, r, p).r, k);
      assert p[..1] == ks[..1];
      NoReloadPrefix(ids, num, r, p);
    }
  }

  /**
   * Two starts of a schedule with a lockout, fixed or scaled by the battery charge, are at least
   * the lockout apart, in every run without a reload between them, whatever the flag that excuses
   * the first wait says.
   */
  lemma LockoutSpacing(ids: seq<nat>, num: nat, r: Runner, ks: seq<Tick>, i: nat)
    requires Shaped(ids, r) && ValidTicks(r, num, ks) && Ordered(ks) && |ks| > 1
    requires Final(ids, num, r, ks).r.reloads == r.reloads && i < |r.sch| <= |r.states|
    requires i in Final(ids, num, r, ks[..1]).starts && i in Final(ids, num, r, ks).starts
    requires HasLockout(r.sch[i].periodicity) && r.sch[i].validity != VALID_PERMANENT
    requires r.states[i].lastRun <= ks[0].x.uptime
    ensures WellFormed(r.sch[i])
    ensures ks[|ks| - 1].x.uptime - ks[0].x.uptime >=
      LockoutValue(r.sch[i].periodicity, ks[|ks| - 1].x.battery) % IGNORE_FIRST
  {
    hide Iterate, LinkedTerminate, LockoutValue, Shaped;
    var p, k := ks[..|ks| - 1], ks[|ks| - 1];
    var q := Final(ids, num, r, p).r;
    ReloadsGrow(ids, num, r, p);
    ReloadExact(ids, num, q, k);
    assert p[..1] == ks[..1];
    ShapedSizes(ids, q);
    LastRunSince(ids, num, r, p, i);
    StartRecorded(ids, num, q, k, i);
    StartWaited(q.sch[i], q.states[i].lastRun, LinkedTerminate(Ready(q, k), i), k.x);
    WaitedLong(LockoutValue(q.sch[i].periodicity, k.x.battery), ks[0].x.uptime, q.states[i].lastRun, k.x.uptime);
    FirstWait(ids, num, r, ks, i);
    if ks[0].x.uptime == 0 {
      NoWaitAtZero(LockoutValue(r.sch[i].periodicity, ks[0].x.battery), r.states[i].lastRun);
      if LockoutValue(r.sch[i].periodicity, k.x.battery) >= IGNORE_FIRST {
        FlagIsFixed(r.sch[i].periodicity, k.x.battery, ks[0].x.battery);
      }
    }
  }

  /** A lockout that carries the flag does not depend on the battery. */
  lemma FlagIsFixed(p: Periodicity, battery: nat, other: nat)
    requires ValidPeriodicity(p) && HasLockout(p) && LockoutValue(p, battery) >= IGNORE_FIRST
    ensures LockoutValue(p, other) == LockoutValue(p, battery)
  {
  }

  /** The flag matters for the first wait only: it cuts it short if and only if there is more than a second to wait. */
  lemma ExcuseExact(wait: u32)
    ensures (forall uptime: u32 :: uptime > 0 && LockoutPassed(wait, 0, uptime) ==> uptime >= wait % IGNORE_FIRST) <==>
            (wait < IGNORE_FIRST || wait % IGNORE_FIRST <= 1)
  {
    if wait >= IGNORE_FIRST {
      assert LockoutPassed(wait, 0, 1);
    }
  }

  /** A permanent schedule restarts its task in the iteration that sees it ended, whatever its periodicity. */
  lemma PermanentRestarts(ids: seq<nat>, num: nat, r: Runner, k: Tick, i: nat)
    requires Shaped(ids, r) && ValidTick(r, num, k) && !Pending(r) && !k.trigger
    requires Resolved(ids, r, i) && r.sch[i].validity == VALID_PERMANENT
    requires var d := r.tasks[r.states[i].taskIdx]; !d.skip && (d.running ==> r.states[i].taskIdx in k.ended)
    requires forall j :: 0 <= j < i ==> r.states[j].taskIdx != r.states[i].taskIdx
    ensures i in Iterate(ids, num, r, k).starts
  {
    hide Iterate, Shaped, Stops, StateAfter, Wins, Resolved;
    IterateCases(ids, num, r, k);
    PermanentWins(ids, r, k, i);
  }

  lemma PermanentWins(ids: seq<nat>, r: Runner, k: Tick, i: nat)
    requires Shaped(ids, r) && !Pending(r) && !k.trigger
    requires Resolved(ids, r, i) && r.sch[i].validity == VALID_PERMANENT
    requires var d := r.tasks[r.states[i].taskIdx]; !d.skip && (d.running ==> r.states[i].taskIdx in k.ended)
    requires forall j :: 0 <= j < i ==> r.states[j].taskIdx != r.states[i].taskIdx
    ensures var q := Ready(r, k); !Pending(q) && i < |q.sch| && Wins(ids, q, k, i)
  {
    ReadyExact(ids, r, k);
    hide Shaped, ShouldStart, LinkedTerminate, WellFormed;
    assert Resolved(ids, Ready(r, k), i);
  }

  // ----- Timeouts -----

  /** A start leaves the schedule owning its running task, with nothing pending. */
  lemma StartedActive(ids: seq<nat>, q: Runner, k: Tick, a: Acc, i: nat)
    requires i < |q.sch| <= |q.states| && Evaluated(ids, Acc(q, [], []), k, a, |q.sch|)
    requires i in a.starts && q.sch[i].validity != VALID_PERMANENT
    ensures Active(ids, a.r, i) && a.r.states[i].runtime == 0
  {
    hide ShouldStart, Stops;
    assert a.r.states[i] == StateAfter(ids, q, k, i);
    assert Started(q, a.r, i);
  }

  lemma StartActive(ids: seq<nat>, num: nat, r: Runner, k: Tick, i: nat)
    requires Shaped(ids, r) && ValidTick(r, num, k)
    requires var a := Iterate(ids, num, r, k); i < |a.r.sch| && i in a.starts && a.r.sch[i].validity != VALID_PERMANENT
    ensures var a := Iterate(ids, num, r, k);
      Active(ids, a.r, i) && a.r.states[i].runtime == 0 && !Pending(a.r)
  {
    IterateCases(ids, num, r, k);
    ReloadExact(ids, num, r, k);
    ReadyExact(ids, r, k);
    hide Iterate, Shaped, Evaluated, AnyRunning, Active;
    var q, a := Ready(r, k), Iterate(ids, num, r, k);
    if Pending(q) {
      StartedActive(ids, Loaded(ids, num, q, k), k, a, i);
    } else {
      StartedActive(ids, q, k, a, i);
    }
  }

  /** While its task runs, a schedule counts evaluations, and asks the task to stop exactly when it should. */
  lemma RunCounted(ids: seq<nat>, num: nat, r: Runner, k: Tick, i: nat)
    requires Shaped(ids, r) && ValidTick(r, num, k) && !Pending(r) && !k.trigger
    requires Active(ids, r, i) && r.states[i].taskIdx !in k.ended && r.sch[i].validity != VALID_PERMANENT
    ensures var a := Iterate(ids, num, r, k);
      && a.r.sch == r.sch && Active(ids, a.r, i) && a.r.states[i].taskIdx == r.states[i].taskIdx
      && a.r.states[i].runtime == (r.states[i].runtime + 1) % U32 && !Pending(a.r)
      && (i in a.stops <==> ShouldTerminate(r.sch[i], a.r.states[i].runtime, k.x))
  {
    IterateCases(ids, num, r, k);
    ReadyExact(ids, r, k);
    hide Iterate, Shaped, ShouldStart, ShouldTerminate;
    var q, a, t := Ready(r, k), Iterate(ids, num, r, k), r.states[i].taskIdx;
    assert Active(ids, q, i);
    assert a.r.states[i] == StateAfter(ids, q, k, i);
    assert !Taken(ids, q, k, |q.sch|, t);
  }

  lemma {:induction false} RunSince(ids: seq<nat>, num: nat, r: Runner, ks: seq<Tick>, i: nat, t: nat)
    requires Shaped(ids, r) && ValidTicks(r, num, ks) && 0 < |ks| < U32
    requires var a := Final(ids, num, r, ks[..1]);
      i < |a.r.sch| && i in a.starts && a.r.sch[i].validity != VALID_PERMANENT && a.r.states[i].taskIdx == t
    requires forall m :: 1 <= m < |ks| ==> !ks[m].trigger && t !in ks[m].ended
    ensures var a := Final(ids, num, r, ks);
      && a.r.sch == Final(ids, num, r, ks[..1]).r.sch
      && Active(ids, a.r, i) && a.r.states[i].taskIdx == t && a.r.states[i].runtime == |ks| - 1 && !Pending(a.r)
    decreases |ks|
  {
    hide Shaped, Iterate, Active, ShouldTerminate;
    var p, k := ks[..|ks| - 1], ks[|ks| - 1];
    if |p| == 0 {
      assert ks[..1] == ks;
      StartActive(ids, num, Final(ids, num, r, p).r, k, i);
    } else {
      assert p[..1] == ks[..1];
      RunSince(ids, num, r, p, i, t);
      RunCounted(ids, num, Final(ids, num, r, p).r, k, i);
    }
  }

  /** A task still running as many iterations after its start as its timeout says is asked to stop then. */
  lemma TimeoutStops(ids: seq<nat>, num: nat, r: Runner, ks: seq<Tick>, i: nat, t: nat)
    requires Shaped(ids, r) && ValidTicks(r, num, ks) && 1 < |ks| < U32
    requires var a := Final(ids, num, r, ks[..1]);
      && i < |a.r.sch| && i in a.starts && a.r.sch[i].validity != VALID_PERMANENT && a.r.states[i].taskIdx == t
      && a.r.sch[i].timeout == |ks| - 1
    requires forall m :: 1 <= m < |ks| ==> !ks[m].trigger && t !in ks[m].ended
    ensures i in Final(ids, num, r, ks).stops
  {
    hide Shaped, Iterate;
    var p, k := ks[..|ks| - 1], ks[|ks| - 1];
    assert p[..1] == ks[..1];
    RunSince(ids, num, r, p, i, t);
    RunCounted(ids, num, Final(ids, num, r, p).r, k, i);
  }
}
