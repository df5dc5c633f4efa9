/** What one iteration of the task runner decides, and what holds over whole runs. */
module TaskRunnerRuns {
  import opened Arithmetic
  import opened TaskSchedule
  import opened TaskRunner

  // ----- Which schedules start, which are asked to stop -----

  /** Schedule `i` is usable and could start its task, which nothing is running. */
  ghost predicate Candidate(ids: seq<nat>, r: Runner, k: Tick, i: nat) {
    && Resolved(ids, r, i) && r.states[i].taskIdx < |r.tasks|
    && !r.tasks[r.states[i].taskIdx].skip && !r.tasks[r.states[i].taskIdx].running
    && (r.sch[i].validity == VALID_PERMANENT || ShouldStart(r.sch[i], r.states[i].lastRun, LinkedTerminate(r, i), k.x))
  }

  /** The first candidate for its task. */
  ghost predicate Wins(ids: seq<nat>, r: Runner, k: Tick, i: nat) {
    && Candidate(ids, r, k, i)
    && forall j :: 0 <= j < i && Candidate(ids, r, k, j) ==> r.states[j].taskIdx != r.states[i].taskIdx
  }

  /** Schedule `i` owns a running task. */
  ghost predicate Active(ids: seq<nat>, r: Runner, i: nat) {
    Resolved(ids, r, i) && Running(r, i) && !r.tasks[r.states[i].taskIdx].skip
  }

  ghost predicate Stops(ids: seq<nat>, r: Runner, k: Tick, i: nat) {
    && Active(ids, r, i) && r.sch[i].validity != VALID_PERMANENT
    && ShouldTerminate(r.sch[i], (r.states[i].runtime + 1) % U32, k.x)
  }

  /** State of schedule `i` after the evaluation. */
  ghost function StateAfter(ids: seq<nat>, r: Runner, k: Tick, i: nat): ScheduleState
    requires i < |r.states|
  {
    if Wins(ids, r, k, i) then
      r.states[i].(lastRun := k.x.uptime, runtime := if r.sch[i].validity == VALID_PERMANENT then 1 else 0)
    else if Active(ids, r, i) then r.states[i].(runtime := (r.states[i].runtime + 1) % U32)
    else r.states[i]
  }

  /** The outcome of evaluating the first `n` schedules, said without the order of evaluation. */
  ghost predicate Evaluated(ids: seq<nat>, a: Acc, k: Tick, b: Acc, n: nat) {
    && Same(a.r, b.r)
    && (forall i :: 0 <= i < |a.r.states| ==>
          b.r.states[i] == if i < n then StateAfter(ids, a.r, k, i) else a.r.states[i])
    && (forall i :: i in b.starts <==> 0 <= i < n && Wins(ids, a.r, k, i))
    && Increasing(b.starts)
    && (forall i :: i in b.stops <==> i in a.stops || (0 <= i < n && Stops(ids, a.r, k, i)))
    && (forall i :: 0 <= i < n && Wins(ids, a.r, k, i) ==> Started(a.r, b.r, i))
    && (forall t :: 0 <= t < |a.r.tasks| && !Taken(ids, a.r, k, n, t) ==> b.r.tasks[t] == a.r.tasks[t])
  }

  ghost predicate Increasing(xs: seq<nat>) {
    forall j, l :: 0 <= j < l < |xs| ==> xs[j] < xs[l]
  }

  ghost predicate Same(r: Runner, q: Runner) {
    && q.sch == r.sch && |q.states| == |r.states| && |q.tasks| == |r.tasks|
    && q.triggered == r.triggered && q.terminating == r.terminating && q.reloads == r.reloads
  }

  ghost predicate Started(r: Runner, q: Runner, i: nat) {
    && i < |r.states| && r.states[i].taskIdx < |r.tasks| == |q.tasks|
    && q.tasks[r.states[i].taskIdx] == r.tasks[r.states[i].taskIdx].(running := true, owner := i)
  }

  ghost predicate Taken(ids: seq<nat>, r: Runner, k: Tick, n: nat, t: nat) {
    exists i :: 0 <= i < n && Wins(ids, r, k, i) && r.states[i].taskIdx == t
  }

  /** Where there is a candidate, the first of them wins. */
  lemma {:induction false} FirstWins(ids: seq<nat>, r: Runner, k: Tick, n: nat, j: nat)
    requires j < n && Candidate(ids, r, k, j)
    ensures Taken(ids, r, k, n, r.states[j].taskIdx)
    decreases j
  {
    if !Wins(ids, r, k, j) {
      var m :| 0 <= m < j && Candidate(ids, r, k, m) && r.states[m].taskIdx == r.states[j].taskIdx;
      FirstWins(ids, r, k, n, m);
    }
  }

  /** What evaluating schedule `n` does, told from the state before the whole evaluation. */
  ghost function Act(ids: seq<nat>, a: Acc, k: Tick, c: Acc, n: nat): Acc
    requires n < |a.r.states| == |c.r.states| && |a.r.tasks| == |c.r.tasks|
  {
    if Wins(ids, a.r, k, n) then
      var t := a.r.states[n].taskIdx;
      c.(r := c.r.(states := c.r.states[n := StateAfter(ids, a.r, k, n)],
                   tasks := c.r.tasks[t := a.r.tasks[t].(running := true, owner := n)]),
         starts := c.starts + [n])
    else
      c.(r := c.r.(states := c.r.states[n := StateAfter(ids, a.r, k, n)]),
         stops := c.stops + if Stops(ids, a.r, k, n) then [n] else [])
  }

  /** The links of a schedule see the same ends of runs throughout an evaluation. */
  lemma SameLinks(ids: seq<nat>, a: Acc, k: Tick, c: Acc, n: nat)
    requires n < |a.r.states| && Evaluated(ids, a, k, c, n)
    ensures LinkedTerminate(c.r, n) == LinkedTerminate(a.r, n)
  {
    var l := a.r.states[n].linked;
    if l < |a.r.states| {
      assert c.r.states[l].lastTerminate == a.r.states[l].lastTerminate;
    }
  }

  /** Before its turn, a schedule finds its task as it was, or taken by an earlier candidate. */
  lemma TaskBefore(ids: seq<nat>, a: Acc, k: Tick, c: Acc, n: nat)
    requires Shaped(ids, a.r) && n < |a.r.sch| && Resolved(ids, a.r, n) && Evaluated(ids, a, k, c, n)
    ensures var t := a.r.states[n].taskIdx;
      || (c.r.tasks[t] == a.r.tasks[t] && (Wins(ids, a.r, k, n) <==> Candidate(ids, a.r, k, n)))
      || (!Wins(ids, a.r, k, n) && !a.r.tasks[t].running && c.r.tasks[t].running && c.r.tasks[t].owner != n)
  {
    var t := a.r.states[n].taskIdx;
    if Taken(ids, a.r, k, n, t) {
      var i :| 0 <= i < n && Wins(ids, a.r, k, i) && a.r.states[i].taskIdx == t;
      assert Started(a.r, c.r, i);
    } else {
      forall j | 0 <= j < n && Candidate(ids, a.r, k, j) ensures a.r.states[j].taskIdx != t {
        FirstWins(ids, a.r, k, n, j);
      }
    }
  }

  lemma EvalWinner(ids: seq<nat>, a: Acc, k: Tick, c: Acc, n: nat)
    requires Shaped(ids, a.r) && Shaped(ids, c.r) && n < |a.r.sch| && Evaluated(ids, a, k, c, n)
    requires Wins(ids, a.r, k, n)
    ensures EvalOne(ids, c, k, n) == Act(ids, a, k, c, n)
  {
    assert c.r.states[n] == a.r.states[n];
    TaskBefore(ids, a, k, c, n);
    SameLinks(ids, a, k, c, n);
    hide LinkedTerminate, ShouldStart, Evaluated;
  }

  lemma EvalOther(ids: seq<nat>, a: Acc, k: Tick, c: Acc, n: nat)
    requires Shaped(ids, a.r) && Shaped(ids, c.r) && n < |a.r.sch| && Evaluated(ids, a, k, c, n)
    requires !Wins(ids, a.r, k, n)
    ensures EvalOne(ids, c, k, n) == Act(ids, a, k, c, n)
  {
    assert c.r.states[n] == a.r.states[n];
    assert c.r.states[n := c.r.states[n]] == c.r.states;
    if a.r.states[n].taskIdx != NONE {
      assert Resolved(ids, a.r, n) && Resolved(ids, c.r, n);
      TaskBefore(ids, a, k, c, n);
      SameLinks(ids, a, k, c, n);
      hide LinkedTerminate, ShouldStart, ShouldTerminate, Evaluated;
    }
  }

  lemma EvalActs(ids: seq<nat>, a: Acc, k: Tick, c: Acc, n: nat)
    requires Shaped(ids, a.r) && Shaped(ids, c.r) && n < |a.r.sch| && Evaluated(ids, a, k, c, n)
    ensures EvalOne(ids, c, k, n) == Act(ids, a, k, c, n)
  {
    hide Wins, EvalOne, Act;
    if Wins(ids, a.r, k, n) {
      EvalWinner(ids, a, k, c, n);
    } else {
      EvalOther(ids, a, k, c, n);
    }
  }

  /** Two schedules never start the same task. */
  lemma WinnersDiffer(ids: seq<nat>, r: Runner, k: Tick, i: nat, j: nat)
    requires i < j && Wins(ids, r, k, i) && Wins(ids, r, k, j)
    ensures i < |r.states| && j < |r.states| && r.states[i].taskIdx != r.states[j].taskIdx
  {
  }

  lemma ActKeeps(ids: seq<nat>, a: Acc, k: Tick, c: Acc, n: nat)
    requires Shaped(ids, a.r) && n < |a.r.sch| && Evaluated(ids, a, k, c, n)
    ensures Evaluated(ids, a, k, Act(ids, a, k, c, n), n + 1)
  {
    var b := Act(ids, a, k, c, n);
    ActStarts(ids, a, k, c, n);
    ActIncreasing(c.starts, n);
    forall t | 0 <= t < |a.r.tasks| && !Taken(ids, a.r, k, n + 1, t) ensures b.r.tasks[t] == a.r.tasks[t] {
      ActUntouched(ids, a, k, c, n, t);
    }
    hide Wins, Stops, StateAfter, Taken, Started, Shaped;
  }

  lemma ActIncreasing(xs: seq<nat>, n: nat)
    requires Increasing(xs) && forall i :: i in xs ==> i < n
    ensures Increasing(xs + [n])
  {
    forall j | 0 <= j < |xs| ensures xs[j] < n {
      assert xs[j] in xs;
    }
  }

  lemma ActStarts(ids: seq<nat>, a: Acc, k: Tick, c: Acc, n: nat)
    requires n < |a.r.sch| <= |a.r.states| && Evaluated(ids, a, k, c, n)
    ensures forall i :: 0 <= i < n + 1 && Wins(ids, a.r, k, i) ==> Started(a.r, Act(ids, a, k, c, n).r, i)
  {
    forall i | 0 <= i < n + 1 && Wins(ids, a.r, k, i) ensures Started(a.r, Act(ids, a, k, c, n).r, i) {
      if i < n {
        assert Started(a.r, c.r, i);
        if Wins(ids, a.r, k, n) {
          WinnersDiffer(ids, a.r, k, i, n);
        }
      }
    }
  }

  lemma ActUntouched(ids: seq<nat>, a: Acc, k: Tick, c: Acc, n: nat, t: nat)
    requires n < |a.r.sch| <= |a.r.states| && Evaluated(ids, a, k, c, n)
    requires t < |a.r.tasks| && !Taken(ids, a.r, k, n + 1, t)
    ensures Act(ids, a, k, c, n).r.tasks[t] == a.r.tasks[t]
  {
    hide Wins, StateAfter, Stops;
    assert !Taken(ids, a.r, k, n, t);
  }

  lemma NothingEvaluated(ids: seq<nat>, a: Acc, k: Tick)
    requires a.starts == []
    ensures Evaluated(ids, a, k, a, 0)
  {
  }

  /** Evaluation, said without its order. */
  lemma {:induction false} EvaluateExact(ids: seq<nat>, a: Acc, k: Tick, n: nat)
    requires Shaped(ids, a.r) && n <= |a.r.sch| && a.starts == []
    ensures Evaluated(ids, a, k, Evaluate(ids, a, k, n), n)
    decreases n
  {
    hide Shaped, Evaluated, EvalOne, Act;
    if n == 0 {
      NothingEvaluated(ids, a, k);
    } else {
      var c := Evaluate(ids, a, k, n - 1);
      EvaluateExact(ids, a, k, n - 1);
      EvalActs(ids, a, k, c, n - 1);
      ActKeeps(ids, a, k, c, n - 1);
    }
  }

  // ----- One iteration -----

  /** Did the task that schedule `i` started just end? */
  predicate JustEnded(r: Runner, k: Tick, i: nat) {
    Running(r, i) && r.states[i].taskIdx in k.ended
  }

  ghost function Noted(r: Runner, k: Tick, n: nat, i: nat): ScheduleState
    requires i < |r.states|
  {
    if JustEnded(r, k, i) && r.states[i].taskIdx < n then r.states[i].(lastTerminate := k.x.uptime) else r.states[i]
  }

  /** Tasks that have ended stop counting as running, and their schedules note the time. */
  ghost predicate Finished(r: Runner, k: Tick, q: Runner, n: nat) {
    && Same(r, q)
    && (forall t :: 0 <= t < |r.tasks| ==>
          q.tasks[t] == r.tasks[t].(running := r.tasks[t].running && !(t < n && t in k.ended)))
    && forall i :: 0 <= i < |r.states| ==> q.states[i] == Noted(r, k, n, i)
  }

  lemma FinishStep(ids: seq<nat>, r: Runner, k: Tick, q: Runner, n: nat)
    requires Shaped(ids, r) && n < |r.tasks| && Finished(r, k, q, n)
    ensures Finished(r, k, FinishOne(q, k, n), n + 1)
  {
    if r.tasks[n].running {
      assert Owned(ids, r, n);
    }
  }

  lemma {:induction false} FinishExact(ids: seq<nat>, r: Runner, k: Tick, n: nat)
    requires Shaped(ids, r) && n <= |r.tasks|
    ensures Finished(r, k, Finish(r, k, n), n)
    decreases n
  {
    if n > 0 {
      FinishExact(ids, r, k, n - 1);
      FinishStep(ids, r, k, Finish(r, k, n - 1), n - 1);
      hide Finished, Shaped, FinishOne;
    }
  }

  /** The state in which an iteration considers reloading. */
  function Ready(r: Runner, k: Tick): Runner {
    Finish(r.(triggered := r.triggered || k.trigger), k, |r.tasks|)
  }

  lemma ReadyExact(ids: seq<nat>, r: Runner, k: Tick)
    requires Shaped(ids, r)
    ensures Finished(r.(triggered := r.triggered || k.trigger), k, Ready(r, k), |r.tasks|)
  {
    hide Shaped, Finished;
    TriggerShaped(ids, r, r.triggered || k.trigger);
    FinishExact(ids, r.(triggered := r.triggered || k.trigger), k, |r.tasks|);
  }

  /** The state after the schedules of `k` were loaded into `r`. */
  function Loaded(ids: seq<nat>, num: nat, r: Runner, k: Tick): Runner
    requires |ids| < NONE && |k.loaded| <= |r.states|
  {
    r.(triggered := false, terminating := false, reloads := r.reloads + 1, sch := k.loaded,
       states := InitStates(ids, k.loaded, r.states, num, |k.loaded|))
  }

  predicate Pending(r: Runner) {
    r.triggered || r.terminating
  }

  lemma ReloadCases(ids: seq<nat>, num: nat, q: Runner, k: Tick)
    requires |ids| < NONE && |q.sch| <= |q.states| && |k.loaded| <= |q.states|
    ensures var (a, go) := HandleReload(ids, num, q, k);
      && a.starts == []
      && go == !(Pending(q) && AnyRunning(q))
      && (!go ==>
            a.r == q.(triggered := false, terminating := true) &&
            forall i :: i in a.stops <==> q.triggered && 0 <= i < |q.sch| && Running(q, i))
      && (go ==> a.stops == [] && a.r == if Pending(q) then Loaded(ids, num, q, k) else q)
  {
    OwnersExact(q, |q.sch|);
    if !AnyRunning(q) {
      assert forall i :: 0 <= i < |q.sch| ==> !Running(q, i);
    }
  }

  /** An iteration waits for tasks to end, reloads, or evaluates the schedules it has. */
  lemma IterateCases(ids: seq<nat>, num: nat, r: Runner, k: Tick)
    requires Shaped(ids, r) && ValidTick(r, num, k)
    ensures var a, q := Iterate(ids, num, r, k), Ready(r, k);
      && |q.states| == |r.states| && |q.sch| <= |q.states|
      && (Pending(q) && AnyRunning(q) ==>
            a.starts == [] && a.r == q.(triggered := false, terminating := true) &&
            forall i :: i in a.stops <==> q.triggered && 0 <= i < |q.sch| && Running(q, i))
      && (Pending(q) && !AnyRunning(q) ==>
            Evaluated(ids, Acc(Loaded(ids, num, q, k), [], []), k, a, |k.loaded|))
      && (!Pending(q) ==> Evaluated(ids, Acc(q, [], []), k, a, |q.sch|))
  {
    hide Shaped, Evaluated, Evaluate, HandleReload, AnyRunning, Running;
    var q := Ready(r, k);
    TriggerShaped(ids, r, r.triggered || k.trigger);
    FinishShaped(ids, r.(triggered := r.triggered || k.trigger), k, |r.tasks|);
    ShapedSizes(ids, q);
    ReloadShaped(ids, num, q, k);
    ReloadCases(ids, num, q, k);
    var (a, go) := HandleReload(ids, num, q, k);
    if go {
      ShapedSizes(ids, a.r);
      EvaluateExact(ids, a, k, |a.r.sch|);
    }
  }

  /** A reload request reaches the owner of every task still running. */
  lemma TriggerStopsAll(ids: seq<nat>, num: nat, r: Runner, k: Tick, t: nat)
    requires Shaped(ids, r) && ValidTick(r, num, k) && (r.triggered || k.trigger)
    requires t < |r.tasks| && r.tasks[t].running && t !in k.ended
    ensures var a := Iterate(ids, num, r, k);
      a.starts == [] && r.tasks[t].owner in a.stops && a.r.tasks[t].running && a.r.sch == r.sch && a.r.terminating
  {
    IterateCases(ids, num, r, k);
    var q := Ready(r, k);
    ReadyExact(ids, r, k);
    hide Evaluated, Iterate, Shaped;
    assert q.tasks[t].running;
    assert Owned(ids, r, t) by {
      ShapedOwned(ids, r, t);
    }
    assert Running(q, r.tasks[t].owner);
  }

  lemma ShapedOwned(ids: seq<nat>, r: Runner, t: nat)
    requires Shaped(ids, r) && t < |r.tasks| && r.tasks[t].running
    ensures Owned(ids, r, t)
  {
  }

  /** A pending reload happens exactly when the last running task has ended. */
  lemma ReloadExact(ids: seq<nat>, num: nat, r: Runner, k: Tick)
    requires Shaped(ids, r) && ValidTick(r, num, k)
    ensures var a := Iterate(ids, num, r, k);
      var go := (Pending(r) || k.trigger) && forall t :: 0 <= t < |r.tasks| && r.tasks[t].running ==> t in k.ended;
      && a.r.reloads == (if go then r.reloads + 1 else r.reloads)
      && a.r.sch == (if go then k.loaded else r.sch)
      && Pending(a.r) == ((Pending(r) || k.trigger) && !go)
      && !a.r.triggered
  {
    IterateCases(ids, num, r, k);
    ReadyExact(ids, r, k);
    hide Iterate, Shaped;
  }

  /** After a reload, every running task was started by a schedule just loaded. */
  lemma ReloadQuiesced(ids: seq<nat>, num: nat, r: Runner, k: Tick, t: nat)
    requires Shaped(ids, r) && ValidTick(r, num, k) && t < |r.tasks|
    requires Iterate(ids, num, r, k).r.reloads != r.reloads
    ensures var a := Iterate(ids, num, r, k);
      a.r.tasks[t].running ==> a.r.tasks[t].owner in a.starts
  {
    ReloadExact(ids, num, r, k);
    IterateCases(ids, num, r, k);
    var a := Iterate(ids, num, r, k);
    ReadyExact(ids, r, k);
    hide Iterate, Shaped, Wins, Stops, StateAfter;
    var l := Loaded(ids, num, Ready(r, k), k);
    if Taken(ids, l, k, |k.loaded|, t) {
      var i :| 0 <= i < |k.loaded| && Wins(ids, l, k, i) && l.states[i].taskIdx == t;
      assert Started(l, a.r, i);
    }
  }

  /**
   * In one iteration every schedule and every task starts at most once, a task only starts when
   * nothing is running it, and then belongs to the schedule that started it.
   */
  lemma StartsOnce(ids: seq<nat>, num: nat, r: Runner, k: Tick)
    requires Shaped(ids, r) && ValidTick(r, num, k)
    ensures var a := Iterate(ids, num, r, k);
      && Increasing(a.starts)
      && (forall i :: i in a.starts ==> StartedFresh(r, k, a.r, i))
      && forall i, j :: i in a.starts && j in a.starts && i != j ==> a.r.states[i].taskIdx != a.r.states[j].taskIdx
  {
    IterateCases(ids, num, r, k);
    ReadyExact(ids, r, k);
    var q, a := Ready(r, k), Iterate(ids, num, r, k);
    hide Iterate, Shaped, Evaluated, Finished, Wins;
    if Pending(q) && AnyRunning(q) {
    } else {
      var l := if Pending(q) then Loaded(ids, num, q, k) else q;
      forall i | i in a.starts ensures StartedFresh(r, k, a.r, i) {
        FreshStart(ids, l, k, a, i);
        WasFree(r, k, q, l.states[i].taskIdx);
      }
      EvaluatedOnce(ids, l, k, a);
    }
  }

  /** Schedule `i` was started on a task that nothing was running, or that had just ended. */
  ghost predicate StartedFresh(r: Runner, k: Tick, q: Runner, i: nat) {
    && i < |q.states| && q.states[i].taskIdx < |q.tasks| == |r.tasks|
    && var t := q.states[i].taskIdx;
       (r.tasks[t].running ==> t in k.ended) && q.tasks[t].running && q.tasks[t].owner == i
  }

  lemma FreshStart(ids: seq<nat>, l: Runner, k: Tick, a: Acc, i: nat)
    requires Evaluated(ids, Acc(l, [], []), k, a, |l.sch|) && |l.sch| <= |l.states| && i in a.starts
    ensures i < |l.states| == |a.r.states| && l.states[i].taskIdx == a.r.states[i].taskIdx < |l.tasks| == |a.r.tasks|
    ensures !l.tasks[l.states[i].taskIdx].running
    ensures a.r.tasks[l.states[i].taskIdx].running && a.r.tasks[l.states[i].taskIdx].owner == i
  {
    hide ShouldStart, Stops;
    assert a.r.states[i] == StateAfter(ids, l, k, i);
    assert Started(l, a.r, i);
  }

  lemma WasFree(r: Runner, k: Tick, q: Runner, t: nat)
    requires Finished(r.(triggered := r.triggered || k.trigger), k, q, |r.tasks|)
    requires t < |q.tasks| && !q.tasks[t].running
    ensures t < |r.tasks| == |q.tasks| && (r.tasks[t].running ==> t in k.ended)
  {
  }

  lemma EvaluatedOnce(ids: seq<nat>, l: Runner, k: Tick, a: Acc)
    requires Evaluated(ids, Acc(l, [], []), k, a, |l.sch|) && |l.sch| <= |l.states|
    ensures Increasing(a.starts)
    ensures forall i, j :: i in a.starts && j in a.starts && i != j ==>
      i < |a.r.states| && j < |a.r.states| && a.r.states[i].taskIdx != a.r.states[j].taskIdx
  {
    forall i, j | i in a.starts && j in a.starts && i != j
      ensures i < |a.r.states| && j < |a.r.states| && a.r.states[i].taskIdx != a.r.states[j].taskIdx
    {
      FreshStart(ids, l, k, a, i);
      FreshStart(ids, l, k, a, j);
      if i < j {
        WinnersDiffer(ids, l, k, i, j);
      } else {
        WinnersDiffer(ids, l, k, j, i);
      }
    }
  }

  // ----- Runs -----

  ghost predicate ValidTicks(r: Runner, num: nat, ks: seq<Tick>) {
    forall m :: 0 <= m < |ks| ==> ValidTick(r, num, ks[m])
  }

  /** The last iteration of a run. */
  ghost function Final(ids: seq<nat>, num: nat, r: Runner, ks: seq<Tick>): (a: Acc)
    requires Shaped(ids, r) && ValidTicks(r, num, ks)
    ensures Shaped(ids, a.r) && |a.r.states| == |r.states|
  {
    hide Shaped;
    if ks == [] then Acc(r, [], []) else
      Iterate(ids, num, Final(ids, num, r, ks[..|ks| - 1]).r, ks[|ks| - 1])
  }

  lemma {:induction false} ReloadsGrow(ids: seq<nat>, num: nat, r: Runner, ks: seq<Tick>)
    requires Shaped(ids, r) && ValidTicks(r, num, ks)
    ensures Final(ids, num, r, ks).r.reloads >= r.reloads
  {
    hide Shaped, Iterate;
    if ks != [] {
      var p := ks[..|ks| - 1];
      ReloadsGrow(ids, num, r, p);
      ReloadExact(ids, num, Final(ids, num, r, p).r, ks[|ks| - 1]);
    }
  }

  /** Between a reload request and the reload itself, nothing starts. */
  lemma {:induction false} QuietUntilReload(ids: seq<nat>, num: nat, r: Runner, ks: seq<Tick>)
    requires Shaped(ids, r) && ValidTicks(r, num, ks) && |ks| > 0 && (Pending(r) || ks[0].trigger)
    requires Final(ids, num, r, ks).r.reloads == r.reloads
    ensures var a := Final(ids, num, r, ks);
      a.starts == [] && a.r.terminating && a.r.sch == r.sch
    decreases |ks|
  {
    hide Shaped, Iterate, Evaluated;
    var p, k := ks[..|ks| - 1], ks[|ks| - 1];
    var q := Final(ids, num, r, p).r;
    ReloadsGrow(ids, num, r, p);
    ReloadExact(ids, num, q, k);
    if |p| > 0 {
      QuietUntilReload(ids, num, r, p);
    }
    QuietStep(ids, num, q, k);
  }

  lemma QuietStep(ids: seq<nat>, num: nat, r: Runner, k: Tick)
    requires Shaped(ids, r) && ValidTick(r, num, k) && (Pending(r) || k.trigger)
    requires Iterate(ids, num, r, k).r.reloads == r.reloads
    ensures Iterate(ids, num, r, k).starts == []
  {
    IterateCases(ids, num, r, k);
    ReadyExact(ids, r, k);
    hide Iterate, Shaped;
  }

  lemma EvaluatedStart(ids: seq<nat>, q: Runner, k: Tick, a: Acc, i: nat)
    requires i < |q.sch| <= |q.states| && Evaluated(ids, Acc(q, [], []), k, a, |q.sch|)
    ensures a.r.states[i].lastRun == if i in a.starts then k.x.uptime else q.states[i].lastRun
    ensures i in a.starts ==> WellFormed(q.sch[i])
    ensures i in a.starts && q.sch[i].validity != VALID_PERMANENT ==>
      ShouldStart(q.sch[i], q.states[i].lastRun, LinkedTerminate(q, i), k.x)
  {
    hide ShouldStart, Stops;
    assert a.r.states[i] == StateAfter(ids, q, k, i);
  }

  /** Without a reload, the time of the last run moves exactly with the starts. */
  lemma StartRecorded(ids: seq<nat>, num: nat, r: Runner, k: Tick, i: nat)
    requires Shaped(ids, r) && ValidTick(r, num, k) && i < |r.sch|
    requires Iterate(ids, num, r, k).r.reloads == r.reloads
    ensures var a := Iterate(ids, num, r, k);
      && a.r.sch == r.sch
      && a.r.states[i].lastRun == (if i in a.starts then k.x.uptime else r.states[i].lastRun)
      && (i in a.starts ==> WellFormed(r.sch[i]))
      && (i in a.starts && r.sch[i].validity != VALID_PERMANENT ==>
            ShouldStart(r.sch[i], r.states[i].lastRun, LinkedTerminate(Ready(r, k), i), k.x))
  {
    hide Iterate, Shaped, ShouldStart, Evaluated, LinkedTerminate;
    ReloadExact(ids, num, r, k);
    IterateCases(ids, num, r, k);
    ReadyExact(ids, r, k);
    var q := Ready(r, k);
    if !Pending(q) {
      EvaluatedStart(ids, q, k, Iterate(ids, num, r, k), i);
    }
  }
}
