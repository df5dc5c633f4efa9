/** One iteration of the task runner, as a function of its state and surroundings. */
module TaskRunner {
  import opened Arithmetic
  import opened TaskSchedule

  /** Index of no task, or of no schedule. */
  const NONE := 255

  datatype ScheduleState = ScheduleState(taskIdx: nat, linked: nat, lastRun: nat, lastTerminate: nat, runtime: nat)

  /** `owner` is the schedule that started the task. */
  datatype Task = Task(running: bool, owner: nat, skip: bool)

  /**
   * Schedules in use, one state per slot, and one entry per task. `triggered` and `terminating`
   * are the reload flags; `reloads` counts completed reloads.
   */
  datatype Runner = Runner(
    sch: seq<Schedule>, states: seq<ScheduleState>, tasks: seq<Task>,
    triggered: bool, terminating: bool, reloads: nat)

  /** A runner together with what it has done in the current iteration. */
  datatype Acc = Acc(r: Runner, starts: seq<nat>, stops: seq<nat>)

  /** Surroundings of an iteration: which tasks have ended, and what a reload would load. */
  datatype Tick = Tick(x: Inputs, ended: set<nat>, trigger: bool, loaded: seq<Schedule>)

  ghost predicate Shaped(ids: seq<nat>, r: Runner) {
    && |r.sch| <= |r.states| < NONE && |r.tasks| == |ids| < NONE
    && (forall i :: 0 <= i < |r.sch| && r.states[i].taskIdx != NONE ==> Resolved(ids, r, i))
    && (forall i :: 0 <= i < |r.states| ==> r.states[i].linked < |r.states| || r.states[i].linked == NONE)
    && (forall t :: 0 <= t < |r.tasks| && r.tasks[t].running ==> Owned(ids, r, t))
  }

  /** Schedule `i` is valid and refers to the task it names. */
  ghost predicate Resolved(ids: seq<nat>, r: Runner, i: nat) {
    && i < |r.sch| && i < |r.states| && WellFormed(r.sch[i])
    && r.states[i].taskIdx < |ids| && ids[r.states[i].taskIdx] == r.sch[i].taskId
  }

  /** A running task belongs to one valid schedule, which refers back to it. */
  ghost predicate Owned(ids: seq<nat>, r: Runner, t: nat) {
    && t < |r.tasks| && r.tasks[t].owner < |r.sch|
    && Resolved(ids, r, r.tasks[t].owner) && r.states[r.tasks[t].owner].taskIdx == t
  }

  lemma ShapedSizes(ids: seq<nat>, r: Runner)
    requires Shaped(ids, r)
    ensures |r.sch| <= |r.states| && |ids| == |r.tasks| < NONE
  {
  }

  // ----- Tasks that have ended -----

  function FinishOne(r: Runner, k: Tick, t: nat): Runner
    requires t < |r.tasks|
  {
    if !r.tasks[t].running || t !in k.ended then r else
      var o := r.tasks[t].owner;
      r.(tasks := r.tasks[t := r.tasks[t].(running := false)],
         states := if o < |r.states| then r.states[o := r.states[o].(lastTerminate := k.x.uptime)] else r.states)
  }

  function Finish(r: Runner, k: Tick, n: nat): (q: Runner)
    requires n <= |r.tasks|
    ensures |q.tasks| == |r.tasks| && |q.states| == |r.states|
    decreases n
  {
    if n == 0 then r else FinishOne(Finish(r, k, n - 1), k, n - 1)
  }

  // ----- Initialising schedules -----

  /** First task with the given identifier. */
  function FindTask(ids: seq<nat>, id: nat, j: nat): (t: nat)
    requires j <= |ids| < NONE
    ensures t == NONE || (j <= t < |ids| && ids[t] == id)
    ensures t == NONE ==> forall m :: j <= m < |ids| ==> ids[m] != id
    ensures t != NONE ==> forall m :: j <= m < t ==> ids[m] != id
    decreases |ids| - j
  {
    if j == |ids| then NONE else if ids[j] == id then j else FindTask(ids, id, j + 1)
  }

  /** Fresh state of a schedule; counters survive when the schedule is unusable. */
  function InitState(ids: seq<nat>, s: Schedule, was: ScheduleState, num: nat): ScheduleState
    requires |ids| < NONE
  {
    var cleared := was.(taskIdx := NONE, linked := NONE);
    if !Validate(s) then cleared else
      var t := FindTask(ids, s.taskId, 0);
      if t == NONE then cleared else
        var after := s.periodicity;
        ScheduleState(t, if after.After? && after.scheduleIdx < num then after.scheduleIdx else NONE, 0, 0, 0)
  }

  function InitStates(ids: seq<nat>, sch: seq<Schedule>, states: seq<ScheduleState>, num: nat, n: nat)
    : (q: seq<ScheduleState>)
    requires |ids| < NONE && n <= |sch| <= |states|
    ensures |q| == |states|
    decreases n
  {
    if n == 0 then states else
      var q := InitStates(ids, sch, states, num, n - 1);
      q[n - 1 := InitState(ids, sch[n - 1], q[n - 1], num)]
  }

  // ----- Reloading -----

  /** Is a task running? */
  predicate AnyRunning(r: Runner) {
    exists t :: 0 <= t < |r.tasks| && r.tasks[t].running
  }

  /** Schedules whose running task is asked to stop when a reload is triggered. */
  function OwnersRunning(r: Runner, n: nat): seq<nat>
    requires n <= |r.sch| && |r.sch| <= |r.states|
    decreases n
  {
    if n == 0 then [] else OwnersRunning(r, n - 1) + if Running(r, n - 1) then [n - 1] else []
  }

  lemma {:induction false} OwnersExact(r: Runner, n: nat)
    requires n <= |r.sch| && |r.sch| <= |r.states|
    ensures forall i :: i in OwnersRunning(r, n) <==> 0 <= i < n && Running(r, i)
    ensures (forall i :: 0 <= i < n ==> !Running(r, i)) ==> OwnersRunning(r, n) == []
    decreases n
  {
    if n > 0 {
      OwnersExact(r, n - 1);
    }
  }

  lemma {:induction false} SameOwners(r: Runner, q: Runner, n: nat)
    requires n <= |r.sch| && |r.sch| <= |r.states|
    requires q.sch == r.sch && q.states == r.states && q.tasks == r.tasks
    ensures OwnersRunning(q, n) == OwnersRunning(r, n)
    decreases n
  {
    if n > 0 {
      SameOwners(r, q, n - 1);
    }
  }

  predicate Running(r: Runner, i: nat) {
    && i < |r.states| && r.states[i].taskIdx < |r.tasks|
    && r.tasks[r.states[i].taskIdx].owner == i && r.tasks[r.states[i].taskIdx].running
  }

  /** Reload step: result, and whether the iteration goes on to evaluate schedules. */
  function HandleReload(ids: seq<nat>, num: nat, r: Runner, k: Tick): (Acc, bool)
    requires |ids| < NONE && |r.sch| <= |r.states| && |k.loaded| <= |r.states|
  {
    var stops := if r.triggered then OwnersRunning(r, |r.sch|) else [];
    var r1 := if r.triggered then r.(triggered := false, terminating := true) else r;
    if !r1.terminating then (Acc(r1, [], stops), true)
    else if AnyRunning(r1) then (Acc(r1, [], stops), false)
    else
      (Acc(r1.(terminating := false, reloads := r1.reloads + 1, sch := k.loaded,
               states := InitStates(ids, k.loaded, r1.states, num, |k.loaded|)), [], stops), true)
  }

  // ----- Evaluating schedules -----

  function LinkedTerminate(r: Runner, i: nat): nat
    requires i < |r.states|
  {
    if r.states[i].linked < |r.states| then r.states[r.states[i].linked].lastTerminate else 0
  }

  function StartTask(r: Runner, i: nat, uptime: nat): Runner
    requires i < |r.states| && r.states[i].taskIdx < |r.tasks|
  {
    var t := r.states[i].taskIdx;
    r.(states := r.states[i := r.states[i].(lastRun := uptime, runtime := 0)],
       tasks := r.tasks[t := r.tasks[t].(running := true, owner := i)])
  }

  function Tock(r: Runner, i: nat): Runner
    requires i < |r.states|
  {
    r.(states := r.states[i := r.states[i].(runtime := (r.states[i].runtime + 1) % U32)])
  }

  /** One schedule: skipped, started, counted, or asked to stop. */
  function EvalOne(ids: seq<nat>, a: Acc, k: Tick, i: nat): Acc
    requires Shaped(ids, a.r) && i < |a.r.sch|
  {
    var r, s, st := a.r, a.r.sch[i], a.r.states[i];
    if st.taskIdx == NONE then a else
      assert Resolved(ids, r, i);
      var d := r.tasks[st.taskIdx];
      if d.skip || (d.running && d.owner != i) then a
      else if s.validity == VALID_PERMANENT then
        if d.running then a.(r := Tock(r, i))
        else a.(r := Tock(StartTask(r, i, k.x.uptime), i), starts := a.starts + [i])
      else if d.running then
        var r1 := Tock(r, i);
        if ShouldTerminate(s, r1.states[i].runtime, k.x) then a.(r := r1, stops := a.stops + [i]) else a.(r := r1)
      else if ShouldStart(s, st.lastRun, LinkedTerminate(r, i), k.x) then
        a.(r := StartTask(r, i, k.x.uptime), starts := a.starts + [i])
      else a
  }

  lemma StartShaped(ids: seq<nat>, r: Runner, i: nat, uptime: nat)
    requires Shaped(ids, r) && i < |r.sch| && r.states[i].taskIdx != NONE
    requires !r.tasks[r.states[i].taskIdx].running
    ensures Shaped(ids, StartTask(r, i, uptime))
  {
    var t, q := r.states[i].taskIdx, StartTask(r, i, uptime);
    assert Resolved(ids, r, i);
    SameSchedules(ids, r, q);
    forall u | 0 <= u < |q.tasks| && q.tasks[u].running ensures Owned(ids, q, u) {
      if u != t {
        assert Owned(ids, r, u);
      }
      assert Resolved(ids, q, q.tasks[u].owner);
    }
  }

  /** Resolution depends only on the schedules and the tasks they refer to. */
  lemma SameSchedules(ids: seq<nat>, r: Runner, q: Runner)
    requires Shaped(ids, r) && q.sch == r.sch && |q.states| == |r.states|
    requires forall i :: 0 <= i < |r.states| ==>
      q.states[i].taskIdx == r.states[i].taskIdx && q.states[i].linked == r.states[i].linked
    ensures forall i :: 0 <= i < |q.sch| && q.states[i].taskIdx != NONE ==> Resolved(ids, q, i)
    ensures forall i :: 0 <= i < |q.states| ==> q.states[i].linked < |q.states| || q.states[i].linked == NONE
  {
    forall i | 0 <= i < |q.sch| && q.states[i].taskIdx != NONE ensures Resolved(ids, q, i) {
      assert Resolved(ids, r, i);
    }
  }

  lemma TockShaped(ids: seq<nat>, r: Runner, i: nat)
    requires Shaped(ids, r) && i < |r.sch|
    ensures Shaped(ids, Tock(r, i))
  {
    var q := Tock(r, i);
    SameSchedules(ids, r, q);
    forall u | 0 <= u < |q.tasks| && q.tasks[u].running ensures Owned(ids, q, u) {
      assert Owned(ids, r, u);
      assert Resolved(ids, q, q.tasks[u].owner);
    }
  }

  lemma EvalOneShaped(ids: seq<nat>, a: Acc, k: Tick, i: nat)
    requires Shaped(ids, a.r) && i < |a.r.sch|
    ensures var b := EvalOne(ids, a, k, i);
      Shaped(ids, b.r) && b.r.sch == a.r.sch && |b.r.states| == |a.r.states| && b.r.reloads == a.r.reloads
  {
    if a.r.states[i].taskIdx != NONE {
      assert Resolved(ids, a.r, i);
      TockShaped(ids, a.r, i);
      if !a.r.tasks[a.r.states[i].taskIdx].running {
        StartShaped(ids, a.r, i, k.x.uptime);
        TockShaped(ids, StartTask(a.r, i, k.x.uptime), i);
      }
    }
  }

  function Evaluate(ids: seq<nat>, a: Acc, k: Tick, n: nat): (b: Acc)
    requires Shaped(ids, a.r) && n <= |a.r.sch|
    ensures Shaped(ids, b.r) && b.r.sch == a.r.sch && |b.r.states| == |a.r.states| && b.r.reloads == a.r.reloads
    decreases n
  {
    hide Shaped;
    hide EvalOne;
    if n == 0 then a else
      var c := Evaluate(ids, a, k, n - 1);
      EvalOneShaped(ids, c, k, n - 1);
      EvalOne(ids, c, k, n - 1)
  }

  lemma FinishOneShaped(ids: seq<nat>, r: Runner, k: Tick, t: nat)
    requires Shaped(ids, r) && t < |r.tasks|
    ensures var q := FinishOne(r, k, t); Shaped(ids, q) && q.sch == r.sch && |q.tasks| == |r.tasks|
    ensures var q := FinishOne(r, k, t);
      q.reloads == r.reloads && q.triggered == r.triggered && q.terminating == r.terminating
  {
    var q := FinishOne(r, k, t);
    SameSchedules(ids, r, q);
    forall u | 0 <= u < |q.tasks| && q.tasks[u].running ensures Owned(ids, q, u) {
      assert Owned(ids, r, u);
      assert Resolved(ids, q, q.tasks[u].owner);
    }
  }

  lemma {:induction false} FinishShaped(ids: seq<nat>, r: Runner, k: Tick, n: nat)
    requires Shaped(ids, r) && n <= |r.tasks|
    ensures Shaped(ids, Finish(r, k, n)) && Finish(r, k, n).sch == r.sch
    ensures var q := Finish(r, k, n);
      q.reloads == r.reloads && q.triggered == r.triggered && q.terminating == r.terminating
    decreases n
  {
    hide Shaped, FinishOne;
    if n > 0 {
      FinishShaped(ids, r, k, n - 1);
      FinishOneShaped(ids, Finish(r, k, n - 1), k, n - 1);
    }
  }

  /** A freshly initialised schedule is unusable, or valid and bound to the first task it names. */
  lemma {:induction false} InitStatesAt(ids: seq<nat>, sch: seq<Schedule>, states: seq<ScheduleState>, num: nat,
      n: nat, i: nat)
    requires |ids| < NONE && n <= |sch| <= |states| && i < |states|
    ensures var q := InitStates(ids, sch, states, num, n);
      q[i] == if i < n then InitState(ids, sch[i], states[i], num) else states[i]
    decreases n
  {
    if n > 0 {
      InitStatesAt(ids, sch, states, num, n - 1, i);
    }
  }

  ghost predicate ValidTick(r: Runner, num: nat, k: Tick) {
    && |k.loaded| <= |r.states| && num <= |r.states|
    && forall i :: 0 <= i < |k.loaded| ==>
         ValidConditions(k.loaded[i].statesStart) && ValidConditions(k.loaded[i].statesTerminate)
  }

  /** Loading schedules while nothing runs leaves a consistent runner. */
  lemma LoadShaped(ids: seq<nat>, num: nat, r: Runner, k: Tick, q: Runner)
    requires Shaped(ids, r) && ValidTick(r, num, k) && !AnyRunning(r)
    requires q.sch == k.loaded && q.tasks == r.tasks && q.states == InitStates(ids, k.loaded, r.states, num, |k.loaded|)
    ensures Shaped(ids, q)
  {
    forall i | 0 <= i < |q.states|
      ensures q.states[i].linked < |q.states| || q.states[i].linked == NONE
      ensures i < |q.sch| && q.states[i].taskIdx != NONE ==> Resolved(ids, q, i)
    {
      InitStatesAt(ids, k.loaded, r.states, num, |k.loaded|, i);
    }
  }

  lemma ReloadShaped(ids: seq<nat>, num: nat, r: Runner, k: Tick)
    requires Shaped(ids, r) && ValidTick(r, num, k)
    ensures Shaped(ids, HandleReload(ids, num, r, k).0.r)
  {
    var r1 := if r.triggered then r.(triggered := false, terminating := true) else r;
    assert Shaped(ids, r1) by {
      SameSchedules(ids, r, r1);
      forall u | 0 <= u < |r1.tasks| && r1.tasks[u].running ensures Owned(ids, r1, u) {
        assert Owned(ids, r, u);
        assert Resolved(ids, r1, r1.tasks[u].owner);
      }
    }
    if r1.terminating && !AnyRunning(r1) {
      LoadShaped(ids, num, r1, k, HandleReload(ids, num, r, k).0.r);
    }
  }

  /** A whole iteration. */
  function Iterate(ids: seq<nat>, num: nat, r: Runner, k: Tick): (a: Acc)
    requires Shaped(ids, r) && ValidTick(r, num, k)
    ensures Shaped(ids, a.r) && |a.r.states| == |r.states|
  {
    var r0 := r.(triggered := r.triggered || k.trigger);
    TriggerShaped(ids, r, r0.triggered);
    var r1 := Finish(r0, k, |r.tasks|);
    FinishShaped(ids, r0, k, |r.tasks|);
    var (a, go) := HandleReload(ids, num, r1, k);
    ReloadShaped(ids, num, r1, k);
    if go then Evaluate(ids, a, k, |a.r.sch|) else a
  }

  lemma TriggerShaped(ids: seq<nat>, r: Runner, flag: bool)
    requires Shaped(ids, r)
    ensures Shaped(ids, r.(triggered := flag))
  {
    var q := r.(triggered := flag);
    SameSchedules(ids, r, q);
    forall u | 0 <= u < |q.tasks| && q.tasks[u].running ensures Owned(ids, q, u) {
      assert Owned(ids, r, u);
      assert Resolved(ids, q, q.tasks[u].owner);
    }
  }
}
