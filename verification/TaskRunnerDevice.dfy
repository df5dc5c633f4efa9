/** The task runner as the code keeps it: arrays of states updated in place, loops over them. */
module TaskRunnerDevice {
  import opened Arithmetic
  import opened TaskSchedule
  import opened TaskRunner

  class Device {
    const ids: seq<nat>
    const defaultNum: nat
    const states: array<ScheduleState>
    const tasks: array<Task>
    var sch: seq<Schedule>
    var triggered: bool
    var terminating: bool
    /** Threads booted and signals raised in the current iteration, by schedule. */
    var starts: seq<nat>
    var stops: seq<nat>
    ghost var reloads: nat

    ghost function State(): Runner
      reads `sch, `triggered, `terminating, `reloads, states, tasks
    {
      Runner(sch, states[..], tasks[..], triggered, terminating, reloads)
    }

    ghost function View(): Acc
      reads this, states, tasks
    {
      Acc(State(), starts, stops)
    }

    /** Boot: no task is running, tasks whose device is missing are skipped, all schedules are fresh. */
    constructor (ids: seq<nat>, missing: set<nat>, loaded: seq<Schedule>, defaultNum: nat, slots: nat)
      requires |ids| < NONE && |loaded| <= slots < NONE && defaultNum <= slots
      requires forall i :: 0 <= i < |loaded| ==>
        ValidConditions(loaded[i].statesStart) && ValidConditions(loaded[i].statesTerminate)
      ensures this.ids == ids && this.defaultNum == defaultNum && fresh(states) && fresh(tasks)
      ensures Shaped(ids, State()) && !triggered && !terminating && !AnyRunning(State())
      ensures sch == loaded && states.Length == slots
      ensures forall t :: 0 <= t < |ids| ==> tasks[t].skip == (t in missing)
    {
      this.ids := ids;
      this.defaultNum := defaultNum;
      sch := loaded;
      triggered, terminating, starts, stops, reloads := false, false, [], [], 0;
      var blank := ScheduleState(NONE, NONE, 0, 0, 0);
      states := new ScheduleState[slots](i => blank);
      tasks := new Task[|ids|];
      new;
      var t := 0;
      while t < |ids|
        invariant 0 <= t <= |ids|
        invariant forall u :: 0 <= u < t ==> tasks[u] == Task(false, NONE, u in missing)
        modifies tasks
      {
        tasks[t] := Task(false, NONE, t in missing);
        t := t + 1;
      }
      ghost var r := Runner([], states[..], tasks[..], false, false, 0);
      InitSchedules(defaultNum);
      LoadShaped(ids, defaultNum, r, Tick(Inputs({}, 0, 0, 0), {}, false, loaded), State());
    }

    method InitSchedules(num: nat)
      requires |ids| < NONE && |sch| <= states.Length
      modifies states
      ensures states[..] == InitStates(ids, sch, old(states[..]), num, |sch|)
    {
      var i := 0;
      while i < |sch|
        invariant 0 <= i <= |sch|
        invariant states[..] == InitStates(ids, sch, old(states[..]), num, i)
      {
        InitSchedule(i, num);
        i := i + 1;
      }
    }

    method InitSchedule(i: nat, num: nat)
      requires |ids| < NONE && i < |sch| && i < states.Length
      modifies states
      ensures states[..] == old(states[..])[i := InitState(ids, sch[i], old(states[i]), num)]
    {
      states[i] := states[i].(taskIdx := NONE, linked := NONE);
      if !Validate(sch[i]) {
        return;
      }
      var j := 0;
      while j < |ids|
        invariant 0 <= j <= |ids|
        invariant FindTask(ids, sch[i].taskId, 0) == FindTask(ids, sch[i].taskId, j)
        invariant states[..] == old(states[..])[i := old(states[i]).(taskIdx := NONE, linked := NONE)]
      {
        if sch[i].taskId == ids[j] {
          states[i] := states[i].(taskIdx := j);
          break;
        }
        j := j + 1;
      }
      assert states[i] == old(states[i]).(taskIdx := FindTask(ids, sch[i].taskId, 0), linked := NONE);
      if states[i].taskIdx == NONE {
        return;
      }
      if sch[i].periodicity.After? && sch[i].periodicity.scheduleIdx < num {
        states[i] := states[i].(linked := sch[i].periodicity.scheduleIdx);
      }
      states[i] := states[i].(lastRun := 0, lastTerminate := 0, runtime := 0);
    }

    /** Note the end of every task that has ended. */
    method FinishTasks(k: Tick)
      requires Shaped(ids, State())
      modifies states, tasks
      ensures State() == Finish(old(State()), k, |ids|)
    {
      ghost var r := State();
      var t := 0;
      while t < tasks.Length
        invariant 0 <= t <= tasks.Length
        invariant State() == Finish(r, k, t)
      {
        FinishShaped(ids, r, k, t);
        if tasks[t].running && t in k.ended {
          assert Owned(ids, State(), t);
          var o := tasks[t].owner;
          states[o] := states[o].(lastTerminate := k.x.uptime);
          tasks[t] := tasks[t].(running := false);
        }
        t := t + 1;
      }
    }

    /** Signal every task that is running for the schedule that refers to it. */
    method TerminateAll()
      requires Shaped(ids, State())
      modifies `stops
      ensures stops == old(stops) + OwnersRunning(State(), |sch|)
    {
      hide Shaped;
      ghost var r := State();
      ShapedSizes(ids, r);
      var i := 0;
      while i < |sch|
        invariant 0 <= i <= |sch|
        invariant stops == old(stops) + OwnersRunning(r, i)
      {
        assert Running(r, i) <==>
          var t := states[i].taskIdx; t < tasks.Length && i == tasks[t].owner && tasks[t].running;
        var t := states[i].taskIdx;
        if t < tasks.Length && i == tasks[t].owner && tasks[t].running {
          stops := stops + [i];
        }
        i := i + 1;
      }
    }

    method StillRunning() returns (any: bool)
      ensures any == AnyRunning(State())
    {
      var t := 0;
      while t < tasks.Length
        invariant 0 <= t <= tasks.Length
        invariant forall u :: 0 <= u < t ==> !tasks[u].running
      {
        if tasks[t].running {
          return true;
        }
        t := t + 1;
      }
      return false;
    }

    /** Serve a reload request; `wait` tells the iteration to end here. */
    method ServeReload(k: Tick) returns (wait: bool)
      requires Shaped(ids, State()) && ValidTick(State(), defaultNum, k) && starts == stops == []
      modifies `sch, `triggered, `terminating, `stops, `reloads, states
      ensures (View(), !wait) == HandleReload(ids, defaultNum, old(State()), k)
    {
      hide Shaped, OwnersRunning, InitStates, AnyRunning;
      ghost var r := State();
      ShapedSizes(ids, r);
      if triggered {
        triggered := false;
        TriggerShaped(ids, r, false);
        TerminateAll();
        SameOwners(r, State(), |sch|);
        assert stops == OwnersRunning(r, |sch|);
        terminating := true;
      }
      assert State() == if r.triggered then r.(triggered := false, terminating := true) else r;
      if terminating {
        var any := StillRunning();
        if any {
          return true;
        }
        terminating := false;
        sch := k.loaded;
        reloads := reloads + 1;
        InitSchedules(defaultNum);
      }
      return false;
    }

    method TaskStart(i: nat, uptime: nat)
      requires i < states.Length && states[i].taskIdx < tasks.Length
      modifies `starts, states, tasks
      ensures State() == StartTask(old(State()), i, uptime) && starts == old(starts) + [i]
    {
      states[i] := states[i].(lastRun := uptime, runtime := 0);
      tasks[states[i].taskIdx] := tasks[states[i].taskIdx].(running := true, owner := i);
      starts := starts + [i];
    }

    method Count(i: nat)
      requires i < states.Length
      modifies states
      ensures State() == Tock(old(State()), i)
    {
      states[i] := states[i].(runtime := (states[i].runtime + 1) % U32);
    }

    method EvaluateSchedule(k: Tick, i: nat)
      requires Shaped(ids, State()) && i < |sch|
      modifies `starts, `stops, states, tasks
      ensures View() == EvalOne(ids, old(View()), k, i)
    {
      if states[i].taskIdx == NONE {
        return;
      }
      assert Resolved(ids, State(), i);
      var t := states[i].taskIdx;
      if tasks[t].skip {
        return;
      }
      if tasks[t].running && tasks[t].owner != i {
        return;
      }
      if sch[i].validity == VALID_PERMANENT {
        if !tasks[t].running {
          TaskStart(i, k.x.uptime);
        }
        Count(i);
        return;
      }
      if tasks[t].running {
        Count(i);
        if ShouldTerminate(sch[i], states[i].runtime, k.x) {
          stops := stops + [i];
        }
      } else {
        var linked := if states[i].linked < states.Length then states[states[i].linked].lastTerminate else 0;
        if ShouldStart(sch[i], states[i].lastRun, linked, k.x) {
          TaskStart(i, k.x.uptime);
        }
      }
    }

    method EvaluateSchedules(k: Tick)
      requires Shaped(ids, State())
      modifies `starts, `stops, states, tasks
      ensures View() == Evaluate(ids, old(View()), k, |sch|)
    {
      hide Shaped, EvalOne;
      var i := 0;
      while i < |sch|
        invariant 0 <= i <= |sch| && Shaped(ids, State())
        invariant View() == Evaluate(ids, old(View()), k, i)
      {
        EvaluateSchedule(k, i);
        i := i + 1;
        assert State() == Evaluate(ids, old(View()), k, i).r;
      }
    }

    method Iterate(k: Tick)
      requires Shaped(ids, State()) && ValidTick(State(), defaultNum, k)
      modifies this, states, tasks
      ensures View() == TaskRunner.Iterate(ids, defaultNum, old(State()), k)
    {
      hide Shaped, HandleReload, Evaluate;
      ghost var r := State();
      triggered := triggered || k.trigger;
      starts, stops := [], [];
      TriggerShaped(ids, r, triggered);
      FinishShaped(ids, State(), k, |ids|);
      FinishTasks(k);
      ReloadShaped(ids, defaultNum, State(), k);
      var wait := ServeReload(k);
      if !wait {
        EvaluateSchedules(k);
      }
    }
  }
}
