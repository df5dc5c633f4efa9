/** Timed application states as the code keeps them: a bitmap, slots and a mask of slots in use. */
module AppStatesDevice {
  import opened AppStates

  const NO_SLOT := 255

  /** Bits in the mask. */
  const MASK_BITS := 32

  datatype Slot = Slot(state: nat, timeout: nat)

  /** Lowest bit of a mask, as `ffs` finds it. */
  method Lowest(mask: set<nat>) returns (i: nat)
    requires mask != {} && forall j :: j in mask ==> j < MASK_BITS
    ensures i in mask && forall j :: j in mask ==> i <= j
  {
    i := 0;
    ghost var x :| x in mask;
    while i !in mask
      invariant i <= x && forall j :: j in mask ==> i <= j
      decreases x - i
    {
      i := i + 1;
    }
  }

  /** Lowest bit that is not in the mask. */
  method LowestFree(mask: set<nat>, n: nat) returns (i: nat)
    requires |mask| < n && forall j :: j in mask ==> j < n
    ensures i !in mask && i < n
  {
    i := 0;
    ghost var below: set<nat> := {};
    while i in mask
      invariant i <= n && |below| == i && below <= mask
      invariant forall j :: j in below ==> j < i
      decreases n - i
    {
      below := below + {i};
      SubsetSize(below, mask);
      i := i + 1;
    }
    if i == n {
      SubsetSize(below, mask);
    }
  }

  /** Maps that invert each other have the same size. */
  lemma {:induction false} SameSize(f: map<nat, nat>, g: map<nat, nat>)
    requires forall s :: s in f ==> f[s] in g && g[f[s]] == s
    requires forall i :: i in g ==> g[i] in f && f[g[i]] == i
    ensures |f| == |g|
    decreases f.Keys
  {
    if f == map[] {
      assert g.Keys == {};
    } else {
      var s :| s in f;
      var i := f[s];
      SameSize(f - {s}, g - {i});
      assert f.Keys == (f - {s}).Keys + {s} && g.Keys == (g - {i}).Keys + {i};
    }
  }

  lemma {:induction false} Bounded(mask: set<nat>, n: nat)
    requires forall j :: j in mask ==> j < n
    ensures |mask| <= n
    decreases n
  {
    if n > 0 {
      Bounded(mask - {n - 1}, n - 1);
    } else {
      assert mask == {};
    }
  }

  // ----- Slots in use and the timed states they stand for -----

  /** `at` gives the slot of every timed state; slots in use and timed states correspond. */
  ghost predicate Linked(on: set<nat>, mask: set<nat>, at: map<nat, nat>, ss: seq<Slot>) {
    && |ss| <= MASK_BITS && at.Keys <= on
    && (forall i :: i in mask ==> i < |ss| && ss[i].state in at && at[ss[i].state] == i && ss[i].timeout > 0)
    && (forall s :: s in at ==> at[s] in mask && at[s] < |ss| && ss[at[s]].state == s)
  }

  ghost function Timers(at: map<nat, nat>, ss: seq<Slot>): map<nat, nat> {
    map s | s in at :: if at[s] < |ss| then ss[at[s]].timeout else 0
  }

  /** Slots in use correspond to timed states one to one. */
  lemma Sizes(on: set<nat>, mask: set<nat>, at: map<nat, nat>, ss: seq<Slot>)
    requires Linked(on, mask, at, ss)
    ensures |Timers(at, ss)| == |mask| <= |ss| && Inv(States(on, Timers(at, ss)), |ss|)
    ensures Timers(at, ss).Keys == at.Keys && forall i :: i in mask ==> i < |ss|
  {
    var inverse := map i | i in mask :: ss[i].state;
    SameSize(at, inverse);
    assert Timers(at, ss).Keys == at.Keys && inverse.Keys == mask;
    Bounded(mask, |ss|);
  }

  lemma SlotOf(on: set<nat>, mask: set<nat>, at: map<nat, nat>, ss: seq<Slot>, s: nat)
    requires Linked(on, mask, at, ss) && s in at
    ensures at[s] in mask && at[s] < |ss| < NO_SLOT && ss[at[s]].state == s && s in on
    ensures s in Timers(at, ss) && Timers(at, ss)[s] == ss[at[s]].timeout > 0
  {
  }

  lemma StateIn(on: set<nat>, mask: set<nat>, at: map<nat, nat>, ss: seq<Slot>, i: nat)
    requires Linked(on, mask, at, ss) && i in mask
    ensures i < |ss| <= MASK_BITS && ss[i].state in at && at[ss[i].state] == i && ss[i].timeout > 0
  {
  }

  /** Giving up the slot of a state. */
  lemma Freed(on: set<nat>, mask: set<nat>, at: map<nat, nat>, ss: seq<Slot>, s: nat, x: Slot)
    requires Linked(on, mask, at, ss) && s in at && at[s] < |ss|
    ensures Linked(on, mask - {at[s]}, at - {s}, ss[at[s] := x])
    ensures Timers(at - {s}, ss[at[s] := x]) == Timers(at, ss) - {s}
  {
  }

  /** Taking a free slot. */
  lemma Claimed(on: set<nat>, mask: set<nat>, at: map<nat, nat>, ss: seq<Slot>, idx: nat, s: nat, timeout: nat)
    requires Linked(on, mask, at, ss) && idx < |ss| && idx !in mask && s !in at && timeout > 0
    ensures Linked(on + {s}, mask + {idx}, at[s := idx], ss[idx := Slot(s, timeout)])
    ensures Timers(at[s := idx], ss[idx := Slot(s, timeout)]) == Timers(at, ss)[s := timeout]
  {
  }

  /** Changing the time left in a slot. */
  lemma Changed(on: set<nat>, mask: set<nat>, at: map<nat, nat>, ss: seq<Slot>, idx: nat, timeout: nat)
    requires Linked(on, mask, at, ss) && idx in mask && idx < |ss| && timeout > 0
    ensures Linked(on, mask, at, ss[idx := ss[idx].(timeout := timeout)])
    ensures Timers(at, ss[idx := ss[idx].(timeout := timeout)]) == Timers(at, ss)[ss[idx].state := timeout]
  {
  }

  /** Setting any state, or clearing one without a timeout. */
  lemma Toggled(on: set<nat>, mask: set<nat>, at: map<nat, nat>, ss: seq<Slot>, s: nat)
    requires Linked(on, mask, at, ss)
    ensures Linked(on + {s}, mask, at, ss) && (s !in at ==> Linked(on - {s}, mask, at, ss))
  {
  }

  /** A state without a slot has no timeout; a state that is not set has no slot. */
  lemma Untimed(on: set<nat>, mask: set<nat>, at: map<nat, nat>, ss: seq<Slot>, s: nat)
    requires Linked(on, mask, at, ss)
    ensures s !in on ==> s !in at
    ensures s !in at ==> Timers(at, ss) - {s} == Timers(at, ss)
  {
  }

  class Device {
    const slots: array<Slot>
    var on: set<nat>
    var mask: set<nat>
    /** Slot of every timed state. */
    ghost var at: map<nat, nat>

    ghost predicate Valid()
      reads this, slots
    {
      Linked(on, mask, at, slots[..])
    }

    ghost function View(): States
      reads this, slots
    {
      States(on, Timers(at, slots[..]))
    }

    constructor (n: nat)
      requires n <= MASK_BITS
      ensures Valid() && fresh(slots) && slots.Length == n && View() == States({}, map[])
    {
      slots := new Slot[n](i => Slot(0, 0));
      on, mask, at := {}, {}, map[];
    }

    method FindTimeoutState(state: nat) returns (idx: nat)
      requires Valid()
      ensures state in at ==> idx == at[state] != NO_SLOT
      ensures state !in at ==> idx == NO_SLOT
    {
      var left := mask;
      while left != {}
        invariant left <= mask && (state in at ==> at[state] in left)
        decreases left
      {
        var first := Lowest(left);
        if slots[first].state == state {
          return first;
        }
        left := left - {first};
      }
      return NO_SLOT;
    }

    method ClearTimeoutState(state: nat)
      requires Valid()
      modifies `mask, `at, slots
      ensures Valid() && View() == States(on, old(View()).timers - {state})
      ensures state !in at
    {
      hide Linked, Timers;
      var idx := FindTimeoutState(state);
      Untimed(on, mask, at, slots[..], state);
      if idx == NO_SLOT {
        return;
      }
      SlotOf(on, mask, at, slots[..], state);
      Freed(on, mask, at, slots[..], state, Slot(0, 0));
      slots[idx] := Slot(0, 0);
      mask := mask - {idx};
      at := at - {state};
    }

    method SetState(state: nat) returns (alreadySet: bool)
      requires Valid()
      modifies this, slots
      ensures Valid() && View() == AfterSet(old(View()), state) && alreadySet == (state in old(on))
    {
      hide Linked, Timers;
      Untimed(on, mask, at, slots[..], state);
      Toggled(on, mask, at, slots[..], state);
      alreadySet := state in on;
      on := on + {state};
      if alreadySet {
        ClearTimeoutState(state);
      }
    }

    /** Record a timeout in a free slot. */
    method Claim(idx: nat, state: nat, timeout: nat) returns (alreadySet: bool)
      requires Valid() && idx < slots.Length && idx !in mask && state !in at && timeout > 0
      modifies this, slots
      ensures Valid() && alreadySet == (state in old(on))
      ensures View() == States(old(on) + {state}, old(View()).timers[state := timeout])
    {
      hide Linked, Timers;
      Claimed(on, mask, at, slots[..], idx, state, timeout);
      alreadySet := state in on;
      on := on + {state};
      mask := mask + {idx};
      slots[idx] := Slot(state, timeout);
      at := at[state := idx];
    }

    /** Restart the timeout in a slot in use. */
    method Restart(idx: nat, timeout: nat)
      requires Valid() && idx in mask && idx < slots.Length && timeout > 0
      modifies slots
      ensures Valid() && View() == States(on, old(View()).timers[old(slots[idx].state) := timeout])
      ensures forall j :: 0 <= j < slots.Length && j != idx ==> slots[j] == old(slots[j])
    {
      hide Linked, Timers;
      Changed(on, mask, at, slots[..], idx, timeout);
      slots[idx] := slots[idx].(timeout := timeout);
    }

    method SetStateTimeout(state: nat, timeout: nat) returns (alreadySet: bool)
      requires Valid()
      modifies this, slots
      ensures Valid() && View() == AfterSetTimeout(old(View()), state, timeout, slots.Length)
      ensures alreadySet == (Accepts(old(View()), state, timeout, slots.Length) && state in old(on))
    {
      hide Linked, Timers;
      if timeout == 0 {
        return false;
      }
      var idx := FindTimeoutState(state);
      Sizes(on, mask, at, slots[..]);
      if idx == NO_SLOT {
        if |mask| == slots.Length {
          return false;
        }
        idx := LowestFree(mask, slots.Length);
        alreadySet := Claim(idx, state, timeout);
      } else {
        SlotOf(on, mask, at, slots[..], state);
        Restart(idx, timeout);
        assert on + {state} == on;
        return true;
      }
    }

    method GetTimeout(state: nat) returns (timeout: nat, valid: bool)
      requires Valid()
      ensures valid == (state in on)
      ensures timeout == if state in View().timers then View().timers[state] else 0
    {
      Sizes(on, mask, at, slots[..]);
      if state in on {
        var idx := FindTimeoutState(state);
        if idx == NO_SLOT {
          return 0, true;
        }
        SlotOf(on, mask, at, slots[..], state);
        return slots[idx].timeout, true;
      }
      return 0, false;
    }

    method ClearState(state: nat) returns (wasSet: bool)
      requires Valid()
      modifies this, slots
      ensures Valid() && View() == AfterClear(old(View()), state) && wasSet == (state in old(on))
    {
      hide Linked, Timers;
      Untimed(on, mask, at, slots[..], state);
      wasSet := state in on;
      if wasSet {
        ClearTimeoutState(state);
        Toggled(on, mask, at, slots[..], state);
        on := on - {state};
      } else {
        assert on - {state} == on;
      }
    }

    /** Give up a slot whose time has run out, and clear its state. */
    method Expire(i: nat)
      requires Valid() && i < slots.Length && slots[i].state in at && at[slots[i].state] == i
      modifies this, slots
      ensures Valid() && mask == old(mask) - {i}
      ensures View() == States(old(on) - {old(slots[i].state)}, old(View()).timers - {old(slots[i].state)})
      ensures forall j :: 0 <= j < slots.Length && j != i ==> slots[j] == old(slots[j])
    {
      hide Linked, Timers;
      var state := slots[i].state;
      Freed(on, mask, at, slots[..], state, Slot(0, 0));
      Toggled(on, mask - {i}, at - {state}, slots[..][i := Slot(0, 0)], state);
      on := on - {state};
      mask := mask - {i};
      slots[i] := Slot(0, 0);
      at := at - {state};
    }

    /** One slot of a tick that sees its state. */
    method TickSlot(i: nat)
      requires Valid() && i in mask && i < slots.Length
      modifies this, slots
      ensures Valid() && View() == TickOne(old(View()), old(slots[i].state))
      ensures mask == old(mask) || mask == old(mask) - {i}
      ensures forall j :: 0 <= j < slots.Length && j != i ==> slots[j] == old(slots[j])
    {
      hide Linked, Timers;
      StateIn(on, mask, at, slots[..], i);
      SlotOf(on, mask, at, slots[..], slots[i].state);
      if slots[i].timeout - 1 > 0 {
        Restart(i, slots[i].timeout - 1);
      } else {
        Expire(i);
      }
    }

    /** Visit slot `i` of those `left` in a tick; `seen` were ticked before. */
    method Visit(i: nat, snapshot: set<nat>, ghost was: States, ghost ss: seq<Slot>, ghost left: set<nat>,
        ghost seen: set<nat>)
      returns (ghost now: set<nat>)
      requires Valid() && i in left && left <= mask
      requires Pending(was, ss, left, seen, snapshot) && View() == AfterTick(was, seen)
      requires forall j :: j in left ==> j < slots.Length && slots[j] == ss[j]
      modifies this, slots
      ensures Valid() && left - {i} <= mask
      ensures Pending(was, ss, left - {i}, now, snapshot) && View() == AfterTick(was, now)
      ensures forall j :: j in left - {i} ==> j < slots.Length && slots[j] == ss[j]
    {
      hide Linked, Timers, AfterTick, TickOne, Pending;
      PendingNext(was, ss, left, seen, snapshot, i);
      var state := slots[i].state;
      if state !in snapshot {
        return seen;
      }
      TickMore(was, seen, state);
      TickSlot(i);
      return seen + {state};
    }

    method TickStates(snapshot: set<nat>)
      requires Valid()
      modifies this, slots
      ensures Valid() && Inv(old(View()), slots.Length) && View() == AfterTick(old(View()), snapshot)
    {
      ghost var was, ss := View(), slots[..];
      PendingStart(on, mask, at, ss, snapshot);
      hide Linked, Timers, AfterTick, Pending;
      ghost var seen: set<nat> := {};
      var left := mask;
      while left != {}
        invariant Valid() && left <= mask && Pending(was, ss, left, seen, snapshot) && View() == AfterTick(was, seen)
        invariant forall i :: i in left ==> i < slots.Length <= MASK_BITS && slots[i] == ss[i]
        decreases left
      {
        var first := Lowest(left);
        seen := Visit(first, snapshot, was, ss, left, seen);
        left := left - {first};
      }
      PendingEnd(was, ss, seen, snapshot);
    }
  }

  ghost predicate AllPositive(st: States) {
    forall s :: s in st.timers ==> st.timers[s] > 0
  }

  /** Progress of a tick: `left` are the slots still to visit, `seen` the states ticked so far. */
  ghost predicate Pending(st: States, ss: seq<Slot>, left: set<nat>, seen: set<nat>, snapshot: set<nat>) {
    && AllPositive(st) && seen <= snapshot
    && (forall i :: i in left ==> i < |ss| && ss[i].state in st.timers && ss[i].state !in seen)
    && (forall i, j :: i in left && j in left && i != j ==> ss[i].state != ss[j].state)
    && (forall s :: s in st.timers && s in snapshot && s !in seen ==>
          exists i :: i in left && i < |ss| && ss[i].state == s)
  }

  lemma PendingStart(on: set<nat>, mask: set<nat>, at: map<nat, nat>, ss: seq<Slot>, snapshot: set<nat>)
    requires Linked(on, mask, at, ss)
    ensures var st := States(on, Timers(at, ss));
      Inv(st, |ss|) && Pending(st, ss, mask, {}, snapshot) && AfterTick(st, {}) == st
    ensures |ss| <= MASK_BITS && forall i :: i in mask ==> i < |ss|
  {
    Sizes(on, mask, at, ss);
    var st := States(on, Timers(at, ss));
    TickNone(st);
    forall s | s in st.timers ensures exists i :: i in mask && i < |ss| && ss[i].state == s {
      assert ss[at[s]].state == s;
    }
  }

  lemma PendingNext(st: States, ss: seq<Slot>, left: set<nat>, seen: set<nat>, snapshot: set<nat>, i: nat)
    requires Pending(st, ss, left, seen, snapshot) && i in left
    ensures AllPositive(st) && i < |ss| && ss[i].state in st.timers && ss[i].state !in seen
    ensures ss[i].state in snapshot ==> Pending(st, ss, left - {i}, seen + {ss[i].state}, snapshot)
    ensures ss[i].state !in snapshot ==> Pending(st, ss, left - {i}, seen, snapshot)
  {
    forall s | s in st.timers && s in snapshot && s !in seen && s != ss[i].state
      ensures exists j :: j in left - {i} && j < |ss| && ss[j].state == s
    {
      var j :| j in left && j < |ss| && ss[j].state == s;
      assert j in left - {i};
    }
  }

  lemma PendingEnd(st: States, ss: seq<Slot>, seen: set<nat>, snapshot: set<nat>)
    requires Pending(st, ss, {}, seen, snapshot)
    ensures AllPositive(st) && AfterTick(st, seen) == AfterTick(st, snapshot)
  {
    TickAll(st, seen, snapshot);
  }

  lemma TickNone(st: States)
    requires AllPositive(st)
    ensures AfterTick(st, {}) == st
  {
    assert AfterTick(st, {}).timers == st.timers;
  }

  /** What a tick does to one timed state that it sees. */
  ghost function TickOne(st: States, s: nat): States {
    if s !in st.timers then st
    else if st.timers[s] == 1 then States(st.on - {s}, st.timers - {s})
    else States(st.on, st.timers[s := if st.timers[s] > 0 then st.timers[s] - 1 else 0])
  }

  /** A tick can be taken one state at a time. */
  lemma TickMore(st: States, seen: set<nat>, s: nat)
    requires AllPositive(st) && s !in seen && s in st.timers
    ensures TickOne(AfterTick(st, seen), s) == AfterTick(st, seen + {s})
  {
    var a, b := TickOne(AfterTick(st, seen), s), AfterTick(st, seen + {s});
    assert Expired(st, seen + {s}) == Expired(st, seen) + if st.timers[s] == 1 then {s} else {};
    assert a.timers == b.timers;
    assert a.on == b.on;
  }

  /** Only timed states matter to a tick. */
  lemma TickAll(st: States, seen: set<nat>, snapshot: set<nat>)
    requires AllPositive(st) && seen <= snapshot && forall s :: s in st.timers && s in snapshot ==> s in seen
    ensures AfterTick(st, seen) == AfterTick(st, snapshot)
  {
    assert Expired(st, seen) == Expired(st, snapshot);
    assert AfterTick(st, seen).timers == AfterTick(st, snapshot).timers;
  }
}
