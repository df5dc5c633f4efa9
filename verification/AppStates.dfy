/** Application states that clear themselves after a number of ticks. */
module AppStates {

  /** States that are set, and the ticks left to those that will time out. */
  datatype States = States(on: set<nat>, timers: map<nat, nat>)

  datatype Op = Set(s: nat) | SetTimeout(s: nat, timeout: nat) | Clear(s: nat) | Tick(snapshot: set<nat>)

  /** Timed states are set and have time left; there are at most `slots` of them. */
  ghost predicate Inv(st: States, slots: nat) {
    && st.timers.Keys <= st.on && |st.timers| <= slots
    && forall s :: s in st.timers ==> st.timers[s] > 0
  }

  function AfterSet(st: States, s: nat): States {
    States(st.on + {s}, st.timers - {s})
  }

  /** Can a timeout be recorded for the state? */
  predicate Accepts(st: States, s: nat, timeout: nat, slots: nat) {
    timeout > 0 && (s in st.timers || |st.timers| < slots)
  }

  function AfterSetTimeout(st: States, s: nat, timeout: nat, slots: nat): States {
    if Accepts(st, s, timeout, slots) then States(st.on + {s}, st.timers[s := timeout]) else st
  }

  function AfterClear(st: States, s: nat): States {
    States(st.on - {s}, st.timers - {s})
  }

  function Expired(st: States, snapshot: set<nat>): set<nat> {
    set s | s in st.timers && s in snapshot && st.timers[s] == 1
  }

  function AfterTick(st: States, snapshot: set<nat>): States
    requires forall s :: s in st.timers ==> st.timers[s] > 0
  {
    States(st.on - Expired(st, snapshot),
           map s | s in st.timers && s !in Expired(st, snapshot) ::
             if s in snapshot then st.timers[s] - 1 else st.timers[s])
  }

  function Apply(st: States, op: Op, slots: nat): (q: States)
    requires Inv(st, slots)
    ensures Inv(q, slots)
  {
    match op
    case Set(s) =>
      SubsetSize((st.timers - {s}).Keys, st.timers.Keys);
      AfterSet(st, s)
    case SetTimeout(s, timeout) =>
      assert Accepts(st, s, timeout, slots) ==> st.timers[s := timeout].Keys == st.timers.Keys + {s};
      AfterSetTimeout(st, s, timeout, slots)
    case Clear(s) =>
      SubsetSize((st.timers - {s}).Keys, st.timers.Keys);
      AfterClear(st, s)
    case Tick(snapshot) =>
      SubsetSize(AfterTick(st, snapshot).timers.Keys, st.timers.Keys);
      AfterTick(st, snapshot)
  }

  lemma {:induction false} SubsetSize(a: set<nat>, b: set<nat>)
    requires a <= b
    ensures |a| <= |b|
    decreases b
  {
    if b != {} {
      var x :| x in b;
      SubsetSize(a - {x}, b - {x});
    }
  }

  function Run(st: States, ops: seq<Op>, slots: nat): (q: States)
    requires Inv(st, slots)
    ensures Inv(q, slots)
  {
    if ops == [] then st else Apply(Run(st, ops[..|ops| - 1], slots), ops[|ops| - 1], slots)
  }

  /** Does the operation change state `s` by itself? */
  predicate Touches(op: Op, s: nat) {
    !op.Tick? && op.s == s
  }

  /** Ticks whose snapshot saw state `s`. */
  function Seen(ops: seq<Op>, s: nat): nat {
    if ops == [] then 0 else
      Seen(ops[..|ops| - 1], s) + if ops[|ops| - 1].Tick? && s in ops[|ops| - 1].snapshot then 1 else 0
  }

  /** What an operation that does not touch state `s` does to it. */
  lemma ApplyOther(st: States, op: Op, slots: nat, s: nat)
    requires Inv(st, slots) && !Touches(op, s)
    ensures var q, hit := Apply(st, op, slots), Seen([op], s);
      && (s !in st.timers ==> s !in q.timers && (s in q.on <==> s in st.on))
      && (s in st.timers && st.timers[s] > hit ==> s in q.on && s in q.timers && q.timers[s] == st.timers[s] - hit)
      && (s in st.timers && st.timers[s] == hit ==> s !in q.on && s !in q.timers)
  {
  }

  /**
   * A state with `n` ticks left stays set for exactly `n` ticks that see it, whatever is done to
   * other states meanwhile.
   */
  lemma {:induction false} StaysFor(st: States, ops: seq<Op>, slots: nat, s: nat)
    requires Inv(st, slots) && s in st.timers
    requires forall m :: 0 <= m < |ops| ==> !Touches(ops[m], s)
    ensures var q := Run(st, ops, slots);
      && (s in q.on <==> Seen(ops, s) < st.timers[s])
      && (s in q.timers <==> Seen(ops, s) < st.timers[s])
      && (s in q.timers ==> q.timers[s] == st.timers[s] - Seen(ops, s))
    decreases |ops|
  {
    hide Apply, Touches;
    if ops != [] {
      var p, op := ops[..|ops| - 1], ops[|ops| - 1];
      StaysFor(st, p, slots, s);
      ApplyOther(Run(st, p, slots), op, slots, s);
    }
  }

  /** Setting a state for `n` ticks does so, exactly when the call is accepted. */
  lemma SetFor(st: States, slots: nat, s: nat, n: nat, ops: seq<Op>)
    requires Inv(st, slots) && Accepts(st, s, n, slots)
    requires forall m :: 0 <= m < |ops| ==> !Touches(ops[m], s)
    ensures s in Run(Apply(st, SetTimeout(s, n), slots), ops, slots).on <==> Seen(ops, s) < n
  {
    StaysFor(Apply(st, SetTimeout(s, n), slots), ops, slots, s);
  }

  /** A state without a timeout stays as it is until an operation names it. */
  lemma {:induction false} UntimedStays(st: States, slots: nat, s: nat, ops: seq<Op>)
    requires Inv(st, slots) && s !in st.timers
    requires forall m :: 0 <= m < |ops| ==> !Touches(ops[m], s)
    ensures var q := Run(st, ops, slots); s !in q.timers && (s in q.on <==> s in st.on)
    decreases |ops|
  {
    hide Apply, Touches, Inv;
    if ops != [] {
      var p, op := ops[..|ops| - 1], ops[|ops| - 1];
      UntimedStays(st, slots, s, p);
      ApplyOther(Run(st, p, slots), op, slots, s);
    }
  }

  // ----- The evaluation loop -----

  /** One pass of the main loop: operations before and after the snapshot that is evaluated and ticked. */
  datatype Round = Round(before: seq<Op>, after: seq<Op>)

  /** The states that a round evaluates. */
  function Snapshot(st: States, rd: Round, slots: nat): set<nat>
    requires Inv(st, slots)
  {
    Run(st, rd.before, slots).on
  }

  function AfterRound(st: States, rd: Round, slots: nat): (q: States)
    requires Inv(st, slots)
    ensures Inv(q, slots)
  {
    Apply(Run(Run(st, rd.before, slots), rd.after, slots), Tick(Snapshot(st, rd, slots)), slots)
  }

  function AfterRounds(st: States, rds: seq<Round>, slots: nat): (q: States)
    requires Inv(st, slots)
    ensures Inv(q, slots)
  {
    if rds == [] then st else AfterRound(AfterRounds(st, rds[..|rds| - 1], slots), rds[|rds| - 1], slots)
  }

  /** The operations neither tick nor name the state. */
  predicate Elsewhere(ops: seq<Op>, s: nat) {
    forall m :: 0 <= m < |ops| ==> !ops[m].Tick? && !Touches(ops[m], s)
  }

  lemma {:induction false} NothingSeen(ops: seq<Op>, s: nat)
    requires Elsewhere(ops, s)
    ensures Seen(ops, s) == 0
    decreases |ops|
  {
    if ops != [] {
      NothingSeen(ops[..|ops| - 1], s);
    }
  }

  /** Between ticks, operations elsewhere leave a state and its time alone. */
  lemma Undisturbed(st: States, ops: seq<Op>, slots: nat, s: nat)
    requires Inv(st, slots) && Elsewhere(ops, s)
    ensures var q := Run(st, ops, slots);
      && (s in q.on <==> s in st.on) && (s in q.timers <==> s in st.timers)
      && (s in st.timers ==> q.timers[s] == st.timers[s])
  {
    NothingSeen(ops, s);
    if s in st.timers {
      StaysFor(st, ops, slots, s);
    } else {
      UntimedStays(st, slots, s, ops);
    }
  }

  lemma RoundCounts(st: States, rd: Round, slots: nat, s: nat)
    requires Inv(st, slots) && Elsewhere(rd.before, s) && Elsewhere(rd.after, s)
    ensures var q := AfterRound(st, rd, slots);
      && (s in Snapshot(st, rd, slots) <==> s in st.on)
      && (s !in st.timers ==> s !in q.timers && (s in q.on <==> s in st.on))
      && (s in st.timers && st.timers[s] > 1 ==> s in q.on && s in q.timers && q.timers[s] == st.timers[s] - 1)
      && (s in st.timers && st.timers[s] == 1 ==> s !in q.on && s !in q.timers)
  {
    hide Run, Apply;
    Undisturbed(st, rd.before, slots, s);
    var a := Run(st, rd.before, slots);
    Undisturbed(a, rd.after, slots, s);
    var op := Tick(Snapshot(st, rd, slots));
    ApplyOther(Run(a, rd.after, slots), op, slots, s);
    assert Seen([op], s) == if s in st.on then 1 else 0;
  }

  lemma {:induction false} RoundsCount(st: States, rds: seq<Round>, slots: nat, s: nat)
    requires Inv(st, slots) && s in st.timers
    requires forall m :: 0 <= m < |rds| ==> Elsewhere(rds[m].before, s) && Elsewhere(rds[m].after, s)
    ensures var q := AfterRounds(st, rds, slots);
      && (s in q.on <==> |rds| < st.timers[s]) && (s in q.timers <==> |rds| < st.timers[s])
      && (s in q.timers ==> q.timers[s] == st.timers[s] - |rds|)
    decreases |rds|
  {
    hide AfterRound, Elsewhere;
    if rds != [] {
      var p := rds[..|rds| - 1];
      RoundsCount(st, p, slots, s);
      RoundCounts(AfterRounds(st, p, slots), rds[|rds| - 1], slots, s);
    }
  }

  /** A state set for `n` ticks is seen by exactly the next `n` evaluations. */
  lemma SeenByEvaluations(st: States, slots: nat, s: nat, n: nat, rds: seq<Round>)
    requires Inv(st, slots) && Accepts(st, s, n, slots) && |rds| > 0
    requires forall m :: 0 <= m < |rds| ==> Elsewhere(rds[m].before, s) && Elsewhere(rds[m].after, s)
    ensures var q := AfterRounds(Apply(st, SetTimeout(s, n), slots), rds[..|rds| - 1], slots);
      s in Snapshot(q, rds[|rds| - 1], slots) <==> |rds| <= n
  {
    var q := Apply(st, SetTimeout(s, n), slots);
    RoundsCount(q, rds[..|rds| - 1], slots, s);
    RoundCounts(AfterRounds(q, rds[..|rds| - 1], slots), rds[|rds| - 1], slots, s);
  }
}
