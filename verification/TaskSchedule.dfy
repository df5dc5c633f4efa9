/** When a schedule wants its task to start or to stop. */
module TaskSchedule {
  import opened Arithmetic

  const REBOOTING := 1
  const APPLICATION_ACTIVE := 2

  const VALID_ALWAYS := 1
  const VALID_ACTIVE := 2
  const VALID_INACTIVE := 3
  const VALID_PERMANENT := 4

  /** Flag in a lockout value: do not wait before the first run. */
  const IGNORE_FIRST := 0x8000_0000

  /** Up to four state numbers; zero ends the list. Bit `i` inverts state `i`, bit `i + 4` ORs it. */
  datatype Conditions = Conditions(invert: seq<bool>, orWith: seq<bool>, states: seq<nat>)

  datatype Periodicity =
    | Unset
    | Fixed(period: u32)
    | Lockout(lockout: u32)
    | After(scheduleIdx: byte, duration: u16)
    | LockoutBattery(lockoutMin: u16, lockoutMax: u16, batteryMin: byte, batteryMax: byte)
    | Unknown

  datatype Thresholds = Thresholds(lower: nat, upper: nat)

  datatype Schedule = Schedule(
    taskId: nat,
    locked: bool,
    validity: nat,
    periodicity: Periodicity,
    bootLockoutMinutes: nat,
    timeout: nat,
    batteryStart: Thresholds,
    batteryTerminate: Thresholds,
    startTimeout2x: nat,
    statesStart: Conditions,
    statesTerminate: Conditions)

  /** Surroundings of one evaluation. */
  datatype Inputs = Inputs(states: set<nat>, uptime: nat, epoch: nat, battery: nat)

  ghost predicate ValidConditions(c: Conditions) {
    |c.invert| == |c.orWith| == |c.states| == 4
  }

  // ----- State conditions -----

  function StateValue(c: Conditions, on: set<nat>, i: nat): bool
    requires i < |c.states| && i < |c.invert|
  {
    (c.states[i] in on) != c.invert[i]
  }

  /** Left to right, from condition `i` on, with the result so far. */
  function Fold(c: Conditions, on: set<nat>, i: nat, acc: bool): bool
    requires ValidConditions(c) && i <= 4
    decreases 4 - i
  {
    if i == 4 || c.states[i] == 0 then acc
    else Fold(c, on, i + 1, if c.orWith[i] then acc || StateValue(c, on, i) else acc && StateValue(c, on, i))
  }

  /** `((S0 op S1) op S2) op S3`, whatever the operator bit of the first condition says. */
  function Eval(c: Conditions, on: set<nat>, fallthrough: bool): bool
    requires ValidConditions(c)
  {
    if c.states[0] == 0 then fallthrough else Fold(c, on, 1, StateValue(c, on, 0))
  }

  /** Conditions in use: those before the first zero. */
  function Used(c: Conditions, i: nat): (n: nat)
    requires ValidConditions(c) && i <= 4
    ensures i <= n <= 4 && (n < 4 ==> c.states[n] == 0) && forall j :: i <= j < n ==> c.states[j] != 0
    decreases 4 - i
  {
    if i == 4 || c.states[i] == 0 then i else Used(c, i + 1)
  }

  lemma {:induction false} FoldAll(c: Conditions, on: set<nat>, i: nat, acc: bool)
    requires ValidConditions(c) && i <= 4 && forall j :: i <= j < 4 ==> !c.orWith[j]
    ensures Fold(c, on, i, acc) <==> acc && forall j :: i <= j < Used(c, i) ==> StateValue(c, on, j)
    decreases 4 - i
  {
    if i < 4 && c.states[i] != 0 {
      FoldAll(c, on, i + 1, acc && StateValue(c, on, i));
      assert Used(c, i) == Used(c, i + 1);
    }
  }

  lemma {:induction false} FoldAny(c: Conditions, on: set<nat>, i: nat, acc: bool)
    requires ValidConditions(c) && i <= 4 && forall j :: i <= j < 4 ==> c.orWith[j]
    ensures Fold(c, on, i, acc) <==> acc || exists j :: i <= j < Used(c, i) && StateValue(c, on, j)
    decreases 4 - i
  {
    if i < 4 && c.states[i] != 0 {
      FoldAny(c, on, i + 1, acc || StateValue(c, on, i));
      assert Used(c, i) == Used(c, i + 1);
    }
  }

  /** Without OR flags all conditions must hold, with OR flags on all further ones any of them. */
  lemma EvalMeans(c: Conditions, on: set<nat>, fallthrough: bool)
    requires ValidConditions(c)
    ensures Used(c, 0) == 0 ==> Eval(c, on, fallthrough) == fallthrough
    ensures Used(c, 0) > 0 && (forall j :: 1 <= j < 4 ==> !c.orWith[j]) ==>
      (Eval(c, on, fallthrough) <==> forall j :: 0 <= j < Used(c, 0) ==> StateValue(c, on, j))
    ensures Used(c, 0) > 0 && (forall j :: 1 <= j < 4 ==> c.orWith[j]) ==>
      (Eval(c, on, fallthrough) <==> exists j :: 0 <= j < Used(c, 0) && StateValue(c, on, j))
  {
    if c.states[0] != 0 {
      assert Used(c, 0) == Used(c, 1);
      if forall j :: 1 <= j < 4 ==> !c.orWith[j] {
        FoldAll(c, on, 1, StateValue(c, on, 0));
      }
      if forall j :: 1 <= j < 4 ==> c.orWith[j] {
        FoldAny(c, on, 1, StateValue(c, on, 0));
      }
    }
  }

  /** The loop starts from the neutral element of the first operator. */
  method StatesEval(c: Conditions, on: set<nat>, fallthrough: bool) returns (result: bool)
    requires ValidConditions(c)
    ensures result == Eval(c, on, fallthrough)
  {
    if c.states[0] == 0 {
      return fallthrough;
    }
    result := !c.orWith[0];
    var i := 0;
    while i < 4
      invariant 0 <= i <= 4
      invariant i == 0 ==> result == !c.orWith[0]
      invariant i > 0 ==> Fold(c, on, i, result) == Eval(c, on, fallthrough)
    {
      if c.states[i] == 0 {
        break;
      }
      var value := (c.states[i] in on) != c.invert[i];
      if c.orWith[i] {
        result := result || value;
      } else {
        result := result && value;
      }
      i := i + 1;
    }
  }

  // ----- Validation -----

  predicate ValidThresholds(t: Thresholds) {
    t.lower <= 100 && t.upper <= 100 && (t.lower != 0 && t.upper != 0 ==> t.lower < t.upper)
  }

  predicate ValidPeriodicity(p: Periodicity) {
    match p
    case Unset => true
    case Fixed(period) => period != 0
    case Lockout(lockout) => lockout != 0
    case After(_, _) => true
    case LockoutBattery(lo, hi, bmin, bmax) => bmin < bmax && lo != 0 && hi != 0
    case Unknown => false
  }

  predicate Validate(s: Schedule) {
    && VALID_ALWAYS <= s.validity <= VALID_PERMANENT
    && ValidPeriodicity(s.periodicity)
    && ValidThresholds(s.batteryStart) && ValidThresholds(s.batteryTerminate)
  }

  // ----- Start and stop -----

  /** Lockout in force at a battery charge, including the flag bit, which only a fixed lockout has room for. */
  function LockoutValue(p: Periodicity, battery: nat): (wait: u32)
    requires p.Lockout? || (p.LockoutBattery? && p.batteryMin < p.batteryMax)
    ensures p.LockoutBattery? ==> wait <= p.lockoutMin || wait <= p.lockoutMax
  {
    match p
    case Lockout(lockout) => lockout
    case LockoutBattery(lo, hi, bmin, bmax) =>
      if battery <= bmin then lo
      else if battery >= bmax then hi
      else
        InterpolateBounds(lo, hi, bmin, bmax, battery);
        lo + TruncDiv((hi - lo) * (battery - bmin), bmax - bmin)
  }

  /** Interpolation stays between its end points, and never overflows the signed variables it is computed in. */
  lemma InterpolateBounds(lo: u16, hi: u16, bmin: byte, bmax: byte, b: nat)
    requires bmin < b < bmax
    ensures var v := lo + TruncDiv((hi - lo) * (b - bmin), bmax - bmin);
      (lo <= hi ==> lo <= v <= hi) && (hi <= lo ==> hi <= v <= lo)
    ensures Int32((hi - lo) * (b - bmin))
  {
    hide TruncDiv;
    if lo <= hi {
      ScaledBounds(hi - lo, b - bmin, bmax - bmin);
    } else {
      ScaledBounds(lo - hi, b - bmin, bmax - bmin);
      assert (hi - lo) * (b - bmin) == 0 - (lo - hi) * (b - bmin);
    }
  }

  lemma ScaledBounds(x: u16, w: nat, d: nat)
    requires w <= d < 256 && 0 < d
    ensures 0 <= x * w < U16 * 256
    ensures 0 <= TruncDiv(x * w, d) <= x && 0 <= x + TruncDiv(0 - x * w, d) <= x
  {
    hide TruncDiv;
    MulMono(x, w, d);
    MulMono(d, x, U16);
    TruncBounds(x * w, x, d);
  }

  /** Has the lockout passed? A schedule that never ran may be excused from waiting. */
  predicate LockoutPassed(lockout: nat, lastRun: nat, uptime: nat) {
    || (uptime - lastRun) % U32 >= lockout % IGNORE_FIRST
    || (lockout >= IGNORE_FIRST && lastRun == 0 && uptime != 0)
  }

  /** `linkedTerminate` is the end of the last run of the linked schedule, zero without one. */
  predicate PeriodicityDue(p: Periodicity, lastRun: nat, linkedTerminate: nat, x: Inputs)
    requires ValidPeriodicity(p)
  {
    match p
    case Fixed(period) => x.epoch % period == 0
    case After(_, duration) => linkedTerminate != 0 && (linkedTerminate + duration) % U32 == x.uptime
    case Lockout(_) => LockoutPassed(LockoutValue(p, x.battery), lastRun, x.uptime)
    case LockoutBattery(_, _, _, _) => LockoutPassed(LockoutValue(p, x.battery), lastRun, x.uptime)
    case _ => true
  }

  /** Wrong application state for a schedule that depends on it. */
  predicate WrongActivity(s: Schedule, x: Inputs) {
    || (s.validity == VALID_ACTIVE && APPLICATION_ACTIVE !in x.states)
    || (s.validity == VALID_INACTIVE && APPLICATION_ACTIVE in x.states)
  }

  ghost predicate WellFormed(s: Schedule) {
    Validate(s) && ValidConditions(s.statesStart) && ValidConditions(s.statesTerminate)
  }

  predicate ShouldStart(s: Schedule, lastRun: nat, linkedTerminate: nat, x: Inputs)
    requires WellFormed(s)
  {
    && REBOOTING !in x.states
    && !WrongActivity(s, x)
    && !(s.bootLockoutMinutes != 0 && x.uptime / 60 < s.bootLockoutMinutes)
    && PeriodicityDue(s.periodicity, lastRun, linkedTerminate, x)
    && (s.batteryStart.lower == 0 || x.battery >= s.batteryStart.lower)
    && (s.batteryStart.upper == 0 || x.battery <= s.batteryStart.upper)
    && ((s.startTimeout2x != 0 && (x.uptime - lastRun) % U32 >= 2 * s.startTimeout2x) ||
        Eval(s.statesStart, x.states, true))
  }

  predicate ShouldTerminate(s: Schedule, runtime: nat, x: Inputs)
    requires WellFormed(s)
  {
    || REBOOTING in x.states
    || WrongActivity(s, x)
    || (s.timeout != 0 && runtime >= s.timeout)
    || (s.batteryTerminate.lower != 0 && x.battery <= s.batteryTerminate.lower)
    || (s.batteryTerminate.upper != 0 && x.battery >= s.batteryTerminate.upper)
    || Eval(s.statesTerminate, x.states, false)
  }

  /** The battery ranges for starting and for stopping do not overlap. */
  predicate Separated(s: Schedule) {
    && (s.batteryTerminate.lower == 0 || s.batteryTerminate.lower < s.batteryStart.lower)
    && (s.batteryTerminate.upper == 0 || (s.batteryStart.upper != 0 && s.batteryStart.upper < s.batteryTerminate.upper))
  }

  /**
   * What starts a schedule does not stop it at once: with separated battery ranges, only a timeout or
   * its terminate conditions can ask for a stop under the inputs it was started with.
   */
  lemma NoFlapping(s: Schedule, lastRun: nat, linkedTerminate: nat, runtime: nat, x: Inputs)
    requires WellFormed(s) && Separated(s) && ShouldStart(s, lastRun, linkedTerminate, x)
    ensures ShouldTerminate(s, runtime, x) <==>
      (s.timeout != 0 && runtime >= s.timeout) || Eval(s.statesTerminate, x.states, false)
  {
  }
}
