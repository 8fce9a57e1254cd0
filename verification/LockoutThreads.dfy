/**
 Many requests authenticating at once. The blocked check, the failure counter, the recording
 and the lockout counter are separate steps that other requests may interleave with.
 */
module LockoutThreads {
  import opened Basics
  import opened Lockout

  /**
   `passed` holds the address of each attempt that got past the blocked check, `counted` of each
   that has bumped the failure counter but not yet recorded; `owed` counts lockouts whose counter
   bump is still to come. Attempts at the same point for the same address are interchangeable.
   */
  datatype State = State(
    table: Table, clock: int, failuresTotal: nat, lockoutsTotal: nat,
    passed: multiset<string>, counted: multiset<string>, owed: nat)

  datatype Step =
    | Gate(key: string, now: int)
    | Count(key: string)
    | Record(key: string, now: int)
    | BumpLockouts
    | Succeed(key: string)
    | Leave(key: string)
    | Tick(now: int)

  ghost predicate Enabled(s: State, step: Step) {
    match step
    case Gate(_, now) => s.clock <= now
    case Count(key) => key in s.passed
    case Record(key, now) => key in s.counted && s.clock <= now
    case BumpLockouts => s.owed > 0
    case Succeed(key) => key in s.passed
    case Leave(key) => key in s.passed
    case Tick(now) => s.clock <= now
  }

  ghost function Do(s: State, p: Policy, step: Step): State
    requires Enabled(s, step)
  {
    match step
    case Gate(key, now) =>
      s.(clock := now, passed := if InForce(Lookup(s.table, key), now) then s.passed else s.passed + multiset{key})
    case Count(key) =>
      s.(failuresTotal := s.failuresTotal + 1,
         passed := s.passed - multiset{key}, counted := s.counted + multiset{key})
    case Record(key, now) =>
      var r := FailTable(s.table, key, p, now);
      s.(clock := now, table := r.0, counted := s.counted - multiset{key},
         owed := if r.1 then s.owed + 1 else s.owed)
    case BumpLockouts => s.(lockoutsTotal := s.lockoutsTotal + 1, owed := s.owed - 1)
    case Succeed(key) => s.(table := s.table - {key}, passed := s.passed - multiset{key})
    case Leave(key) => s.(passed := s.passed - multiset{key})
    case Tick(now) => s.(clock := now, table := SweepTable(s.table, now))
  }

  /** `states` is a run of `steps`: one state before each step and one at the end. */
  ghost predicate Runs(states: seq<State>, p: Policy, steps: seq<Step>) {
    && |states| == |steps| + 1
    && forall i :: 0 <= i < |steps| ==> Enabled(states[i], steps[i]) && states[i + 1] == Do(states[i], p, steps[i])
  }

  /** A run is a shorter run and one more step. */
  lemma RunsBefore(states: seq<State>, p: Policy, steps: seq<Step>)
    requires Runs(states, p, steps) && steps != []
    ensures var n := |steps| - 1;
            && Runs(states[..n + 1], p, steps[..n]) && states[..n + 1][0] == states[0] && states[..n + 1][n] == states[n]
            && Enabled(states[n], steps[n]) && states[n + 1] == Do(states[n], p, steps[n])
  {
  }

  ghost function Initial(clock: int): State {
    State(map[], clock, 0, 0, multiset{}, multiset{}, 0)
  }

  /** Failures an entry has counted towards a lockout that has not come yet. */
  ghost function OpenFailures(e: Entry): nat {
    if e.blockedUntil.None? then e.failures else 0
  }

  ghost function Open(slot: Slot): nat {
    if slot.Some? then OpenFailures(slot.value) else 0
  }

  ghost function SumOpen(t: Table): nat {
    SumOver(t, OpenFailures)
  }

  lemma SumOpenStore(t: Table, k: string, slot: Slot)
    ensures SumOpen(Store(t, k, slot)) + Open(Lookup(t, k)) == SumOpen(t) + Open(slot)
  {
    var t' := Store(t, k, slot);
    if k in t {
      SumSplits(t, OpenFailures, k);
    } else {
      assert t - {k} == t;
    }
    if k in t' {
      SumSplits(t', OpenFailures, k);
    } else {
      assert t' - {k} == t';
    }
    assert t' - {k} == t - {k};
  }

  lemma {:induction false} SumOpenShrinks(t: Table, t': Table)
    requires forall k :: k in t' ==> k in t && t'[k] == t[k]
    ensures SumOpen(t') <= SumOpen(t)
    decreases |t|
  {
    if t' == map[] {
      return;
    }
    var k :| k in t';
    SumSplits(t, OpenFailures, k);
    SumSplits(t', OpenFailures, k);
    SumOpenShrinks(t - {k}, t' - {k});
  }

  /** Every lockout is paid for by `max` counted failures, and no open entry has reached `max`. */
  ghost predicate Conserved(s: State, p: Policy) {
    && Times(s.lockoutsTotal + s.owed, p.max) + SumOpen(s.table) + |s.counted| <= s.failuresTotal
    && OpenBelowMax(s.table, p)
  }

  ghost predicate OpenBelowMax(t: Table, p: Policy) {
    forall k :: k in t && t[k].blockedUntil.None? ==> 1 <= t[k].failures < p.max
  }

  /** What one recording adds: at most one failure, or `max - 1` given back for a lockout. */
  lemma FailPays(slot: Slot, full: bool, p: Policy, now: int)
    requires 1 <= p.max <= U32_MAX
    requires slot.Some? && slot.value.blockedUntil.None? ==> 1 <= slot.value.failures < p.max
    ensures var r := Fail(slot, full, p, now);
            && Open(r.slot) + (if r.lockedOut then p.max else 0) <= Open(slot) + 1
            && (r.slot.Some? && r.slot.value.blockedUntil.None? ==> 1 <= r.slot.value.failures < p.max)
  {
  }

  lemma RecordKeepsBelowMax(t: Table, p: Policy, key: string, now: int)
    requires 1 <= p.max <= U32_MAX
    requires OpenBelowMax(t, p)
    ensures OpenBelowMax(FailTable(t, key, p, now).0, p)
  {
    FailPays(Lookup(t, key), Full(t), p, now);
  }

  lemma RecordPays(t: Table, p: Policy, key: string, now: int)
    requires 1 <= p.max <= U32_MAX
    requires OpenBelowMax(t, p)
    ensures var r := FailTable(t, key, p, now);
            SumOpen(r.0) + (if r.1 then p.max else 0) <= SumOpen(t) + 1
  {
    var slot := Lookup(t, key);
    FailPays(slot, Full(t), p, now);
    SumOpenStore(t, key, Fail(slot, Full(t), p, now).slot);
  }

  lemma TakeOne(m: multiset<string>, key: string)
    requires key in m
    ensures |m - multiset{key}| == |m| - 1
  {
  }

  lemma RecordedBalance(s: State, p: Policy, key: string, now: int, table: Table, lockedOut: bool)
    requires Conserved(s, p) && key in s.counted
    requires OpenBelowMax(table, p)
    requires SumOpen(table) + (if lockedOut then p.max else 0) <= SumOpen(s.table) + 1
    ensures Conserved(s.(clock := now, table := table, counted := s.counted - multiset{key},
                         owed := if lockedOut then s.owed + 1 else s.owed), p)
  {
    TakeOne(s.counted, key);
  }

  lemma RecordConserves(s: State, p: Policy, key: string, now: int)
    requires 1 <= p.max <= U32_MAX
    requires Enabled(s, Record(key, now)) && Conserved(s, p)
    ensures Conserved(Do(s, p, Record(key, now)), p)
  {
    RecordKeepsBelowMax(s.table, p, key, now);
    RecordPays(s.table, p, key, now);
    var (table, lockedOut) := FailTable(s.table, key, p, now);
    RecordedBalance(s, p, key, now, table, lockedOut);
  }

  lemma StepConserves(s: State, p: Policy, step: Step)
    requires 1 <= p.max <= U32_MAX
    requires Enabled(s, step) && Conserved(s, p)
    ensures Conserved(Do(s, p, step), p)
  {
    match step {
      case Record(key, now) =>
        RecordConserves(s, p, key, now);
      case Count(key) =>
        assert |s.counted + multiset{key}| == |s.counted| + 1;
      case BumpLockouts =>
        assert s.lockoutsTotal + 1 + (s.owed - 1) == s.lockoutsTotal + s.owed;
      case Succeed(key) =>
        SumOpenShrinks(s.table, s.table - {key});
      case Tick(now) =>
        SumOpenShrinks(s.table, SweepTable(s.table, now));
      case _ =>
    }
  }

  lemma {:induction false} RunConserves(states: seq<State>, p: Policy, steps: seq<Step>)
    requires 1 <= p.max <= U32_MAX
    requires Runs(states, p, steps) && states[0] == Initial(states[0].clock)
    ensures Conserved(states[|steps|], p)
  {
    if steps != [] {
      var n := |steps| - 1;
      RunsBefore(states, p, steps);
      RunConserves(states[..n + 1], p, steps[..n]);
      StepConserves(states[n], p, steps[n]);
    }
  }

  /** Lockout conservation in every state of every interleaving. */
  lemma LockoutsConserved(states: seq<State>, p: Policy, steps: seq<Step>)
    requires 1 <= p.max <= U32_MAX
    requires Runs(states, p, steps) && states[0] == Initial(states[0].clock)
    ensures var s := states[|steps|];
            && p.max * (s.lockoutsTotal + s.owed) + SumOpen(s.table) + |s.counted| <= s.failuresTotal
            && OpenBelowMax(s.table, p)
  {
    RunConserves(states, p, steps);
    var lockouts := states[|steps|].lockoutsTotal + states[|steps|].owed;
    TimesIsProduct(lockouts, p.max);
    assert lockouts * p.max == p.max * lockouts;
  }

  /** Recordings for a key among the steps. */
  ghost function Recordings(steps: seq<Step>, key: string): nat {
    if steps == [] then 0
    else Recordings(steps[..|steps| - 1], key)
         + if steps[|steps| - 1].Record? && steps[|steps| - 1].key == key then 1 else 0
  }

  ghost predicate LockedUntil(s: State, key: string, until: int) {
    key in s.table && s.table[key].blockedUntil == Some(until)
  }

  /** Attempts for a key that may still record a failure. */
  ghost function Pending(s: State, key: string): nat {
    s.passed[key] + s.counted[key]
  }

  /** One step under a lockout: the deadline stays, and only attempts already pending record. */
  lemma StepUnderLockout(s: State, p: Policy, step: Step, key: string, until: int)
    requires Enabled(s, step)
    requires LockedUntil(s, key, until)
    requires Do(s, p, step).clock < until
    requires step != Succeed(key)
    ensures LockedUntil(Do(s, p, step), key, until)
    ensures Pending(Do(s, p, step), key) + (if step.Record? && step.key == key then 1 else 0) <= Pending(s, key)
  {
    if step.Record? {
      StoreFrame(s.table, step.key, Fail(Lookup(s.table, step.key), Full(s.table), p, step.now).slot);
    }
  }

  /**
   While a lockout is in force and its address has no success, its deadline neither moves nor
   disappears, and the failures recorded meanwhile are no more than the attempts that were
   already past the blocked check when it was set.
   */
  lemma {:induction false} LockoutHolds(states: seq<State>, p: Policy, steps: seq<Step>, key: string, until: int)
    requires Runs(states, p, steps)
    requires LockedUntil(states[0], key, until)
    requires states[|steps|].clock < until
    requires Succeed(key) !in steps
    ensures LockedUntil(states[|steps|], key, until)
    ensures Recordings(steps, key) + Pending(states[|steps|], key) <= Pending(states[0], key)
  {
    if steps != [] {
      var n := |steps| - 1;
      RunsBefore(states, p, steps);
      assert states[n].clock <= states[n + 1].clock;
      LockoutHolds(states[..n + 1], p, steps[..n], key, until);
      StepUnderLockout(states[n], p, steps[n], key, until);
    }
  }

  /** With no attempt in flight, nothing at all is recorded for a locked-out address. */
  lemma QuietLockoutRecordsNothing(states: seq<State>, p: Policy, steps: seq<Step>, key: string, until: int)
    requires Runs(states, p, steps)
    requires LockedUntil(states[0], key, until)
    requires states[|steps|].clock < until
    requires Succeed(key) !in steps
    requires Pending(states[0], key) == 0
    ensures Recordings(steps, key) == 0 && Pending(states[|steps|], key) == 0
  {
    LockoutHolds(states, p, steps, key, until);
  }

  /** How many steps count a failure, and how many count a lockout. */
  ghost function FailureCounts(steps: seq<Step>): nat {
    if steps == [] then 0
    else FailureCounts(steps[..|steps| - 1]) + if steps[|steps| - 1].Count? then 1 else 0
  }

  ghost function LockoutBumps(steps: seq<Step>): nat {
    if steps == [] then 0
    else LockoutBumps(steps[..|steps| - 1]) + if steps[|steps| - 1].BumpLockouts? then 1 else 0
  }

  /** The two counters show exactly those steps. */
  lemma {:induction false} CountersCountSteps(states: seq<State>, p: Policy, steps: seq<Step>)
    requires Runs(states, p, steps) && states[0] == Initial(states[0].clock)
    ensures states[|steps|].failuresTotal == FailureCounts(steps)
    ensures states[|steps|].lockoutsTotal == LockoutBumps(steps)
  {
    if steps != [] {
      RunsBefore(states, p, steps);
      CountersCountSteps(states[..|steps|], p, steps[..|steps| - 1]);
    }
  }
}
