/** What one address sees of many requests authenticating at once, as a history of its own. */
module LockoutViews {
  import opened Basics
  import opened Lockout
  import opened LockoutThreads
  import LockoutHistory

  /** A view and what one more step adds to it. */
  ghost function Extended(view: seq<LockoutHistory.Event>, s: State, step: Step, key: string): seq<LockoutHistory.Event> {
    match step
    case Record(k, now) => if k == key then view + [LockoutHistory.Failure(now, Full(s.table))] else view
    case Succeed(k) => if k == key then view + [LockoutHistory.Success(s.clock)] else view
    case Tick(now) => view + [LockoutHistory.Tick(now)]
    case _ => view
  }

  /** The steps of a run that can touch one address's entry, in lock order. */
  ghost function Project(states: seq<State>, steps: seq<Step>, key: string): seq<LockoutHistory.Event>
    requires |states| == |steps| + 1
  {
    if steps == [] then []
    else
      var n := |steps| - 1;
      Extended(Project(states[..n + 1], steps[..n], key), states[n], steps[n], key)
  }

  ghost function Seen(states: seq<State>, p: Policy, steps: seq<Step>, key: string): LockoutHistory.View
    requires |states| == |steps| + 1
  {
    LockoutHistory.Replay(p, Project(states, steps, key))
  }

  /** The address's view and the shared state agree, and the view is in clock order. */
  ghost predicate Tracks(es: seq<LockoutHistory.Event>, p: Policy, s: State, key: string) {
    && LockoutHistory.Ordered(es)
    && (es != [] ==> es[|es| - 1].now <= s.clock)
    && Lookup(s.table, key) == LockoutHistory.Replay(p, es).slot
    && LockoutHistory.Replay(p, es).lockouts <= s.lockoutsTotal + s.owed
  }

  lemma TracksEvent(es: seq<LockoutHistory.Event>, p: Policy, s: State, key: string, e: LockoutHistory.Event, s': State)
    requires Tracks(es, p, s, key)
    requires s.clock <= e.now <= s'.clock
    requires var v := LockoutHistory.Advance(LockoutHistory.Replay(p, es), p, e);
             Lookup(s'.table, key) == v.slot && v.lockouts <= s'.lockoutsTotal + s'.owed
    ensures Tracks(es + [e], p, s', key)
  {
    assert (es + [e])[..|es|] == es;
  }

  lemma StepTracks(es: seq<LockoutHistory.Event>, p: Policy, s: State, key: string, step: Step)
    requires Tracks(es, p, s, key) && Enabled(s, step)
    ensures Tracks(Extended(es, s, step, key), p, Do(s, p, step), key)
  {
    var s' := Do(s, p, step);
    match step {
      case Record(k, now) => RecordTracks(es, p, s, key, k, now);
      case Succeed(k) =>
        if k == key {
          TracksEvent(es, p, s, key, LockoutHistory.Success(s.clock), s');
        }
      case Tick(now) => TracksEvent(es, p, s, key, LockoutHistory.Tick(now), s');
      case _ =>
    }
  }

  /** A recording, for this address or another. */
  lemma RecordTracks(es: seq<LockoutHistory.Event>, p: Policy, s: State, key: string, k: string, now: int)
    requires Tracks(es, p, s, key) && Enabled(s, Record(k, now))
    ensures Tracks(Extended(es, s, Record(k, now), key), p, Do(s, p, Record(k, now)), key)
  {
    StoreFrame(s.table, k, Fail(Lookup(s.table, k), Full(s.table), p, now).slot);
    if k == key {
      TracksEvent(es, p, s, key, LockoutHistory.Failure(now, Full(s.table)), Do(s, p, Record(k, now)));
    }
  }

  lemma StartTracks(p: Policy, s: State, key: string)
    requires s == Initial(s.clock)
    ensures Tracks([], p, s, key)
  {
  }

  /** In every interleaving, an address's entry is what its own history makes of it. */
  lemma {:induction false} ProjectionFaithful(states: seq<State>, p: Policy, steps: seq<Step>, key: string)
    requires Runs(states, p, steps) && states[0] == Initial(states[0].clock)
    ensures Tracks(Project(states, steps, key), p, states[|steps|], key)
  {
    if steps == [] {
      StartTracks(p, states[0], key);
    } else {
      var n := |steps| - 1;
      RunsBefore(states, p, steps);
      ProjectionFaithful(states[..n + 1], p, steps[..n], key);
      StepTracks(Project(states[..n + 1], steps[..n], key), p, states[n], key, steps[n]);
    }
  }

  /**
   Whatever the interleaving, an attempt is turned away only if `max` failures recorded for its
   address since the last success fell within one window, the last less than the lockout ago.
   */
  lemma TurnedAwayOnlyAfterBurst(states: seq<State>, p: Policy, steps: seq<Step>, key: string, now: int)
    requires 1 <= p.max <= U32_MAX
    requires Runs(states, p, steps) && states[0] == Initial(states[0].clock)
    requires InForce(Lookup(states[|steps|].table, key), now)
    ensures exists i: nat :: LockoutHistory.RecentBurst(Seen(states, p, steps, key).history, p, i, now)
  {
    ProjectionFaithful(states, p, steps, key);
    var es := Project(states, steps, key);
    LockoutHistory.BlockedOnlyAfterBurst(p, es, now);
    var i: nat :| LockoutHistory.RecentBurst(LockoutHistory.Replay(p, es).history, p, i, now);
    assert LockoutHistory.RecentBurst(Seen(states, p, steps, key).history, p, i, now);
  }

  /**
   Whatever the interleaving, once 2*max - 2 failures recorded for an address since its last
   success lie within one window, that address has been locked out since that success, and the
   lockout counter has been bumped or is about to be.
   */
  lemma BurstAlwaysLocksOut(states: seq<State>, p: Policy, steps: seq<Step>, key: string, i: nat)
    requires 2 <= p.max <= U32_MAX && p.window < STALE_AFTER
    requires Runs(states, p, steps) && states[0] == Initial(states[0].clock)
    requires var h := Seen(states, p, steps, key).history;
             i + 2 * p.max - 2 <= |h| && h[i + 2 * p.max - 3] - h[i] <= p.window
    ensures Seen(states, p, steps, key).lockouts >= 1
    ensures states[|steps|].lockoutsTotal + states[|steps|].owed >= 1
  {
    ProjectionFaithful(states, p, steps, key);
    if Seen(states, p, steps, key).lockouts == 0 {
      LockoutHistory.UntrippedWindowCapacity(p, Project(states, steps, key), i, i + 2 * p.max - 3);
    }
  }
}
