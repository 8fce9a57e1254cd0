/** One address's lockout state against the history of failures recorded for it. */
module LockoutHistory {
  import opened Basics
  import opened Clock
  import opened Lockout

  /** What can happen to one address's entry, in lock order. */
  datatype Event = Failure(now: int, full: bool) | Success(now: int) | Tick(now: int)

  /** The entry, the times of the failures recorded since the last success, and the lockouts since then. */
  datatype View = View(slot: Slot, history: seq<int>, lockouts: nat)

  ghost function Advance(v: View, p: Policy, e: Event): View {
    match e
    case Failure(now, full) =>
      if v.slot.None? && full then v
      else
        var r := Fail(v.slot, full, p, now);
        View(r.slot, v.history + [now], if r.lockedOut then v.lockouts + 1 else v.lockouts)
    case Success(now) => View(None, [], 0)
    case Tick(now) => v.(slot := Sweep(v.slot, now))
  }

  ghost function Replay(p: Policy, es: seq<Event>): View {
    if es == [] then View(None, [], 0)
    else Advance(Replay(p, es[..|es| - 1]), p, es[|es| - 1])
  }

  ghost predicate Ordered(es: seq<Event>) {
    forall i, j :: 0 <= i <= j < |es| ==> es[i].now <= es[j].now
  }

  ghost predicate Ascending(h: seq<int>) {
    forall i, j :: 0 <= i <= j < |h| ==> h[i] <= h[j]
  }

  /** Failures i..i+max-1 fall within one window, and the lockout runs from the last of them. */
  ghost predicate Trips(h: seq<int>, p: Policy, i: nat, until: int) {
    && p.max >= 1
    && i + p.max <= |h|
    && h[i + p.max - 1] - h[i] <= p.window
    && until == h[i + p.max - 1] + p.lockout
  }

  ghost predicate Justified(h: seq<int>, p: Policy, until: int) {
    exists i: nat :: Trips(h, p, i, until)
  }

  ghost predicate Explained(v: View, p: Policy, now: int) {
    && Ascending(v.history)
    && (forall t :: t in v.history ==> t <= now)
    && (v.slot.Some? ==>
          var e := v.slot.value;
          && (e.blockedUntil.Some? ==> Justified(v.history, p, e.blockedUntil.value))
          && (e.blockedUntil.None? ==>
                && 1 <= e.failures < p.max
                && e.failures <= |v.history|
                && e.firstFailure == v.history[|v.history| - e.failures]
                && v.history[|v.history| - 1] - e.firstFailure <= p.window))
  }

  lemma JustifiedExtends(h: seq<int>, p: Policy, until: int, t: int)
    requires Justified(h, p, until)
    ensures Justified(h + [t], p, until)
  {
    var i: nat :| Trips(h, p, i, until);
    assert Trips(h + [t], p, i, until);
  }

  lemma ExplainedAdvances(v: View, p: Policy, e: Event, before: int)
    requires 1 <= p.max <= U32_MAX
    requires Explained(v, p, before) && before <= e.now
    ensures Explained(Advance(v, p, e), p, e.now)
  {
    if e.Failure? && !(v.slot.None? && e.full) {
      var h := v.history + [e.now];
      var r := Fail(v.slot, e.full, p, e.now);
      forall i | 0 <= i < |v.history| ensures v.history[i] <= e.now {
        assert v.history[i] in v.history;
      }
      if InForce(v.slot, e.now) {
        JustifiedExtends(v.history, p, v.slot.value.blockedUntil.value, e.now);
      } else if r.lockedOut {
        assert Trips(h, p, |h| - p.max, e.now + p.lockout);
      }
    }
  }

  lemma {:induction false} RunExplained(p: Policy, es: seq<Event>)
    requires 1 <= p.max <= U32_MAX
    requires Ordered(es)
    ensures es != [] ==> Explained(Replay(p, es), p, es[|es| - 1].now)
  {
    if es != [] {
      var n := |es| - 1;
      RunExplained(p, es[..n]);
      ExplainedAdvances(Replay(p, es[..n]), p, es[n], if n == 0 then es[n].now else es[n - 1].now);
    }
  }

  /** Failures i..i+max-1 fall within one window, the last of them less than the lockout ago. */
  ghost predicate RecentBurst(h: seq<int>, p: Policy, i: nat, now: int) {
    && 1 <= p.max <= |h| - i
    && h[i + p.max - 1] - h[i] <= p.window
    && now - h[i + p.max - 1] < p.lockout
  }

  /**
   A lockout is never unfounded: an address is blocked at `now` only if `max` failures since
   its last success fell within one window and the last of them is less than the lockout ago.
   */
  lemma BlockedOnlyAfterBurst(p: Policy, es: seq<Event>, now: int)
    requires 1 <= p.max <= U32_MAX
    requires Ordered(es)
    requires InForce(Replay(p, es).slot, now)
    ensures exists i: nat :: RecentBurst(Replay(p, es).history, p, i, now)
  {
    RunExplained(p, es);
    var v := Replay(p, es);
    var i: nat :| Trips(v.history, p, i, v.slot.value.blockedUntil.value);
    assert RecentBurst(v.history, p, i, now);
  }

  /** The failures i..j lie within one window-length stretch of time. */
  ghost predicate Close(h: seq<int>, p: Policy, i: int, j: int) {
    0 <= i <= j < |h| && h[j] - h[i] <= p.window
  }

  /** Window `s` of the history follows an earlier, shorter-than-max window that had run out by `t`. */
  ghost predicate Follows(h: seq<int>, p: Policy, s: nat, t: int) {
    s == 0 || exists s' :: 0 <= s' < s <= |h| && s - s' < p.max && h[s'] + p.window < t
  }

  ghost predicate Untripped(v: View, p: Policy, now: int) {
    && Explained(v, p, now)
    && v.lockouts == 0
    && (v.slot.Some? ==>
          && v.slot.value.blockedUntil.None?
          && Follows(v.history, p, |v.history| - v.slot.value.failures, v.slot.value.firstFailure))
    && (v.slot.None? ==> Follows(v.history, p, |v.history|, now))
    && (forall i, j :: Close(v.history, p, i, j) ==> j - i + 1 <= 2 * p.max - 3)
  }

  /** Where the window that a failure at `now` counts in begins in the history. */
  ghost function WindowStart(v: View, p: Policy, now: int): int {
    if OpensWindow(v.slot, p, now) then |v.history| else |v.history| - v.slot.value.failures
  }

  /** The window of a new failure follows the one before it. */
  lemma FailureFollows(v: View, p: Policy, before: int, now: int)
    requires Untripped(v, p, before) && before <= now
    ensures var s := WindowStart(v, p, now);
            && 0 <= s <= |v.history|
            && Follows(v.history, p, s, (v.history + [now])[s])
  {
    var h, s := v.history, WindowStart(v, p, now);
    if v.slot.Some? {
      var first := |h| - v.slot.value.failures;
      if OpensWindow(v.slot, p, now) {
        assert 0 <= first < s <= |h| && s - first < p.max && h[first] + p.window < now;
      }
    } else if s != 0 {
      var s' :| 0 <= s' < s <= |h| && s - s' < p.max && h[s'] + p.window < before;
    }
  }

  lemma LaterReading(h: seq<int>, i: nat, j: nat)
    requires Ascending(h) && i < |h| && j < |h| && h[j] < h[i]
    ensures j < i
  {
  }

  /** A new failure is close to fewer than `max - 1` failures of the window before its own. */
  lemma CloseToNewest(h: seq<int>, p: Policy, s: nat, now: int, i: nat)
    requires Ascending(h + [now]) && i <= |h| && s <= |h|
    requires Follows(h, p, s, (h + [now])[s])
    requires |h| - s + 1 < p.max
    requires now - (h + [now])[i] <= p.window
    ensures |h| - i + 1 <= 2 * p.max - 3
  {
    if i < s {
      var s' :| 0 <= s' < s <= |h| && s - s' < p.max && h[s'] + p.window < (h + [now])[s];
      assert (h + [now])[s] <= (h + [now])[|h|];
      LaterReading(h + [now], i, s');
    }
  }

  lemma FollowsExtends(h: seq<int>, p: Policy, s: nat, t: int, now: int)
    requires Follows(h, p, s, t)
    ensures Follows(h + [now], p, s, t)
  {
    if s != 0 {
      var s' :| 0 <= s' < s <= |h| && s - s' < p.max && h[s'] + p.window < t;
      assert (h + [now])[s'] == h[s'];
    }
  }

  lemma UntrippedFailure(v: View, p: Policy, e: Event, before: int)
    requires 2 <= p.max <= U32_MAX && p.window < STALE_AFTER
    requires Untripped(v, p, before) && before <= e.now
    requires e.Failure? && !(v.slot.None? && e.full)
    requires Advance(v, p, e).lockouts == 0
    ensures Untripped(Advance(v, p, e), p, e.now)
  {
    ExplainedAdvances(v, p, e, before);
    FailureFollows(v, p, before, e.now);
    var h, s := v.history, WindowStart(v, p, e.now);
    var v' := Advance(v, p, e);
    FollowsExtends(h, p, s, (h + [e.now])[s], e.now);
    assert v'.slot.value.failures == |h| + 1 - s;
    forall i, j | Close(v'.history, p, i, j)
      ensures j - i + 1 <= 2 * p.max - 3
    {
      if j < |h| {
        assert Close(h, p, i, j);
      } else {
        CloseToNewest(h, p, s, e.now, i);
      }
    }
  }

  /** A cleanup tick, or a failure that a full table does not record. */
  lemma UntrippedIdle(v: View, p: Policy, e: Event, before: int)
    requires 2 <= p.max <= U32_MAX && p.window < STALE_AFTER
    requires Untripped(v, p, before) && before <= e.now
    requires e.Tick? || (e.Failure? && v.slot.None? && e.full)
    ensures Untripped(Advance(v, p, e), p, e.now)
  {
    ExplainedAdvances(v, p, e, before);
    var h := v.history;
    if v.slot.Some? {
      var first := |h| - v.slot.value.failures;
      assert Advance(v, p, e).slot.None? ==>
        0 <= first < |h| && |h| - first < p.max && h[first] + p.window < e.now;
    } else if |h| > 0 {
      var s' :| 0 <= s' < |h| && |h| - s' < p.max && h[s'] + p.window < before;
      assert h[s'] + p.window < e.now;
    }
  }

  lemma {:induction false} RunUntripped(p: Policy, es: seq<Event>)
    requires 2 <= p.max <= U32_MAX && p.window < STALE_AFTER
    requires Ordered(es)
    ensures es != [] && Replay(p, es).lockouts == 0 ==> Untripped(Replay(p, es), p, es[|es| - 1].now)
  {
    if es != [] {
      var n := |es| - 1;
      var v, e := Replay(p, es[..n]), es[n];
      RunUntripped(p, es[..n]);
      var before := if n == 0 then e.now else es[n - 1].now;
      if Replay(p, es).lockouts == 0 && !e.Success? {
        assert Untripped(v, p, before);
        if e.Failure? && !(v.slot.None? && e.full) {
          UntrippedFailure(v, p, e, before);
        } else {
          UntrippedIdle(v, p, e, before);
        }
      }
    }
  }

  /**
   The window is fixed, not sliding: without a lockout since the last success, one
   window-length stretch of time holds at most 2*max - 3 recorded failures.
   */
  lemma UntrippedWindowCapacity(p: Policy, es: seq<Event>, i: nat, j: nat)
    requires 2 <= p.max <= U32_MAX && p.window < STALE_AFTER
    requires Ordered(es)
    requires Replay(p, es).lockouts == 0
    requires i <= j < |Replay(p, es).history|
    requires Replay(p, es).history[j] - Replay(p, es).history[i] <= p.window
    ensures j - i + 1 <= 2 * p.max - 3
  {
    RunUntripped(p, es);
    assert Close(Replay(p, es).history, p, i, j);
  }

  ghost function Burst(n: nat, now: int): (es: seq<Event>)
    ensures |es| == n && forall i :: 0 <= i < n ==> es[i] == Failure(now, false)
  {
    seq(n, i => Failure(now, false))
  }

  /** An entry that can take `n` more failures at `now` without locking out. */
  ghost predicate Takes(slot: Slot, p: Policy, n: nat, now: int) {
    && slot.Some? && slot.value.blockedUntil.None?
    && Since(now, slot.value.firstFailure) <= p.window
    && slot.value.failures + n < p.max
  }

  /** What a burst makes of a view whose entry can take it. */
  ghost function AfterBurst(v: View, n: nat, now: int): View
    requires v.slot.Some?
  {
    View(Some(v.slot.value.(failures := v.slot.value.failures + n)), v.history + seq(n, i => now), v.lockouts)
  }

  lemma TakesOneMore(v: View, p: Policy, n: nat, now: int)
    requires p.max <= U32_MAX && n >= 1 && Takes(v.slot, p, n, now)
    ensures Advance(AfterBurst(v, n - 1, now), p, Failure(now, false)) == AfterBurst(v, n, now)
  {
    assert v.history + seq(n - 1, i => now) + [now] == v.history + seq(n, i => now);
  }

  lemma {:induction false} BurstCounts(p: Policy, es: seq<Event>, n: nat, now: int)
    requires p.max <= U32_MAX && Takes(Replay(p, es).slot, p, n, now)
    ensures Replay(p, es + Burst(n, now)) == AfterBurst(Replay(p, es), n, now)
  {
    var all := es + Burst(n, now);
    if n == 0 {
      assert all == es;
      assert Replay(p, es).history + seq(0, i => now) == Replay(p, es).history;
    } else {
      BurstCounts(p, es, n - 1, now);
      assert all[..|all| - 1] == es + Burst(n - 1, now);
      TakesOneMore(Replay(p, es), p, n, now);
    }
  }

  /** One early failure, then as many as do not lock out just before the window's end. */
  ghost function EarlyBurst(p: Policy): seq<Event>
    requires p.max >= 2
  {
    [Failure(0, false)] + Burst(p.max - 2, p.window)
  }

  lemma EarlyBurstCounts(p: Policy)
    requires 2 <= p.max <= U32_MAX
    ensures Replay(p, EarlyBurst(p)) == View(Some(Entry(p.max - 1, 0, None)), [0] + seq(p.max - 2, i => p.window), 0)
  {
    var start := [Failure(0, false)];
    assert start[..0] == [];
    assert Replay(p, start) == View(Some(Entry(1, 0, None)), [0], 0);
    BurstCounts(p, start, p.max - 2, p.window);
  }

  /** The first failure after the window's end opens a new one. */
  lemma LateFailureOpens(p: Policy)
    requires 2 <= p.max <= U32_MAX
    ensures var late := p.window + 1;
            Replay(p, EarlyBurst(p) + [Failure(late, false)])
              == View(Some(Entry(1, late, None)), [0] + seq(p.max - 2, i => p.window) + [late], 0)
  {
    EarlyBurstCounts(p);
    var turn := EarlyBurst(p) + [Failure(p.window + 1, false)];
    assert turn[..|turn| - 1] == EarlyBurst(p);
  }

  /** The capacity is reached: one early failure, then two bursts on either side of the window's end. */
  lemma WindowCapacityReached(p: Policy) returns (es: seq<Event>)
    requires 2 <= p.max <= U32_MAX
    ensures Ordered(es)
    ensures var v := Replay(p, es);
            && v.lockouts == 0
            && |v.history| == 2 * p.max - 2
            && v.history[2 * p.max - 3] - v.history[1] <= 1
  {
    var late := p.window + 1;
    var turn := EarlyBurst(p) + [Failure(late, false)];
    LateFailureOpens(p);
    BurstCounts(p, turn, p.max - 2, late);
    es := turn + Burst(p.max - 2, late);
  }

  /** With the shipped policy: 18 failures in 60 seconds always lock an address out. */
  lemma EighteenFailuresLockOut(es: seq<Event>, i: nat)
    requires Ordered(es)
    requires i + 18 <= |Replay(AUTH_POLICY, es).history|
    requires Replay(AUTH_POLICY, es).history[i + 17] - Replay(AUTH_POLICY, es).history[i] <= 60 * NANOS
    ensures Replay(AUTH_POLICY, es).lockouts >= 1
  {
    if Replay(AUTH_POLICY, es).lockouts == 0 {
      UntrippedWindowCapacity(AUTH_POLICY, es, i, i + 17);
    }
  }

  /** And 17 failures within one nanosecond of each other need not. */
  lemma SeventeenFailuresMayNot() returns (es: seq<Event>)
    ensures Ordered(es)
    ensures var v := Replay(AUTH_POLICY, es);
            v.lockouts == 0 && |v.history| == 18 && v.history[17] - v.history[1] <= 1
  {
    es := WindowCapacityReached(AUTH_POLICY);
  }
}
