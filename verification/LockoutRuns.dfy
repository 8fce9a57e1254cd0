/** Sequential authentication attempts, and runs of the whole lockout table with cleanup. */
module LockoutRuns {
  import opened Basics
  import opened Clock
  import opened Lockout

  /** A failing attempt reads the clock at its blocked check and again when it records; ticks sweep. */
  datatype Event = Attempt(gate: int, now: int) | Tick(now: int)

  /** The entry, the failures recorded so far and the counting windows opened so far. */
  datatype Tally = Tally(slot: Slot, recorded: nat, windows: nat)

  ghost function Advance(y: Tally, p: Policy, e: Event): Tally {
    match e
    case Attempt(gate, now) =>
      if InForce(y.slot, gate) then y
      else Tally(Fail(y.slot, false, p, now).slot, y.recorded + 1,
                 if OpensWindow(y.slot, p, now) then y.windows + 1 else y.windows)
    case Tick(now) => y.(slot := Sweep(y.slot, now))
  }

  ghost function Replay(p: Policy, es: seq<Event>): Tally {
    if es == [] then Tally(None, 0, 0)
    else Advance(Replay(p, es[..|es| - 1]), p, es[|es| - 1])
  }

  /** One attempt after another on a clock that never steps back. */
  ghost predicate Sequential(es: seq<Event>) {
    && (forall i :: 0 <= i < |es| && es[i].Attempt? ==> es[i].gate <= es[i].now)
    && (forall i, j :: 0 <= i < j < |es| ==> es[i].now <= if es[j].Attempt? then es[j].gate else es[j].now)
  }

  ghost function StartOf(e: Event): int {
    if e.Attempt? then e.gate else e.now
  }

  /** Windows are at least a window length apart and hold at most `max` failures each. */
  ghost predicate Spaced(y: Tally, p: Policy, start: int, now: int) {
    && y.recorded <= Times(y.windows, p.max)
    && (y.windows == 0 ==> y.slot.None?)
    && (y.windows > 0 && y.slot.None? ==> start + Times(y.windows, p.window) <= now)
    && (y.slot.Some? ==>
          var e := y.slot.value;
          && start + Times(y.windows - 1, p.window) <= e.firstFailure <= now
          && (e.blockedUntil.None? ==>
                e.failures < p.max && y.recorded <= Times(y.windows - 1, p.max) + e.failures)
          && (e.blockedUntil.Some? ==> e.firstFailure + p.window <= e.blockedUntil.value))
  }

  lemma SpacedAdvances(y: Tally, p: Policy, e: Event, start: int, before: int)
    requires 1 <= p.max <= U32_MAX && p.window <= p.lockout && p.window < STALE_AFTER
    requires Spaced(y, p, start, before)
    requires start <= before <= StartOf(e) <= e.now
    ensures Spaced(Advance(y, p, e), p, start, e.now)
  {
    if e.Attempt? && !InForce(y.slot, e.gate) && OpensWindow(y.slot, p, e.now) && y.slot.Some? {
      assert y.slot.value.firstFailure + p.window <= e.now;
    }
  }

  lemma {:induction false} RunSpaced(p: Policy, es: seq<Event>)
    requires 1 <= p.max <= U32_MAX && p.window <= p.lockout && p.window < STALE_AFTER
    requires Sequential(es) && es != []
    ensures Spaced(Replay(p, es), p, StartOf(es[0]), es[|es| - 1].now)
  {
    var n := |es| - 1;
    if n == 0 {
      assert Replay(p, es[..0]) == Tally(None, 0, 0);
      SpacedAdvances(Tally(None, 0, 0), p, es[0], StartOf(es[0]), StartOf(es[0]));
    } else {
      RunSpaced(p, es[..n]);
      SpacedAdvances(Replay(p, es[..n]), p, es[n], StartOf(es[0]), es[n - 1].now);
    }
  }

  lemma QuotientBound(k: nat, w: nat, t: int)
    requires w > 0 && k * w <= t
    ensures k <= t / w
  {
    var q := t / w;
    assert k * w <= t < q * w + w;
    assert (q + 1 - k) * w > 0;
  }

  lemma ProductMonotone(x: nat, a: nat, b: nat)
    requires a <= b
    ensures a * x <= x * b
  {
    assert (b - a) * x >= 0;
  }

  /** Windows of `max` at least `window` apart: the arithmetic of the bound. */
  lemma WindowsFit(recorded: nat, windows: nat, max: nat, window: nat, duration: nat)
    requires window > 0
    requires recorded <= windows * max
    requires windows > 0 ==> (windows - 1) * window <= duration
    ensures recorded <= max * (duration / window + 1)
  {
    if windows == 0 {
      ProductMonotone(max, 0, duration / window + 1);
    } else {
      QuotientBound(windows - 1, window, duration);
      ProductMonotone(max, windows, duration / window + 1);
    }
  }

  /**
   From an untracked address below the table cap, sequential attempts of total duration T with
   no success record at most max * (T / window + 1) failures, whatever cleanup does.
   */
  lemma SequentialFailuresBounded(p: Policy, es: seq<Event>)
    requires 1 <= p.max <= U32_MAX && 0 < p.window <= p.lockout && p.window < STALE_AFTER
    requires Sequential(es) && es != []
    ensures var duration := es[|es| - 1].now - StartOf(es[0]);
            Replay(p, es).recorded <= p.max * (duration / p.window + 1)
  {
    RunSpaced(p, es);
    var y, start, now := Replay(p, es), StartOf(es[0]), es[|es| - 1].now;
    RunTakesTime(p, es);
    TimesIsProduct(y.windows, p.max);
    if y.windows > 0 {
      SpacedFits(y, p, start, now);
      TimesIsProduct(y.windows - 1, p.window);
    }
    WindowsFit(y.recorded, y.windows, p.max, p.window, now - start);
  }

  lemma RunTakesTime(p: Policy, es: seq<Event>)
    requires Sequential(es) && es != []
    ensures StartOf(es[0]) <= es[|es| - 1].now
  {
  }

  lemma SpacedFits(y: Tally, p: Policy, start: int, now: int)
    requires Spaced(y, p, start, now) && y.windows > 0
    ensures start + Times(y.windows - 1, p.window) <= now
  {
  }

  /** At most 10 recorded failures per started minute under the shipped policy. */
  lemma TenPerStartedMinute(es: seq<Event>)
    requires Sequential(es) && es != []
    ensures var duration := es[|es| - 1].now - StartOf(es[0]);
            Replay(AUTH_POLICY, es).recorded <= 10 * (duration / (60 * NANOS) + 1)
  {
    SequentialFailuresBounded(AUTH_POLICY, es);
  }

  /** The table's operations as the server calls them. */
  datatype Op =
    | IsBlocked(key: string, now: int)
    | RecordFailure(key: string, policy: Policy, now: int)
    | RecordSuccess(key: string, now: int)
    | Cleanup(now: int)

  ghost function Perform(t: Table, op: Op, sweeping: bool): (Table, bool) {
    match op
    case IsBlocked(key, now) => (t, InForce(Lookup(t, key), now))
    case RecordFailure(key, p, now) => FailTable(t, key, p, now)
    case RecordSuccess(key, _) => (t - {key}, true)
    case Cleanup(now) => (if sweeping then SweepTable(t, now) else t, true)
  }

  ghost function Run(t: Table, ops: seq<Op>, sweeping: bool): Table {
    if ops == [] then t
    else Perform(Run(t, ops[..|ops| - 1], sweeping), ops[|ops| - 1], sweeping).0
  }

  ghost function AnswerAt(t: Table, ops: seq<Op>, i: nat, sweeping: bool): bool
    requires i < |ops|
  {
    Perform(Run(t, ops[..i], sweeping), ops[i], sweeping).1
  }

  /** An entry that no longer matters at `now`, for windows shorter than the staleness bound. */
  ghost predicate Expired(e: Entry, now: int) {
    match e.blockedUntil
    case Some(until) => until <= now
    case None => Since(now, e.firstFailure) >= STALE_AFTER
  }

  ghost predicate Similar(swept: Slot, kept: Slot, now: int) {
    swept == kept || (swept.None? && kept.Some? && Expired(kept.value, now))
  }

  /** Readings never step back, windows are shorter than the staleness bound, the table has room. */
  ghost predicate Ordinary(t: Table, ops: seq<Op>) {
    && (forall i, j :: 0 <= i <= j < |ops| ==> ops[i].now <= ops[j].now)
    && (forall i :: 0 <= i < |ops| && ops[i].RecordFailure? ==> ops[i].policy.window < STALE_AFTER)
    && (forall i :: 0 <= i <= |ops| ==> |Run(t, ops[..i], false)| < MAX_AUTH_LIMITER_KEYS)
  }

  lemma OrdinaryPrefix(t: Table, ops: seq<Op>, n: nat)
    requires n <= |ops| && Ordinary(t, ops)
    ensures Ordinary(t, ops[..n])
  {
    assert forall i :: 0 <= i <= n ==> ops[..n][..i] == ops[..i];
  }

  /** One recorded failure on similar slots. */
  lemma SimilarFail(swept: Slot, kept: Slot, p: Policy, before: int, now: int)
    requires before <= now && p.window < STALE_AFTER
    requires Similar(swept, kept, before)
    ensures Fail(swept, false, p, now) == Fail(kept, false, p, now)
  {
  }

  lemma SimilarLater(swept: Slot, kept: Slot, before: int, now: int)
    requires before <= now
    requires Similar(swept, kept, before)
    ensures Similar(swept, kept, now) && InForce(swept, now) == InForce(kept, now)
    ensures Similar(Sweep(swept, now), kept, now)
  {
  }

  lemma StepSimilar(swept: Table, kept: Table, op: Op, before: int, k: string)
    requires before <= op.now
    requires op.RecordFailure? ==> op.policy.window < STALE_AFTER && !Full(swept) && !Full(kept)
    requires Similar(Lookup(swept, k), Lookup(kept, k), before)
    ensures Similar(Lookup(Perform(swept, op, true).0, k), Lookup(Perform(kept, op, false).0, k), op.now)
    ensures !op.Cleanup? && op.key == k ==> Perform(swept, op, true).1 == Perform(kept, op, false).1
  {
    SimilarLater(Lookup(swept, k), Lookup(kept, k), before, op.now);
    match op {
      case RecordFailure(key, p, now) =>
        StoreFrame(swept, key, Fail(Lookup(swept, key), false, p, now).slot);
        StoreFrame(kept, key, Fail(Lookup(kept, key), false, p, now).slot);
        if key == k {
          SimilarFail(Lookup(swept, k), Lookup(kept, k), p, before, now);
        }
      case Cleanup(now) =>
        assert Lookup(SweepTable(swept, now), k) == Sweep(Lookup(swept, k), now);
      case _ =>
    }
  }

  lemma {:induction false} TablesStaySimilar(t: Table, ops: seq<Op>, start: int)
    requires Ordinary(t, ops)
    requires ops != [] ==> start <= ops[0].now
    ensures forall k :: Similar(Lookup(Run(t, ops, true), k), Lookup(Run(t, ops, false), k),
                                if ops == [] then start else ops[|ops| - 1].now)
    ensures !Full(Run(t, ops, true)) && !Full(Run(t, ops, false))
  {
    var now := if ops == [] then start else ops[|ops| - 1].now;
    if ops != [] {
      var n := |ops| - 1;
      OrdinaryPrefix(t, ops, n);
      TablesStaySimilar(t, ops[..n], start);
      forall k
        ensures Similar(Lookup(Run(t, ops, true), k), Lookup(Run(t, ops, false), k), now)
      {
        StepSimilar(Run(t, ops[..n], true), Run(t, ops[..n], false), ops[n],
                    if n == 0 then start else ops[n - 1].now, k);
      }
    }
    var a, b := Run(t, ops, true), Run(t, ops, false);
    assert ops[..|ops|] == ops;
    forall k | k in a.Keys ensures k in b.Keys {
      assert Similar(Lookup(a, k), Lookup(b, k), now);
    }
    SubtableSize(a, b);
  }

  /** Cleanup cannot be observed through any operation of the lockout table. */
  lemma CleanupInvisible(t: Table, ops: seq<Op>)
    requires Ordinary(t, ops)
    ensures forall i :: 0 <= i < |ops| ==> AnswerAt(t, ops, i, true) == AnswerAt(t, ops, i, false)
  {
    forall i | 0 <= i < |ops|
      ensures AnswerAt(t, ops, i, true) == AnswerAt(t, ops, i, false)
    {
      OrdinaryPrefix(t, ops, i);
      TablesStaySimilar(t, ops[..i], ops[0].now);
      if !ops[i].Cleanup? {
        StepSimilar(Run(t, ops[..i], true), Run(t, ops[..i], false), ops[i],
                    if i == 0 then ops[0].now else ops[i - 1].now, ops[i].key);
      }
    }
  }

  /**
   Exactly when dropping a stale entry changes what the next failure does: the window is still
   open, which the staleness bound rules out only for windows below 600 seconds.
   */
  lemma CleanupVisibleIff(e: Entry, p: Policy, tick: int, now: int)
    requires e.blockedUntil.None? && e.failures >= 1 && tick <= now
    requires !Kept(e, tick)
    ensures Fail(None, false, p, now) != Fail(Some(e), false, p, now) <==> Since(now, e.firstFailure) <= p.window
    ensures p.window < STALE_AFTER ==> Fail(None, false, p, now) == Fail(Some(e), false, p, now)
  {
  }
}
