/** Runs of the whole bucket table: calls for any keys and cleanup ticks, in lock order. */
module RateRuns {
  import opened Basics
  import opened TokenBucket
  import RateBound

  datatype Event = Check(key: string, limits: Limits, now: int) | Tick(now: int)

  /** One event; with `sweeping` off, ticks do nothing. */
  ghost function Apply(t: Table, e: Event, sweeping: bool): (Table, bool) {
    match e
    case Check(key, l, now) => CheckTable(t, key, l, now)
    case Tick(now) => (if sweeping then SweepTable(t, now) else t, true)
  }

  ghost function Run(t: Table, es: seq<Event>, sweeping: bool): Table {
    if es == [] then t
    else Apply(Run(t, es[..|es| - 1], sweeping), es[|es| - 1], sweeping).0
  }

  /** The answer that the call at position `i` of the run gets. */
  ghost function AnswerAt(t: Table, es: seq<Event>, i: nat, sweeping: bool): bool
    requires i < |es|
  {
    Apply(Run(t, es[..i], sweeping), es[i], sweeping).1
  }

  /** How many calls for a key the run lets through. */
  ghost function Allowed(t: Table, es: seq<Event>, key: string): nat {
    if es == [] then 0
    else
      var n := |es| - 1;
      Allowed(t, es[..n], key)
      + if es[n].Check? && es[n].key == key && AnswerAt(t, es, n, true) then 1 else 0
  }

  /** The run as one key sees it. */
  ghost function Project(t: Table, es: seq<Event>, key: string): seq<RateBound.Event> {
    if es == [] then []
    else
      var n := |es| - 1;
      var before := Project(t, es[..n], key);
      match es[n]
      case Check(k, _, now) =>
        if k == key then before + [RateBound.Call(now, Full(Run(t, es[..n], true)))] else before
      case Tick(now) => before + [RateBound.Tick(now)]
  }

  ghost predicate LimitedBy(es: seq<Event>, key: string, l: Limits) {
    forall i :: 0 <= i < |es| && es[i].Check? && es[i].key == key ==> es[i].limits == l
  }

  /** Keys do not disturb each other: a key's slot and allowances depend on its own view only. */
  lemma {:induction false} ProjectionFaithful(t: Table, es: seq<Event>, key: string, l: Limits)
    requires LimitedBy(es, key, l)
    ensures var g := RateBound.Replay(l, Lookup(t, key), Project(t, es, key));
            && Lookup(Run(t, es, true), key) == g.slot
            && Allowed(t, es, key) == g.allowed
  {
    if es != [] {
      var n := |es| - 1;
      var e, prior := es[n], es[..n];
      ProjectionFaithful(t, prior, key, l);
      var view, view' := Project(t, prior, key), Project(t, es, key);
      if view' != view {
        assert view'[..|view' | - 1] == view;
      }
      if e.Check? {
        var before := Run(t, prior, true);
        StoreFrame(before, e.key, Next(Lookup(before, e.key), Full(before), e.limits, e.now).slot);
      }
    }
  }

  /** The rate bound for one key over any stretch of a table that all clients share. */
  lemma SharedTableRateBound(t: Table, es: seq<Event>, key: string, l: Limits)
    requires SettledTable(t)
    requires l.requests >= 1
    requires LimitedBy(es, key, l)
    ensures var view := Project(t, es, key);
            RateBound.WithinBound(l, view, Allowed(t, es, key), RateBound.Replay(l, Lookup(t, key), view).resets)
  {
    ProjectionFaithful(t, es, key, l);
    RateBound.AllowedCallsBounded(l, Lookup(t, key), Project(t, es, key));
  }

  ghost predicate SettledTable(t: Table) {
    forall k :: k in t ==> Settled(t[k])
  }

  lemma ApplySettles(t: Table, e: Event, sweeping: bool)
    requires SettledTable(t)
    ensures SettledTable(Apply(t, e, sweeping).0)
  {
    if e.Check? {
      var slot := Lookup(t, e.key);
      NextSettles(slot, Full(t), e.limits, e.now);
    }
  }

  lemma {:induction false} RunSettles(t: Table, es: seq<Event>, sweeping: bool)
    requires SettledTable(t)
    ensures SettledTable(Run(t, es, sweeping))
  {
    if es != [] {
      RunSettles(t, es[..|es| - 1], sweeping);
      ApplySettles(Run(t, es[..|es| - 1], sweeping), es[|es| - 1], sweeping);
    }
  }
}
