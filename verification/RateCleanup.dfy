/** What the periodic cleanup of rate-limit buckets changes, and what it leaves alone. */
module RateCleanup {
  import opened Basics
  import opened TokenBucket
  import opened RateRuns

  /** No call carries a reading older than a cleanup that took the lock before it. */
  ghost predicate FreshReadings(es: seq<Event>) {
    forall i, j :: 0 <= i < j < |es| && es[i].Tick? && es[j].Check? ==> es[i].now <= es[j].now
  }

  /** No tick of the run is later than `now`. */
  ghost predicate TicksBy(es: seq<Event>, now: int) {
    forall i :: 0 <= i < |es| && es[i].Tick? ==> es[i].now <= now
  }

  lemma CallAfterTicks(es: seq<Event>, n: nat)
    requires FreshReadings(es) && n < |es| && es[n].Check?
    ensures TicksBy(es[..n], es[n].now)
  {
    forall i | 0 <= i < n && es[..n][i].Tick? ensures es[..n][i].now <= es[n].now {
      assert es[..n][i] == es[i];
    }
  }

  ghost predicate SweptBy(es: seq<Event>, until: int) {
    exists i :: 0 <= i < |es| && es[i].Tick? && until <= es[i].now
  }

  /** With and without cleanup, a slot is the same, or cleanup dropped a bucket whose penalty was over. */
  ghost predicate Similar(es: seq<Event>, swept: Slot, kept: Slot) {
    || swept == kept
    || (swept.None? && kept.Some? && kept.value.blockedUntil.Some? && SweptBy(es, kept.value.blockedUntil.value))
  }

  lemma SweptByExtends(es: seq<Event>, e: Event, until: int)
    requires SweptBy(es, until)
    ensures SweptBy(es + [e], until)
  {
    var i :| 0 <= i < |es| && es[i].Tick? && until <= es[i].now;
    assert (es + [e])[i] == es[i];
  }

  /** One call on similar slots: the same answer and the same slot afterwards, or still similar ones. */
  lemma SimilarNext(es: seq<Event>, swept: Slot, kept: Slot, l: Limits, now: int)
    requires Similar(es, swept, kept)
    requires TicksBy(es, now)
    ensures Next(swept, false, l, now).allowed == Next(kept, false, l, now).allowed
    ensures Similar(es, Next(swept, false, l, now).slot, Next(kept, false, l, now).slot)
  {
  }

  ghost predicate Below(t: Table, es: seq<Event>) {
    forall i :: 0 <= i <= |es| ==> |Run(t, es[..i], false)| < MAX_RATE_LIMIT_BUCKETS
  }

  lemma PrefixConditions(t: Table, es: seq<Event>, n: nat)
    requires n <= |es|
    requires FreshReadings(es) && Below(t, es)
    ensures FreshReadings(es[..n]) && Below(t, es[..n])
  {
    assert forall i :: 0 <= i <= n ==> es[..n][..i] == es[..i];
  }

  lemma RoomAt(t: Table, es: seq<Event>, n: nat)
    requires Below(t, es) && n <= |es|
    ensures !Full(Run(t, es[..n], false))
  {
  }

  lemma {:induction false} TablesStaySimilar(t: Table, es: seq<Event>)
    requires SettledTable(t) && FreshReadings(es) && Below(t, es)
    ensures forall k :: Similar(es, Lookup(Run(t, es, true), k), Lookup(Run(t, es, false), k))
    ensures |Run(t, es, true)| <= |Run(t, es, false)|
  {
    if es != [] {
      var n := |es| - 1;
      var prior, e := es[..n], es[n];
      PrefixConditions(t, es, n);
      TablesStaySimilar(t, prior);
      RunSettles(t, prior, true);
      var swept, kept := Run(t, prior, true), Run(t, prior, false);
      assert es == prior + [e];
      if e.Check? {
        CallAfterTicks(es, n);
        RoomAt(t, es, n);
      }
      forall k
        ensures Similar(es, Lookup(Run(t, es, true), k), Lookup(Run(t, es, false), k))
      {
        StepSimilar(prior, e, swept, kept, k);
      }
    }
    var a, b := Run(t, es, true), Run(t, es, false);
    forall k | k in a.Keys ensures k in b.Keys {
      assert Similar(es, Lookup(a, k), Lookup(b, k));
    }
    SubtableSize(a, b);
  }

  lemma StepSimilar(prior: seq<Event>, e: Event, swept: Table, kept: Table, k: string)
    requires SettledTable(swept)
    requires Similar(prior, Lookup(swept, k), Lookup(kept, k))
    requires e.Check? ==> !Full(swept) && !Full(kept) && TicksBy(prior, e.now)
    ensures Similar(prior + [e], Lookup(Apply(swept, e, true).0, k), Lookup(Apply(kept, e, false).0, k))
    ensures e.Check? && e.key == k ==> Apply(swept, e, true).1 == Apply(kept, e, false).1
  {
    var a, b := Lookup(swept, k), Lookup(kept, k);
    assert forall u :: SweptBy(prior, u) ==> SweptBy(prior + [e], u) by {
      forall u | SweptBy(prior, u) ensures SweptBy(prior + [e], u) {
        SweptByExtends(prior, e, u);
      }
    }
    match e {
      case Check(key, l, now) =>
        StoreFrame(swept, key, Next(Lookup(swept, key), false, l, now).slot);
        StoreFrame(kept, key, Next(Lookup(kept, key), false, l, now).slot);
        if key == k {
          SimilarNext(prior, a, b, l, now);
        }
      case Tick(now) =>
        if a.Some? {
          CleanupDropsIff(a.value, now);
          assert (prior + [e])[|prior|] == e;
        }
    }
  }

  /**
   Cleanup cannot be observed: while the table stays below its cap and no call reads the clock
   before a cleanup that it follows, every call of the run gets the answer that a limiter
   without cleanup gives.
   */
  lemma CleanupInvisible(t: Table, es: seq<Event>)
    requires SettledTable(t) && FreshReadings(es) && Below(t, es)
    ensures forall i :: 0 <= i < |es| ==> AnswerAt(t, es, i, true) == AnswerAt(t, es, i, false)
  {
    forall i | 0 <= i < |es|
      ensures AnswerAt(t, es, i, true) == AnswerAt(t, es, i, false)
    {
      var prior, e := es[..i], es[i];
      PrefixConditions(t, es, i);
      TablesStaySimilar(t, prior);
      RunSettles(t, prior, true);
      if e.Check? {
        CallAfterTicks(es, i);
        RoomAt(t, es, i);
        var swept, kept := Run(t, prior, true), Run(t, prior, false);
        assert Similar(prior, Lookup(swept, e.key), Lookup(kept, e.key));
        StepSimilar(prior, e, swept, kept, e.key);
      }
    }
  }

  /**
   Exactly when one cleanup changes what the next call sees: the cleanup dropped the bucket
   and the call, which read the clock before taking the lock, is still inside the penalty.
   */
  lemma CleanupVisibleIff(b: Bucket, l: Limits, tick: int, now: int)
    requires Settled(b) && l.requests >= 1
    ensures Next(Sweep(Some(b), tick), false, l, now) != Next(Some(b), false, l, now)
            <==> !Kept(b, tick) && Blocked(b, now)
  {
    CleanupDropsIff(b, tick);
  }

  /** A limit of one per second, two quick calls, a cleanup, and a call that read the clock before it. */
  ghost function LateReading(): seq<Event> {
    var l := Limits(1, 1, 0);
    [Check("k", l, 499_999), Check("k", l, 999_999_999), Tick(1_000_000_000), Check("k", l, 999_999_998)]
  }

  /** The one bucket of that run, before and after its second call. */
  lemma LateReadingBuckets(sweeping: bool)
    ensures Run(map[], LateReading()[..1], sweeping) == map["k" := Bucket(499_999, 0.0, 1.0, None)]
    ensures Run(map[], LateReading()[..2], sweeping) == map["k" := Bucket(999_999_999, 0.9995, 1.0, Some(999_999_999))]
  {
    var es, l := LateReading(), Limits(1, 1, 0);
    assert es[..1][..0] == [] && es[..2][..1] == es[..1];
    assert Run(map[], es[..0], sweeping) == map[];
    assert Refill(l, 999_500_000) == 0.9995;
  }

  /** From process start, that run answers its last call differently with cleanup and without. */
  lemma StaleReadingSeesCleanup()
    ensures |LateReading()| == 4
    ensures AnswerAt(map[], LateReading(), 3, true) && !AnswerAt(map[], LateReading(), 3, false)
  {
    var es, l := LateReading(), Limits(1, 1, 0);
    LateReadingBuckets(true);
    LateReadingBuckets(false);
    assert es[..3][..2] == es[..2];
    assert Run(map[], es[..3], false) == Run(map[], es[..2], false);
    assert Run(map[], es[..3], true) == map[];
  }

  /** Every tracked limit exceeds one request. */
  ghost predicate AboveOne(t: Table) {
    forall k :: k in t ==> t[k].maxTokens > 1.0
  }

  /**
   Without one-request limits, cleanup never frees a slot, so tracked keys stay tracked for
   good, idle or not.
   */
  lemma {:induction false} TrackedKeysStay(t: Table, es: seq<Event>)
    requires SettledTable(t) && AboveOne(t)
    requires forall i :: 0 <= i < |es| && es[i].Check? ==> es[i].limits.requests != 1
    ensures t.Keys <= Run(t, es, true).Keys
    ensures AboveOne(Run(t, es, true))
  {
    if es != [] {
      var n := |es| - 1;
      var mid, e := Run(t, es[..n], true), es[n];
      TrackedKeysStay(t, es[..n]);
      RunSettles(t, es[..n], true);
      if e.Tick? {
        forall k | k in mid ensures Kept(mid[k], e.now) {
          CleanupDropsIff(mid[k], e.now);
        }
      }
    }
  }

  /** Once such a table is full, a client it does not track is refused for ever. */
  lemma FullTableRefusesNewKeys(t: Table, es: seq<Event>, key: string, l: Limits, now: int)
    requires SettledTable(t) && AboveOne(t) && Full(t)
    requires forall i :: 0 <= i < |es| && es[i].Check? ==> es[i].limits.requests != 1
    requires key !in t
    ensures !CheckTable(Run(t, es, true), key, l, now).1
  {
    TrackedKeysStay(t, es);
    FullRunAdds(t, es, key);
  }

  lemma {:induction false} FullRunAdds(t: Table, es: seq<Event>, key: string)
    requires SettledTable(t) && AboveOne(t) && Full(t)
    requires forall i :: 0 <= i < |es| && es[i].Check? ==> es[i].limits.requests != 1
    requires key !in t
    ensures Full(Run(t, es, true)) && key !in Run(t, es, true)
  {
    var after := Run(t, es, true);
    TrackedKeysStay(t, es);
    SubtableSize(t, after);
    if es != [] {
      FullRunAdds(t, es[..|es| - 1], key);
    }
  }
}
