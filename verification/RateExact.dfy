/** Exactly which traffic a token bucket never refuses. */
module RateExact {
  import opened Basics
  import opened Clock
  import opened TokenBucket
  import opened RateBound
  import RateRuns

  ghost function Calls(es: seq<Event>): seq<Event> {
    if es == [] then []
    else Calls(es[..|es| - 1]) + if es[|es| - 1].Call? then [es[|es| - 1]] else []
  }

  ghost function Readings(cs: seq<Event>): (ts: seq<int>)
    ensures |ts| == |cs|
  {
    seq(|cs|, i requires 0 <= i < |cs| => cs[i].now)
  }

  /** Forward clock movement from reading `i` to the last one; backward movement counts as none. */
  ghost function Forward(ts: seq<int>, i: nat): nat
    requires i < |ts|
  {
    if i == |ts| - 1 then 0
    else Forward(ts[..|ts| - 1], i) + Since(ts[|ts| - 1], ts[|ts| - 2])
  }

  /** Calls i..j are at most `requests` and `requests` more per `period` seconds that they take, in whole nanoseconds. */
  ghost predicate WindowFits(l: Limits, ts: seq<int>, i: nat, j: nat)
    requires i <= j < |ts|
  {
    var p := (if l.period == 0 then 1 else l.period) * 1_000_000_000;
    (j - i + 1) * p <= l.requests * p + Forward(ts[..j + 1], i) * l.requests
  }

  ghost predicate Conforms(l: Limits, ts: seq<int>) {
    forall i, j :: 0 <= i <= j < |ts| ==> WindowFits(l, ts, i, j)
  }

  /** The tokens that the last call of `ts` finds when no call before it was refused. */
  ghost function Balance(l: Limits, ts: seq<int>): real
    requires ts != []
  {
    var n := |ts|;
    if n == 1 then l.requests as real
    else Capped(Balance(l, ts[..n - 1]) - 1.0 + Refill(l, Since(ts[n - 1], ts[n - 2])), l.requests as real)
  }

  /** What window i..last leaves for its last call. */
  ghost function WindowBalance(l: Limits, ts: seq<int>, i: nat): real
    requires i < |ts|
  {
    l.requests as real + Refill(l, Forward(ts, i)) - (|ts| - 1 - i) as real
  }

  /** The balance is the least of the window balances. */
  lemma {:induction false} BalanceIsLeastWindow(l: Limits, ts: seq<int>) returns (tight: nat)
    requires ts != []
    ensures tight < |ts| && Balance(l, ts) == WindowBalance(l, ts, tight)
    ensures forall i :: 0 <= i < |ts| ==> Balance(l, ts) <= WindowBalance(l, ts, i)
  {
    var n := |ts| - 1;
    tight := n;
    RefillZero(l);
    if n > 0 {
      var prior, d := ts[..n], Since(ts[n], ts[n - 1]);
      var w := BalanceIsLeastWindow(l, prior);
      forall i | 0 <= i < n
        ensures WindowBalance(l, ts, i) == WindowBalance(l, prior, i) - 1.0 + Refill(l, d)
      {
        RefillAdds(l, Forward(prior, i), d);
      }
      if Balance(l, ts) < l.requests as real {
        tight := w;
      }
    }
  }

  ghost predicate WindowsFit(l: Limits, ts: seq<int>, j: nat)
    requires j < |ts|
  {
    forall i :: 0 <= i <= j ==> WindowFits(l, ts, i, j)
  }

  /** A call finds a token exactly when every window that ends with it fits. */
  lemma BalanceSufficesIff(l: Limits, ts: seq<int>, j: nat)
    requires j < |ts|
    ensures Balance(l, ts[..j + 1]) >= 1.0 <==> WindowsFit(l, ts, j)
  {
    var upto := ts[..j + 1];
    var tight := BalanceIsLeastWindow(l, upto);
    forall i | 0 <= i <= j
      ensures WindowFits(l, ts, i, j) <==> WindowBalance(l, upto, i) >= 1.0
    {
      WindowSlack(l, ts, i, j);
    }
    assert WindowFits(l, ts, tight, j) <==> WindowBalance(l, upto, tight) >= 1.0;
  }

  lemma WindowSlack(l: Limits, ts: seq<int>, i: nat, j: nat)
    requires i <= j < |ts|
    ensures WindowFits(l, ts, i, j) <==> WindowBalance(l, ts[..j + 1], i) >= 1.0
  {
    var p: nat := (if l.period == 0 then 1 else l.period) * 1_000_000_000;
    var nanos := Forward(ts[..j + 1], i);
    RefillScaled(l, nanos);
    WholeScaled(j - i + 1, l.requests, Refill(l, nanos), nanos * l.requests, p);
    assert (j - i + 1) as real == (j - i) as real + 1.0;
  }

  ghost predicate Unrefused(l: Limits, es: seq<Event>) {
    Replay(l, None, es).allowed == |Calls(es)|
  }

  ghost predicate FirstFits(cs: seq<Event>) {
    cs != [] ==> cs[0].Call? && !cs[0].full
  }

  ghost predicate Funded(l: Limits, ts: seq<int>) {
    forall n :: 1 <= n <= |ts| ==> Balance(l, ts[..n]) >= 1.0
  }

  lemma FundedExtends(l: Limits, ts: seq<int>, t: int)
    ensures Funded(l, ts + [t]) <==> Funded(l, ts) && Balance(l, ts + [t]) >= 1.0
  {
    var longer := ts + [t];
    assert longer[..|longer|] == longer;
    assert forall n :: 1 <= n <= |ts| ==> longer[..n] == ts[..n];
    if Funded(l, longer) {
      forall n | 1 <= n <= |ts| ensures Balance(l, ts[..n]) >= 1.0 {
        assert longer[..n] == ts[..n];
      }
    }
  }

  /** The slot that an unrefused run leaves behind. */
  ghost function UnrefusedSlot(l: Limits, ts: seq<int>): Slot {
    if ts == [] then None
    else Some(Bucket(ts[|ts| - 1], Balance(l, ts) - 1.0, l.requests as real, None))
  }

  /** One call on an unrefused run's slot. */
  lemma UnrefusedCall(l: Limits, ts: seq<int>, e: Event)
    requires l.requests >= 1 && e.Call?
    ensures var o := Next(UnrefusedSlot(l, ts), e.full, l, e.now);
            && (o.allowed <==> (ts == [] ==> !e.full) && Balance(l, ts + [e.now]) >= 1.0)
            && (o.allowed ==> o.slot == UnrefusedSlot(l, ts + [e.now]))
  {
    assert (ts + [e.now])[..|ts|] == ts;
  }

  /** The whole state of a run that is refused nothing, and when it is refused nothing. */
  ghost predicate Described(l: Limits, es: seq<Event>) {
    && Replay(l, None, es).allowed <= |Calls(es)|
    && (Unrefused(l, es) ==> Replay(l, None, es).slot == UnrefusedSlot(l, Readings(Calls(es))))
    && (Unrefused(l, es) <==> FirstFits(Calls(es)) && Funded(l, Readings(Calls(es))))
  }

  /** A cleanup tick leaves the bucket of an unrefused run alone. */
  lemma TickKeeps(l: Limits, es: seq<Event>, now: int)
    requires l.requests >= 1 && Described(l, es) && Unrefused(l, es)
    ensures Sweep(Replay(l, None, es).slot, now) == Replay(l, None, es).slot
  {
    var slot := Replay(l, None, es).slot;
    ReplaySound(l, None, es);
    if slot.Some? {
      CleanupDropsIff(slot.value, now);
    }
  }

  lemma DescribedTick(l: Limits, es: seq<Event>, e: Event)
    requires l.requests >= 1 && Described(l, es) && e.Tick?
    ensures Described(l, es + [e])
  {
    assert (es + [e])[..|es|] == es;
    assert Calls(es + [e]) == Calls(es);
    if Unrefused(l, es) {
      TickKeeps(l, es, e.now);
    }
  }

  lemma DescribedCall(l: Limits, es: seq<Event>, e: Event)
    requires l.requests >= 1 && Described(l, es) && e.Call?
    ensures Described(l, es + [e])
  {
    var cs := Calls(es);
    var ts := Readings(cs);
    assert (es + [e])[..|es|] == es;
    assert Calls(es + [e]) == cs + [e];
    assert Readings(cs + [e]) == ts + [e.now];
    assert FirstFits(cs + [e]) <==> FirstFits(cs) && (cs == [] ==> !e.full);
    FundedExtends(l, ts, e.now);
    if Unrefused(l, es) {
      UnrefusedCall(l, ts, e);
    }
  }

  lemma {:induction false} UnrefusedState(l: Limits, es: seq<Event>)
    requires l.requests >= 1
    ensures Described(l, es)
  {
    if es != [] {
      var prior, e := es[..|es| - 1], es[|es| - 1];
      UnrefusedState(l, prior);
      assert es == prior + [e];
      if e.Tick? {
        DescribedTick(l, prior, e);
      } else {
        DescribedCall(l, prior, e);
      }
    }
  }

  /**
   A run from an untracked key is refused nothing if and only if the table had room for its
   first call and every window of consecutive calls fits in max plus the refill of its forward
   clock movement. Cleanup ticks, wherever they fall, change nothing.
   */
  lemma NeverRefusedIff(l: Limits, es: seq<Event>)
    requires l.requests >= 1
    ensures Unrefused(l, es) <==> FirstFits(Calls(es)) && Conforms(l, Readings(Calls(es)))
  {
    UnrefusedState(l, es);
    var ts := Readings(Calls(es));
    forall j | 0 <= j < |ts|
      ensures Balance(l, ts[..j + 1]) >= 1.0 <==> WindowsFit(l, ts, j)
    {
      BalanceSufficesIff(l, ts, j);
    }
    if Conforms(l, ts) {
      forall n | 1 <= n <= |ts| ensures Balance(l, ts[..n]) >= 1.0 {
        assert WindowsFit(l, ts, n - 1);
      }
    } else {
      var i, j :| 0 <= i <= j < |ts| && !WindowFits(l, ts, i, j);
      assert !WindowsFit(l, ts, j);
      assert !(Balance(l, ts[..j + 1]) >= 1.0);
    }
  }

  /** The same in a table that all clients share, whatever the other keys do. */
  lemma SharedTableNeverRefusedIff(t: Table, es: seq<RateRuns.Event>, key: string, l: Limits)
    requires key !in t && l.requests >= 1
    requires RateRuns.LimitedBy(es, key, l)
    ensures var calls := Calls(RateRuns.Project(t, es, key));
            RateRuns.Allowed(t, es, key) == |calls| <==> FirstFits(calls) && Conforms(l, Readings(calls))
  {
    RateRuns.ProjectionFaithful(t, es, key, l);
    NeverRefusedIff(l, RateRuns.Project(t, es, key));
  }

  /** With readings that never step back, a window's forward movement is its duration. */
  lemma {:induction false} ForwardIsDuration(ts: seq<int>, i: nat)
    requires i < |ts|
    requires forall a, b :: 0 <= a <= b < |ts| ==> ts[a] <= ts[b]
    ensures Forward(ts, i) == ts[|ts| - 1] - ts[i]
  {
    if i < |ts| - 1 {
      ForwardIsDuration(ts[..|ts| - 1], i);
    }
  }
}
