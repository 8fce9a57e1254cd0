/**
 How many calls a rate limit lets through over a whole run, whatever the order in which the
 clock readings reach the lock.
 */
module RateBound {
  import opened Clock
  import opened TokenBucket

  /** The events that can change one key's slot, in lock order, each with its clock reading. */
  datatype Event = Call(now: int, full: bool) | Tick(now: int)

  /**
   One key's slot over a stretch of a run, the calls let through, the penalties that both began
   and ended in the stretch, and whether anything has happened to the slot since the start.
   */
  datatype Ledger = Ledger(slot: Slot, allowed: nat, resets: nat, touched: bool)

  /** A penalty of this stretch ends: a call finds it over, or a cleanup drops the bucket. */
  ghost predicate EndsPenalty(g: Ledger, e: Event) {
    && g.touched
    && g.slot.Some?
    && g.slot.value.blockedUntil.Some?
    && g.slot.value.blockedUntil.value <= e.now
    && (e.Tick? ==> !Kept(g.slot.value, e.now))
  }

  ghost function Advance(g: Ledger, l: Limits, e: Event): Ledger {
    var o := match e
      case Call(now, full) => Next(g.slot, full, l, now)
      case Tick(now) => Outcome(Sweep(g.slot, now), false);
    Ledger(o.slot, if o.allowed then g.allowed + 1 else g.allowed,
           if EndsPenalty(g, e) then g.resets + 1 else g.resets, g.touched || o.slot != g.slot)
  }

  /** A stretch of a limit's run for one key, from whatever slot it starts with. */
  ghost function Replay(l: Limits, start: Slot, es: seq<Event>): Ledger {
    if es == [] then Ledger(start, 0, 0, false)
    else Advance(Replay(l, start, es[..|es| - 1]), l, es[|es| - 1])
  }

  /** Clock span of the run: last reading minus first. */
  ghost function Span(es: seq<Event>): int {
    if es == [] then 0 else es[|es| - 1].now - es[0].now
  }

  /** Total distance by which readings step back from one event to the next. */
  ghost function Backward(es: seq<Event>): nat {
    if |es| <= 1 then 0
    else Backward(es[..|es| - 1]) + Since(es[|es| - 2].now, es[|es| - 1].now)
  }

  /**
   In whole nanoseconds: at most `requests` calls to begin with and after each reset, plus
   `requests` for every `period` seconds of span and backward movement, less `penalty` seconds
   for each reset.
   */
  ghost predicate WithinBound(l: Limits, es: seq<Event>, allowed: nat, resets: nat) {
    var p := (if l.period == 0 then 1 else l.period) * 1_000_000_000;
    allowed * p <= l.requests * (1 + resets) * p
                   + (Span(es) + Backward(es) - resets * (l.penalty * 1_000_000_000)) * l.requests
  }

  /**
   What a slot may still let through at reading `now` without a reset: a full bucket while it is
   new or untouched, and otherwise its tokens and their refill, before the cap is applied.
   */
  ghost function Worth(g: Ledger, l: Limits, now: int): real {
    if !g.touched || g.slot.None? then l.requests as real
    else g.slot.value.tokens + Refill(l, Since(now, g.slot.value.lastCheck))
  }

  ghost predicate Sound(g: Ledger, l: Limits) {
    && SettledSlot(g.slot)
    && (g.touched && g.slot.Some? ==>
          && g.slot.value.maxTokens == l.requests as real
          && (g.slot.value.blockedUntil.Some? ==>
                g.slot.value.blockedUntil.value == g.slot.value.lastCheck + PenaltyNanos(l)))
  }

  /** Moving from one reading to the next adds at most the refill of the forward part. */
  lemma WorthAdvances(g: Ledger, l: Limits, t: int, now: int)
    ensures Worth(g, l, now) <= Worth(g, l, t) + Refill(l, Since(now, t))
  {
    RefillZero(l);
    RefillMonotone(l, 0, Since(now, t));
    if g.slot.Some? {
      var last := g.slot.value.lastCheck;
      RefillMonotone(l, Since(now, last), Since(t, last) + Since(now, t));
      RefillAdds(l, Since(t, last), Since(now, t));
    }
  }

  /** One event, measured at its own reading: allowances plus worth grow only through a reset. */
  lemma AdvanceBound(g: Ledger, l: Limits, e: Event)
    requires l.requests >= 1
    requires Sound(g, l)
    ensures var h := Advance(g, l, e);
            && Sound(h, l)
            && h.allowed as real + Worth(h, l, e.now)
                 <= g.allowed as real + Worth(g, l, e.now)
                      + if h.resets == g.resets then 0.0
                        else l.requests as real - Refill(l, PenaltyNanos(l))
  {
    var h := Advance(g, l, e);
    RefillZero(l);
    assert (g.allowed + 1) as real == g.allowed as real + 1.0;
    match e {
      case Call(now, full) =>
        NextSettles(g.slot, full, l, now);
      case Tick(now) =>
        if g.slot.Some? {
          CleanupDropsIff(g.slot.value, now);
        }
    }
    if h.resets != g.resets {
      RefillMonotone(l, PenaltyNanos(l), Since(e.now, g.slot.value.lastCheck));
    }
  }

  lemma ReplaySound(l: Limits, start: Slot, es: seq<Event>)
    requires l.requests >= 1 && SettledSlot(start)
    ensures Sound(Replay(l, start, es), l)
  {
    BalanceBounded(l, start, es);
  }

  /**
   The rate bound. Over any stretch of a run, from any slot that earlier calls may have left, and
   with fixed limits during the stretch: whatever the interleaving of calls, full-table refusals
   and cleanups, and whatever the clock readings, the calls let through are at most max to begin
   with and max for each penalty begun and ended in the stretch, plus the refill of the span,
   counting backward clock movement again and those penalties not at all.
   */
  lemma AllowedCallsBounded(l: Limits, start: Slot, es: seq<Event>)
    requires l.requests >= 1 && SettledSlot(start)
    ensures var g := Replay(l, start, es);
            && Sound(g, l)
            && WithinBound(l, es, g.allowed, g.resets)
  {
    BalanceBounded(l, start, es);
    var g := Replay(l, start, es);
    WorthNonNegative(l, g, es);
    var travelled := Span(es) + Backward(es);
    BoundScaled(l, travelled, g.allowed, g.resets);
  }

  lemma WorthNonNegative(l: Limits, g: Ledger, es: seq<Event>)
    requires Sound(g, l)
    ensures WorthAtEnd(g, l, es) >= 0.0
  {
    RefillZero(l);
    if es != [] && g.slot.Some? {
      RefillMonotone(l, 0, Since(es[|es| - 1].now, g.slot.value.lastCheck));
    }
  }

  /** The bound in whole nanoseconds. */
  lemma BoundScaled(l: Limits, travelled: int, allowed: nat, resets: nat)
    ensures var p := (if l.period == 0 then 1 else l.period) * 1_000_000_000;
            allowed as real <= Bound(l, travelled, resets) <==>
              allowed * p <= l.requests * (1 + resets) * p + (travelled - resets * (l.penalty * 1_000_000_000)) * l.requests
  {
    var p: nat := (if l.period == 0 then 1 else l.period) * 1_000_000_000;
    var nanos := travelled - resets * PenaltyNanos(l);
    RefillScaled(l, nanos);
    WholeScaled(allowed, l.requests * (1 + resets), Refill(l, nanos), nanos * l.requests, p);
  }

  /** What a stretch may have let through after so many resets. */
  ghost function Bound(l: Limits, travelled: int, resets: nat): real {
    (l.requests * (1 + resets)) as real + Refill(l, travelled - resets * PenaltyNanos(l))
  }

  /** What the slot may still let through at the stretch's last reading. */
  ghost function WorthAtEnd(g: Ledger, l: Limits, es: seq<Event>): real {
    if es == [] then l.requests as real else Worth(g, l, es[|es| - 1].now)
  }

  lemma {:induction false} BalanceBounded(l: Limits, start: Slot, es: seq<Event>)
    requires l.requests >= 1 && SettledSlot(start)
    ensures var g := Replay(l, start, es);
            Sound(g, l) && g.allowed as real + WorthAtEnd(g, l, es) <= Bound(l, Span(es) + Backward(es), g.resets)
  {
    if es == [] {
      RefillZero(l);
    } else {
      var n := |es| - 1;
      var prior, e := es[..n], es[n];
      var g, h := Replay(l, start, prior), Replay(l, start, es);
      BalanceBounded(l, start, prior);
      AdvanceBound(g, l, e);
      WorthOverGap(l, g, es);
      CreditStep(l, Span(prior) + Backward(prior), Gap(es), g.resets, h.resets);
      assert h.resets == g.resets || h.resets == g.resets + 1;
      Chain(h.allowed as real + Worth(h, l, e.now), g.allowed as real, Worth(g, l, e.now), WorthAtEnd(g, l, prior),
            Refill(l, Gap(es)), if h.resets == g.resets then 0.0 else l.requests as real - Refill(l, PenaltyNanos(l)),
            Bound(l, Span(prior) + Backward(prior), g.resets), Bound(l, Span(es) + Backward(es), h.resets));
    }
  }

  /** Forward clock movement into the last event. */
  ghost function Gap(es: seq<Event>): nat {
    if |es| <= 1 then 0 else Since(es[|es| - 1].now, es[|es| - 2].now)
  }

  /** Span and backward movement together grow by the forward movement; worth grows by its refill. */
  lemma WorthOverGap(l: Limits, g: Ledger, es: seq<Event>)
    requires es != [] && (|es| == 1 ==> !g.touched)
    ensures var prior := es[..|es| - 1];
            && Span(es) + Backward(es) == Span(prior) + Backward(prior) + Gap(es)
            && Worth(g, l, es[|es| - 1].now) <= WorthAtEnd(g, l, prior) + Refill(l, Gap(es))
  {
    var n := |es| - 1;
    if n == 0 {
      RefillZero(l);
    } else {
      assert es[..n][n - 1] == es[n - 1];
      WorthAdvances(g, l, es[n - 1].now, es[n].now);
    }
  }

  lemma Chain(after: real, allowed: real, worth: real, worthBefore: real, gain: real, reset: real, bound: real, bound': real)
    requires after <= allowed + worth + reset
    requires worth <= worthBefore + gain
    requires allowed + worthBefore <= bound
    requires bound' == bound + gain + reset
    ensures after <= bound'
  {
  }

  /** The arithmetic of one step: span grows by `gained`, and a reset trades max tokens for a penalty. */
  lemma CreditStep(l: Limits, travelled: int, gained: nat, r: nat, r': nat)
    requires r' == r || r' == r + 1
    ensures Bound(l, travelled + gained, r')
         == Bound(l, travelled, r) + Refill(l, gained)
            + if r' == r then 0.0 else l.requests as real - Refill(l, PenaltyNanos(l))
  {
    var before := travelled - r * PenaltyNanos(l);
    RefillAdds(l, before, gained);
    if r' == r + 1 {
      var p := PenaltyNanos(l);
      assert (r + 1) * p == r * p + p;
      RefillAdds(l, before + gained - p, p);
      assert l.requests * (1 + r') == l.requests * (1 + r) + l.requests;
    }
  }
}
