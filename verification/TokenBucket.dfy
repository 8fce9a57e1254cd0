/** The per-key token bucket behind `rate_limit` rules: refill, consume, penalty, cleanup. */
module TokenBucket {
  import opened Basics
  import opened Clock

  const MAX_RATE_LIMIT_BUCKETS := 16384

  /** A rule's configured rate limit: at most `requests` per `period` seconds, then `penalty` seconds off. */
  datatype Limits = Limits(requests: nat, period: nat, penalty: nat)

  datatype Bucket = Bucket(lastCheck: int, tokens: real, maxTokens: real, blockedUntil: Option<int>)

  type Slot = Option<Bucket>

  /** Tokens per second. */
  function RefillRate(l: Limits): real {
    if l.period == 0 then l.requests as real else l.requests as real / l.period as real
  }

  /** Tokens that accrue over a stretch of clock time given in nanoseconds. */
  function Refill(l: Limits, nanos: int): real {
    nanos as real / 1000000000.0 * RefillRate(l)
  }

  function Capped(x: real, cap: real): real {
    if x < cap then x else cap
  }

  function PenaltyNanos(l: Limits): nat {
    l.penalty * NANOS
  }

  predicate Blocked(b: Bucket, now: int) {
    b.blockedUntil.Some? && now < b.blockedUntil.value
  }

  /**
   The tokens a call finds: a full bucket when the key is new or its penalty is over, and
   otherwise what was left plus the refill since the last call, capped.
   */
  function Available(slot: Slot, l: Limits, now: int): real {
    var cap := l.requests as real;
    if slot.None? || slot.value.blockedUntil.Some? then cap
    else Capped(slot.value.tokens + Refill(l, Since(now, slot.value.lastCheck)), cap)
  }

  datatype Outcome = Outcome(slot: Slot, allowed: bool)

  /** What one call does to its key's slot; `full` says that the table has no room for a new key. */
  function Next(slot: Slot, full: bool, l: Limits, now: int): Outcome {
    if l.requests == 0 || (slot.None? && full) || (slot.Some? && Blocked(slot.value, now)) then
      Outcome(slot, false)
    else
      var found := Available(slot, l, now);
      if found >= 1.0 then
        Outcome(Some(Bucket(now, found - 1.0, l.requests as real, None)), true)
      else
        Outcome(Some(Bucket(now, found, l.requests as real, Some(now + PenaltyNanos(l)))), false)
  }

  /** The closure that cleanup retains buckets by. */
  predicate Kept(b: Bucket, now: int) {
    match b.blockedUntil
    case Some(until) => now < until || b.tokens < b.maxTokens - 0.001
    case None => b.tokens < b.maxTokens - 0.001
  }

  function Sweep(slot: Slot, now: int): Slot {
    if slot.Some? && !Kept(slot.value, now) then None else slot
  }

  type Table = map<string, Bucket>

  predicate Full(t: Table) {
    |t| >= MAX_RATE_LIMIT_BUCKETS
  }

  function CheckTable(t: Table, key: string, l: Limits, now: int): (Table, bool) {
    var o := Next(Lookup(t, key), Full(t), l, now);
    (Store(t, key, o.slot), o.allowed)
  }

  function SweepTable(t: Table, now: int): Table {
    map k | k in t && Kept(t[k], now) :: t[k]
  }

  lemma RefillZero(l: Limits)
    ensures Refill(l, 0) == 0.0
  {
    assert Refill(l, 0) == 0.0 * RefillRate(l);
  }

  /** A new bucket is full, so refilling it at once adds nothing. */
  lemma NewBucketIsFull(l: Limits, now: int)
    ensures Available(Some(Bucket(now, l.requests as real, l.requests as real, None)), l, now) == Available(None, l, now)
  {
    RefillZero(l);
  }

  /** The part of a call that ends a penalty and refills. */
  method Refreshed(stored: Bucket, l: Limits, now: int) returns (bucket: Bucket)
    requires !Blocked(stored, now)
    ensures bucket == Bucket(now, Available(Some(stored), l, now), l.requests as real, None)
  {
    var maxTokens := l.requests as real;
    bucket := stored;
    if bucket.blockedUntil.Some? {
      bucket := bucket.(blockedUntil := None, tokens := maxTokens, lastCheck := now);
      RefillZero(l);
    }
    var refill := Refill(l, Since(now, bucket.lastCheck));
    var tokens := bucket.tokens + refill;
    bucket := bucket.(tokens := if tokens < maxTokens then tokens else maxTokens,
                      lastCheck := now, maxTokens := maxTokens);
  }

  /** The mutex-guarded table. A call's clock reading is taken by the caller, before the lock. */
  class RateLimiter {
    var buckets: Table

    constructor ()
      ensures buckets == map[]
    {
      buckets := map[];
    }

    method Check(key: string, l: Limits, now: int) returns (ok: bool)
      modifies this
      ensures (buckets, ok) == CheckTable(old(buckets), key, l, now)
    {
      ghost var slot := Lookup(buckets, key);
      assert Store(buckets, key, slot) == buckets;
      if l.requests == 0 {
        return false;
      }
      if key !in buckets && |buckets| >= MAX_RATE_LIMIT_BUCKETS {
        return false;
      }
      var maxTokens := l.requests as real;
      var bucket := if key in buckets then buckets[key] else Bucket(now, maxTokens, maxTokens, None);
      if bucket.blockedUntil.Some? && now < bucket.blockedUntil.value {
        return false;
      }
      NewBucketIsFull(l, now);
      bucket := Refreshed(bucket, l, now);
      assert bucket == Bucket(now, Available(slot, l, now), maxTokens, None);
      if bucket.tokens >= 1.0 {
        bucket := bucket.(tokens := bucket.tokens - 1.0);
        ok := true;
      } else {
        bucket := bucket.(blockedUntil := Some(now + l.penalty * NANOS));
        ok := false;
      }
      buckets := buckets[key := bucket];
    }

    method Cleanup(now: int)
      modifies this
      ensures forall k :: Lookup(buckets, k) == Sweep(Lookup(old(buckets), k), now)
    {
      buckets := map k | k in buckets && Kept(buckets[k], now) :: buckets[k];
    }
  }

  lemma RefillAdds(l: Limits, a: int, b: int)
    ensures Refill(l, a + b) == Refill(l, a) + Refill(l, b)
  {
    var r := RefillRate(l);
    var x, y := a as real / 1000000000.0, b as real / 1000000000.0;
    assert (a + b) as real / 1000000000.0 == x + y;
    assert (x + y) * r == x * r + y * r;
  }

  lemma RateNonNegative(l: Limits)
    ensures RefillRate(l) >= 0.0
  {
  }

  lemma RefillMonotone(l: Limits, a: int, b: int)
    requires a <= b
    ensures Refill(l, a) <= Refill(l, b)
  {
    RateNonNegative(l);
    var x, y := a as real / 1000000000.0, b as real / 1000000000.0;
    assert x <= y;
    assert (y - x) * RefillRate(l) >= 0.0;
  }

  /** What holds of every bucket that a call leaves behind. */
  ghost predicate Settled(b: Bucket) {
    && b.maxTokens >= 1.0
    && b.maxTokens.Floor as real == b.maxTokens
    && 0.0 <= b.tokens
    && b.tokens <= b.maxTokens
    && (b.blockedUntil.None? ==> b.tokens <= b.maxTokens - 1.0)
    && (b.blockedUntil.Some? ==> b.tokens < 1.0)
  }

  ghost predicate SettledSlot(slot: Slot) {
    slot.Some? ==> Settled(slot.value)
  }

  /** Every call leaves its bucket settled, so token counts never leave 0..max. */
  lemma NextSettles(slot: Slot, full: bool, l: Limits, now: int)
    requires SettledSlot(slot)
    ensures SettledSlot(Next(slot, full, l, now).slot)
  {
    if slot.Some? {
      var since := Since(now, slot.value.lastCheck);
      RefillMonotone(l, 0, since);
      assert Refill(l, 0) == 0.0 * RefillRate(l) == 0.0;
    }
  }

  /**
   Cleanup drops a bucket in one situation only: the limit is one request, the penalty is over
   and all but a thousandth of the token had grown back when the penalty began. In particular
   it never drops an idle bucket that is not blocked, whatever its age.
   */
  lemma CleanupDropsIff(b: Bucket, now: int)
    requires Settled(b)
    ensures !Kept(b, now) <==>
            b.blockedUntil.Some? && b.blockedUntil.value <= now && b.maxTokens == 1.0 && b.tokens >= 0.999
  {
    assert b.maxTokens > 1.0 ==> b.maxTokens >= 2.0;
  }

  /**
   A refused call starts a penalty of exactly the configured length: a later call is let through
   if and only if its reading is past the penalty. Before that it leaves the bucket alone; after
   it, it finds a full bucket and takes one token.
   */
  lemma RefusalPenalty(slot: Slot, full: bool, l: Limits, now: int, later: int)
    requires l.requests >= 1
    requires slot.Some? ==> !Blocked(slot.value, now)
    requires slot.None? ==> !full
    requires !Next(slot, full, l, now).allowed
    ensures var refused := Next(slot, full, l, now).slot;
            var o := Next(refused, full, l, later);
            && (o.allowed <==> now + l.penalty * 1_000_000_000 <= later)
            && (!o.allowed ==> o.slot == refused)
            && (o.allowed ==> o.slot == Some(Bucket(later, l.requests as real - 1.0, l.requests as real, None)))
  {
  }

  /** Over `nanos` nanoseconds, requests / period tokens grow each second; a zero period counts as one second. */
  lemma RefillScaled(l: Limits, nanos: int)
    ensures var p := (if l.period == 0 then 1 else l.period) * 1_000_000_000;
            Refill(l, nanos) * p as real == (nanos * l.requests) as real
  {
    var x, n, r := nanos as real / 1000000000.0, nanos as real, l.requests as real;
    assert x * 1000000000.0 == n;
    assert (nanos * l.requests) as real == n * r;
    if l.period == 0 {
      assert x * r * 1000000000.0 == x * 1000000000.0 * r;
    } else {
      var p := l.period as real;
      var rate := r / p;
      assert rate * p == r;
      assert (l.period * 1_000_000_000) as real == p * 1000000000.0;
      assert x * rate * (p * 1000000000.0) == (x * 1000000000.0) * (rate * p);
    }
  }

  /** Whole numbers against a real one are the same whole numbers against it at scale p. */
  lemma WholeScaled(a: int, c: int, x: real, m: int, p: nat)
    requires p > 0 && x * p as real == m as real
    ensures a as real <= c as real + x <==> a * p <= c * p + m
  {
    var d := (a - c) as real;
    assert d * p as real == ((a - c) * p) as real == (a * p - c * p) as real;
    assert a as real == c as real + d;
    if d <= x {
      assert (x - d) * p as real >= 0.0;
    } else {
      assert (d - x) * p as real > 0.0;
    }
  }

  lemma QuotientOf(x: real, m: real, p: real)
    requires p > 0.0 && x * p == m
    ensures x == m / p
  {
  }

  /** The same as a quotient of whole numbers. */
  lemma RefillShare(l: Limits, nanos: int)
    ensures var p := (if l.period == 0 then 1 else l.period) * 1_000_000_000;
            Refill(l, nanos) == (nanos * l.requests) as real / p as real
  {
    var p: nat := (if l.period == 0 then 1 else l.period) * 1_000_000_000;
    RefillScaled(l, nanos);
    QuotientOf(Refill(l, nanos), (nanos * l.requests) as real, p as real);
  }

  /** A call that touches nothing: no request allowed at all, no room for a new key, or a penalty in force. */
  lemma RefusedOutright(t: Table, key: string, l: Limits, now: int)
    requires || l.requests == 0
             || (key !in t && |t| >= 16384)
             || (key in t && t[key].blockedUntil.Some? && now < t[key].blockedUntil.value)
    ensures CheckTable(t, key, l, now) == (t, false)
  {
    StoreFrame(t, key, Lookup(t, key));
  }

  /** A new key with room, or one whose penalty is over, finds a full bucket and takes a token. */
  lemma FullBucketAllows(t: Table, key: string, l: Limits, now: int)
    requires l.requests >= 1
    requires if key in t then t[key].blockedUntil.Some? && t[key].blockedUntil.value <= now else |t| < 16384
    ensures CheckTable(t, key, l, now)
         == (t[key := Bucket(now, l.requests as real - 1.0, l.requests as real, None)], true)
  {
  }

  lemma OpenCall(t: Table, key: string, l: Limits, now: int)
    requires key in t && t[key].blockedUntil.None? && l.requests >= 1
    ensures var found := Capped(t[key].tokens + Refill(l, Since(now, t[key].lastCheck)), l.requests as real);
            CheckTable(t, key, l, now)
              == if found >= 1.0 then (t[key := Bucket(now, found - 1.0, l.requests as real, None)], true)
                 else (t[key := Bucket(now, found, l.requests as real, Some(now + l.penalty * 1_000_000_000))], false)
  {
  }

  /**
   A call on an open bucket: `requests` tokens grow back in `period` seconds, up to `requests`,
   and a call is let through exactly when that makes at least one, which it takes. A refusal
   keeps what there is and blocks for `penalty` seconds. Nothing but the key's bucket changes.
   */
  lemma OpenBucketCall(t: Table, key: string, l: Limits, now: int)
    requires key in t && t[key].blockedUntil.None? && l.requests >= 1
    ensures var b, cap := t[key], l.requests as real;
            var elapsed := if now >= b.lastCheck then now - b.lastCheck else 0;
            var p := (if l.period == 0 then 1 else l.period) * 1_000_000_000;
            var grown := b.tokens + (elapsed * l.requests) as real / p as real;
            var found := if grown < cap then grown else cap;
            CheckTable(t, key, l, now)
              == if found >= 1.0 then (t[key := Bucket(now, found - 1.0, cap, None)], true)
                 else (t[key := Bucket(now, found, cap, Some(now + l.penalty * 1_000_000_000))], false)
  {
    var elapsed := Since(now, t[key].lastCheck);
    RefillShare(l, elapsed);
    OpenCall(t, key, l, now);
  }

  lemma ShareIsOne(m: nat, p: nat)
    requires p > 0
    ensures m as real / p as real >= 1.0 <==> m >= p
  {
    var x := m as real / p as real;
    assert x * p as real == m as real;
    if x >= 1.0 {
      assert (x - 1.0) * p as real >= 0.0;
    } else {
      assert (1.0 - x) * p as real > 0.0;
    }
  }

  /** A drained bucket lets a call through once a token's share of the period has passed, and no earlier. */
  lemma DrainedBucketIff(t: Table, key: string, l: Limits, now: int)
    requires key in t && t[key].blockedUntil.None? && t[key].tokens == 0.0
    requires l.requests >= 1 && now >= t[key].lastCheck
    ensures CheckTable(t, key, l, now).1 <==>
              (now - t[key].lastCheck) * l.requests >= (if l.period == 0 then 1 else l.period) * 1_000_000_000
  {
    var p: nat := (if l.period == 0 then 1 else l.period) * 1_000_000_000;
    OpenBucketCall(t, key, l, now);
    ShareIsOne((now - t[key].lastCheck) * l.requests, p);
  }
}
