/** The per-address lockout after failed authentication: fixed window, lockout, cleanup. */
module Lockout {
  import opened Basics
  import opened Clock

  const MAX_AUTH_LIMITER_KEYS := 16384
  const U32_MAX: nat := 0xFFFF_FFFF
  const STALE_AFTER: nat := 600 * NANOS

  /** How many failures, within which window, lock an address out for how long (nanoseconds). */
  datatype Policy = Policy(max: nat, window: nat, lockout: nat)

  const AUTH_POLICY := Policy(10, 60 * NANOS, 300 * NANOS)

  datatype Entry = Entry(failures: nat, firstFailure: int, blockedUntil: Option<int>)

  type Slot = Option<Entry>

  predicate InForce(slot: Slot, now: int) {
    slot.Some? && slot.value.blockedUntil.Some? && now < slot.value.blockedUntil.value
  }

  /** True when a failure at `now` opens a new counting window. */
  predicate OpensWindow(slot: Slot, p: Policy, now: int) {
    || slot.None?
    || (slot.value.blockedUntil.Some? && slot.value.blockedUntil.value <= now)
    || Since(now, slot.value.firstFailure) > p.window
  }

  datatype Recorded = Recorded(slot: Slot, lockedOut: bool)

  /** The entry with one more failure counted, before it can lock out. */
  function Counted(slot: Slot, p: Policy, now: int): Entry {
    var opens := OpensWindow(slot, p, now);
    var count := if opens then 1
                 else if slot.value.failures >= U32_MAX then U32_MAX
                 else slot.value.failures + 1;
    Entry(count, if opens then now else slot.value.firstFailure,
          if InForce(slot, now) then slot.value.blockedUntil else None)
  }

  /** One recorded failure; `full` says that the table has no room for a new address. */
  function Fail(slot: Slot, full: bool, p: Policy, now: int): Recorded {
    if slot.None? && full then Recorded(None, false)
    else
      var e := Counted(slot, p, now);
      if e.blockedUntil.None? && e.failures >= p.max then
        Recorded(Some(e.(blockedUntil := Some(now + p.lockout))), true)
      else Recorded(Some(e), false)
  }

  predicate Kept(e: Entry, now: int) {
    match e.blockedUntil
    case Some(until) => now < until
    case None => Since(now, e.firstFailure) < STALE_AFTER
  }

  function Sweep(slot: Slot, now: int): Slot {
    if slot.Some? && !Kept(slot.value, now) then None else slot
  }

  /** Cleanup drops a lockout that is over, and an open entry whose window began 600 seconds ago or longer. */
  lemma SweepDropsIff(e: Entry, now: int)
    ensures Sweep(Some(e), now) == None <==>
              if e.blockedUntil.Some? then e.blockedUntil.value <= now else now - e.firstFailure >= 600_000_000_000
    ensures Sweep(Some(e), now) != None ==> Sweep(Some(e), now) == Some(e)
  {
  }

  type Table = map<string, Entry>

  predicate Full(t: Table) {
    |t| >= MAX_AUTH_LIMITER_KEYS
  }

  function FailTable(t: Table, key: string, p: Policy, now: int): (Table, bool) {
    var r := Fail(Lookup(t, key), Full(t), p, now);
    (Store(t, key, r.slot), r.lockedOut)
  }

  function SweepTable(t: Table, now: int): Table {
    map k | k in t && Kept(t[k], now) :: t[k]
  }

  /** In a full table a failure of an untracked address leaves no trace; any other failure leaves an entry. */
  lemma FullTableForgets(t: Table, key: string, p: Policy, now: int)
    ensures key !in t && |t| >= 16384 ==> FailTable(t, key, p, now) == (t, false)
    ensures key in t || |t| < 16384 ==> key in FailTable(t, key, p, now).0
    ensures FailTable(t, key, p, now).0 - {key} == t - {key}
  {
    StoreFrame(t, key, Fail(Lookup(t, key), Full(t), p, now).slot);
  }

  /** A new entry counts its first failure as an untracked address does. */
  lemma NewEntryCounts(p: Policy, now: int)
    ensures Counted(Some(Entry(0, now, None)), p, now) == Counted(None, p, now)
  {
  }

  /** The part of a recording that ends a lockout or a window and counts the failure. */
  method CountOne(stored: Entry, p: Policy, now: int) returns (entry: Entry)
    ensures entry == Counted(Some(stored), p, now)
  {
    entry := stored;
    if entry.blockedUntil.Some? {
      if now >= entry.blockedUntil.value {
        entry := Entry(0, now, None);
      }
    }
    if Since(now, entry.firstFailure) > p.window {
      entry := entry.(failures := 0, firstFailure := now);
    }
    entry := entry.(failures := if entry.failures >= U32_MAX then U32_MAX else entry.failures + 1);
  }

  /** The mutex-guarded table; every method reads the clock while it holds the lock. */
  class AuthLimiter {
    var state: Table

    constructor ()
      ensures state == map[]
    {
      state := map[];
    }

    method IsBlocked(key: string, now: int) returns (blocked: bool)
      ensures blocked == InForce(Lookup(state, key), now)
    {
      if key in state {
        var s := state[key];
        return s.blockedUntil.Some? && now < s.blockedUntil.value;
      }
      return false;
    }

    method RecordFailure(key: string, p: Policy, now: int) returns (lockedOut: bool)
      modifies this
      ensures (state, lockedOut) == FailTable(old(state), key, p, now)
    {
      ghost var slot, full := Lookup(state, key), Full(state);
      if |state| >= MAX_AUTH_LIMITER_KEYS && key !in state {
        assert Store(state, key, None) == state;
        return false;
      }
      var entry := if key in state then state[key] else Entry(0, now, None);
      NewEntryCounts(p, now);
      entry := CountOne(entry, p, now);
      assert entry == Counted(slot, p, now);
      if entry.failures >= p.max && entry.blockedUntil.None? {
        entry := entry.(blockedUntil := Some(now + p.lockout));
        lockedOut := true;
      } else {
        lockedOut := false;
      }
      assert Recorded(Some(entry), lockedOut) == Fail(slot, full, p, now);
      state := state[key := entry];
    }

    method RecordSuccess(key: string)
      modifies this
      ensures state == old(state) - {key}
    {
      state := state - {key};
    }

    method Cleanup(now: int)
      modifies this
      ensures forall k :: Lookup(state, k) == Sweep(Lookup(old(state), k), now)
    {
      state := map k | k in state && Kept(state[k], now) :: state[k];
    }
  }
}
