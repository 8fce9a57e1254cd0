/** Small shared vocabulary: optional values, map slots and the monotonic clock. */
module Basics {

  datatype Option<+T> = None | Some(value: T)

  /** The entry a table holds for a key, if any. */
  function Lookup<V>(table: map<string, V>, key: string): Option<V> {
    if key in table then Some(table[key]) else None
  }

  /** The table with a key's entry replaced, or dropped when the new slot is empty. */
  function Store<V>(table: map<string, V>, key: string, slot: Option<V>): map<string, V> {
    match slot
    case None => table - {key}
    case Some(v) => table[key := v]
  }

  /** Storing into one key's slot is read back there and nowhere else. */
  lemma StoreFrame<V>(table: map<string, V>, key: string, slot: Option<V>)
    ensures Lookup(Store(table, key, slot), key) == slot
    ensures forall k :: k != key ==> Lookup(Store(table, key, slot), k) == Lookup(table, k)
    ensures slot == Lookup(table, key) ==> Store(table, key, slot) == table
  {
  }

  /** n * x by repeated addition. */
  ghost function Times(n: nat, x: nat): nat {
    if n == 0 then 0 else Times(n - 1, x) + x
  }

  lemma {:induction false} TimesIsProduct(n: nat, x: nat)
    ensures Times(n, x) == n * x
  {
    if n > 0 {
      TimesIsProduct(n - 1, x);
      assert n * x == (n - 1) * x + x;
    }
  }

  /** A table whose keys are all in another has no more entries. */
  lemma SubtableSize<V>(small: map<string, V>, large: map<string, V>)
    requires small.Keys <= large.Keys
    ensures |small| <= |large|
  {
    assert large.Keys == small.Keys + (large.Keys - small.Keys);
    assert |small| == |small.Keys| && |large| == |large.Keys|;
  }

  /** A measure of the entries, added up over a table. */
  ghost function SumOver<V>(m: map<string, V>, f: V -> nat): nat {
    if m == map[] then 0
    else
      var k :| k in m;
      f(m[k]) + SumOver(m - {k}, f)
  }

  /** The sum does not depend on which entry is taken first. */
  lemma {:induction false} SumSplits<V>(m: map<string, V>, f: V -> nat, k: string)
    requires k in m
    ensures SumOver(m, f) == f(m[k]) + SumOver(m - {k}, f)
    decreases |m|
  {
    var c :| c in m && SumOver(m, f) == f(m[c]) + SumOver(m - {c}, f);
    if c != k {
      SumSplits(m - {c}, f, k);
      SumSplits(m - {k}, f, c);
      assert m - {c} - {k} == m - {k} - {c};
    }
  }

  /** A result with a prefix put back in front of it. */
  ghost function Prefixed<T>(walked: seq<T>, rest: Option<seq<T>>): Option<seq<T>> {
    if rest.None? then None else Some(walked + rest.value)
  }

  lemma PrefixedNothing<T>(rest: Option<seq<T>>)
    ensures Prefixed([], rest) == rest
  {
    if rest.Some? {
      assert [] + rest.value == rest.value;
    }
  }

  lemma PrefixedStep<T>(walked: seq<T>, x: T, rest: Option<seq<T>>)
    ensures Prefixed(walked, if rest.None? then None else Some([x] + rest.value)) == Prefixed(walked + [x], rest)
  {
    if rest.Some? {
      assert walked + ([x] + rest.value) == walked + [x] + rest.value;
    }
  }
}

/**
 Readings of the process-wide monotonic clock, in nanoseconds. Subtracting a later reading
 from an earlier one saturates at zero, as `Instant` subtraction does.
 */
module Clock {
  const NANOS := 1_000_000_000

  function Since(now: int, earlier: int): (elapsed: nat)
    ensures elapsed >= now - earlier
    ensures elapsed == 0 || earlier + elapsed == now
  {
    if now >= earlier then now - earlier else 0
  }
}
