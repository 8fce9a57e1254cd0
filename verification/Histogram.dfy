/** The upstream latency histogram: where an observation is placed and what the exposition shows. */
module Histogram {

  const U64: nat := 0x1_0000_0000_0000_0000
  const BUCKETS := 12
  const LATENCY_BUCKETS_MS: seq<nat> := [5, 10, 25, 50, 100, 250, 500, 1000, 2500, 5000, 10000]

  /** How many observed values satisfy `ms <= bound`. */
  ghost function AtMost(observed: seq<nat>, bound: nat): nat {
    if observed == [] then 0
    else AtMost(observed[..|observed| - 1], bound) + if observed[|observed| - 1] <= bound then 1 else 0
  }

  ghost function Total(observed: seq<nat>): nat {
    if observed == [] then 0 else Total(observed[..|observed| - 1]) + observed[|observed| - 1]
  }

  /** How many observed values belong to bucket `i` alone: above the bound before it, within its own. */
  ghost function Within(observed: seq<nat>, i: nat): nat
    requires i < BUCKETS
  {
    if observed == [] then 0
    else Within(observed[..|observed| - 1], i) + if Belongs(observed[|observed| - 1], i) then 1 else 0
  }

  ghost predicate Belongs(ms: nat, i: nat)
    requires i < BUCKETS
  {
    && (i > 0 ==> LATENCY_BUCKETS_MS[i - 1] < ms)
    && (i < BUCKETS - 1 ==> ms <= LATENCY_BUCKETS_MS[i])
  }

  ghost function WithinUpTo(observed: seq<nat>, n: nat): nat
    requires n <= BUCKETS
  {
    if n == 0 then 0 else WithinUpTo(observed, n - 1) + Within(observed, n - 1)
  }

  lemma BoundsAscend()
    ensures |LATENCY_BUCKETS_MS| == BUCKETS - 1
    ensures forall i, j :: 0 <= i < j < BUCKETS - 1 ==> LATENCY_BUCKETS_MS[i] < LATENCY_BUCKETS_MS[j]
  {
  }

  /** Adding one observation adds it to the buckets up to `n` when it is within their bounds. */
  lemma {:induction false} WithinUpToStep(observed: seq<nat>, ms: nat, n: nat)
    requires n <= BUCKETS
    ensures WithinUpTo(observed + [ms], n)
         == WithinUpTo(observed, n) + if n == BUCKETS || (n > 0 && ms <= LATENCY_BUCKETS_MS[n - 1]) then 1 else 0
  {
    if n > 0 {
      BoundsAscend();
      WithinUpToStep(observed, ms, n - 1);
      assert (observed + [ms])[..|observed|] == observed;
    }
  }

  /** Bucket counts added up are the counts of values within each bound, and all values at the end. */
  lemma {:induction false} CumulativeCounts(observed: seq<nat>, n: nat)
    requires n <= BUCKETS
    ensures n == BUCKETS ==> WithinUpTo(observed, n) == |observed|
    ensures 0 < n < BUCKETS ==> WithinUpTo(observed, n) == AtMost(observed, LATENCY_BUCKETS_MS[n - 1])
  {
    if observed == [] {
      NothingWithin(n);
    } else {
      var prior, ms := observed[..|observed| - 1], observed[|observed| - 1];
      CumulativeCounts(prior, n);
      WithinUpToStep(prior, ms, n);
      assert prior + [ms] == observed;
    }
  }

  lemma {:induction false} NothingWithin(n: nat)
    requires n <= BUCKETS
    ensures WithinUpTo([], n) == 0
  {
    if n > 0 {
      NothingWithin(n - 1);
    }
  }

  lemma {:induction false} WithinAtMostAll(observed: seq<nat>, n: nat)
    requires n <= BUCKETS
    ensures WithinUpTo(observed, n) <= |observed|
  {
    if observed == [] {
      NothingWithin(n);
    } else {
      var prior, ms := observed[..|observed| - 1], observed[|observed| - 1];
      WithinAtMostAll(prior, n);
      WithinUpToStep(prior, ms, n);
      assert prior + [ms] == observed;
    }
  }

  lemma WithinStep(observed: seq<nat>, ms: nat, i: nat)
    requires i < BUCKETS
    ensures Within(observed + [ms], i) == Within(observed, i) + if Belongs(ms, i) then 1 else 0
  {
    assert (observed + [ms])[..|observed|] == observed;
  }

  /** An observation belongs to the first bucket whose bound it does not exceed, and to no other. */
  lemma BelongsIff(ms: nat, placed: nat, i: nat)
    requires placed < BUCKETS && i < BUCKETS
    requires placed < BUCKETS - 1 ==> ms <= LATENCY_BUCKETS_MS[placed]
    requires forall j :: 0 <= j < placed ==> LATENCY_BUCKETS_MS[j] < ms
    ensures Belongs(ms, i) <==> i == placed
  {
    BoundsAscend();
  }

  lemma WrapAdd(x: nat, d: nat)
    ensures (x % U64 + d) % U64 == (x + d) % U64
  {
  }

  /** What one more observation, placed in bucket `placed`, makes of the three kinds of atomics. */
  lemma ObservedCounts(observed: seq<nat>, ms: nat, placed: nat)
    requires placed < BUCKETS
    requires placed < BUCKETS - 1 ==> ms <= LATENCY_BUCKETS_MS[placed]
    requires forall j :: 0 <= j < placed ==> LATENCY_BUCKETS_MS[j] < ms
    ensures Total(observed + [ms]) % U64 == (Total(observed) % U64 + ms) % U64
    ensures |observed + [ms]| % U64 == (|observed| % U64 + 1) % U64
    ensures Within(observed + [ms], placed) % U64 == (Within(observed, placed) % U64 + 1) % U64
    ensures forall j :: 0 <= j < BUCKETS && j != placed ==> Within(observed + [ms], j) == Within(observed, j)
  {
    WrapAdd(Total(observed), ms);
    WrapAdd(|observed|, 1);
    WrapAdd(Within(observed, placed), 1);
    assert (observed + [ms])[..|observed|] == observed;
    forall j | 0 <= j < BUCKETS
      ensures Within(observed + [ms], j) == Within(observed, j) + if j == placed then 1 else 0
    {
      WithinStep(observed, ms, j);
      BelongsIff(ms, placed, j);
    }
  }

  /** Below 2^64 neither the wrap of a bucket nor the saturation of the sum shows. */
  lemma PartialSumsFit(observed: seq<nat>, i: nat)
    requires i < BUCKETS && |observed| < U64
    ensures SaturatingAdd(WithinUpTo(observed, i), Within(observed, i) % U64) == WithinUpTo(observed, i + 1)
  {
    WithinAtMostAll(observed, i + 1);
  }

  function SaturatingAdd(a: nat, b: nat): nat {
    if a + b >= U64 then U64 - 1 else a + b
  }

  /** The atomics wrap at 2^64; `observed` is the history they stand for. */
  class LatencyHistogram {
    const buckets: array<nat>
    var sumMs: nat
    var count: nat
    ghost var observed: seq<nat>

    ghost predicate Valid()
      reads this, buckets
    {
      && buckets.Length == BUCKETS
      && sumMs == Total(observed) % U64
      && count == |observed| % U64
      && forall i :: 0 <= i < BUCKETS ==> buckets[i] == Within(observed, i) % U64
    }

    constructor ()
      ensures Valid() && observed == [] && fresh(buckets)
    {
      buckets := new nat[BUCKETS](i => 0);
      sumMs, count := 0, 0;
      observed := [];
    }

    method Observe(ms: nat)
      requires Valid()
      modifies this, buckets
      ensures Valid() && observed == old(observed) + [ms]
    {
      sumMs := (sumMs + ms) % U64;
      count := (count + 1) % U64;
      var placed := Placement(ms);
      ObservedCounts(observed, ms, placed);
      buckets[placed] := (buckets[placed] + 1) % U64;
      observed := observed + [ms];
    }

    /** The first bucket whose bound the value does not exceed, or the last one. */
    method Placement(ms: nat) returns (placed: nat)
      ensures placed < BUCKETS
      ensures placed < BUCKETS - 1 ==> ms <= LATENCY_BUCKETS_MS[placed]
      ensures forall j :: 0 <= j < placed ==> LATENCY_BUCKETS_MS[j] < ms
    {
      placed := BUCKETS - 1;
      var i := 0;
      while i < BUCKETS - 1
        invariant 0 <= i <= BUCKETS - 1 && placed == BUCKETS - 1
        invariant forall j :: 0 <= j < i ==> LATENCY_BUCKETS_MS[j] < ms
      {
        if ms <= LATENCY_BUCKETS_MS[i] {
          placed := i;
          break;
        }
        i := i + 1;
      }
    }

    /** The numbers of the exposition: one per bound, then `+Inf`, the sum and the count. */
    method Render() returns (lines: seq<nat>, inf: nat, sum: nat, n: nat)
      requires Valid()
      ensures |lines| == BUCKETS - 1
      ensures |observed| < U64 ==>
                forall i :: 0 <= i < BUCKETS - 1 ==> lines[i] == AtMost(observed, LATENCY_BUCKETS_MS[i])
      ensures |observed| < U64 ==> inf == n == |observed|
      ensures sum == Total(observed) % U64
    {
      var snapshot := buckets[..];
      var cumulative := 0;
      lines := [];
      for i := 0 to BUCKETS - 1
        invariant |lines| == i
        invariant |observed| < U64 ==> cumulative == WithinUpTo(observed, i)
        invariant |observed| < U64 ==>
                    forall j :: 0 <= j < i ==> lines[j] == AtMost(observed, LATENCY_BUCKETS_MS[j])
      {
        if |observed| < U64 {
          PartialSumsFit(observed, i);
          CumulativeCounts(observed, i + 1);
        }
        cumulative := SaturatingAdd(cumulative, snapshot[i]);
        lines := lines + [cumulative];
      }
      if |observed| < U64 {
        PartialSumsFit(observed, BUCKETS - 1);
        CumulativeCounts(observed, BUCKETS);
      }
      inf := SaturatingAdd(cumulative, snapshot[BUCKETS - 1]);
      sum, n := sumMs, count;
    }
  }
}
