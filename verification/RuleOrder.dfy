/** The stable priority order in which a loaded configuration keeps its rules. */
module RuleOrder {
  import opened Basics
  import opened RuleEngine

  function PriorityOf(r: Rule): nat {
    OrElse(r.priority, 0)
  }

  ghost predicate Descending(rules: seq<Rule>) {
    forall i, j :: 0 <= i < j < |rules| ==> PriorityOf(rules[i]) >= PriorityOf(rules[j])
  }

  /** The rules of one priority, in list order. */
  ghost function Band(rules: seq<Rule>, p: nat): seq<Rule> {
    if rules == [] then []
    else (if PriorityOf(rules[0]) == p then [rules[0]] else []) + Band(rules[1..], p)
  }

  /** A reordering that keeps the relative order of rules of equal priority. */
  ghost predicate SameBands(a: seq<Rule>, b: seq<Rule>) {
    forall p :: Band(a, p) == Band(b, p)
  }

  lemma BandOfRest(rules: seq<Rule>, p: nat)
    requires rules != []
    ensures Band(rules, p) == (if PriorityOf(rules[0]) == p then [rules[0]] else []) + Band(rules[1..], p)
    ensures Band(rules[1..], p) == if PriorityOf(rules[0]) == p then Band(rules, p)[1..] else Band(rules, p)
  {
  }

  function Insert(r: Rule, sorted: seq<Rule>): seq<Rule> {
    if sorted == [] || PriorityOf(sorted[0]) <= PriorityOf(r) then [r] + sorted
    else [sorted[0]] + Insert(r, sorted[1..])
  }

  function StableSort(rules: seq<Rule>): seq<Rule> {
    if rules == [] then [] else Insert(rules[0], StableSort(rules[1..]))
  }

  lemma {:induction false} InsertOrders(r: Rule, sorted: seq<Rule>)
    requires Descending(sorted)
    ensures Descending(Insert(r, sorted))
    ensures forall x :: x in Insert(r, sorted) ==> x == r || x in sorted
  {
    if !(sorted == [] || PriorityOf(sorted[0]) <= PriorityOf(r)) {
      InsertOrders(r, sorted[1..]);
      var rest := Insert(r, sorted[1..]);
      forall i | 0 <= i < |rest| ensures PriorityOf(sorted[0]) >= PriorityOf(rest[i]) {
        assert rest[i] in rest;
      }
    }
  }

  /** The new rule comes before all others of its priority. */
  lemma {:induction false} InsertBands(r: Rule, sorted: seq<Rule>, p: nat)
    ensures Band(Insert(r, sorted), p) == (if PriorityOf(r) == p then [r] else []) + Band(sorted, p)
  {
    if sorted == [] || PriorityOf(sorted[0]) <= PriorityOf(r) {
      BandOfRest([r] + sorted, p);
      assert ([r] + sorted)[1..] == sorted;
    } else {
      var rest := Insert(r, sorted[1..]);
      InsertBands(r, sorted[1..], p);
      assert ([sorted[0]] + rest)[1..] == rest;
      BandOfRest([sorted[0]] + rest, p);
      BandOfRest(sorted, p);
    }
  }

  lemma {:induction false} SortOrders(rules: seq<Rule>)
    ensures Descending(StableSort(rules))
    ensures SameBands(StableSort(rules), rules)
  {
    if rules != [] {
      SortOrders(rules[1..]);
      InsertOrders(rules[0], StableSort(rules[1..]));
      forall p ensures Band(StableSort(rules), p) == Band(rules, p) {
        InsertBands(rules[0], StableSort(rules[1..]), p);
        BandOfRest(rules, p);
      }
    }
  }

  lemma {:induction false} BandAboveHead(rules: seq<Rule>, p: nat)
    requires forall i :: 0 <= i < |rules| ==> PriorityOf(rules[i]) < p
    ensures Band(rules, p) == []
  {
    if rules != [] {
      BandAboveHead(rules[1..], p);
    }
  }

  /** The head begins the highest band. */
  lemma HeadOfBand(rules: seq<Rule>, p: nat)
    requires Descending(rules) && Band(rules, p) != []
    ensures rules != [] && PriorityOf(rules[0]) >= p
  {
    if rules != [] && PriorityOf(rules[0]) < p {
      BandAboveHead(rules, p);
    }
  }

  lemma HeadsAgree(a: seq<Rule>, b: seq<Rule>)
    requires Descending(a) && Descending(b) && SameBands(a, b)
    requires a != [] || b != []
    ensures a != [] && b != [] && a[0] == b[0]
  {
    if a != [] {
      BandOfRest(a, PriorityOf(a[0]));
      HeadOfBand(b, PriorityOf(a[0]));
    }
    if b != [] {
      BandOfRest(b, PriorityOf(b[0]));
      HeadOfBand(a, PriorityOf(b[0]));
    }
    assert Band(a, PriorityOf(a[0])) == Band(b, PriorityOf(a[0]));
  }

  /** Priority order and the order within each priority leave only one list. */
  lemma {:induction false} OrderIsUnique(a: seq<Rule>, b: seq<Rule>)
    requires Descending(a) && Descending(b) && SameBands(a, b)
    ensures a == b
  {
    if a == [] && b == [] {
      return;
    }
    HeadsAgree(a, b);
    forall p ensures Band(a[1..], p) == Band(b[1..], p) {
      BandOfRest(a, p);
      BandOfRest(b, p);
    }
    OrderIsUnique(a[1..], b[1..]);
  }

  /** In field terms: a rule never comes after one of lower priority, and no priority counts as zero. */
  lemma DescendingMeans(rules: seq<Rule>)
    ensures Descending(rules) <==>
              forall i, j :: 0 <= i < j < |rules| ==>
                (rules[j].priority.Some? && rules[j].priority.value > 0 ==>
                   rules[i].priority.Some? && rules[i].priority.value >= rules[j].priority.value)
  {
  }

  /** The rules of one priority, those without one counting as zero, keep their number and order. */
  lemma {:induction false} BandMeans(rules: seq<Rule>, p: nat)
    ensures forall r :: r in Band(rules, p) <==> r in rules && (if r.priority.Some? then r.priority.value == p else p == 0)
    ensures multiset(Band(rules, p)) <= multiset(rules)
  {
    if rules != [] {
      BandMeans(rules[1..], p);
      assert rules == [rules[0]] + rules[1..];
    }
  }

  /** The loaded configuration, as far as rule order goes. */
  class ProxyConfig {
    var rules: Option<seq<Rule>>

    constructor (rules: Option<seq<Rule>>)
      ensures this.rules == rules
    {
      this.rules := rules;
    }

    method SortRulesByPriority()
      modifies this
      ensures rules.Some? == old(rules).Some?
      ensures rules.Some? ==> Descending(rules.value) && SameBands(rules.value, old(rules).value)
    {
      if rules.Some? {
        SortOrders(rules.value);
        rules := Some(StableSort(rules.value));
      }
    }
  }

  /**
   Any two declarations that list the rules of each priority in the same order load as the same
   list, and so decide every request alike, with the same limiter state and the same filters.
   */
  lemma DeclarationOrderIrrelevant(a: seq<Rule>, b: seq<Rule>, sortedA: seq<Rule>, sortedB: seq<Rule>)
    requires SameBands(a, b)
    requires Descending(sortedA) && SameBands(sortedA, a)
    requires Descending(sortedB) && SameBands(sortedB, b)
    ensures sortedA == sortedB == StableSort(a)
    ensures forall libs, nows, ctx, t | |nows| == |sortedA| ::
              Decide(libs, sortedA, nows, ctx, t) == Decide(libs, sortedB, nows, ctx, t)
    ensures forall libs, ctx :: Collected(libs, sortedA, ctx) == Collected(libs, sortedB, ctx)
  {
    SortOrders(a);
    forall p ensures Band(sortedA, p) == Band(sortedB, p) && Band(sortedA, p) == Band(StableSort(a), p) {
      assert Band(sortedA, p) == Band(a, p);
      assert Band(sortedB, p) == Band(b, p);
      assert Band(a, p) == Band(b, p);
      assert Band(StableSort(a), p) == Band(a, p);
    }
    OrderIsUnique(sortedA, sortedB);
    OrderIsUnique(sortedA, StableSort(a));
  }
}
