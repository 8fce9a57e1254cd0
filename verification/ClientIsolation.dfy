/**
 Rate limits keep clients apart: what one client sends never changes what another is told. Many
 requests are evaluated at once, and each takes the limiter's lock anew for every rate limit.
 */
module ClientIsolation {
  import opened Basics
  import opened TokenBucket
  import opened Conditions
  import opened RuleEngine
  import Segments

  /** A request, by its client's address and a serial number. */
  datatype Ticket = Ticket(ip: string, serial: nat)

  /** How far an evaluation has come: decided, or about to check the rate limit that heads the list. */
  datatype Progress = Decided(d: Decision) | Waiting(rest: seq<Effect>)

  ghost predicate AtGuard(p: Progress) {
    p.Waiting? ==> p.rest != [] && p.rest[0].Guard?
  }

  /** Evaluation up to the next rate-limit check, which touches no shared state. */
  function Proceed(es: seq<Effect>): (p: Progress)
    ensures AtGuard(p)
  {
    if es == [] then Decided(DEFAULT_DECISION)
    else
      match es[0]
      case Pass => Proceed(es[1..])
      case Stop(d) => Decided(d)
      case Guard(_, _, _) => Waiting(es)
  }

  /** One rate-limit check under the lock, and evaluation up to the next one. */
  function CheckOne(es: seq<Effect>, t: Table, now: int): (Progress, Table)
    requires es != [] && es[0].Guard?
  {
    var (t', ok) := CheckTable(t, es[0].key, es[0].limits, now);
    (if ok then Proceed(es[1..]) else Decided(es[0].refusal), t')
  }

  /** An evaluation that nothing interrupts; the readings are those of `Resolve`. */
  ghost function Finish(p: Progress, nows: seq<int>, t: Table): (Decision, Table)
    requires AtGuard(p) && (p.Waiting? ==> |p.rest| <= |nows|)
    decreases if p.Waiting? then |p.rest| else 0
  {
    match p
    case Decided(d) => (d, t)
    case Waiting(es) =>
      var r := CheckOne(es, t, nows[|nows| - |es|]);
      ProceedShortens(es[1..]);
      Finish(r.0, nows, r.1)
  }

  lemma {:induction false} ProceedShortens(es: seq<Effect>)
    ensures Proceed(es).Waiting? ==> |Proceed(es).rest| <= |es|
  {
    if es != [] {
      ProceedShortens(es[1..]);
    }
  }

  /** Check by check, an uninterrupted evaluation decides what the rule loop decides. */
  lemma {:induction false} FinishResolves(es: seq<Effect>, nows: seq<int>, t: Table)
    requires |es| <= |nows|
    ensures Proceed(es).Waiting? ==> |Proceed(es).rest| <= |nows|
    ensures Finish(Proceed(es), nows, t) == Resolve(es, nows[|nows| - |es|..], t)
    decreases |es|
  {
    ProceedShortens(es);
    if es != [] {
      var own := nows[|nows| - |es|..];
      assert own[1..] == nows[|nows| - |es[1..]|..];
      match es[0] {
        case Pass => FinishResolves(es[1..], nows, t);
        case Stop(_) =>
        case Guard(key, l, _) => FinishResolves(es[1..], nows, CheckTable(t, key, l, nows[|nows| - |es|]).0);
      }
    }
  }

  /**
   A request is decided under the rules loaded when its evaluation begins. The checks of all
   requests and the cleanup ticks come in any order, with any clock readings.
   */
  datatype Event =
    | Begin(who: Ticket, rules: seq<Rule>, ctx: Context)
    | Check(who: Ticket, now: int)
    | Tick(now: int)

  /** The bucket table and the evaluations that wait for their next check. */
  datatype State = State(table: Table, waiting: map<Ticket, seq<Effect>>)

  ghost predicate WellFormed(s: State) {
    forall w :: w in s.waiting ==> s.waiting[w] != [] && s.waiting[w][0].Guard?
  }

  const START := State(map[], map[])

  function Parked(waiting: map<Ticket, seq<Effect>>, who: Ticket, p: Progress): map<Ticket, seq<Effect>> {
    match p
    case Decided(_) => waiting - {who}
    case Waiting(es) => waiting[who := es]
  }

  function DecisionOf(p: Progress): Option<Decision> {
    if p.Decided? then Some(p.d) else None
  }

  /** One event, and the decision that it comes to, if any; a check by no waiting request does nothing. */
  ghost function Step(libs: Libs, s: State, e: Event): (r: (State, Option<Decision>))
    requires WellFormed(s)
    ensures WellFormed(r.0)
  {
    match e
    case Begin(who, rules, ctx) =>
      var p := Proceed(Effects(libs, rules, ctx));
      (s.(waiting := Parked(s.waiting, who, p)), DecisionOf(p))
    case Check(who, now) =>
      if who !in s.waiting then (s, None)
      else
        var (p, t) := CheckOne(s.waiting[who], s.table, now);
        assert AtGuard(p);
        (State(t, Parked(s.waiting, who, p)), DecisionOf(p))
    case Tick(now) => (s.(table := SweepTable(s.table, now)), None)
  }

  ghost predicate From(e: Event, ip: string) {
    !e.Tick? && e.who.ip == ip
  }

  /** The decisions that one client's requests come to over a run, in order. */
  ghost function Decisions(libs: Libs, s: State, es: seq<Event>, ip: string): seq<(Ticket, Decision)>
    requires WellFormed(s)
    decreases es
  {
    if es == [] then []
    else
      var r := Step(libs, s, es[0]);
      (if From(es[0], ip) && r.1.Some? then [(es[0].who, r.1.value)] else []) + Decisions(libs, r.0, es[1..], ip)
  }

  /** The run without the events of other clients. */
  ghost function Only(es: seq<Event>, ip: string): seq<Event> {
    if es == [] then []
    else (if es[0].Tick? || From(es[0], ip) then [es[0]] else []) + Only(es[1..], ip)
  }

  /** The table has room left after every event of the run. */
  ghost predicate Roomy(libs: Libs, s: State, es: seq<Event>)
    requires WellFormed(s)
    decreases es
  {
    es != [] ==>
      var after := Step(libs, s, es[0]).0;
      |after.table| < MAX_RATE_LIMIT_BUCKETS && Roomy(libs, after, es[1..])
  }

  /** The bucket keys that a list of effects can check. */
  ghost function KeysOf(es: seq<Effect>): set<string> {
    set i | 0 <= i < |es| && es[i].Guard? :: es[i].key
  }

  /** The bucket keys that a beginning request can check. */
  ghost function KeysAt(libs: Libs, e: Event): set<string> {
    if e.Begin? then KeysOf(Effects(libs, e.rules, e.ctx)) else {}
  }

  /** No bucket key is used by requests of two clients. */
  ghost predicate KeysApart(libs: Libs, es: seq<Event>) {
    forall i, j :: 0 <= i < |es| && 0 <= j < |es| && es[i].Begin? && es[j].Begin? && es[i].who.ip != es[j].who.ip
      ==> KeysAt(libs, es[i]) !! KeysAt(libs, es[j])
  }

  /** `own` holds every key that the client's requests can check, and none that another's can. */
  ghost predicate Separates(libs: Libs, es: seq<Event>, ip: string, own: set<string>) {
    forall i :: 0 <= i < |es| && es[i].Begin? ==>
      if es[i].who.ip == ip then KeysAt(libs, es[i]) <= own else KeysAt(libs, es[i]) !! own
  }

  /** Colon-free names make keys unambiguous. */
  lemma KeysInjective(a: string, ipA: string, b: string, ipB: string)
    requires ':' !in a && ':' !in b
    requires BucketKey(a, ipA) == BucketKey(b, ipB)
    ensures a == b && ipA == ipB
  {
    Segments.SplitPrefix(a, ':', ipA);
    Segments.SplitPrefix(b, ':', ipB);
    assert a == ([a] + Segments.Split(ipA, ':'))[0] == b;
    assert ipA == BucketKey(a, ipA)[|a| + 1..] == ipB;
  }

  /** `x` continues one rule name and begins the other address. */
  ghost predicate Overlaps(shortName: string, longName: string, x: string, shortIp: string, longIp: string) {
    longName == shortName + ":" + x && longIp == x + ":" + shortIp
  }

  /** Exactly when two clients share a bucket: a name with a colon borrows the head of the other address. */
  lemma KeysCollideIff(a: string, ipA: string, b: string, ipB: string)
    requires ipA != ipB
    ensures BucketKey(a, ipA) == BucketKey(b, ipB) <==>
            exists x :: Overlaps(a, b, x, ipB, ipA) || Overlaps(b, a, x, ipA, ipB)
  {
    if BucketKey(a, ipA) == BucketKey(b, ipB) {
      if |a| < |b| {
        CollisionOverlaps(a, ipA, b, ipB);
      } else if |b| < |a| {
        CollisionOverlaps(b, ipB, a, ipA);
      } else {
        SameLengthKeys(a, ipA, b, ipB);
      }
    }
    forall x | Overlaps(a, b, x, ipB, ipA)
      ensures BucketKey(a, ipA) == BucketKey(b, ipB)
    {
      assert a + ":" + (x + ":" + ipB) == a + ":" + x + ":" + ipB;
    }
    forall x | Overlaps(b, a, x, ipA, ipB)
      ensures BucketKey(a, ipA) == BucketKey(b, ipB)
    {
      assert b + ":" + (x + ":" + ipA) == b + ":" + x + ":" + ipA;
    }
  }

  lemma SameLengthKeys(a: string, ipA: string, b: string, ipB: string)
    requires |a| == |b| && BucketKey(a, ipA) == BucketKey(b, ipB)
    ensures ipA == ipB
  {
    assert ipA == BucketKey(a, ipA)[|a| + 1..];
    assert ipB == BucketKey(b, ipB)[|b| + 1..];
  }

  lemma CollisionOverlaps(a: string, ipA: string, b: string, ipB: string)
    requires |a| < |b| && BucketKey(a, ipA) == BucketKey(b, ipB)
    ensures exists x :: Overlaps(a, b, x, ipB, ipA)
  {
    var k := BucketKey(a, ipA);
    var x := b[|a| + 1..];
    assert b == k[..|b|] && a == k[..|a|] && k[|a|] == ':';
    assert b == b[..|a|] + [b[|a|]] + x && b[..|a|] == a && b[|a|] == ':';
    assert ipA == k[|a| + 1..] && k == b + ":" + ipB;
    assert ipA == x + ":" + ipB;
    assert Overlaps(a, b, x, ipB, ipA);
  }

  /** `t'` holds this client's buckets only, and exactly those of `t`. */
  ghost predicate TablesAgree(t: Table, t': Table, own: set<string>) {
    && t'.Keys <= own
    && forall key :: key in own ==> Lookup(t, key) == Lookup(t', key)
  }

  /** The client's evaluations wait alike in both states, and nobody's can touch another's keys. */
  ghost predicate Agree(s: State, s': State, ip: string, own: set<string>) {
    && TablesAgree(s.table, s'.table, own)
    && (forall w :: w in s'.waiting ==> w.ip == ip)
    && (forall w :: w in s.waiting && w.ip == ip ==> KeysOf(s.waiting[w]) <= own)
    && (forall w :: w in s.waiting && w.ip != ip ==> KeysOf(s.waiting[w]) !! own)
    && (forall w: Ticket :: w.ip == ip ==> (w in s.waiting <==> w in s'.waiting))
    && (forall w :: w in s'.waiting && w in s.waiting ==> s.waiting[w] == s'.waiting[w])
  }

  lemma AgreeingKeys(t: Table, t': Table, own: set<string>)
    requires TablesAgree(t, t', own)
    ensures t'.Keys <= t.Keys
  {
    forall key | key in t'.Keys ensures key in t.Keys {
      assert Lookup(t, key) == Lookup(t', key);
    }
  }

  lemma RoomInBoth(t: Table, t': Table, key: string, l: Limits, now: int, own: set<string>)
    requires TablesAgree(t, t', own)
    requires |CheckTable(t, key, l, now).0| < MAX_RATE_LIMIT_BUCKETS
    ensures !Full(t) && !Full(t')
  {
    AgreeingKeys(t, t', own);
    SubtableSize(t', t);
    SubtableSize(t, CheckTable(t, key, l, now).0);
  }

  /** A check of the client's own, with room in the table. */
  lemma OwnCheck(t: Table, t': Table, key: string, l: Limits, now: int, own: set<string>)
    requires TablesAgree(t, t', own) && key in own
    requires |CheckTable(t, key, l, now).0| < MAX_RATE_LIMIT_BUCKETS
    ensures CheckTable(t, key, l, now).1 == CheckTable(t', key, l, now).1
    ensures TablesAgree(CheckTable(t, key, l, now).0, CheckTable(t', key, l, now).0, own)
  {
    RoomInBoth(t, t', key, l, now, own);
    var slot := Next(Lookup(t, key), false, l, now).slot;
    StoreFrame(t, key, slot);
    StoreFrame(t', key, slot);
  }

  /** Another client's check. */
  lemma ForeignCheck(t: Table, t': Table, key: string, l: Limits, now: int, own: set<string>)
    requires TablesAgree(t, t', own) && key !in own
    ensures TablesAgree(CheckTable(t, key, l, now).0, t', own)
  {
    StoreFrame(t, key, Next(Lookup(t, key), Full(t), l, now).slot);
  }

  lemma TickAgrees(t: Table, t': Table, now: int, own: set<string>)
    requires TablesAgree(t, t', own)
    ensures TablesAgree(SweepTable(t, now), SweepTable(t', now), own)
  {
    forall key | key in own
      ensures Lookup(SweepTable(t, now), key) == Lookup(SweepTable(t', now), key)
    {
      assert Lookup(t, key) == Lookup(t', key);
    }
  }

  /** Going on leaves only keys that were there before. */
  lemma {:induction false} ProceedKeys(es: seq<Effect>)
    ensures Proceed(es).Waiting? ==> KeysOf(Proceed(es).rest) <= KeysOf(es)
  {
    if es != [] {
      ProceedKeys(es[1..]);
      RestKeys(es);
    }
  }

  lemma RestKeys(es: seq<Effect>)
    requires es != []
    ensures KeysOf(es[1..]) <= KeysOf(es)
    ensures es[0].Guard? ==> es[0].key in KeysOf(es)
  {
    forall key | key in KeysOf(es[1..]) ensures key in KeysOf(es) {
      var i :| 0 <= i < |es[1..]| && es[1..][i].Guard? && es[1..][i].key == key;
      assert es[i + 1].Guard? && es[i + 1].key == key;
    }
  }

  /** The client's own evaluation parks, or ends, alike in both states. */
  lemma OwnParks(s: State, s': State, who: Ticket, p: Progress, own: set<string>)
    requires Agree(s, s', who.ip, own)
    requires p.Waiting? ==> KeysOf(p.rest) <= own
    ensures Agree(s.(waiting := Parked(s.waiting, who, p)), s'.(waiting := Parked(s'.waiting, who, p)), who.ip, own)
  {
  }

  lemma ForeignParks(s: State, s': State, who: Ticket, p: Progress, ip: string, own: set<string>)
    requires Agree(s, s', ip, own) && who.ip != ip
    requires p.Waiting? ==> KeysOf(p.rest) !! own
    ensures Agree(s.(waiting := Parked(s.waiting, who, p)), s', ip, own)
  {
  }

  lemma OwnCheckStep(libs: Libs, s: State, s': State, who: Ticket, now: int, own: set<string>)
    requires WellFormed(s) && WellFormed(s') && Agree(s, s', who.ip, own)
    requires |Step(libs, s, Check(who, now)).0.table| < MAX_RATE_LIMIT_BUCKETS
    ensures Step(libs, s, Check(who, now)).1 == Step(libs, s', Check(who, now)).1
    ensures Agree(Step(libs, s, Check(who, now)).0, Step(libs, s', Check(who, now)).0, who.ip, own)
  {
    if who in s.waiting {
      var es := s.waiting[who];
      RestKeys(es);
      ProceedKeys(es[1..]);
      OwnCheck(s.table, s'.table, es[0].key, es[0].limits, now, own);
      var (p, t) := CheckOne(es, s.table, now);
      OwnParks(s.(table := t), s'.(table := CheckOne(es, s'.table, now).1), who, p, own);
    }
  }

  lemma ForeignCheckStep(libs: Libs, s: State, s': State, who: Ticket, now: int, ip: string, own: set<string>)
    requires WellFormed(s) && Agree(s, s', ip, own) && who.ip != ip
    ensures Agree(Step(libs, s, Check(who, now)).0, s', ip, own)
  {
    if who in s.waiting {
      var es := s.waiting[who];
      RestKeys(es);
      ProceedKeys(es[1..]);
      ForeignCheck(s.table, s'.table, es[0].key, es[0].limits, now, own);
      var (p, t) := CheckOne(es, s.table, now);
      ForeignParks(s.(table := t), s', who, p, ip, own);
    }
  }

  /** One event of the full run, and what stands for it in the client's own run. */
  lemma StepAgrees(libs: Libs, s: State, s': State, e: Event, ip: string, own: set<string>)
    requires WellFormed(s) && WellFormed(s') && Agree(s, s', ip, own)
    requires e.Begin? ==> if e.who.ip == ip then KeysAt(libs, e) <= own else KeysAt(libs, e) !! own
    requires |Step(libs, s, e).0.table| < MAX_RATE_LIMIT_BUCKETS
    ensures From(e, ip) || e.Tick? ==>
              Step(libs, s, e).1 == Step(libs, s', e).1 && Agree(Step(libs, s, e).0, Step(libs, s', e).0, ip, own)
    ensures !From(e, ip) && !e.Tick? ==> Agree(Step(libs, s, e).0, s', ip, own)
  {
    match e {
      case Begin(who, rules, ctx) =>
        var es := Effects(libs, rules, ctx);
        ProceedKeys(es);
        if who.ip == ip {
          OwnParks(s, s', who, Proceed(es), own);
        } else {
          ForeignParks(s, s', who, Proceed(es), ip, own);
        }
      case Check(who, now) =>
        if who.ip == ip {
          OwnCheckStep(libs, s, s', who, now, own);
        } else {
          ForeignCheckStep(libs, s, s', who, now, ip, own);
        }
      case Tick(now) => TickAgrees(s.table, s'.table, now, own);
    }
  }

  lemma {:induction false} RunsAgree(libs: Libs, s: State, s': State, es: seq<Event>, ip: string, own: set<string>)
    requires WellFormed(s) && WellFormed(s') && Agree(s, s', ip, own)
    requires Separates(libs, es, ip, own) && Roomy(libs, s, es)
    ensures Decisions(libs, s, es, ip) == Decisions(libs, s', Only(es, ip), ip)
    decreases es
  {
    if es != [] {
      var e, rest := es[0], Only(es[1..], ip);
      StepAgrees(libs, s, s', e, ip, own);
      SeparatesRest(libs, es, ip, own);
      if e.Tick? || From(e, ip) {
        RunsAgree(libs, Step(libs, s, e).0, Step(libs, s', e).0, es[1..], ip, own);
        assert Only(es, ip) == [e] + rest && ([e] + rest)[1..] == rest;
      } else {
        RunsAgree(libs, Step(libs, s, e).0, s', es[1..], ip, own);
        assert Only(es, ip) == rest;
      }
    }
  }

  lemma SeparatesRest(libs: Libs, es: seq<Event>, ip: string, own: set<string>)
    requires Separates(libs, es, ip, own) && es != []
    ensures Separates(libs, es[1..], ip, own)
  {
  }

  /** All keys that a client's requests can check in a run. */
  ghost function OwnKeys(libs: Libs, es: seq<Event>, ip: string): set<string> {
    set i, key | 0 <= i < |es| && es[i].Begin? && es[i].who.ip == ip && key in KeysAt(libs, es[i]) :: key
  }

  /**
   From process start, with room in the table and no bucket key used by two clients, deleting
   every event of all other clients from a run leaves each decision for this client as it was.
   The checks of concurrent requests interleave freely, rules may change between requests, clock
   readings are arbitrary, and cleanup ticks stay in both runs.
   */
  lemma OtherClientsInvisible(libs: Libs, es: seq<Event>, ip: string)
    requires KeysApart(libs, es) && Roomy(libs, START, es)
    ensures Decisions(libs, START, es, ip) == Decisions(libs, START, Only(es, ip), ip)
  {
    var own := OwnKeys(libs, es, ip);
    assert Separates(libs, es, ip, own);
    RunsAgree(libs, START, START, es, ip, own);
  }

  /** Each evaluation knows its client's address, and no rule name contains a colon. */
  ghost predicate ColonFree(es: seq<Event>) {
    forall i :: 0 <= i < |es| && es[i].Begin? ==>
      es[i].ctx.clientIp == es[i].who.ip && forall j :: 0 <= j < |es[i].rules| ==> ':' !in es[i].rules[j].name
  }

  /** Every key that a request can check is one of its rules' names with its client's address. */
  lemma KeyNamesRule(libs: Libs, e: Event, key: string) returns (j: nat)
    requires key in KeysAt(libs, e)
    ensures j < |e.rules| && key == BucketKey(e.rules[j].name, e.ctx.clientIp)
  {
    var es := Effects(libs, e.rules, e.ctx);
    j :| 0 <= j < |es| && es[j].Guard? && es[j].key == key;
    assert es[j] == EffectOf(libs, e.rules[j], e.ctx);
  }

  /** Colon-free rule names keep all clients' keys apart. */
  lemma ColonFreeKeysApart(libs: Libs, es: seq<Event>)
    requires ColonFree(es)
    ensures KeysApart(libs, es)
  {
    forall i, j | 0 <= i < |es| && 0 <= j < |es| && es[i].Begin? && es[j].Begin? && es[i].who.ip != es[j].who.ip
      ensures KeysAt(libs, es[i]) !! KeysAt(libs, es[j])
    {
      forall key | key in KeysAt(libs, es[i]) && key in KeysAt(libs, es[j])
        ensures false
      {
        var m := KeyNamesRule(libs, es[i], key);
        var n := KeyNamesRule(libs, es[j], key);
        KeysInjective(es[i].rules[m].name, es[i].who.ip, es[j].rules[n].name, es[j].who.ip);
      }
    }
  }

  const ONE_PER_MINUTE := Limits(1, 60, 0)

  /** A rate limit of one request per minute for every request. */
  function OnePerMinute(name: string): Rule {
    Rule(name, RateLimit, None, [And([])], None, None, None, None, Some(ONE_PER_MINUTE), None)
  }

  function TooMany(name: string): Decision {
    Decision(Denied(429, "Rate limit exceeded"), Some(name), Some(RateLimit), false)
  }

  /** The two checks that every request makes under limits named `a` and `a:1`. */
  function TwoGuards(ip: string): seq<Effect> {
    [Guard(BucketKey("a", ip), ONE_PER_MINUTE, TooMany("a")), Guard(BucketKey("a:1", ip), ONE_PER_MINUTE, TooMany("a:1"))]
  }

  /** The events of the second client: it begins and makes both checks. */
  ghost function SecondAlone(second: Context): seq<Event> {
    var rules, own := [OnePerMinute("a"), OnePerMinute("a:1")], Ticket("2::3", 0);
    [Begin(own, rules, second)] + ([Check(own, 0)] + ([Check(own, 0)] + []))
  }

  /** Before them, the first client begins and makes one check. */
  ghost function CollidingRun(first: Context, second: Context): seq<Event> {
    var rules, other := [OnePerMinute("a"), OnePerMinute("a:1")], Ticket("1:2::3", 0);
    [Begin(other, rules, first)] + ([Check(other, 0)] + SecondAlone(second))
  }

  lemma TwoGuardsBegin(libs: Libs, ctx: Context)
    ensures Effects(libs, [OnePerMinute("a"), OnePerMinute("a:1")], ctx) == TwoGuards(ctx.clientIp)
  {
    var rules := [OnePerMinute("a"), OnePerMinute("a:1")];
    forall i | 0 <= i < 2 ensures EffectOf(libs, rules[i], ctx) == TwoGuards(ctx.clientIp)[i] {
      assert EvaluateNode(libs, And([]), ctx);
    }
  }

  /** The bucket that one call to a new key leaves. */
  const SPENT := Bucket(0, 0.0, 1.0, None)

  lemma FirstCall(t: Table, key: string)
    requires key !in t && !Full(t)
    ensures CheckTable(t, key, ONE_PER_MINUTE, 0) == (t[key := SPENT], true)
  {
  }

  lemma SecondCall(t: Table, key: string)
    requires key in t && t[key] == SPENT
    ensures !CheckTable(t, key, ONE_PER_MINUTE, 0).1
  {
    RefillZero(ONE_PER_MINUTE);
  }

  lemma FirstEvent(libs: Libs, s: State, e: Event, rest: seq<Event>, ip: string)
    requires WellFormed(s)
    ensures var r := Step(libs, s, e);
            Decisions(libs, s, [e] + rest, ip)
              == (if From(e, ip) && r.1.Some? then [(e.who, r.1.value)] else []) + Decisions(libs, r.0, rest, ip)
  {
    assert ([e] + rest)[1..] == rest;
  }

  lemma FirstKept(e: Event, rest: seq<Event>, ip: string)
    ensures Only([e] + rest, ip) == (if e.Tick? || From(e, ip) then [e] else []) + Only(rest, ip)
  {
    assert ([e] + rest)[1..] == rest;
  }

  lemma RequestBegins(libs: Libs, s: State, who: Ticket, ctx: Context)
    requires WellFormed(s)
    ensures Step(libs, s, Begin(who, [OnePerMinute("a"), OnePerMinute("a:1")], ctx))
         == (State(s.table, s.waiting[who := TwoGuards(ctx.clientIp)]), None)
  {
    TwoGuardsBegin(libs, ctx);
  }

  lemma FirstCheck(libs: Libs, s: State, who: Ticket, ip: string)
    requires WellFormed(s) && who in s.waiting && s.waiting[who] == TwoGuards(ip)
    requires BucketKey("a", ip) !in s.table && !Full(s.table)
    ensures Step(libs, s, Check(who, 0))
         == (State(s.table[BucketKey("a", ip) := SPENT], s.waiting[who := [TwoGuards(ip)[1]]]), None)
  {
    FirstCall(s.table, BucketKey("a", ip));
    assert TwoGuards(ip)[1..] == [TwoGuards(ip)[1]];
  }

  lemma LastCheck(libs: Libs, s: State, who: Ticket, ip: string)
    requires WellFormed(s) && who in s.waiting && s.waiting[who] == [TwoGuards(ip)[1]] && !Full(s.table)
    ensures var key := BucketKey("a:1", ip);
            && (key !in s.table ==> Step(libs, s, Check(who, 0)).1 == Some(DEFAULT_DECISION))
            && (key in s.table && s.table[key] == SPENT ==> Step(libs, s, Check(who, 0)).1 == Some(TooMany("a:1")))
  {
    var key := BucketKey("a:1", ip);
    assert [TwoGuards(ip)[1]][1..] == [];
    if key !in s.table {
      FirstCall(s.table, key);
    } else if s.table[key] == SPENT {
      SecondCall(s.table, key);
    }
  }

  /** What the second client is told, from a table in which only its second key may be taken. */
  lemma SecondDecision(libs: Libs, s: State, second: Context)
    requires WellFormed(s) && second.clientIp == "2::3"
    requires s.table == map[] || s.table == map[BucketKey("a:1", "2::3") := SPENT]
    ensures Decisions(libs, s, SecondAlone(second), "2::3")
         == [(Ticket("2::3", 0), if s.table == map[] then DEFAULT_DECISION else TooMany("a:1"))]
  {
    var own, rules := Ticket("2::3", 0), [OnePerMinute("a"), OnePerMinute("a:1")];
    var check := Check(own, 0);
    assert BucketKey("a", "2::3")[2] != BucketKey("a:1", "2::3")[2];
    RequestBegins(libs, s, own, second);
    var s1 := Step(libs, s, Begin(own, rules, second)).0;
    FirstCheck(libs, s1, own, "2::3");
    var s2 := Step(libs, s1, check).0;
    LastCheck(libs, s2, own, "2::3");
    FirstEvent(libs, s, Begin(own, rules, second), [check] + ([check] + []), "2::3");
    FirstEvent(libs, s1, check, [check] + [], "2::3");
    FirstEvent(libs, s2, check, [], "2::3");
  }

  lemma SecondKept(second: Context)
    ensures Only(SecondAlone(second), "2::3") == SecondAlone(second)
  {
    var own, rules := Ticket("2::3", 0), [OnePerMinute("a"), OnePerMinute("a:1")];
    var check := Check(own, 0);
    FirstKept(Begin(own, rules, second), [check] + ([check] + []), "2::3");
    FirstKept(check, [check] + [], "2::3");
    FirstKept(check, [], "2::3");
  }

  /** With colons in rule names it does happen: the second client is refused because of the first. */
  lemma CollisionExample(libs: Libs, first: Context, second: Context)
    requires first.clientIp == "1:2::3" && second.clientIp == "2::3"
    ensures Only(CollidingRun(first, second), "2::3") == SecondAlone(second)
    ensures Decisions(libs, START, CollidingRun(first, second), "2::3") == [(Ticket("2::3", 0), TooMany("a:1"))]
    ensures Decisions(libs, START, SecondAlone(second), "2::3") == [(Ticket("2::3", 0), DEFAULT_DECISION)]
  {
    var other, rules := Ticket("1:2::3", 0), [OnePerMinute("a"), OnePerMinute("a:1")];
    var begin, check := Begin(other, rules, first), Check(other, 0);
    RequestBegins(libs, START, other, first);
    var s1 := Step(libs, START, begin).0;
    FirstCheck(libs, s1, other, "1:2::3");
    var s2 := Step(libs, s1, check).0;
    assert BucketKey("a", "1:2::3") == BucketKey("a:1", "2::3");
    FirstEvent(libs, START, begin, [check] + SecondAlone(second), "2::3");
    FirstEvent(libs, s1, check, SecondAlone(second), "2::3");
    SecondDecision(libs, s2, second);
    SecondDecision(libs, START, second);
    FirstKept(begin, [check] + SecondAlone(second), "2::3");
    FirstKept(check, SecondAlone(second), "2::3");
    SecondKept(second);
  }
}
