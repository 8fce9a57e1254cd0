/** Evaluation of a rule list against one request, with its rate-limiter side effects. */
module RuleEngine {
  import opened Basics
  import opened TokenBucket
  import opened Conditions
  import ResponseFilters

  datatype Action = Deny | Allow | RequireRole | ResponseFilter | RateLimit | OtherAction

  datatype Rule = Rule(
    name: string, action: Action, priority: Option<nat>, conditions: seq<Node>,
    message: Option<string>, role: Option<string>, status: Option<nat>,
    responseFilter: Option<seq<ResponseFilters.Filter>>, rateLimit: Option<Limits>, dryRun: Option<bool>)

  datatype Verdict = Allowed | Denied(status: nat, message: string)

  datatype Decision = Decision(verdict: Verdict, ruleName: Option<string>, action: Option<Action>, dryRun: bool)

  const DEFAULT_DECISION := Decision(Allowed, None, None, false)

  function OrElse<T>(o: Option<T>, default: T): T {
    if o.Some? then o.value else default
  }

  predicate Matches(libs: Libs, rule: Rule, ctx: Context) {
    rule.conditions != [] && forall i :: 0 <= i < |rule.conditions| ==> EvaluateNode(libs, rule.conditions[i], ctx)
  }

  /** The role check passes for `admin` and for the required role. */
  predicate RoleSatisfied(rule: Rule, ctx: Context) {
    OrElse(ctx.userRole, "") == "admin" || OrElse(ctx.userRole, "") == OrElse(rule.role, "admin")
  }

  function BucketKey(name: string, clientIp: string): string {
    name + ":" + clientIp
  }

  function Refusal(rule: Rule, status: nat, message: string): Decision {
    if OrElse(rule.dryRun, false) then Decision(Allowed, Some(rule.name), Some(rule.action), true)
    else Decision(Denied(OrElse(rule.status, status), OrElse(rule.message, message)), Some(rule.name), Some(rule.action), false)
  }

  /** What a rule does to a request: nothing, end the evaluation, or end it if a bucket is empty. */
  datatype Effect = Pass | Stop(decision: Decision) | Guard(key: string, limits: Limits, refusal: Decision)

  function EffectOf(libs: Libs, rule: Rule, ctx: Context): Effect {
    if !Matches(libs, rule, ctx) then Pass
    else match rule.action
      case Deny => Stop(Refusal(rule, 403, "Forbidden by rule"))
      case Allow => Stop(Decision(Allowed, Some(rule.name), Some(Allow), false))
      case RequireRole =>
        if RoleSatisfied(rule, ctx) then Pass
        else Stop(Refusal(rule, 403, "Role '" + OrElse(rule.role, "admin") + "' required"))
      case RateLimit =>
        if OrElse(rule.dryRun, false) || rule.rateLimit.None? then Pass
        else Guard(BucketKey(rule.name, ctx.clientIp), rule.rateLimit.value, Refusal(rule, 429, "Rate limit exceeded"))
      case _ => Pass
  }

  function Effects(libs: Libs, rules: seq<Rule>, ctx: Context): (es: seq<Effect>)
    ensures |es| == |rules|
  {
    seq(|rules|, i requires 0 <= i < |rules| => EffectOf(libs, rules[i], ctx))
  }

  /** Effects in list order; `nows` holds the clock reading that each guard's check would take. */
  function Resolve(es: seq<Effect>, nows: seq<int>, t: Table): (Decision, Table)
    requires |nows| == |es|
  {
    if es == [] then (DEFAULT_DECISION, t)
    else
      match es[0]
      case Pass => Resolve(es[1..], nows[1..], t)
      case Stop(d) => (d, t)
      case Guard(key, l, refusal) =>
        var (t', ok) := CheckTable(t, key, l, nows[0]);
        if ok then Resolve(es[1..], nows[1..], t') else (refusal, t')
  }

  function Decide(libs: Libs, rules: seq<Rule>, nows: seq<int>, ctx: Context, t: Table): (Decision, Table)
    requires |nows| == |rules|
  {
    Resolve(Effects(libs, rules, ctx), nows, t)
  }

  /** Entry `i` first, then the rest. */
  lemma ResolveFrom(es: seq<Effect>, nows: seq<int>, i: nat, t: Table)
    requires |nows| == |es| && i < |es|
    ensures es[i].Pass? ==> Resolve(es[i..], nows[i..], t) == Resolve(es[i + 1..], nows[i + 1..], t)
    ensures es[i].Stop? ==> Resolve(es[i..], nows[i..], t) == (es[i].decision, t)
    ensures es[i].Guard? ==>
              var r := CheckTable(t, es[i].key, es[i].limits, nows[i]);
              Resolve(es[i..], nows[i..], t) == if r.1 then Resolve(es[i + 1..], nows[i + 1..], r.0) else (es[i].refusal, r.0)
  {
    assert es[i..][1..] == es[i + 1..] && nows[i..][1..] == nows[i + 1..];
  }

  method EvaluateRequestDetailed(libs: Libs, rules: seq<Rule>, nows: seq<int>, ctx: Context, rateLimiter: RateLimiter)
    returns (d: Decision)
    requires |nows| == |rules|
    modifies rateLimiter
    ensures (d, rateLimiter.buckets) == Decide(libs, rules, nows, ctx, old(rateLimiter.buckets))
  {
    ghost var es := Effects(libs, rules, ctx);
    assert es[0..] == es && nows[0..] == nows;
    for i := 0 to |rules|
      invariant Resolve(es[i..], nows[i..], rateLimiter.buckets)
             == Decide(libs, rules, nows, ctx, old(rateLimiter.buckets))
    {
      var rule := rules[i];
      ResolveFrom(es, nows, i, rateLimiter.buckets);
      assert es[i] == EffectOf(libs, rule, ctx);
      if rule.conditions == [] {
        continue;
      }
      var allMatch := forall k :: 0 <= k < |rule.conditions| ==> EvaluateNode(libs, rule.conditions[k], ctx);
      if !allMatch {
        continue;
      }
      var isDry := rule.dryRun.Some? && rule.dryRun.value;
      match rule.action {
        case Deny =>
          var status := if rule.status.Some? then rule.status.value else 403;
          var message := if rule.message.Some? then rule.message.value else "Forbidden by rule";
          if isDry {
            return Decision(Allowed, Some(rule.name), Some(Deny), true);
          }
          return Decision(Denied(status, message), Some(rule.name), Some(Deny), false);
        case Allow =>
          return Decision(Allowed, Some(rule.name), Some(Allow), false);
        case RequireRole =>
          var required := if rule.role.Some? then rule.role.value else "admin";
          var userRole := if ctx.userRole.Some? then ctx.userRole.value else "";
          if userRole != "admin" && userRole != required {
            var status := if rule.status.Some? then rule.status.value else 403;
            var message := if rule.message.Some? then rule.message.value else "Role '" + required + "' required";
            if isDry {
              return Decision(Allowed, Some(rule.name), Some(RequireRole), true);
            }
            return Decision(Denied(status, message), Some(rule.name), Some(RequireRole), false);
          }
        case ResponseFilter =>
          continue;
        case RateLimit =>
          if isDry {
            continue;
          }
          if rule.rateLimit.Some? {
            var key := rule.name + ":" + ctx.clientIp;
            var ok := rateLimiter.Check(key, rule.rateLimit.value, nows[i]);
            if !ok {
              var status := if rule.status.Some? then rule.status.value else 429;
              var message := if rule.message.Some? then rule.message.value else "Rate limit exceeded";
              return Decision(Denied(status, message), Some(rule.name), Some(RateLimit), false);
            }
          }
        case OtherAction =>
          continue;
      }
    }
    return DEFAULT_DECISION;
  }

  /** One rate-limit call that evaluation makes. */
  datatype Call = Call(key: string, limits: Limits, now: int)

  /** The calls that the guards of a list stand for, in list order. */
  ghost function GuardCalls(es: seq<Effect>, nows: seq<int>): seq<Call>
    requires |nows| == |es|
  {
    if es == [] then []
    else
      (if es[0].Guard? then [Call(es[0].key, es[0].limits, nows[0])] else []) + GuardCalls(es[1..], nows[1..])
  }

  ghost function PerformCalls(t: Table, calls: seq<Call>): Table
    decreases calls
  {
    if calls == [] then t
    else PerformCalls(CheckTable(t, calls[0].key, calls[0].limits, calls[0].now).0, calls[1..])
  }

  /** What the first entry leaves for the rest of the list. */
  ghost function TableAfterFirst(es: seq<Effect>, nows: seq<int>, t: Table): Table
    requires |nows| == |es| && es != []
  {
    if es[0].Guard? then CheckTable(t, es[0].key, es[0].limits, nows[0]).0 else t
  }

  /** The table that entry `i` finds when nothing before it ended the evaluation. */
  ghost function TableBefore(es: seq<Effect>, nows: seq<int>, t: Table, i: nat): Table
    requires |nows| == |es| && i <= |es|
    decreases i
  {
    if i == 0 then t else TableBefore(es[1..], nows[1..], TableAfterFirst(es, nows, t), i - 1)
  }

  /** That table comes from the calls of the guards before the entry, once each and in order. */
  lemma {:induction false} TableBeforePerformsCalls(es: seq<Effect>, nows: seq<int>, t: Table, i: nat)
    requires |nows| == |es| && i <= |es|
    ensures TableBefore(es, nows, t, i) == PerformCalls(t, GuardCalls(es[..i], nows[..i]))
    decreases i
  {
    if i > 0 {
      TableBeforePerformsCalls(es[1..], nows[1..], TableAfterFirst(es, nows, t), i - 1);
      assert es[..i][1..] == es[1..][..i - 1] && nows[..i][1..] == nows[1..][..i - 1];
      var rest := GuardCalls(es[1..][..i - 1], nows[1..][..i - 1]);
      if es[0].Guard? {
        assert ([Call(es[0].key, es[0].limits, nows[0])] + rest)[1..] == rest;
      } else {
        assert [] + rest == rest;
      }
    }
  }

  /** Entry `i` ends the evaluation there. */
  ghost predicate Terminates(es: seq<Effect>, nows: seq<int>, t: Table, i: nat)
    requires |nows| == |es| && i < |es|
  {
    match es[i]
    case Pass => false
    case Stop(_) => true
    case Guard(key, l, _) => !CheckTable(TableBefore(es, nows, t, i), key, l, nows[i]).1
  }

  ghost function OutcomeOf(e: Effect): Decision {
    match e
    case Pass => DEFAULT_DECISION
    case Stop(d) => d
    case Guard(_, _, refusal) => refusal
  }

  lemma {:induction false} ResolvedByFirstTerminating(es: seq<Effect>, nows: seq<int>, t: Table) returns (stop: nat)
    requires |nows| == |es|
    ensures stop <= |es|
    ensures forall i :: 0 <= i < stop ==> !Terminates(es, nows, t, i)
    ensures stop < |es| ==> Terminates(es, nows, t, stop)
    ensures Resolve(es, nows, t).0 == if stop < |es| then OutcomeOf(es[stop]) else DEFAULT_DECISION
    ensures Resolve(es, nows, t).1 == TableBefore(es, nows, t, if stop < |es| then stop + 1 else stop)
    decreases es
  {
    if es == [] {
      return 0;
    }
    var t1 := TableAfterFirst(es, nows, t);
    if Terminates(es, nows, t, 0) {
      assert TableBefore(es, nows, t, 1) == TableBefore(es[1..], nows[1..], t1, 0) == t1;
      return 0;
    }
    var later := ResolvedByFirstTerminating(es[1..], nows[1..], t1);
    stop := later + 1;
    forall i | 1 <= i < |es|
      ensures Terminates(es, nows, t, i) == Terminates(es[1..], nows[1..], t1, i - 1)
    {
      TerminatesShift(es, nows, t, i);
    }
  }

  lemma TerminatesShift(es: seq<Effect>, nows: seq<int>, t: Table, i: nat)
    requires |nows| == |es| && 1 <= i < |es|
    ensures Terminates(es, nows, t, i) == Terminates(es[1..], nows[1..], TableAfterFirst(es, nows, t), i - 1)
  {
    assert es[i] == es[1..][i - 1] && nows[i] == nows[1..][i - 1];
  }

  /**
   The decision is that of the first terminating rule, or the default when none terminates. The
   limiter performs the call of every enforced rate limit up to and including that rule, once
   each and in order, and no other call.
   */
  lemma DecidedByFirstTerminating(libs: Libs, rules: seq<Rule>, nows: seq<int>, ctx: Context, t: Table)
    returns (stop: nat)
    requires |nows| == |rules|
    ensures stop <= |rules|
    ensures var es := Effects(libs, rules, ctx);
            && (forall i :: 0 <= i < stop ==> !Terminates(es, nows, t, i))
            && (stop < |rules| ==> Terminates(es, nows, t, stop))
            && Decide(libs, rules, nows, ctx, t).0
                 == (if stop < |rules| then OutcomeOf(EffectOf(libs, rules[stop], ctx)) else DEFAULT_DECISION)
            && var upto := if stop < |rules| then stop + 1 else stop;
               Decide(libs, rules, nows, ctx, t).1 == PerformCalls(t, GuardCalls(es[..upto], nows[..upto]))
  {
    var es := Effects(libs, rules, ctx);
    stop := ResolvedByFirstTerminating(es, nows, t);
    TableBeforePerformsCalls(es, nows, t, if stop < |rules| then stop + 1 else stop);
  }

  lemma {:induction false} PassInvisible(
      before: seq<Effect>, after: seq<Effect>, nowsBefore: seq<int>, now: int, nowsAfter: seq<int>, t: Table)
    requires |nowsBefore| == |before| && |nowsAfter| == |after|
    ensures Resolve(before + [Pass] + after, nowsBefore + [now] + nowsAfter, t)
         == Resolve(before + after, nowsBefore + nowsAfter, t)
  {
    var es, nows := before + [Pass] + after, nowsBefore + [now] + nowsAfter;
    if before == [] {
      assert es[1..] == after && nows[1..] == nowsAfter;
      assert before + after == after && nowsBefore + nowsAfter == nowsAfter;
    } else {
      assert es[1..] == before[1..] + [Pass] + after && nows[1..] == nowsBefore[1..] + [now] + nowsAfter;
      assert (before + after)[1..] == before[1..] + after;
      assert (nowsBefore + nowsAfter)[1..] == nowsBefore[1..] + nowsAfter;
      PassInvisible(before[1..], after, nowsBefore[1..], now, nowsAfter, TableAfterFirst(before, nowsBefore, t));
    }
  }

  /** Such a rule may be inserted or deleted anywhere in the list. */
  lemma InertRuleInvisible(
      libs: Libs, before: seq<Rule>, rule: Rule, after: seq<Rule>,
      nowsBefore: seq<int>, now: int, nowsAfter: seq<int>, ctx: Context, t: Table)
    requires |nowsBefore| == |before| && |nowsAfter| == |after|
    requires EffectOf(libs, rule, ctx).Pass?
    ensures Decide(libs, before + [rule] + after, nowsBefore + [now] + nowsAfter, ctx, t)
         == Decide(libs, before + after, nowsBefore + nowsAfter, ctx, t)
  {
    var a, b := Effects(libs, before, ctx), Effects(libs, after, ctx);
    assert Effects(libs, before + [rule] + after, ctx) == a + [Pass] + b;
    assert Effects(libs, before + after, ctx) == a + b;
    PassInvisible(a, b, nowsBefore, now, nowsAfter, t);
  }

  /** An entry that does anything shows already when it is alone, on an empty table. */
  lemma ActiveEffectVisible(e: Effect, now: int)
    requires !e.Pass? && OutcomeOf(e) != DEFAULT_DECISION
    ensures Resolve([e], [now], map[]) != (DEFAULT_DECISION, map[])
  {
    assert [e][1..] == [] && [now][1..] == [];
    if e.Guard? {
      var r := CheckTable(map[], e.key, e.limits, now);
      assert r.1 ==> e.key in r.0;
    }
  }

  lemma OutcomeNamesRule(libs: Libs, rule: Rule, ctx: Context)
    requires !EffectOf(libs, rule, ctx).Pass?
    ensures OutcomeOf(EffectOf(libs, rule, ctx)).ruleName == Some(rule.name)
  {
  }

  /** Every other rule shows already when it is alone, on an empty table. */
  lemma ActiveRuleVisible(libs: Libs, rule: Rule, now: int, ctx: Context)
    requires !EffectOf(libs, rule, ctx).Pass?
    ensures Decide(libs, [rule], [now], ctx, map[]) != Decide(libs, [], [], ctx, map[])
  {
    OutcomeNamesRule(libs, rule, ctx);
    ActiveEffectVisible(EffectOf(libs, rule, ctx), now);
    assert Effects(libs, [rule], ctx) == [EffectOf(libs, rule, ctx)];
  }

  /** The rule changes neither decision nor limiter, in whatever list and on whatever table. */
  ghost predicate Invisible(libs: Libs, rule: Rule, ctx: Context) {
    forall before, after, nowsBefore: seq<int>, now: int, nowsAfter: seq<int>, t
      | |nowsBefore| == |before| && |nowsAfter| == |after| ::
      Decide(libs, before + [rule] + after, nowsBefore + [now] + nowsAfter, ctx, t)
        == Decide(libs, before + after, nowsBefore + nowsAfter, ctx, t)
  }

  /** Exactly the rules that leave both the decision and the limiter alone. */
  lemma InertRules(libs: Libs, rule: Rule, ctx: Context)
    ensures Invisible(libs, rule, ctx) <==>
            || !Matches(libs, rule, ctx)
            || rule.action.ResponseFilter? || rule.action.OtherAction?
            || (rule.action.RequireRole? && RoleSatisfied(rule, ctx))
            || (rule.action.RateLimit? && (OrElse(rule.dryRun, false) || rule.rateLimit.None?))
  {
    if EffectOf(libs, rule, ctx).Pass? {
      forall before, after, nowsBefore: seq<int>, now: int, nowsAfter: seq<int>, t
        | |nowsBefore| == |before| && |nowsAfter| == |after|
        ensures Decide(libs, before + [rule] + after, nowsBefore + [now] + nowsAfter, ctx, t)
             == Decide(libs, before + after, nowsBefore + nowsAfter, ctx, t)
      {
        InertRuleInvisible(libs, before, rule, after, nowsBefore, now, nowsAfter, ctx, t);
      }
    } else {
      ActiveRuleVisible(libs, rule, 0, ctx);
      assert [] + [rule] + [] == [rule] && [] + [0] + [] == [0];
      assert Decide(libs, [] + [rule] + [], [] + [0] + [], ctx, map[]) != Decide(libs, [] + [], [] + [], ctx, map[]);
    }
  }

  /** Entries that end an evaluation say so in the decision. */
  ghost predicate Named(es: seq<Effect>) {
    forall i :: 0 <= i < |es| && !es[i].Pass? ==> OutcomeOf(es[i]).ruleName.Some?
  }

  lemma EffectsNamed(libs: Libs, rules: seq<Rule>, ctx: Context)
    ensures Named(Effects(libs, rules, ctx))
  {
    var es := Effects(libs, rules, ctx);
    forall i | 0 <= i < |es| && !es[i].Pass? ensures OutcomeOf(es[i]).ruleName.Some? {
      OutcomeNamesRule(libs, rules[i], ctx);
    }
  }

  /** After entries that did not end it, the evaluation goes on with the table they leave. */
  lemma {:induction false} ResolveConcat(a: seq<Effect>, b: seq<Effect>, nowsA: seq<int>, nowsB: seq<int>, t: Table)
    requires |nowsA| == |a| && |nowsB| == |b| && Named(a)
    requires Resolve(a, nowsA, t).0.ruleName.None?
    ensures Resolve(a + b, nowsA + nowsB, t) == Resolve(b, nowsB, Resolve(a, nowsA, t).1)
  {
    if a == [] {
      assert a + b == b && nowsA + nowsB == nowsB;
    } else {
      assert (a + b)[1..] == a[1..] + b && (nowsA + nowsB)[1..] == nowsA[1..] + nowsB;
      assert OutcomeOf(a[0]) == OutcomeOf(a[0]);
      ResolveConcat(a[1..], b, nowsA[1..], nowsB, TableAfterFirst(a, nowsA, t));
    }
  }

  lemma DecideConcat(libs: Libs, a: seq<Rule>, b: seq<Rule>, nowsA: seq<int>, nowsB: seq<int>, ctx: Context, t: Table)
    requires |nowsA| == |a| && |nowsB| == |b|
    requires Decide(libs, a, nowsA, ctx, t).0.ruleName.None?
    ensures Decide(libs, a + b, nowsA + nowsB, ctx, t) == Decide(libs, b, nowsB, ctx, Decide(libs, a, nowsA, ctx, t).1)
  {
    EffectsNamed(libs, a, ctx);
    assert Effects(libs, a + b, ctx) == Effects(libs, a, ctx) + Effects(libs, b, ctx);
    ResolveConcat(Effects(libs, a, ctx), Effects(libs, b, ctx), nowsA, nowsB, t);
  }

  /** All conditions of the rule hold, and there is at least one. */
  ghost predicate AllHold(libs: Libs, rule: Rule, ctx: Context) {
    |rule.conditions| > 0 && forall n :: n in rule.conditions ==> EvaluateNode(libs, n, ctx)
  }

  lemma DecideFirst(libs: Libs, rule: Rule, rest: seq<Rule>, now: int, nows: seq<int>, ctx: Context, t: Table)
    requires |nows| == |rest|
    ensures Decide(libs, [rule] + rest, [now] + nows, ctx, t)
         == Resolve([EffectOf(libs, rule, ctx)] + Effects(libs, rest, ctx), [now] + nows, t)
  {
    assert Effects(libs, [rule] + rest, ctx) == [EffectOf(libs, rule, ctx)] + Effects(libs, rest, ctx);
  }

  /** A rule whose conditions do not all hold is skipped, as is one that only filters responses. */
  lemma SkippedRule(libs: Libs, rule: Rule, rest: seq<Rule>, now: int, nows: seq<int>, ctx: Context, t: Table)
    requires |nows| == |rest|
    requires !AllHold(libs, rule, ctx) || rule.action.ResponseFilter? || rule.action.OtherAction?
    ensures Decide(libs, [rule] + rest, [now] + nows, ctx, t) == Decide(libs, rest, nows, ctx, t)
  {
    FirstPasses(libs, rule, rest, now, nows, ctx, t);
  }

  lemma FirstPasses(libs: Libs, rule: Rule, rest: seq<Rule>, now: int, nows: seq<int>, ctx: Context, t: Table)
    requires |nows| == |rest| && EffectOf(libs, rule, ctx).Pass?
    ensures Decide(libs, [rule] + rest, [now] + nows, ctx, t) == Decide(libs, rest, nows, ctx, t)
  {
    InertRuleInvisible(libs, [], rule, rest, [], now, nows, ctx, t);
    assert [] + [rule] + rest == [rule] + rest && [] + rest == rest;
    assert [] + [now] + nows == [now] + nows && [] + nows == nows;
  }

  /** The decision and table when the first rule ends the evaluation with a decision of its own. */
  lemma FirstStops(libs: Libs, rule: Rule, rest: seq<Rule>, now: int, nows: seq<int>, ctx: Context, t: Table)
    requires |nows| == |rest| && EffectOf(libs, rule, ctx).Stop?
    ensures Decide(libs, [rule] + rest, [now] + nows, ctx, t) == (EffectOf(libs, rule, ctx).decision, t)
  {
    DecideFirst(libs, rule, rest, now, nows, ctx, t);
  }

  /** A `deny` rule refuses with its own status and message, or 403 and the default text; a dry run lets pass. */
  lemma DenyMeans(libs: Libs, rule: Rule, rest: seq<Rule>, now: int, nows: seq<int>, ctx: Context, t: Table)
    requires |nows| == |rest| && AllHold(libs, rule, ctx) && rule.action.Deny?
    ensures var status := if rule.status.Some? then rule.status.value else 403;
            var message := if rule.message.Some? then rule.message.value else "Forbidden by rule";
            Decide(libs, [rule] + rest, [now] + nows, ctx, t)
              == (if rule.dryRun == Some(true) then Decision(Allowed, Some(rule.name), Some(Deny), true)
                  else Decision(Denied(status, message), Some(rule.name), Some(Deny), false), t)
  {
    FirstStops(libs, rule, rest, now, nows, ctx, t);
  }

  /** An `allow` rule lets the request pass, dry run or not. */
  lemma AllowMeans(libs: Libs, rule: Rule, rest: seq<Rule>, now: int, nows: seq<int>, ctx: Context, t: Table)
    requires |nows| == |rest| && AllHold(libs, rule, ctx) && rule.action.Allow?
    ensures Decide(libs, [rule] + rest, [now] + nows, ctx, t)
         == (Decision(Allowed, Some(rule.name), Some(Allow), false), t)
  {
    FirstStops(libs, rule, rest, now, nows, ctx, t);
  }

  /**
   A `require_role` rule asks for its role, or `admin` when it names none. A request with that
   role or with `admin` goes on to the rest; any other is refused, or let pass in a dry run.
   */
  lemma RequireRoleMeans(libs: Libs, rule: Rule, rest: seq<Rule>, now: int, nows: seq<int>, ctx: Context, t: Table)
    requires |nows| == |rest| && AllHold(libs, rule, ctx) && rule.action.RequireRole?
    ensures var required := if rule.role.Some? then rule.role.value else "admin";
            var user := if ctx.userRole.Some? then ctx.userRole.value else "";
            var status := if rule.status.Some? then rule.status.value else 403;
            var message := if rule.message.Some? then rule.message.value else "Role '" + required + "' required";
            Decide(libs, [rule] + rest, [now] + nows, ctx, t)
              == if user == "admin" || user == required then Decide(libs, rest, nows, ctx, t)
                 else if rule.dryRun == Some(true) then (Decision(Allowed, Some(rule.name), Some(RequireRole), true), t)
                 else (Decision(Denied(status, message), Some(rule.name), Some(RequireRole), false), t)
  {
    if EffectOf(libs, rule, ctx).Pass? {
      FirstPasses(libs, rule, rest, now, nows, ctx, t);
    } else {
      FirstStops(libs, rule, rest, now, nows, ctx, t);
    }
  }

  /**
   An enforced `rate_limit` rule checks the bucket of its name and the client's address. When the
   check passes the rest decides, on the new table; otherwise the request is refused with the
   rule's own status and message, or 429 and the default text. A dry run or a rule without a
   limit checks nothing.
   */
  lemma RateLimitMeans(libs: Libs, rule: Rule, rest: seq<Rule>, now: int, nows: seq<int>, ctx: Context, t: Table)
    requires |nows| == |rest| && AllHold(libs, rule, ctx) && rule.action.RateLimit?
    ensures var status := if rule.status.Some? then rule.status.value else 429;
            var message := if rule.message.Some? then rule.message.value else "Rate limit exceeded";
            Decide(libs, [rule] + rest, [now] + nows, ctx, t)
              == if rule.dryRun == Some(true) || rule.rateLimit.None? then Decide(libs, rest, nows, ctx, t)
                 else
                   var (t', ok) := CheckTable(t, rule.name + ":" + ctx.clientIp, rule.rateLimit.value, now);
                   if ok then Decide(libs, rest, nows, ctx, t')
                   else (Decision(Denied(status, message), Some(rule.name), Some(RateLimit), false), t')
  {
    if EffectOf(libs, rule, ctx).Pass? {
      FirstPasses(libs, rule, rest, now, nows, ctx, t);
    } else {
      DecideFirst(libs, rule, rest, now, nows, ctx, t);
      var es, all := Effects(libs, rest, ctx), [now] + nows;
      assert ([EffectOf(libs, rule, ctx)] + es)[1..] == es && all[1..] == nows;
    }
  }

  /** No rules: the request is allowed, in no rule's name. */
  lemma NoRulesAllow(libs: Libs, ctx: Context, t: Table)
    ensures Decide(libs, [], [], ctx, t) == (Decision(Allowed, None, None, false), t)
  {
  }

  ghost predicate Accountable(d: Decision) {
    && (d.verdict.Denied? ==> !d.dryRun && d.ruleName.Some? && d.action.Some?)
    && (d.dryRun ==> d.verdict.Allowed? && d.ruleName.Some? && d.action != Some(RateLimit))
  }

  lemma OutcomesAccountable(libs: Libs, rule: Rule, ctx: Context)
    ensures Accountable(OutcomeOf(EffectOf(libs, rule, ctx)))
  {
  }

  /** Every denial names its rule and is enforced; every dry-run decision names its rule and allows. */
  lemma DecisionsNameTheirRule(libs: Libs, rules: seq<Rule>, nows: seq<int>, ctx: Context, t: Table)
    requires |nows| == |rules|
    ensures Accountable(Decide(libs, rules, nows, ctx, t).0)
  {
    var stop := DecidedByFirstTerminating(libs, rules, nows, ctx, t);
    if stop < |rules| {
      OutcomesAccountable(libs, rules[stop], ctx);
    }
  }

  /** The filter entries that a rule contributes to a request. */
  function EntriesOf(libs: Libs, rule: Rule, ctx: Context): seq<ResponseFilters.Filter> {
    if Matches(libs, rule, ctx) && rule.responseFilter.Some? then rule.responseFilter.value else []
  }

  function Collected(libs: Libs, rules: seq<Rule>, ctx: Context): seq<ResponseFilters.Filter> {
    if rules == [] then [] else EntriesOf(libs, rules[0], ctx) + Collected(libs, rules[1..], ctx)
  }

  /** The first rule's entries move from what is to be collected to what is collected. */
  lemma CollectedStep(libs: Libs, all: seq<ResponseFilters.Filter>, rules: seq<Rule>, ctx: Context)
    requires rules != []
    ensures all + Collected(libs, rules, ctx) == all + EntriesOf(libs, rules[0], ctx) + Collected(libs, rules[1..], ctx)
  {
    var first, rest := EntriesOf(libs, rules[0], ctx), Collected(libs, rules[1..], ctx);
    assert Collected(libs, rules, ctx) == first + rest;
    assert all + (first + rest) == all + first + rest;
  }

  method CollectResponseFilters(libs: Libs, rules: seq<Rule>, ctx: Context) returns (all: seq<ResponseFilters.Filter>)
    ensures all == Collected(libs, rules, ctx)
  {
    all := [];
    for i := 0 to |rules|
      invariant all + Collected(libs, rules[i..], ctx) == Collected(libs, rules, ctx)
    {
      var rule := rules[i];
      assert rules[i..][1..] == rules[i + 1..];
      CollectedStep(libs, all, rules[i..], ctx);
      assert all + [] == all;
      if rule.conditions == []
         || !forall k :: 0 <= k < |rule.conditions| ==> EvaluateNode(libs, rule.conditions[k], ctx) {
        continue;
      }
      if rule.responseFilter.Some? {
        all := all + rule.responseFilter.value;
      }
    }
  }

  /** The entries of a first rule whose conditions all hold come first; without rules there are none. */
  lemma CollectedMeans(libs: Libs, rule: Rule, rest: seq<Rule>, ctx: Context)
    ensures Collected(libs, [], ctx) == []
    ensures Collected(libs, [rule] + rest, ctx)
         == (if AllHold(libs, rule, ctx) && rule.responseFilter.Some? then rule.responseFilter.value else [])
            + Collected(libs, rest, ctx)
  {
    assert ([rule] + rest)[1..] == rest;
  }

  /**
   The filters collected for a request do not depend on what the rules decide: two lists whose
   rules agree on conditions and filter entries collect the same, whatever their actions,
   dry-run flags, roles and limits.
   */
  lemma {:induction false} CollectionIgnoresActions(libs: Libs, a: seq<Rule>, b: seq<Rule>, ctx: Context)
    requires |a| == |b|
    requires forall i :: 0 <= i < |a| ==>
               a[i].conditions == b[i].conditions && a[i].responseFilter == b[i].responseFilter
    ensures Collected(libs, a, ctx) == Collected(libs, b, ctx)
  {
    if a != [] {
      CollectionIgnoresActions(libs, a[1..], b[1..], ctx);
    }
  }
}
