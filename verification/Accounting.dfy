/**
 The request counters. Every counter bump of a request is a step of its own, and the steps of
 any number of requests interleave.
 */
module Accounting {
  import opened Basics
  import opened RuleEngine

  const U64: nat := 0x1_0000_0000_0000_0000

  /** An atomic add of one wraps at 2^64; the per-rule table's add saturates there. */
  function Bump(n: nat): nat {
    if n + 1 >= U64 then n + 1 - U64 else n + 1
  }

  function Saturate(n: nat): nat {
    if n + 1 >= U64 then U64 - 1 else n + 1
  }

  datatype RuleCounters = RuleCounters(denied: nat, dryRun: nat)

  type ByRule = map<string, RuleCounters>

  function Recorded(m: ByRule, rule: string, dryRun: bool): ByRule {
    var c := if rule in m then m[rule] else RuleCounters(0, 0);
    m[rule := if dryRun then c.(dryRun := Saturate(c.dryRun)) else c.(denied := Saturate(c.denied))]
  }

  /** What a rule's counter of one mode shows. */
  function CountOf(m: ByRule, rule: string, dryRun: bool): nat {
    if rule !in m then 0 else if dryRun then m[rule].dryRun else m[rule].denied
  }

  /** A record raises the rule's own counter of its own mode by one, up to 2^64 - 1, and no other counter. */
  lemma RecordedMeans(m: ByRule, rule: string, dryRun: bool, other: string, mode: bool)
    ensures var before := CountOf(m, other, mode);
            CountOf(Recorded(m, rule, dryRun), other, mode)
              == if other == rule && mode == dryRun && before < 18_446_744_073_709_551_615 then before + 1
                 else if other == rule && mode == dryRun then 18_446_744_073_709_551_615
                 else before
  {
  }

  class Metrics {
    var byRule: ByRule

    constructor ()
      ensures byRule == map[]
    {
      byRule := map[];
    }

    method RecordRuleDeny(rule: string, dryRun: bool)
      modifies this
      ensures byRule == Recorded(old(byRule), rule, dryRun)
    {
      if rule !in byRule {
        byRule := byRule[rule := RuleCounters(0, 0)];
      }
      var e := byRule[rule];
      if dryRun {
        e := e.(dryRun := Saturate(e.dryRun));
      } else {
        e := e.(denied := Saturate(e.denied));
      }
      byRule := byRule[rule := e];
    }
  }

  /** Where a request is before its decision has been acted on. */
  datatype Point = Arrived | Ready(upgrade: bool) | Judged(upgrade: bool, d: Decision)

  /** A request whose dry run is counted but not yet recorded for its rule. */
  datatype Trial = Trial(upgrade: bool, rule: string)

  /**
   The counters, the requests in flight and the bookkeeping still due. `tried` holds, by kind,
   the dry-run requests that are recorded and on their way upstream; `limitedDue` and
   `recordDue` name the rules of denials whose rate-limit counter or rule record is still to
   come. The fields after these are history that no counter shows: requests received,
   authentication denials, requests that end in no outcome counter (metrics scrapes and
   upstream failures), finished dry-run requests, and rate-limit denials in all and of upgrade
   requests alone.
   */
  datatype State = State(
    total: nat, allowed: nat, denied: nat, dryRun: nat, limited: nat,
    badRequest: nat, bodyTooLarge: nat, timeouts: nat, byRule: ByRule,
    open: multiset<Point>, trials: multiset<Trial>, tried: multiset<bool>,
    limitedDue: multiset<string>, recordDue: multiset<string>,
    arrivals: nat, authDenials: nat, uncounted: nat, triedDone: nat, rateDenials: nat, upgradeLimited: nat)

  datatype Step =
    | Arrive
    | RejectPath
    | DenyAuth
    | ServeMetrics
    | Enter(upgrade: bool)
    | BodyTooLarge
    | BodyInvalid
    | BodyTimeout
    | Judge(upgrade: bool, d: Decision)
    | CountDryRun(upgrade: bool, d: Decision)
    | RecordDryRun(trial: Trial)
    | CountDenied(upgrade: bool, d: Decision)
    | CountLimited(rule: string)
    | RecordDenied(rule: string)
    | CountAllowed(upgrade: bool, d: Decision)
    | UpstreamFails(d: Decision)
    | CountTried(upgrade: bool)
    | TriedFails

  /** The open point from which a step takes its request. */
  ghost function Source(step: Step): Option<Point> {
    match step
    case RejectPath => Some(Arrived)
    case DenyAuth => Some(Arrived)
    case ServeMetrics => Some(Arrived)
    case Enter(_) => Some(Arrived)
    case BodyTooLarge => Some(Ready(false))
    case BodyInvalid => Some(Ready(false))
    case BodyTimeout => Some(Ready(false))
    case Judge(upgrade, _) => Some(Ready(upgrade))
    case CountDryRun(upgrade, d) => Some(Judged(upgrade, d))
    case CountDenied(upgrade, d) => Some(Judged(upgrade, d))
    case CountAllowed(upgrade, d) => Some(Judged(upgrade, d))
    case UpstreamFails(d) => Some(Judged(false, d))
    case _ => None
  }

  ghost predicate Enabled(s: State, step: Step) {
    && (Source(step).Some? ==> Source(step).value in s.open)
    && match step
       case Judge(_, d) => Accountable(d)
       case CountDryRun(_, d) => d.dryRun && d.ruleName.Some?
       case RecordDryRun(trial) => trial in s.trials
       case CountDenied(_, d) => d.verdict.Denied? && !d.dryRun && d.ruleName.Some?
       case CountLimited(rule) => rule in s.limitedDue
       case RecordDenied(rule) => rule in s.recordDue
       case CountAllowed(_, d) => d.verdict.Allowed? && !d.dryRun
       case UpstreamFails(d) => d.verdict.Allowed? && !d.dryRun
       case CountTried(upgrade) => upgrade in s.tried
       case TriedFails => false in s.tried
       case _ => true
  }

  ghost function Taken(s: State, step: Step): State {
    if Source(step).Some? then s.(open := s.open - multiset{Source(step).value}) else s
  }

  ghost function Do(s0: State, step: Step): State
    requires Enabled(s0, step)
  {
    var s := Taken(s0, step);
    match step
    case Arrive => s.(total := Bump(s.total), arrivals := s.arrivals + 1, open := s.open + multiset{Arrived})
    case RejectPath => s.(badRequest := Bump(s.badRequest))
    case DenyAuth => s.(denied := Bump(s.denied), authDenials := s.authDenials + 1)
    case ServeMetrics => s.(uncounted := s.uncounted + 1)
    case Enter(upgrade) => s.(open := s.open + multiset{Ready(upgrade)})
    case BodyTooLarge => s.(bodyTooLarge := Bump(s.bodyTooLarge))
    case BodyInvalid => s.(badRequest := Bump(s.badRequest))
    case BodyTimeout => s.(timeouts := Bump(s.timeouts))
    case Judge(upgrade, d) => s.(open := s.open + multiset{Judged(upgrade, d)})
    case CountDryRun(upgrade, d) =>
      s.(dryRun := Bump(s.dryRun), trials := s.trials + multiset{Trial(upgrade, d.ruleName.value)})
    case RecordDryRun(trial) =>
      s.(byRule := Recorded(s.byRule, trial.rule, true),
         trials := s.trials - multiset{trial}, tried := s.tried + multiset{trial.upgrade})
    case CountDenied(upgrade, d) =>
      var rule, limit := d.ruleName.value, d.action == Some(RateLimit);
      var counted := s.(denied := Bump(s.denied), rateDenials := s.rateDenials + if limit then 1 else 0);
      if limit && !upgrade then counted.(limitedDue := s.limitedDue + multiset{rule})
      else counted.(upgradeLimited := s.upgradeLimited + (if limit then 1 else 0),
                    recordDue := s.recordDue + multiset{rule})
    case CountLimited(rule) =>
      s.(limited := Bump(s.limited),
         limitedDue := s.limitedDue - multiset{rule}, recordDue := s.recordDue + multiset{rule})
    case RecordDenied(rule) =>
      s.(byRule := Recorded(s.byRule, rule, false), recordDue := s.recordDue - multiset{rule})
    case CountAllowed(_, _) => s.(allowed := Bump(s.allowed))
    case UpstreamFails(_) => s.(uncounted := s.uncounted + 1)
    case CountTried(upgrade) =>
      s.(allowed := Bump(s.allowed), tried := s.tried - multiset{upgrade}, triedDone := s.triedDone + 1)
    case TriedFails =>
      s.(uncounted := s.uncounted + 1, tried := s.tried - multiset{false}, triedDone := s.triedDone + 1)
  }

  ghost predicate Runs(states: seq<State>, steps: seq<Step>) {
    && |states| == |steps| + 1
    && forall i :: 0 <= i < |steps| ==> Enabled(states[i], steps[i]) && states[i + 1] == Do(states[i], steps[i])
  }

  ghost function Initial(): State {
    State(0, 0, 0, 0, 0, 0, 0, 0, map[],
          multiset{}, multiset{}, multiset{}, multiset{}, multiset{}, 0, 0, 0, 0, 0, 0)
  }

  ghost function DeniedOf(c: RuleCounters): nat {
    c.denied
  }

  ghost function DryRunOf(c: RuleCounters): nat {
    c.dryRun
  }

  /** The per-rule counts of one mode, added up over all rules. */
  ghost function SumOf(m: ByRule, dryRun: bool): nat {
    if dryRun then SumOver(m, DryRunOf) else SumOver(m, DeniedOf)
  }

  /** Recording adds one to its own mode, unless the rule's counter is saturated. */
  lemma RecordedSums(m: ByRule, rule: string, dryRun: bool)
    requires SumOf(m, dryRun) < U64 - 1
    ensures SumOf(Recorded(m, rule, dryRun), dryRun) == SumOf(m, dryRun) + 1
    ensures SumOf(Recorded(m, rule, dryRun), !dryRun) == SumOf(m, !dryRun)
  {
    var m' := Recorded(m, rule, dryRun);
    SumRecorded(m, m', rule, DeniedOf);
    SumRecorded(m, m', rule, DryRunOf);
  }

  lemma SumRecorded(m: ByRule, m': ByRule, rule: string, f: RuleCounters -> nat)
    requires rule in m' && m' - {rule} == m - {rule}
    ensures SumOver(m', f) + (if rule in m then f(m[rule]) else 0) == SumOver(m, f) + f(m'[rule])
    ensures rule in m ==> f(m[rule]) <= SumOver(m, f)
  {
    if rule in m {
      SumSplits(m, f, rule);
    } else {
      assert m - {rule} == m;
    }
    SumSplits(m', f, rule);
  }

  ghost function Outcomes(s: State): nat {
    s.allowed + s.denied + s.badRequest + s.bodyTooLarge + s.timeouts
  }

  /** Every request received is in one place: an outcome counter, uncounted, or in flight. */
  ghost predicate Balanced(s: State) {
    && s.total == s.arrivals == Outcomes(s) + s.uncounted + |s.open| + |s.trials| + |s.tried|
    && s.denied == s.authDenials + SumOf(s.byRule, false) + |s.limitedDue| + |s.recordDue|
    && s.dryRun == SumOf(s.byRule, true) + |s.trials|
    && s.dryRun == |s.trials| + |s.tried| + s.triedDone
    && s.triedDone <= s.allowed + s.uncounted
    && s.rateDenials == s.limited + |s.limitedDue| + s.upgradeLimited
    && s.rateDenials <= s.denied
  }

  lemma Sizes<T>(m: multiset<T>, x: T)
    ensures |m + multiset{x}| == |m| + 1
    ensures x in m ==> |m - multiset{x}| == |m| - 1
  {
  }

  /** Steps that take an open request to its next point. */
  lemma MovingStepBalances(s: State, step: Step)
    requires step.Enter? || step.Judge?
    requires Enabled(s, step) && Balanced(s) && s.arrivals < U64
    ensures Balanced(Do(s, step))
  {
    Sizes(s.open, Source(step).value);
    var taken := Taken(s, step);
    Sizes(taken.open, if step.Enter? then Ready(step.upgrade) else Judged(step.upgrade, step.d));
  }

  /** Steps that take an open request to its end: a refusal of the caller, other refusals, the rest. */
  lemma DenyAuthBalances(s: State)
    requires Enabled(s, DenyAuth) && Balanced(s) && s.arrivals < U64
    ensures Balanced(Do(s, DenyAuth))
  {
    Sizes(s.open, Arrived);
  }

  lemma RejectionBalances(s: State, step: Step)
    requires step.RejectPath? || step.BodyTooLarge? || step.BodyInvalid? || step.BodyTimeout?
    requires Enabled(s, step) && Balanced(s) && s.arrivals < U64
    ensures Balanced(Do(s, step))
  {
    Sizes(s.open, Source(step).value);
  }

  lemma EndingStepBalances(s: State, step: Step)
    requires step.ServeMetrics? || step.CountAllowed? || step.UpstreamFails?
    requires Enabled(s, step) && Balanced(s) && s.arrivals < U64
    ensures Balanced(Do(s, step))
  {
    Sizes(s.open, Source(step).value);
  }

  /** Steps that count a decision and leave its bookkeeping due. */
  lemma TrialStepBalances(s: State, upgrade: bool, d: Decision)
    requires Enabled(s, CountDryRun(upgrade, d)) && Balanced(s) && s.arrivals < U64
    ensures Balanced(Do(s, CountDryRun(upgrade, d)))
  {
    var s' := Do(s, CountDryRun(upgrade, d));
    Sizes(s.open, Judged(upgrade, d));
    Sizes(s.trials, Trial(upgrade, d.ruleName.value));
    assert |s'.open| == |s.open| - 1 && |s'.trials| == |s.trials| + 1;
    assert s'.dryRun == s.dryRun + 1;
  }

  lemma DenialStepBalances(s: State, upgrade: bool, d: Decision)
    requires Enabled(s, CountDenied(upgrade, d)) && Balanced(s) && s.arrivals < U64
    ensures Balanced(Do(s, CountDenied(upgrade, d)))
  {
    var s' := Do(s, CountDenied(upgrade, d));
    Sizes(s.open, Judged(upgrade, d));
    assert |s'.open| == |s.open| - 1;
    assert s'.denied == s.denied + 1;
    if !upgrade && d.action == Some(RateLimit) {
      Sizes(s.limitedDue, d.ruleName.value);
      assert |s'.limitedDue| == |s.limitedDue| + 1;
    } else {
      Sizes(s.recordDue, d.ruleName.value);
      assert |s'.recordDue| == |s.recordDue| + 1;
    }
  }

  lemma ArrivalBalances(s: State)
    requires Balanced(s) && s.arrivals + 1 < U64
    ensures Balanced(Do(s, Arrive))
  {
    Sizes(s.open, Arrived);
  }

  /** The rate-limit counter of a denial, and requests that a dry run let pass. */
  lemma LimitedStepBalances(s: State, rule: string)
    requires Enabled(s, CountLimited(rule)) && Balanced(s) && s.arrivals < U64
    ensures Balanced(Do(s, CountLimited(rule)))
  {
    var s' := Do(s, CountLimited(rule));
    Sizes(s.limitedDue, rule);
    Sizes(s.recordDue, rule);
    assert |s'.limitedDue| == |s.limitedDue| - 1 && |s'.recordDue| == |s.recordDue| + 1;
    assert s'.limited == s.limited + 1;
  }

  lemma CountTriedBalances(s: State, upgrade: bool)
    requires Enabled(s, CountTried(upgrade)) && Balanced(s) && s.arrivals < U64
    ensures Balanced(Do(s, CountTried(upgrade)))
  {
    var s' := Do(s, CountTried(upgrade));
    Sizes(s.tried, upgrade);
    assert |s'.tried| == |s.tried| - 1 && s'.allowed == s.allowed + 1;
  }

  lemma TriedFailsBalances(s: State)
    requires Enabled(s, TriedFails) && Balanced(s) && s.arrivals < U64
    ensures Balanced(Do(s, TriedFails))
  {
    var s' := Do(s, TriedFails);
    Sizes(s.tried, false);
    assert |s'.tried| == |s.tried| - 1;
  }

  lemma RecordStepBalances(s: State, step: Step)
    requires step.RecordDryRun? || step.RecordDenied?
    requires Enabled(s, step) && Balanced(s) && s.arrivals < U64
    ensures Balanced(Do(s, step))
  {
    if step.RecordDenied? {
      Sizes(s.recordDue, step.rule);
      RecordedSums(s.byRule, step.rule, false);
    } else {
      Sizes(s.trials, step.trial);
      Sizes(s.tried, step.trial.upgrade);
      RecordedSums(s.byRule, step.trial.rule, true);
    }
  }

  lemma ArrivalsGrow(s: State, step: Step)
    requires Enabled(s, step)
    ensures s.arrivals <= Do(s, step).arrivals
    ensures step.Arrive? ==> s.arrivals < Do(s, step).arrivals
  {
  }

  lemma StepBalances(s: State, step: Step)
    requires Enabled(s, step) && Balanced(s) && Do(s, step).arrivals < U64
    ensures Balanced(Do(s, step))
  {
    ArrivalsGrow(s, step);
    if step.Arrive? {
      ArrivalBalances(s);
    } else if step.CountDryRun? {
      TrialStepBalances(s, step.upgrade, step.d);
    } else if step.CountDenied? {
      DenialStepBalances(s, step.upgrade, step.d);
    } else if step.RecordDryRun? || step.RecordDenied? {
      RecordStepBalances(s, step);
    } else if step.CountLimited? {
      LimitedStepBalances(s, step.rule);
    } else if step.CountTried? {
      CountTriedBalances(s, step.upgrade);
    } else if step.TriedFails? {
      TriedFailsBalances(s);
    } else if step.Enter? || step.Judge? {
      MovingStepBalances(s, step);
    } else if step.DenyAuth? {
      DenyAuthBalances(s);
    } else if step.RejectPath? || step.BodyTooLarge? || step.BodyInvalid? || step.BodyTimeout? {
      RejectionBalances(s, step);
    } else {
      EndingStepBalances(s, step);
    }
  }

  lemma EmptySums(m: ByRule)
    requires m == map[]
    ensures SumOf(m, true) == SumOf(m, false) == 0
  {
  }

  lemma InitiallyBalanced(s: State)
    requires s == Initial()
    ensures Balanced(s)
  {
    EmptySums(s.byRule);
    NothingIsBalanced(s);
  }

  lemma NothingIsBalanced(s: State)
    requires s.total == s.arrivals == Outcomes(s) == 0 && s.uncounted == s.triedDone == s.dryRun == 0
    requires s.authDenials == s.rateDenials == s.upgradeLimited == s.limited == 0
    requires SumOf(s.byRule, true) == SumOf(s.byRule, false) == 0
    requires Quiet(s)
    ensures Balanced(s)
  {
  }

  /** A run is a shorter run and one more step. */
  lemma RunsBefore(states: seq<State>, steps: seq<Step>)
    requires Runs(states, steps) && steps != []
    ensures var n := |steps| - 1;
            && Runs(states[..n + 1], steps[..n]) && states[..n + 1][0] == states[0] && states[..n + 1][n] == states[n]
            && Enabled(states[n], steps[n]) && states[n + 1] == Do(states[n], steps[n])
  {
  }

  /** In every state of every interleaving the accounts balance, up to 2^64 requests. */
  lemma {:induction false} AccountsBalance(states: seq<State>, steps: seq<Step>)
    requires Runs(states, steps) && states[0] == Initial()
    requires states[|steps|].arrivals < U64
    ensures Balanced(states[|steps|])
  {
    if steps == [] {
      InitiallyBalanced(states[0]);
    } else {
      var n := |steps| - 1;
      RunsBefore(states, steps);
      ArrivalsGrow(states[n], steps[n]);
      AccountsBalance(states[..n + 1], steps[..n]);
      StepBalances(states[n], steps[n]);
    }
  }

  /** The counters that a step bumps. */
  datatype Tally = Tally(
    total: nat, allowed: nat, denied: nat, dryRun: nat, limited: nat, badRequest: nat, bodyTooLarge: nat, timeouts: nat)

  ghost function Bumped(t: Tally, step: Step): Tally {
    match step
    case Arrive => t.(total := t.total + 1)
    case RejectPath => t.(badRequest := t.badRequest + 1)
    case BodyInvalid => t.(badRequest := t.badRequest + 1)
    case BodyTooLarge => t.(bodyTooLarge := t.bodyTooLarge + 1)
    case BodyTimeout => t.(timeouts := t.timeouts + 1)
    case DenyAuth => t.(denied := t.denied + 1)
    case CountDenied(_, _) => t.(denied := t.denied + 1)
    case CountDryRun(_, _) => t.(dryRun := t.dryRun + 1)
    case CountLimited(_) => t.(limited := t.limited + 1)
    case CountAllowed(_, _) => t.(allowed := t.allowed + 1)
    case CountTried(_) => t.(allowed := t.allowed + 1)
    case _ => t
  }

  /** How often each kind of step occurs. */
  ghost function TallyOf(steps: seq<Step>): Tally {
    if steps == [] then Tally(0, 0, 0, 0, 0, 0, 0, 0)
    else Bumped(TallyOf(steps[..|steps| - 1]), steps[|steps| - 1])
  }

  ghost function CountersOf(s: State): Tally {
    Tally(s.total, s.allowed, s.denied, s.dryRun, s.limited, s.badRequest, s.bodyTooLarge, s.timeouts)
  }

  ghost predicate Fits(t: Tally) {
    && t.total < U64 && t.allowed < U64 && t.denied < U64 && t.dryRun < U64 && t.limited < U64
    && t.badRequest < U64 && t.bodyTooLarge < U64 && t.timeouts < U64
  }

  /** A denial bumps its counter by one, and no other. */
  lemma DenialTallies(s: State, step: Step)
    requires step.DenyAuth? || step.CountDenied?
    requires Enabled(s, step) && Fits(Bumped(CountersOf(s), step))
    ensures CountersOf(Do(s, step)) == Bumped(CountersOf(s), step)
  {
  }

  /** So does any other refusal. */
  lemma RefusalTallies(s: State, step: Step)
    requires step.RejectPath? || step.BodyTooLarge? || step.BodyInvalid? || step.BodyTimeout?
    requires Enabled(s, step) && Fits(Bumped(CountersOf(s), step))
    ensures CountersOf(Do(s, step)) == Bumped(CountersOf(s), step)
  {
  }

  /** So does any other step that takes a request from an open point. */
  lemma OpenStepTallies(s: State, step: Step)
    requires step.ServeMetrics? || step.Enter? || step.Judge? || step.CountDryRun? || step.CountAllowed? || step.UpstreamFails?
    requires Enabled(s, step) && Fits(Bumped(CountersOf(s), step))
    ensures CountersOf(Do(s, step)) == Bumped(CountersOf(s), step)
  {
  }

  lemma ArrivalTallies(s: State)
    requires s.total + 1 < U64
    ensures CountersOf(Do(s, Arrive)) == Bumped(CountersOf(s), Arrive)
  {
  }

  lemma LimitedTallies(s: State, rule: string)
    requires Enabled(s, CountLimited(rule)) && s.limited + 1 < U64
    ensures CountersOf(Do(s, CountLimited(rule))) == Bumped(CountersOf(s), CountLimited(rule))
  {
  }

  lemma TriedTallies(s: State, upgrade: bool)
    requires Enabled(s, CountTried(upgrade)) && s.allowed + 1 < U64
    ensures CountersOf(Do(s, CountTried(upgrade))) == Bumped(CountersOf(s), CountTried(upgrade))
  {
  }

  /** The rest is recorded elsewhere or not at all. */
  lemma RecordTallies(s: State, step: Step)
    requires step.RecordDryRun? || step.RecordDenied? || step.TriedFails?
    requires Enabled(s, step)
    ensures CountersOf(Do(s, step)) == CountersOf(s)
  {
  }

  /** What a tally is within, given the arrivals and what is in flight. */
  ghost predicate Within(t: Tally, arrivals: nat, open: nat, tried: nat, due: nat) {
    && t.total == arrivals
    && t.allowed + t.denied + t.badRequest + t.bodyTooLarge + t.timeouts + open + tried <= arrivals
    && t.dryRun + open <= arrivals
    && t.limited + due <= arrivals
  }

  lemma TallyFits(t: Tally, step: Step, arrivals: nat, open: nat, tried: nat, due: nat)
    requires Within(t, arrivals, open, tried, due)
    requires arrivals < U64 && (step.Arrive? ==> arrivals + 1 < U64)
    requires Source(step).Some? ==> open >= 1
    requires step.CountTried? ==> tried >= 1
    requires step.CountLimited? ==> due >= 1
    ensures Fits(Bumped(t, step))
  {
  }

  lemma CountersWithin(s: State)
    requires Balanced(s)
    ensures Within(CountersOf(s), s.arrivals, |s.open|, |s.tried|, |s.limitedDue|)
  {
  }

  /** While a request is in flight, no outcome has been counted as often as there are requests. */
  lemma BumpFits(s: State, step: Step)
    requires Enabled(s, step) && Balanced(s)
    requires s.arrivals < U64 && (step.Arrive? ==> s.arrivals + 1 < U64)
    ensures Fits(Bumped(CountersOf(s), step))
  {
    CountersWithin(s);
    InFlight(s, step);
    TallyFits(CountersOf(s), step, s.arrivals, |s.open|, |s.tried|, |s.limitedDue|);
  }

  lemma InFlight(s: State, step: Step)
    requires Enabled(s, step)
    ensures Source(step).Some? ==> |s.open| >= 1
    ensures step.CountTried? || step.TriedFails? ==> |s.tried| >= 1
    ensures step.CountLimited? ==> |s.limitedDue| >= 1
  {
    if Source(step).Some? {
      Sizes(s.open, Source(step).value);
    } else if step.CountTried? {
      Sizes(s.tried, step.upgrade);
    } else if step.CountLimited? {
      Sizes(s.limitedDue, step.rule);
    }
  }

  lemma StepTallies(s: State, step: Step)
    requires Enabled(s, step) && Fits(Bumped(CountersOf(s), step))
    ensures CountersOf(Do(s, step)) == Bumped(CountersOf(s), step)
  {
    if step.Arrive? {
      ArrivalTallies(s);
    } else if step.CountLimited? {
      LimitedTallies(s, step.rule);
    } else if step.CountTried? {
      TriedTallies(s, step.upgrade);
    } else if step.RecordDryRun? || step.RecordDenied? || step.TriedFails? {
      RecordTallies(s, step);
    } else if step.ServeMetrics? || step.Enter? || step.Judge? || step.CountDryRun? || step.CountAllowed? || step.UpstreamFails? {
      OpenStepTallies(s, step);
    } else if step.DenyAuth? || step.CountDenied? {
      DenialTallies(s, step);
    } else {
      RefusalTallies(s, step);
    }
  }

  /** Each counter shows how often its steps occurred, for fewer than 2^64 requests. */
  lemma {:induction false} CountersCountSteps(states: seq<State>, steps: seq<Step>)
    requires Runs(states, steps) && states[0] == Initial()
    requires states[|steps|].arrivals < U64
    ensures CountersOf(states[|steps|]) == TallyOf(steps)
  {
    if steps != [] {
      var n := |steps| - 1;
      RunsBefore(states, steps);
      ArrivalsGrow(states[n], steps[n]);
      CountersCountSteps(states[..n + 1], steps[..n]);
      AccountsBalance(states[..n + 1], steps[..n]);
      BumpFits(states[n], steps[n]);
      StepTallies(states[n], steps[n]);
    }
  }

  /** How often a rule is recorded in one mode. */
  ghost function RecordsOf(steps: seq<Step>, rule: string, dryRun: bool): nat {
    if steps == [] then 0
    else
      var last := steps[|steps| - 1];
      RecordsOf(steps[..|steps| - 1], rule, dryRun)
      + if (dryRun && last.RecordDryRun? && last.trial.rule == rule) || (!dryRun && last.RecordDenied? && last.rule == rule)
        then 1 else 0
  }

  lemma CountWithinSum(m: ByRule, rule: string, dryRun: bool)
    ensures CountOf(m, rule, dryRun) <= SumOf(m, dryRun)
  {
    if rule in m {
      SumSplits(m, DeniedOf, rule);
      SumSplits(m, DryRunOf, rule);
    }
  }

  lemma StepRecords(s: State, step: Step, rule: string, dryRun: bool)
    requires Enabled(s, step) && CountOf(s.byRule, rule, dryRun) < U64 - 1
    ensures CountOf(Do(s, step).byRule, rule, dryRun)
         == CountOf(s.byRule, rule, dryRun)
            + if (dryRun && step.RecordDryRun? && step.trial.rule == rule) || (!dryRun && step.RecordDenied? && step.rule == rule)
              then 1 else 0
  {
    if step.RecordDryRun? {
      RecordedMeans(s.byRule, step.trial.rule, true, rule, dryRun);
    } else if step.RecordDenied? {
      RecordedMeans(s.byRule, step.rule, false, rule, dryRun);
    }
  }

  /** Before the last of fewer than 2^64 requests is recorded, no rule's counter is at its end. */
  lemma CountBelow(s: State, step: Step, rule: string, dryRun: bool)
    requires Balanced(s) && Enabled(s, step) && s.arrivals < U64
    requires step.RecordDryRun? || step.RecordDenied?
    requires step.RecordDryRun? == dryRun
    ensures CountOf(s.byRule, rule, dryRun) < U64 - 1
  {
    CountWithinSum(s.byRule, rule, dryRun);
    if step.RecordDryRun? {
      Sizes(s.trials, step.trial);
    } else {
      Sizes(s.recordDue, step.rule);
    }
  }

  /** Each rule's counters show how often it was recorded, for fewer than 2^64 requests. */
  lemma {:induction false} RuleCountersCountSteps(states: seq<State>, steps: seq<Step>, rule: string, dryRun: bool)
    requires Runs(states, steps) && states[0] == Initial()
    requires states[|steps|].arrivals < U64
    ensures CountOf(states[|steps|].byRule, rule, dryRun) == RecordsOf(steps, rule, dryRun)
  {
    if steps != [] {
      var n := |steps| - 1;
      RunsBefore(states, steps);
      ArrivalsGrow(states[n], steps[n]);
      RuleCountersCountSteps(states[..n + 1], steps[..n], rule, dryRun);
      AccountsBalance(states[..n + 1], steps[..n]);
      RecordedOnce(states[n], steps[n], rule, dryRun);
    }
  }

  lemma RecordedOnce(s: State, step: Step, rule: string, dryRun: bool)
    requires Balanced(s) && Enabled(s, step) && s.arrivals < U64
    ensures CountOf(Do(s, step).byRule, rule, dryRun)
         == CountOf(s.byRule, rule, dryRun)
            + if (dryRun && step.RecordDryRun? && step.trial.rule == rule) || (!dryRun && step.RecordDenied? && step.rule == rule)
              then 1 else 0
  {
    if (step.RecordDryRun? && dryRun) || (step.RecordDenied? && !dryRun) {
      CountBelow(s, step, rule, dryRun);
      StepRecords(s, step, rule, dryRun);
    } else if step.RecordDryRun? {
      RecordedMeans(s.byRule, step.trial.rule, true, rule, dryRun);
    } else if step.RecordDenied? {
      RecordedMeans(s.byRule, step.rule, false, rule, dryRun);
    }
  }

  /** The outcome counters never claim more requests than were received. */
  lemma OutcomesWithinTotal(states: seq<State>, steps: seq<Step>)
    requires Runs(states, steps) && states[0] == Initial()
    requires states[|steps|].arrivals < U64
    ensures Outcomes(states[|steps|]) <= states[|steps|].total
  {
    AccountsBalance(states, steps);
  }

  ghost predicate Quiet(s: State) {
    s.open == multiset{} && s.trials == multiset{} && s.tried == multiset{}
    && s.limitedDue == multiset{} && s.recordDue == multiset{}
  }

  /**
   With nothing in flight, denials are the authentication denials plus the enforced denials of
   all rules, dry runs are the dry runs of all rules, and the rate-limit counter is short of
   exactly the rate-limit denials of upgrade requests.
   */
  lemma QuietTotals(states: seq<State>, steps: seq<Step>)
    requires Runs(states, steps) && states[0] == Initial()
    requires states[|steps|].arrivals < U64 && Quiet(states[|steps|])
    ensures var s := states[|steps|];
            && s.denied == s.authDenials + SumOf(s.byRule, false)
            && s.dryRun == SumOf(s.byRule, true)
            && s.limited + s.upgradeLimited == s.rateDenials
            && s.total == Outcomes(s) + s.uncounted
  {
    AccountsBalance(states, steps);
  }

  /** A rate limit's refusal of an upgrade request. */
  ghost function RateRefusal(rule: string): Decision {
    Decision(Denied(429, "Rate limit exceeded"), Some(rule), Some(RateLimit), false)
  }

  lemma RunExtends(states: seq<State>, steps: seq<Step>, step: Step)
    requires Runs(states, steps) && Enabled(states[|steps|], step)
    ensures Runs(states + [Do(states[|steps|], step)], steps + [step])
  {
    var all, longer := states + [Do(states[|steps|], step)], steps + [step];
    forall i | 0 <= i < |longer|
      ensures Enabled(all[i], longer[i]) && all[i + 1] == Do(all[i], longer[i])
    {
      if i < |steps| {
        assert all[i] == states[i] && all[i + 1] == states[i + 1] && longer[i] == steps[i];
      } else {
        assert all[i] == states[|steps|] && longer[i] == step;
      }
    }
  }

  /** From process start, some run of these steps ends in this state. */
  ghost predicate Reaches(steps: seq<Step>, end: State) {
    exists states :: Runs(states, steps) && states[0] == Initial() && states[|steps|] == end
  }

  lemma ReachesStart()
    ensures Reaches([], Initial())
  {
    assert Runs([Initial()], []);
  }

  lemma ReachesNext(steps: seq<Step>, s: State, step: Step)
    requires Reaches(steps, s) && Enabled(s, step)
    ensures Reaches(steps + [step], Do(s, step))
  {
    var states :| Runs(states, steps) && states[0] == Initial() && states[|steps|] == s;
    RunExtends(states, steps, step);
    assert (states + [Do(s, step)])[0] == states[0];
  }

  /** An upgrade request that is the only one received so far, at one point of its way. */
  ghost function LoneUpgrade(at: Point): State {
    Initial().(total := 1, arrivals := 1, open := multiset{at})
  }

  lemma LoneUpgradeArrives()
    ensures Do(Initial(), Arrive) == LoneUpgrade(Arrived)
  {
  }

  lemma LoneUpgradeMoves(d: Decision)
    requires Accountable(d)
    ensures Do(LoneUpgrade(Arrived), Enter(true)) == LoneUpgrade(Ready(true))
    ensures Do(LoneUpgrade(Ready(true)), Judge(true, d)) == LoneUpgrade(Judged(true, d))
  {
    assert multiset{Arrived} - multiset{Arrived} == multiset{};
    assert multiset{Ready(true)} - multiset{Ready(true)} == multiset{};
  }

  /** What the refusal leaves due, and then leaves behind. */
  ghost function RefusedState(rule: string): State {
    Initial().(total := 1, arrivals := 1, denied := 1, rateDenials := 1, upgradeLimited := 1, recordDue := multiset{rule})
  }

  lemma LoneUpgradeRefused(rule: string)
    ensures Do(LoneUpgrade(Judged(true, RateRefusal(rule))), CountDenied(true, RateRefusal(rule))) == RefusedState(rule)
  {
    var p := Judged(true, RateRefusal(rule));
    assert multiset{p} - multiset{p} == multiset{};
  }

  lemma LoneUpgradeRecorded(rule: string)
    ensures Do(RefusedState(rule), RecordDenied(rule))
         == RefusedState(rule).(recordDue := multiset{}, byRule := Recorded(map[], rule, false))
  {
    assert multiset{rule} - multiset{rule} == multiset{};
  }

  /** A judged upgrade request, from its arrival on. */
  ghost function JudgedUpgrade(d: Decision): seq<Step> {
    [] + [Arrive] + [Enter(true)] + [Judge(true, d)]
  }

  lemma JudgedUpgradeReached(d: Decision)
    requires Accountable(d)
    ensures Reaches(JudgedUpgrade(d), LoneUpgrade(Judged(true, d)))
  {
    LoneUpgradeArrives();
    LoneUpgradeMoves(d);
    ReachesStart();
    ReachesNext([], Initial(), Arrive);
    ReachesNext([] + [Arrive], LoneUpgrade(Arrived), Enter(true));
    ReachesNext([] + [Arrive] + [Enter(true)], LoneUpgrade(Ready(true)), Judge(true, d));
  }

  /** One upgrade request that a rate limit turns away, from arrival to its last record. */
  ghost function RefusedUpgrade(rule: string): seq<Step> {
    JudgedUpgrade(RateRefusal(rule)) + [CountDenied(true, RateRefusal(rule))] + [RecordDenied(rule)]
  }

  /** The rate-limit counter does miss denials: after such a request it still shows none. */
  lemma UpgradeDenialMissed(rule: string) returns (s: State)
    ensures Reaches(RefusedUpgrade(rule), s)
    ensures Quiet(s) && s.denied == s.rateDenials == s.upgradeLimited == 1 && s.limited == 0
  {
    var d := RateRefusal(rule);
    var steps := JudgedUpgrade(d);
    JudgedUpgradeReached(d);
    LoneUpgradeRefused(rule);
    LoneUpgradeRecorded(rule);
    ReachesNext(steps, LoneUpgrade(Judged(true, d)), CountDenied(true, d));
    ReachesNext(steps + [CountDenied(true, d)], RefusedState(rule), RecordDenied(rule));
    s := Do(RefusedState(rule), RecordDenied(rule));
  }
}
