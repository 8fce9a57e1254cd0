/** Authenticating one request against the lockout table, step by step. */
module Authentication {
  import opened Basics
  import opened Lockout
  import LockoutThreads
  import opened Tokens

  /** What the configured authentication type looks at: nothing, a certificate's role, or the authorization headers. */
  datatype Credentials =
    | Unrestricted
    | Certificate(presented: bool, role: Option<string>)
    | Bearer(config: Config, headers: seq<Text>)

  datatype Outcome = Allowed(role: Option<string>) | Denied(status: nat)

  const UNAUTHORIZED := 401
  const TOO_MANY_REQUESTS := 429

  datatype Verdict = Grant(role: Option<string>, clears: bool) | Refuse(counts: bool)

  /** Whether credentials are good, and whether that clears or counts against the address. */
  ghost function Judge(c: Credentials): Verdict {
    match c
    case Unrestricted => Grant(None, false)
    case Certificate(presented, role) =>
      if !presented then Refuse(false) else if role.Some? then Grant(role, true) else Refuse(true)
    case Bearer(config, headers) =>
      var token := ExtractBearerToken(headers);
      if !StrictlyConfigured(config) then Refuse(false)
      else if token.Presented? && RoleOf(config, token.token).Some? then Grant(RoleOf(config, token.token), true)
      else Refuse(true)
  }

  /**
   Bearer authentication lets a request in, in a given role, exactly when it carries one
   authorization header, that header is the scheme and a token of 1 to 4096 readable bytes, and
   the token is a configured credential for that role.
   */
  lemma BearerAdmitsIff(config: Config, headers: seq<Text>, role: string)
    requires Short(config)
    ensures Judge(Bearer(config, headers)) == Grant(Some(role), true) <==>
              exists token :: headers == [BEARER + token] && 0 < |token| <= MAX_TOKEN_LEN && Visible(token)
                              && Known(config, token) && Grants(config, token, role)
  {
    var presented := ExtractBearerToken(headers);
    if presented.Presented? {
      var token := presented.token;
      PresentedIff(headers, token);
      RoleOfIff(config, token, role);
      GrantsIffKnown(config, token);
      ConfiguredIffAccepting(config);
    }
    if token :| headers == [BEARER + token] && 0 < |token| <= MAX_TOKEN_LEN && Visible(token)
                && Known(config, token) && Grants(config, token, role) {
      PresentedIff(headers, token);
    }
  }

  /** The table and the two counters that authentication keeps. */
  datatype Books = Books(table: Table, failures: nat, lockouts: nat)

  /** One authentication that nothing interrupts: its answer and what it leaves. */
  ghost function Attempt(b: Books, key: string, c: Credentials, gate: int, now: int): (Outcome, Books) {
    if InForce(Lookup(b.table, key), gate) then (Denied(TOO_MANY_REQUESTS), b)
    else
      match Judge(c)
      case Grant(role, clears) => (Allowed(role), if clears then b.(table := b.table - {key}) else b)
      case Refuse(counts) =>
        var (table, lockedOut) := FailTable(b.table, key, AUTH_POLICY, now);
        (Denied(UNAUTHORIZED),
         if counts then Books(table, b.failures + 1, b.lockouts + if lockedOut then 1 else 0) else b)
  }

  /** The interleavable steps that one authentication stands for. */
  ghost function StepsOf(blocked: bool, c: Credentials, key: string, gate: int, now: int, lockedOut: bool)
    : seq<LockoutThreads.Step>
  {
    var enter := [LockoutThreads.Gate(key, gate)];
    if blocked then enter
    else
      match Judge(c)
      case Grant(_, clears) => enter + [if clears then LockoutThreads.Succeed(key) else LockoutThreads.Leave(key)]
      case Refuse(counts) =>
        if !counts then enter + [LockoutThreads.Leave(key)]
        else enter + [LockoutThreads.Count(key), LockoutThreads.Record(key, now)]
                   + if lockedOut then [LockoutThreads.BumpLockouts] else []
  }

  ghost predicate Reaches(before: LockoutThreads.State, steps: seq<LockoutThreads.Step>, after: LockoutThreads.State) {
    exists states :: LockoutThreads.Runs(states, AUTH_POLICY, steps) && states[0] == before && states[|steps|] == after
  }

  /** The shared state at a moment when no attempt is in flight. */
  ghost function StateOf(b: Books, clock: int): LockoutThreads.State {
    LockoutThreads.State(b.table, clock, b.failures, b.lockouts, multiset{}, multiset{}, 0)
  }

  /** The limiter and the two counters that authentication keeps. */
  class Authenticator {
    const limiter: AuthLimiter
    var authFailuresTotal: nat
    var authLockoutsTotal: nat

    constructor (limiter: AuthLimiter)
      ensures this.limiter == limiter && authFailuresTotal == 0 && authLockoutsTotal == 0
    {
      this.limiter := limiter;
      authFailuresTotal, authLockoutsTotal := 0, 0;
    }

    ghost function CurrentBooks(): Books
      reads this, limiter
    {
      Books(limiter.state, authFailuresTotal, authLockoutsTotal)
    }

    /** `gate` and `now` are the readings taken by the blocked check and by the recording, if it comes to that. */
    method Authenticate(key: string, c: Credentials, gate: int, now: int) returns (outcome: Outcome)
      modifies this, limiter
      ensures (outcome, CurrentBooks()) == Attempt(old(CurrentBooks()), key, c, gate, now)
    {
      var blocked := limiter.IsBlocked(key, gate);
      if blocked {
        return Denied(429);
      }
      match c {
        case Unrestricted =>
          return Allowed(None);
        case Certificate(presented, role) =>
          if !presented {
            return Denied(401);
          }
          if role.Some? {
            limiter.RecordSuccess(key);
            return Allowed(role);
          }
          CountFailure(key, now);
          return Denied(401);
        case Bearer(config, headers) =>
          if !StrictlyConfigured(config) {
            return Denied(401);
          }
          var token := ExtractBearerToken(headers);
          if token.Presented? {
            var role := ResolveTokenRole(config, token.token);
            assert role == RoleOf(config, token.token);
            if role.Some? {
              limiter.RecordSuccess(key);
              return Allowed(role);
            }
          }
          CountFailure(key, now);
          return Denied(401);
      }
    }

    /** The failure branch: bump the failure counter, record, and bump the lockout counter if it locks out. */
    method CountFailure(key: string, now: int)
      modifies this, limiter
      ensures var (table, lockedOut) := FailTable(old(limiter.state), key, AUTH_POLICY, now);
              && limiter.state == table
              && authFailuresTotal == old(authFailuresTotal) + 1
              && authLockoutsTotal == old(authLockoutsTotal) + if lockedOut then 1 else 0
    {
      authFailuresTotal := authFailuresTotal + 1;
      var lockedOut := limiter.RecordFailure(key, Policy(10, 60_000_000_000, 300_000_000_000), now);
      if lockedOut {
        authLockoutsTotal := authLockoutsTotal + 1;
      }
    }
  }

  /** An authentication that nothing interrupts runs the interleavable steps of one attempt. */
  lemma AttemptRunsSteps(b: Books, key: string, c: Credentials, gate: int, now: int)
    requires gate <= now
    ensures var blocked := InForce(Lookup(b.table, key), gate);
            var counts := !blocked && Judge(c).Refuse? && Judge(c).counts;
            var steps := StepsOf(blocked, c, key, gate, now, FailTable(b.table, key, AUTH_POLICY, now).1);
            Reaches(StateOf(b, gate), steps, StateOf(Attempt(b, key, c, gate, now).1, if counts then now else gate))
  {
    var s0 := StateOf(b, gate);
    if InForce(Lookup(b.table, key), gate) {
      var gateStep := LockoutThreads.Gate(key, gate);
      assert LockoutThreads.Runs([s0, LockoutThreads.Do(s0, AUTH_POLICY, gateStep)], AUTH_POLICY, [gateStep]);
    } else {
      match Judge(c) {
        case Grant(_, clears) =>
          if clears {
            SuccessReaches(s0, key, gate);
          } else {
            LeaveReaches(s0, key, gate);
          }
        case Refuse(counts) =>
          if counts {
            FailureReaches(s0, key, gate, now);
          } else {
            LeaveReaches(s0, key, gate);
          }
      }
    }
  }

  ghost function FailureSteps(key: string, gate: int, now: int, lockedOut: bool): seq<LockoutThreads.Step> {
    [LockoutThreads.Gate(key, gate)] + [LockoutThreads.Count(key), LockoutThreads.Record(key, now)]
    + if lockedOut then [LockoutThreads.BumpLockouts] else []
  }

  /** A state in which no attempt is in flight. */
  ghost predicate AtRest(s: LockoutThreads.State) {
    s.passed == multiset{} && s.counted == multiset{} && s.owed == 0
  }

  lemma LeaveReaches(s0: LockoutThreads.State, key: string, gate: int)
    requires AtRest(s0) && s0.clock <= gate
    requires !InForce(Lookup(s0.table, key), gate)
    ensures Reaches(s0, [LockoutThreads.Gate(key, gate)] + [LockoutThreads.Leave(key)], s0.(clock := gate))
  {
    var steps := [LockoutThreads.Gate(key, gate)] + [LockoutThreads.Leave(key)];
    var s1 := LockoutThreads.Do(s0, AUTH_POLICY, steps[0]);
    var s2 := LockoutThreads.Do(s1, AUTH_POLICY, steps[1]);
    assert s2 == s0.(clock := gate);
    assert LockoutThreads.Runs([s0, s1, s2], AUTH_POLICY, steps);
  }

  lemma SuccessReaches(s0: LockoutThreads.State, key: string, gate: int)
    requires AtRest(s0) && s0.clock <= gate
    requires !InForce(Lookup(s0.table, key), gate)
    ensures Reaches(s0, [LockoutThreads.Gate(key, gate)] + [LockoutThreads.Succeed(key)],
                    s0.(clock := gate, table := s0.table - {key}))
  {
    var steps := [LockoutThreads.Gate(key, gate)] + [LockoutThreads.Succeed(key)];
    var s1 := LockoutThreads.Do(s0, AUTH_POLICY, steps[0]);
    var s2 := LockoutThreads.Do(s1, AUTH_POLICY, steps[1]);
    assert s2 == s0.(clock := gate, table := s0.table - {key});
    assert LockoutThreads.Runs([s0, s1, s2], AUTH_POLICY, steps);
  }

  /** The count and the recording, when nothing else is in flight. */
  lemma CountThenRecord(s1: LockoutThreads.State, key: string, now: int)
    requires s1.passed == multiset{key} && s1.counted == multiset{} && s1.owed == 0 && s1.clock <= now
    ensures var counted := s1.(failuresTotal := s1.failuresTotal + 1, passed := multiset{}, counted := multiset{key});
            var (table, lockedOut) := FailTable(s1.table, key, AUTH_POLICY, now);
            && LockoutThreads.Do(s1, AUTH_POLICY, LockoutThreads.Count(key)) == counted
            && LockoutThreads.Do(counted, AUTH_POLICY, LockoutThreads.Record(key, now))
                 == counted.(clock := now, table := table, counted := multiset{}, owed := if lockedOut then 1 else 0)
  {
    assert multiset{key} - multiset{key} == multiset{};
    assert multiset{} + multiset{key} == multiset{key};
  }

  lemma FailureReaches(s0: LockoutThreads.State, key: string, gate: int, now: int)
    requires AtRest(s0) && s0.clock <= gate <= now
    requires !InForce(Lookup(s0.table, key), gate)
    ensures var (table, lockedOut) := FailTable(s0.table, key, AUTH_POLICY, now);
            Reaches(s0, FailureSteps(key, gate, now, lockedOut),
                    s0.(clock := now, table := table, failuresTotal := s0.failuresTotal + 1,
                        lockoutsTotal := s0.lockoutsTotal + if lockedOut then 1 else 0))
  {
    var (table, lockedOut) := FailTable(s0.table, key, AUTH_POLICY, now);
    var s1 := LockoutThreads.Do(s0, AUTH_POLICY, LockoutThreads.Gate(key, gate));
    CountThenRecord(s1, key, now);
    var s2 := LockoutThreads.Do(s1, AUTH_POLICY, LockoutThreads.Count(key));
    var s3 := LockoutThreads.Do(s2, AUTH_POLICY, LockoutThreads.Record(key, now));
    var steps := [LockoutThreads.Gate(key, gate)] + [LockoutThreads.Count(key), LockoutThreads.Record(key, now)];
    assert LockoutThreads.Runs([s0, s1, s2, s3], AUTH_POLICY, steps);
    if lockedOut {
      ReachesBump(s0, steps, s3);
    } else {
      assert steps + [] == steps;
    }
  }

  lemma ReachesBump(s0: LockoutThreads.State, steps: seq<LockoutThreads.Step>, s: LockoutThreads.State)
    requires Reaches(s0, steps, s) && s.owed > 0
    ensures Reaches(s0, steps + [LockoutThreads.BumpLockouts],
                    LockoutThreads.Do(s, AUTH_POLICY, LockoutThreads.BumpLockouts))
  {
    var states :| LockoutThreads.Runs(states, AUTH_POLICY, steps) && states[0] == s0 && states[|steps|] == s;
    var end := LockoutThreads.Do(s, AUTH_POLICY, LockoutThreads.BumpLockouts);
    assert LockoutThreads.Runs(states + [end], AUTH_POLICY, steps + [LockoutThreads.BumpLockouts]);
  }

  /** The headers carry a usable token that is configured. */
  ghost predicate Carries(config: Config, headers: seq<Text>) {
    exists token :: headers == [BEARER + token] && 0 < |token| <= 4096 && Visible(token) && Known(config, token)
  }

  /**
   Credentials that are refused and held against the address: a certificate that maps to no role,
   or, when some token would be accepted, headers that carry none of those.
   */
  ghost predicate Held(c: Credentials) {
    match c
    case Unrestricted => false
    case Certificate(presented, role) => presented && role.None?
    case Bearer(config, headers) =>
      && (exists token, role :: 0 < |token| < TWO_32 && Grants(config, token, role))
      && !Carries(config, headers)
  }

  /** Credentials that are refused without that: no certificate, or a configuration that accepts nothing. */
  ghost predicate Ignored(c: Credentials) {
    match c
    case Unrestricted => false
    case Certificate(presented, _) => !presented
    case Bearer(config, _) => forall token, role :: 0 < |token| < TWO_32 ==> !Grants(config, token, role)
  }

  ghost predicate ShortCredentials(c: Credentials) {
    c.Bearer? ==> Short(c.config)
  }

  /** While a lockout is in force, nobody gets in and nothing changes. */
  lemma BlockedAttempt(b: Books, key: string, c: Credentials, gate: int, now: int)
    requires key in b.table && b.table[key].blockedUntil.Some? && gate < b.table[key].blockedUntil.value
    ensures Attempt(b, key, c, gate, now) == (Denied(429), b)
  {
  }

  /** The address is not locked out at the reading. */
  ghost predicate Unblocked(t: Table, key: string, gate: int) {
    key in t && t[key].blockedUntil.Some? ==> t[key].blockedUntil.value <= gate
  }

  lemma CountedRefusal(b: Books, key: string, c: Credentials, gate: int, now: int)
    requires Unblocked(b.table, key, gate) && Judge(c) == Refuse(true)
    ensures var (table, lockedOut) := FailTable(b.table, key, AUTH_POLICY, now);
            Attempt(b, key, c, gate, now)
              == (Denied(401), Books(table, b.failures + 1, b.lockouts + if lockedOut then 1 else 0))
  {
  }

  lemma AcceptingIff(config: Config)
    requires Short(config)
    ensures (exists token, role :: 0 < |token| < TWO_32 && Grants(config, token, role)) <==> StrictlyConfigured(config)
  {
    ConfiguredIffAccepting(config);
  }

  lemma CarriesIff(config: Config, headers: seq<Text>)
    requires Short(config)
    ensures Carries(config, headers) <==>
              var token := ExtractBearerToken(headers); token.Presented? && RoleOf(config, token.token).Some?
  {
    var presented := ExtractBearerToken(headers);
    if presented.Presented? {
      PresentedIff(headers, presented.token);
      GrantsIffKnown(config, presented.token);
    }
    if Carries(config, headers) {
      var token :| headers == [BEARER + token] && 0 < |token| <= 4096 && Visible(token) && Known(config, token);
      PresentedIff(headers, token);
      GrantsIffKnown(config, token);
    }
  }

  lemma CredentialsJudged(c: Credentials)
    requires ShortCredentials(c)
    ensures Held(c) ==> Judge(c) == Refuse(true)
    ensures Ignored(c) ==> Judge(c) == Refuse(false)
    ensures !Held(c) && !Ignored(c) ==> Judge(c).Grant? && Judge(c).clears == !c.Unrestricted?
    ensures !Held(c) && !Ignored(c) && !c.Unrestricted? ==> Judge(c).role.Some?
  {
    if c.Bearer? {
      AcceptingIff(c.config);
      CarriesIff(c.config, c.headers);
    }
  }

  /** A refusal held against the address: 401, one more failure, and the entry moves as a recording moves it. */
  lemma HeldAttempt(b: Books, key: string, c: Credentials, gate: int, now: int)
    requires Unblocked(b.table, key, gate) && ShortCredentials(c) && Held(c)
    ensures var (table, lockedOut) := FailTable(b.table, key, AUTH_POLICY, now);
            Attempt(b, key, c, gate, now)
              == (Denied(401), Books(table, b.failures + 1, b.lockouts + if lockedOut then 1 else 0))
  {
    CredentialsJudged(c);
    CountedRefusal(b, key, c, gate, now);
  }

  /** Any other refusal: 401, and nothing changes. */
  lemma IgnoredAttempt(b: Books, key: string, c: Credentials, gate: int, now: int)
    requires Unblocked(b.table, key, gate) && ShortCredentials(c) && Ignored(c)
    ensures Attempt(b, key, c, gate, now) == (Denied(401), b)
  {
    CredentialsJudged(c);
  }

  /** Everything else gets in, with a clean slate unless authentication is switched off. */
  lemma AdmittedAttempt(b: Books, key: string, c: Credentials, gate: int, now: int)
    requires Unblocked(b.table, key, gate) && ShortCredentials(c) && !Held(c) && !Ignored(c)
    ensures var (outcome, after) := Attempt(b, key, c, gate, now);
            && outcome.Allowed?
            && after == (if c.Unrestricted? then b else b.(table := b.table - {key}))
            && (c.Unrestricted? ==> outcome.role.None?)
            && (c.Certificate? ==> outcome.role == c.role)
            && (c.Bearer? ==> outcome.role.Some? && exists token ::
                  c.headers == [BEARER + token] && Known(c.config, token) && Grants(c.config, token, outcome.role.value))
  {
    CredentialsJudged(c);
    if c.Bearer? {
      BearerAdmitsIff(c.config, c.headers, Judge(c).role.value);
    }
  }

  /** One authentication with the two readings it takes. */
  datatype Try = Try(c: Credentials, gate: int, now: int)

  /** What is left after one authentication after another for an address. */
  ghost function Tries(b: Books, key: string, ts: seq<Try>): Books {
    if ts == [] then b
    else
      var n := |ts| - 1;
      Attempt(Tries(b, key, ts[..n]), key, ts[n].c, ts[n].gate, ts[n].now).1
  }

  /** One authentication after another, on a clock that never steps back. */
  ghost predicate InTurn(ts: seq<Try>) {
    && (forall i :: 0 <= i < |ts| ==> ts[i].gate <= ts[i].now)
    && (forall i, j :: 0 <= i < j < |ts| ==> ts[i].now <= ts[j].gate)
  }

  ghost predicate AllCounted(ts: seq<Try>) {
    forall i :: 0 <= i < |ts| ==> Judge(ts[i].c) == Refuse(true)
  }

  /** What `n` counted refusals leave, the first and the last at the given readings; the tenth locks out. */
  ghost predicate LeftBy(before: Books, after: Books, key: string, n: nat, first: int, last: int) {
    && after.failures == before.failures + n
    && after.lockouts == before.lockouts + (if n == 10 then 1 else 0)
    && if n == 0 then after == before
       else key in after.table
            && after.table[key] == Entry(n, first, if n == 10 then Some(last + 300_000_000_000) else None)
  }

  lemma OneMoreCounted(before: Books, b: Books, key: string, t: Try, n: nat, first: int, last: int)
    requires Judge(t.c) == Refuse(true) && n < 10
    requires key !in before.table && |before.table| < 16384
    requires LeftBy(before, b, key, n, first, last)
    requires first <= t.now <= first + 60_000_000_000
    requires n == 0 ==> first == t.now
    ensures var (outcome, after) := Attempt(b, key, t.c, t.gate, t.now);
            outcome == Denied(401) && LeftBy(before, after, key, n + 1, first, t.now)
  {
    CountedRefusal(b, key, t.c, t.gate, t.now);
  }

  lemma {:induction false} RefusalsCount(b: Books, key: string, ts: seq<Try>)
    requires InTurn(ts) && AllCounted(ts) && 1 <= |ts| <= 10
    requires key !in b.table && |b.table| < 16384
    requires ts[|ts| - 1].now <= ts[0].now + 60_000_000_000
    ensures var last := ts[|ts| - 1];
            && Attempt(Tries(b, key, ts[..|ts| - 1]), key, last.c, last.gate, last.now).0 == Denied(401)
            && LeftBy(b, Tries(b, key, ts), key, |ts|, ts[0].now, last.now)
  {
    var n := |ts| - 1;
    var prior := ts[..n];
    if n > 0 {
      assert ts[n - 1].now <= ts[n].gate <= ts[n].now && ts[0].now <= ts[n].gate;
      RefusalsCount(b, key, prior);
    }
    OneMoreCounted(b, Tries(b, key, prior), key, ts[n], n, ts[0].now, if n == 0 then 0 else ts[n - 1].now);
  }

  /**
   The lockout, end to end. Ten refusals held against an address within 60 seconds, from an
   untracked address with room in the table, are each answered 401 and counted, and count one
   lockout; from then until 300 seconds after the tenth every request of that address is answered
   429 and changes nothing, whatever it carries, and no later one is.
   */
  lemma TenRefusalsLockOut(b: Books, key: string, ts: seq<Try>, c: Credentials, gate: int, now: int)
    requires |ts| == 10 && InTurn(ts)
    requires forall i :: 0 <= i < 10 ==> Held(ts[i].c) && ShortCredentials(ts[i].c)
    requires key !in b.table && |b.table| < 16384
    requires ts[9].now - ts[0].now <= 60_000_000_000
    ensures forall i :: 0 <= i < 10 ==>
              Attempt(Tries(b, key, ts[..i]), key, ts[i].c, ts[i].gate, ts[i].now).0 == Denied(401)
    ensures var after := Tries(b, key, ts);
            && after.failures == b.failures + 10 && after.lockouts == b.lockouts + 1
            && (gate < ts[9].now + 300_000_000_000 ==> Attempt(after, key, c, gate, now) == (Denied(429), after))
            && (gate >= ts[9].now + 300_000_000_000 ==> Attempt(after, key, c, gate, now).0 != Denied(429))
  {
    forall i | 0 <= i < 10 ensures Judge(ts[i].c) == Refuse(true) {
      CredentialsJudged(ts[i].c);
    }
    forall i | 0 <= i < 10
      ensures Attempt(Tries(b, key, ts[..i]), key, ts[i].c, ts[i].gate, ts[i].now).0 == Denied(401)
    {
      RefusedAt(b, key, ts, i);
    }
    RefusalsCount(b, key, ts);
    AfterTen(Tries(b, key, ts), key, ts[9].now + 300_000_000_000, c, gate, now);
  }

  lemma RefusedAt(b: Books, key: string, ts: seq<Try>, i: nat)
    requires |ts| == 10 && InTurn(ts) && AllCounted(ts) && i < 10
    requires key !in b.table && |b.table| < 16384
    requires ts[9].now <= ts[0].now + 60_000_000_000
    ensures Attempt(Tries(b, key, ts[..i]), key, ts[i].c, ts[i].gate, ts[i].now).0 == Denied(401)
  {
    var upto := ts[..i + 1];
    assert upto[..i] == ts[..i];
    assert i < 9 ==> ts[i].now <= ts[9].gate <= ts[9].now;
    RefusalsCount(b, key, upto);
  }

  lemma AfterTen(b: Books, key: string, until: int, c: Credentials, gate: int, now: int)
    requires key in b.table && b.table[key].blockedUntil == Some(until)
    ensures gate < until ==> Attempt(b, key, c, gate, now) == (Denied(429), b)
    ensures gate >= until ==> Attempt(b, key, c, gate, now).0 != Denied(429)
  {
  }
}
