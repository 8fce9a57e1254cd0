# Verification model of the proxy's policy core

This project models the part of the proxy that decides what happens to a request and keeps
count of it, and proves properties of that model with Dafny 4.11:

- the token-bucket rate limiter with penalty and cleanup (`TokenBucket`, `RateBound`,
  `RateRuns`, `RateExact`, `RateCleanup`);
- the authentication lockout, sequential and interleaved (`Lockout`, `LockoutHistory`,
  `LockoutRuns`, `LockoutThreads`, `LockoutViews`), and the bearer tokens it guards (`Tokens`,
  `Authentication`);
- JSON positions and the response filter pipeline (`Segments`, `Json`, `JsonPaths`,
  `ResponseFilters`);
- rule conditions, the rule loop, rule order and client isolation (`Conditions`,
  `ConditionMeanings`, `RuleEngine`, `RuleOrder`, `ClientIsolation`);
- the path canonicaliser (`Utf8`, `Paths`);
- the latency histogram and the request counters (`Histogram`, `Accounting`).

`dafny verify dfyconfig.toml` checks everything.

## How the program is modelled

The mutex-guarded tables, the configuration, the metrics and the histogram are classes whose
methods update fields; each method is proved to do what a function of the old state says, and the
lemmas are about that function and about runs of it. Loops of the source are loops here. Runs are
sequences of events in lock order. Interleaved code is a state machine whose steps are the
individually atomic actions of the source.

Conventions:

- A clock reading is a parameter, an integer number of nanoseconds, and subtraction saturates at
  zero. The rate limiter's readings are arbitrary, because the source reads the clock before it
  takes the lock (src/rules.rs:83-85); the lockout's readings never step back, because there the
  clock is read under the lock.
- Token counts are real numbers where the source uses `f64`.
- Regular expressions, address and network parsing, and the printing of numbers and JSON are
  uninterpreted functions, fields of `Conditions.Libs`. JSON documents, YAML values and headers
  start out parsed; headers are listed in iteration order. Condition fields, operators and rule
  actions are enumerations of the literals that the source compares strings with, plus one value
  for every other string.
- A mutable reference into a JSON document is the position it denotes; documents have one owner,
  so assigning through it is replacing the value at that position.
- Paths are byte sequences. Well-formed UTF-8 is defined as in section 4 of RFC 3629, and
  percent-encoding as in section 2.1 of RFC 3986.

## Where the code and its documentation differ

The model follows the code. These differences came out as exact statements:

- README.md:421 says that idle buckets are cleaned up every 60 seconds. Cleanup looks at the
  stored token count, without the refill since the last call, and every call leaves at most
  max - 1 tokens or a penalty. So it drops a bucket only when the limit is one request, the
  penalty is over and 0.999 of a token had grown back (`CleanupDropsIff`). Without one-request
  limits no tracked key ever leaves, and a table that is full refuses every new key for good
  (`TrackedKeysStay`, `FullTableRefusesNewKeys`).
- Cleanup can be noticed only by a call that read the clock before the cleanup it follows
  (`CleanupVisibleIff`, `StaleReadingSeesCleanup`); without such calls it cannot
  (`CleanupInvisible`).
- README.md:260 says that 10 failures within 60 seconds lock an address out. The window is fixed,
  not sliding: 18 failures within 60 seconds always do, 17 within a nanosecond need not
  (`EighteenFailuresLockOut`, `SeventeenFailuresMayNot`), though the first ten from an untracked
  address do (`TenRefusalsLockOut`). A lockout always rests on 10 failures
  within 60 seconds (`BlockedOnlyAfterBurst`).
- README.md:417 says that the penalty begins when the bucket hits zero. It begins with the first
  call that finds less than one token (`RefusalPenalty`).
- README.md:276-280 and README.md:380 call `require_role` terminating. A satisfied one lets
  evaluation go on (`InertRules`).
- README.md:293 says that filter entries are used only with `response_filter`. They are collected
  from every matching rule (`CollectionIgnoresActions`).
- README.md:219 describes the rate-limit counter as all rate-limit denials. It leaves out those of
  upgrade requests, and no others (`QuietTotals`, `UpgradeDenialMissed`).
- Rate-limit keys join rule name and address with a colon, which rule names may contain
  (src/config.rs:345). With colon-free names keys are unambiguous (`KeysInjective`,
  `ColonFreeKeysApart`); `KeysCollideIff` says exactly when two clients share a bucket, and
  `CollisionExample` shows one IPv6 client that is refused because of another.

## Model

| member | source | states |
|---|---|---|
| `TokenBucket.RateLimiter.Check` | src/rules.rs:73-119 | One call moves its own key's slot as `Next` says and no other key's slot, and gives `Next`'s answer |
| `TokenBucket.Refreshed` | src/rules.rs:98-110 | The part of a call that ends a penalty and refills leaves exactly the tokens that the call is said to find |
| `TokenBucket.OpenBucketCall` | src/rules.rs:77-118 | On an open bucket requests tokens grow back in period seconds, up to requests; a call passes if and only if that makes one, takes it, and is otherwise blocked for penalty seconds; no other key changes |
| `TokenBucket.DrainedBucketIff` | src/rules.rs:77-118 | From an empty bucket a call passes if and only if elapsed nanoseconds times requests reach the period in nanoseconds |
| `TokenBucket.FullBucketAllows` | src/rules.rs:89-118 | A new key with room, or one whose penalty is over, passes and keeps requests - 1 tokens |
| `TokenBucket.RefusedOutright` | src/rules.rs:74-102 | A limit of zero, a new key in a table of 16384 and a penalty in force refuse and change nothing |
| `TokenBucket.RefillScaled` | src/rules.rs:77-82 | The refill of n nanoseconds, times the period in nanoseconds, is n times requests; a zero period counts as one second |
| `TokenBucket.RateLimiter.Cleanup` | src/rules.rs:121-131 | Every key's slot is what the retain closure leaves of it |
| `TokenBucket.NextSettles` | src/rules.rs:107-118 | Every call leaves its bucket with 0 to max tokens, at most max - 1 when not blocked and less than one when blocked |
| `TokenBucket.CleanupDropsIff` | src/rules.rs:124-130 | For a bucket that a call left behind, cleanup drops it if and only if the limit is one, the penalty is over and at least 0.999 tokens are stored |
| `TokenBucket.RefusalPenalty` | src/rules.rs:98-118 | After a refusal a call passes if and only if its reading is at least the penalty later, and then finds a full bucket |
| `RateBound.AllowedCallsBounded` | src/rules.rs:73-131 | For any stretch of a run, from any slot earlier calls may leave, and any readings, refusals and cleanups, with p the period in nanoseconds: allowed * p <= requests * (1 + k) * p + requests * (span + backward movement - k * penalty), k penalties having begun and ended in the stretch |
| `RateBound.AdvanceBound` | src/rules.rs:98-131 | One event raises allowances plus token worth only by ending a penalty, which costs the refill of the penalty |
| `RateRuns.ProjectionFaithful` | src/rules.rs:85-96 | In a shared table, from any state of it, a key's slot and its allowed calls depend only on its slot before, its own calls, the ticks and the full-table refusals |
| `RateRuns.SharedTableRateBound` | src/rules.rs:73-131 | The rate bound for one key over any stretch of a table shared with any other keys |
| `RateRuns.RunSettles` | src/rules.rs:73-131 | Every bucket of every reachable table has between 0 and max tokens |
| `RateExact.NeverRefusedIff` | src/rules.rs:77-119 | A run is refused nothing if and only if the table had room for its first call and every window i..j has (j - i + 1) * p <= requests * p + requests * its forward clock movement, p the period in nanoseconds |
| `RateExact.BalanceIsLeastWindow` | src/rules.rs:107-113 | The balance before a call is the least over all windows ending there of max + refill - calls in between |
| `RateExact.SharedTableNeverRefusedIff` | src/rules.rs:77-131 | The same in a shared table, whatever other keys and cleanup do |
| `RateExact.ForwardIsDuration` | src/rules.rs:107 | When readings never step back, a window's forward movement is its duration |
| `RateCleanup.CleanupInvisible` | src/rules.rs:121-131 | Below the cap and with no call reading the clock before a cleanup it follows, every answer equals that of a limiter that never cleans up |
| `RateCleanup.CleanupVisibleIff` | src/rules.rs:98-131 | A cleanup changes what the next call sees if and only if it dropped the bucket and the call is still inside the penalty |
| `RateCleanup.StaleReadingSeesCleanup` | src/rules.rs:83-131 | A run from process start, of three calls for a one-request limit and a cleanup, whose last call is let through with cleanup and refused without |
| `RateCleanup.TrackedKeysStay` | src/rules.rs:121-131 | With no one-request limit, no run of calls and cleanups ever frees a tracked key |
| `RateCleanup.FullTableRefusesNewKeys` | src/rules.rs:86-88 | A full table of such keys refuses every untracked key after any run |
| `Lockout.AuthLimiter.IsBlocked` | src/rules.rs:157-163 | Answers whether a lockout of the key is in force at the reading |
| `Lockout.AuthLimiter.RecordFailure` | src/rules.rs:165-195 | Moves the key's entry as `Fail` says, leaves all others, and reports a new lockout |
| `Lockout.CountOne` | src/rules.rs:176-187 | The part of a recording that ends a lockout or a window counts the failure in the right window |
| `Lockout.AuthLimiter.RecordSuccess` | src/rules.rs:197-200 | Exactly the key's entry disappears |
| `Lockout.AuthLimiter.Cleanup` | src/rules.rs:202-209 | Every key's slot is what the retain closure leaves of it |
| `Lockout.SweepDropsIff` | src/rules.rs:202-209 | Cleanup drops an entry if and only if its lockout is over or, without one, its window began 600 seconds ago or longer |
| `Lockout.FullTableForgets` | src/rules.rs:168-170 | In a table of 16384 a failure of an untracked address leaves no trace; any other leaves an entry, and no other address's changes |
| `LockoutHistory.BlockedOnlyAfterBurst` | src/rules.rs:157-195 | A key is blocked only if max failures since its last success fell within one window and the last of them is less than the lockout ago |
| `LockoutHistory.UntrippedWindowCapacity` | src/rules.rs:176-195 | Without a lockout since the last success, any window-length stretch holds at most 2 * max - 3 recorded failures, cleanup included |
| `LockoutHistory.WindowCapacityReached` | src/rules.rs:176-195 | A run for which that many failures fall within one nanosecond and no lockout happens |
| `LockoutHistory.EighteenFailuresLockOut` | src/main.rs:56-58 | With 10 per 60 seconds, 18 recorded failures within 60 seconds mean at least one lockout |
| `LockoutHistory.SeventeenFailuresMayNot` | src/main.rs:56-58 | 17 failures within a nanosecond without a lockout |
| `LockoutRuns.SequentialFailuresBounded` | src/main.rs:472-607 | From an untracked address, sequential attempts of total duration T with no success record at most max * (T / window + 1) failures |
| `LockoutRuns.TenPerStartedMinute` | src/main.rs:56-58 | The same with the shipped constants: at most 10 per started minute |
| `LockoutRuns.CleanupInvisible` | src/rules.rs:157-209 | For windows under 600 seconds and below the cap, every answer of every operation equals that of a limiter that never cleans up |
| `LockoutRuns.CleanupVisibleIff` | src/rules.rs:183-209 | Dropping a stale open entry changes the next failure if and only if its window is still open, which windows under 600 seconds rule out |
| `LockoutThreads.LockoutsConserved` | src/main.rs:511-525 | In every state of every interleaving, max * lockouts + open failures + failures still to be recorded <= auth failures, and every open entry is below max |
| `LockoutThreads.CountersCountSteps` | src/main.rs:511-604 | In every interleaving the failure counter is the number of counted failures and the lockout counter the number of counted lockouts |
| `LockoutThreads.LockoutHolds` | src/main.rs:474-604 | While a lockout is in force with no success for the address, its deadline does not move and failures recorded for it are at most the attempts already past the blocked check |
| `LockoutThreads.QuietLockoutRecordsNothing` | src/main.rs:474-479 | With none in flight, nothing is recorded for the address until the deadline |
| `LockoutViews.ProjectionFaithful` | src/rules.rs:157-209 | In every interleaving, an address's entry is what its own history of recordings, successes and ticks makes of it, and that history's lockouts are all in the lockout counter or about to be |
| `LockoutViews.TurnedAwayOnlyAfterBurst` | src/main.rs:474-604 | In every interleaving, an attempt is turned away only if max failures recorded for its address since the last success fell within one window, the last less than the lockout ago |
| `LockoutViews.BurstAlwaysLocksOut` | src/main.rs:511-604 | In every interleaving, 2 * max - 2 failures recorded for one address within one window since its last success mean that this address has been locked out since then, and that the counter shows a lockout or is about to |
| `Tokens.ConstantTimeEq` | src/main.rs:238-247 | The accumulating comparison holds exactly for texts of which one continues the other by zero bytes only, a multiple of 2^32 of them |
| `Tokens.AlikeIsEquality` | src/main.rs:238-247 | That is equality between texts of one length, and between texts below 4 GiB |
| `Tokens.PaddingPasses` | src/main.rs:240 | Every text has a different one that the comparison takes for equal |
| `Tokens.ResolveTokenRole` | src/main.rs:403-431 | The role is that of the first matching entry, or the administrator's for the secret when no entry matches; the environment's secret counts only without an authentication section |
| `Tokens.GrantsIffKnown` | src/main.rs:403-431 | A token stands for a role if and only if it is a configured entry or the non-empty secret |
| `Tokens.ConfiguredIffAccepting` | src/main.rs:433-456 | The configuration check passes if and only if some non-empty token stands for a role |
| `Tokens.RoleByFields` | src/main.rs:403-431 | The first entry with the token gives its role or `user`; a token of no entry is worth `admin` only as the section's non-empty secret, and the environment's secret counts only without a section |
| `Tokens.PresentedIff` | src/main.rs:387-401 | A token is extracted if and only if there is one header, and it is the scheme and 1 to 4096 bytes that are tabs or printable |
| `Tokens.BearerSpelled` | src/main.rs:397 | The scheme is `Bearer` and a space |
| `Authentication.BearerAdmitsIff` | src/main.rs:529-607 | A request gets in with a role if and only if it carries one authorization header, with the scheme and a configured credential for that role of 1 to 4096 readable bytes |
| `Authentication.Authenticator.Authenticate` | src/main.rs:465-607 | The answer, the limiter and both counters are those of `Attempt`, which the lemmas about attempts fix case by case |
| `Authentication.BlockedAttempt` | src/main.rs:474-479 | While the address's lockout is in force: 429, and nothing changes |
| `Authentication.HeldAttempt` | src/main.rs:509-604 | A certificate without a role, or headers without a configured token where some token would be accepted: 401, one more failure, and the address's entry moves by one recording |
| `Authentication.IgnoredAttempt` | src/main.rs:491-535 | No certificate, or a configuration that accepts nothing: 401, and nothing changes |
| `Authentication.AdmittedAttempt` | src/main.rs:483-586 | Everything else gets in, with the role that the certificate or the token stands for, and the address's entry is removed unless authentication is off |
| `Authentication.TenRefusalsLockOut` | src/main.rs:465-607 | Ten held refusals within 60 seconds from an untracked address are answered 401 and counted, count one lockout, and make every request of that address 429 until 300 seconds after the tenth, and no later one |
| `Authentication.AttemptRunsSteps` | src/main.rs:465-607 | An attempt that nothing interrupts is one run of the interleavable steps of its branch |
| `Authentication.Authenticator.CountFailure` | src/main.rs:588-602 | The counting branch bumps the failure counter, records under the shipped policy, and bumps the lockout counter only for a new lockout |
| `Segments.SplitJoin` | src/rules.rs:265 | Splitting a join of separator-free parts gives the parts back |
| `Segments.JoinSplit` | src/rules.rs:733 | Joining a split gives the text back |
| `Json.JsonGet` | src/rules.rs:212-228 | The reading walk returns what the segments select, or nothing for an empty, missing or unparsable one |
| `JsonPaths.GetIff` | src/rules.rs:212-228 | A path reads a value if and only if a chain of selections leads to it, each a field of that name or the item at the index that the segment denotes, by a non-empty segment |
| `Json.JsonGetMut` | src/rules.rs:230-258 | The mutable walk returns the position that the segments resolve to |
| `Json.LocateAgreesWithGet` | src/rules.rs:212-258 | Both walks resolve the same paths to the same place |
| `Json.PutThenGet` | src/rules.rs:728-746 | After a write a path that resolved reads back what was written |
| `Json.PutFrame` | src/rules.rs:728-746 | A write leaves every position neither at, under nor above its target, and the shape of those above |
| `JsonPaths.LeadingZeroAliases` | src/rules.rs:221 | Leading zeros do not matter, so `0` and `00` denote the same element |
| `JsonPaths.ParseIndexIff` | src/rules.rs:221 | A segment denotes index n if and only if it is an optional plus sign, any number of zeros and n in decimal, and n is below 2^64 |
| `ResponseFilters.JsonRemove` | src/rules.rs:260-271 | Removes the last segment's key from the object the other segments resolve to, and nothing otherwise |
| `ResponseFilters.ApplyResponseFilters` | src/rules.rs:715-753 | The loop applies every filter once, in list order |
| `ResponseFilters.FilteringIdempotent` | src/rules.rs:715-753 | A second pass of any filter list over any document changes nothing |
| `ResponseFilters.ListAbsorbs` | src/rules.rs:725-750 | Any filter of a list may be applied first without changing the list's result |
| `ResponseFilters.FilterCongruence` | src/rules.rs:725-750 | Documents that a filter makes equal are still made equal by it after any other filter |
| `ResponseFilters.WrittenReadsBack` | src/rules.rs:727-746 | A redacted or replaced path reads back the text if it resolved, and stays absent if it did not |
| `ResponseFilters.RedactMeans` | src/rules.rs:727-731 | A redacted path that resolved reads `***REDACTED***`, by a write at its position; otherwise nothing changes |
| `ResponseFilters.ReplaceMeans` | src/rules.rs:743-748 | A replaced path that resolved reads the replacement or the empty text, by a write at its position; otherwise nothing changes |
| `ResponseFilters.RemoveMeans` | src/rules.rs:732-742 | A removal deletes the last segment's key if the other segments resolve to an object that has it, and changes nothing else and otherwise nothing |
| `ResponseFilters.OtherActionMeansNothing` | src/rules.rs:749 | Any other action changes nothing |
| `ResponseFilters.UnreadRemovalIff` | src/rules.rs:260-271 | A removal of a path that reads nothing changes the document if and only if the last segment is empty and the object has the empty key |
| `ResponseFilters.EmptyKeyRemoved` | src/rules.rs:733-738 | The empty path reads nothing, yet removes the empty key |
| `ResponseFilters.ApplyAllConcat` | src/rules.rs:725-750 | Filters work in list order: a list's result is that of its second part on that of its first |
| `ResponseFilters.RemovedReadsAbsentIff` | src/rules.rs:732-741 | A removed path still reads something if and only if it named an array element |
| `ResponseFilters.RemoveFrame` | src/rules.rs:260-271 | A removal changes only the key, what hangs under it and the nodes above |
| `Conditions.OppositeNegatesIff` | src/rules.rs:282-524 | A leaf with an implemented opposite and that opposite disagree on a request if and only if the leaf is not a value test of an absent body field |
| `Conditions.DualNegates` | src/rules.rs:565-571 | Swapping And with Or and every leaf with its opposite negates the tree, when every body field it tests is present |
| `Conditions.DualExcludes` | src/rules.rs:282-571 | Whatever body fields are absent, a tree and its dual never both hold |
| `ConditionMeanings.TreeMeans` | src/rules.rs:565-571 | An And holds if and only if no child fails, an Or if and only if some child holds |
| `ConditionMeanings.PathMeans` | src/rules.rs:282-323 | What each positive operator says of the path, in terms of its parts |
| `ConditionMeanings.MethodMeans` | src/rules.rs:325-349 | The same for the method, whatever its case |
| `ConditionMeanings.HeaderMeans` | src/rules.rs:351-406 | The same for a header that is present |
| `ConditionMeanings.NoHeaderMeans` | src/rules.rs:351-406 | Of an absent header only the negative tests hold |
| `ConditionMeanings.FindHeaderIff` | src/rules.rs:356-359 | The header looked at is the first of that name in whatever case |
| `ConditionMeanings.IpMeans` | src/rules.rs:408-467 | An address is in a value if and only if it parses and a network mentioned there contains it; only a value without networks is searched for its text |
| `ConditionMeanings.BodyMeans` | src/rules.rs:469-552 | What presence, equality, prefixes and patterns say of a body field that is present |
| `ConditionMeanings.BodyContainsMeans` | src/rules.rs:490-517 | A text or shown value contains the text, an array has it as a text item |
| `ConditionMeanings.BodyInMeans` | src/rules.rs:518-523 | Some item of the sequence equals the field |
| `ConditionMeanings.NoBodyMeans` | src/rules.rs:477-485 | Of an absent body field only `not_exists` holds |
| `ConditionMeanings.ValueEqualMeans` | src/rules.rs:554-578 | Values are equal if and only if kind and content agree, whole numbers only with whole numbers unless the document has a fraction |
| `ConditionMeanings.UnimplementedNeverHold` | src/rules.rs:282-563 | Operators that a field does not implement, and unknown fields, never hold |
| `RuleEngine.EvaluateRequestDetailed` | src/rules.rs:581-697 | The loop with its early returns gives the decision and the limiter state of the recursion over rule effects |
| `RuleEngine.DecidedByFirstTerminating` | src/rules.rs:581-697 | The decision is that of the first terminating rule; the limiter performs the calls of the enforced matching rate limits up to it, once each, in order, and no other |
| `RuleEngine.DecideConcat` | src/rules.rs:586-696 | After rules that decide nothing, the rest decides on the table they leave |
| `RuleEngine.SkippedRule` | src/rules.rs:587-598 | A rule without conditions or with one that fails is skipped, as are response filters and unknown actions |
| `RuleEngine.DenyMeans` | src/rules.rs:599-619 | A `deny` rule refuses with its status or 403 and its message or the default; a dry run lets pass in its name |
| `RuleEngine.AllowMeans` | src/rules.rs:620-627 | An `allow` rule lets pass, dry run or not |
| `RuleEngine.RequireRoleMeans` | src/rules.rs:628-652 | A request with `admin` or the required role, `admin` by default, goes on; any other is refused with status and message, or let pass in a dry run |
| `RuleEngine.RateLimitMeans` | src/rules.rs:656-689 | An enforced limit checks the bucket of rule name and address; if that passes the rest decides, otherwise the request is refused with the rule's status or 429 |
| `RuleEngine.NoRulesAllow` | src/rules.rs:696-700 | Without rules the request is allowed in no rule's name |
| `RuleEngine.InertRules` | src/rules.rs:586-693 | A rule changes neither decision nor limiter, in whatever list, at whatever readings and on whatever table, if and only if it does not match, filters responses, has an unknown action, requires a role that the request has, or is a dry-run or missing rate limit |
| `RuleEngine.ActiveRuleVisible` | src/rules.rs:598-693 | Every other rule changes the decision or the table already when it is alone, on an empty table |
| `RuleEngine.InertRuleInvisible` | src/rules.rs:586-693 | Inserting or deleting such a rule anywhere changes neither |
| `RuleEngine.DecisionsNameTheirRule` | src/rules.rs:598-697 | Every denial is enforced and names its rule; every dry-run decision allows, names its rule, and is not a rate limit's |
| `RuleEngine.CollectResponseFilters` | src/rules.rs:699-713 | The loop appends the entries of every matching rule in order |
| `RuleEngine.CollectedMeans` | src/rules.rs:699-713 | A first rule contributes its entries if and only if it has conditions and all of them hold, before those of the rest |
| `RuleEngine.CollectionIgnoresActions` | src/rules.rs:699-713 | What is collected does not depend on actions, dry-run flags, roles or limits |
| `RuleOrder.ProxyConfig.SortRulesByPriority` | src/config.rs:441-445 | The rules come out in descending priority with the order within each priority kept |
| `RuleOrder.DescendingMeans` | src/config.rs:441-445 | A rule never comes after one of lower priority, and no priority counts as zero |
| `RuleOrder.BandMeans` | src/config.rs:441-445 | A priority's band holds exactly the rules of that priority, none counting as zero |
| `RuleOrder.OrderIsUnique` | src/config.rs:441-445 | Those two facts leave only one list |
| `RuleOrder.DeclarationOrderIrrelevant` | src/config.rs:441-445 | Declarations that agree within each priority load as the same list, with the same decisions, limiter states and filters |
| `ClientIsolation.FinishResolves` | src/rules.rs:581-697 | Check by check, an evaluation that nothing interrupts decides what the rule loop decides and leaves the same table |
| `ClientIsolation.OtherClientsInvisible` | src/rules.rs:656-689 | With evaluations interleaved at every check, room in the table and no bucket key used by two clients, deleting every event of other clients leaves each decision for a client unchanged |
| `ClientIsolation.ColonFreeKeysApart` | src/rules.rs:661-667 | With colon-free rule names, no bucket key is used by two clients |
| `ClientIsolation.KeysInjective` | src/rules.rs:661 | Colon-free names make bucket keys unambiguous |
| `ClientIsolation.KeysCollideIff` | src/rules.rs:661 | Two different addresses share a key if and only if one name continues the other by a colon and a text that begins the other address |
| `ClientIsolation.CollisionExample` | src/rules.rs:656-689 | Two rules and two IPv6 clients for which one check by the first turns the second's only request from allowed to refused |
| `Paths.PercentDecode` | src/main.rs:249-274 | Succeeds exactly on encodings, with the bytes encoded |
| `Paths.DecodedIffEncodes` | src/main.rs:249-274 | Decoding gives s if and only if the input writes each byte of s literally, when not a percent sign, or as a triplet |
| `Paths.TripletIff` | src/main.rs:255-268 | A triplet is a percent sign, the high hexadecimal digit and the low one |
| `Paths.HexDigitIff` | src/main.rs:259-260 | A digit's value is its place in the hexadecimal alphabet of either case |
| `Paths.StripVersionIff` | src/main.rs:276-290 | A path is cut to r if and only if it is `/v`, a non-empty version of digits and dots other than a lone dot, and r, which starts with a slash; every other path stays as it is |
| `Utf8.ValidEncodes` | src/main.rs:366 | Every well-formed byte sequence is the encoding of some code points |
| `Utf8.EncodingValid` | src/main.rs:366 | Every encoding of code points is well-formed |
| `Paths.CanonicalizePath` | src/main.rs:352-385 | The method computes the decoded, version-stripped, stack-normalized path, or refuses |
| `Paths.AcceptedIff` | src/main.rs:352-366 | A raw path is accepted if and only if it starts with a slash, has at most 8192 bytes and encodes well-formed text without control bytes, and comes out as that text stripped and normalized |
| `Paths.OrdinaryPathAccepted` | src/main.rs:352-385 | Printable ASCII after a slash, within the limit and without a percent sign, is always accepted |
| `Paths.TrailingSlashKept` | src/main.rs:368-384 | Beyond the root, the output ends in a slash if and only if the stripped text does |
| `Paths.CanonicalForm` | src/main.rs:352-385 | The output starts with a slash, has no empty, dot or dot-dot segment and no control byte, is well-formed and no longer than the input |
| `Paths.CanonicalFixpointIff` | src/main.rs:276-385 | A canonical path is a fixed point if and only if it has no percent sign and no strippable version prefix |
| `Paths.ReducibleShrinks` | src/main.rs:276-385 | Every other canonical path comes out strictly shorter, or is refused |
| `Paths.EncodingIrrelevant` | src/main.rs:352-385 | All percent-encodings of a path have the same canonical path |
| `Paths.DotSegmentRules` | src/main.rs:369-378 | Empty and dot segments vanish, dot-dot cancels the segment before it or vanishes at the root, plain segments stay |
| `Histogram.LatencyHistogram.Observe` | src/metrics.rs:60-71 | One observation is added to the history that sum, count and buckets stand for |
| `Histogram.LatencyHistogram.Placement` | src/metrics.rs:63-69 | The bucket is the first whose bound the value does not exceed, or the last |
| `Histogram.LatencyHistogram.Render` | src/metrics.rs:217-239 | Each cumulative line is the number of observed values within its bound, `+Inf` and the count are all of them, the sum is their total modulo 2^64 |
| `Histogram.CumulativeCounts` | src/metrics.rs:63-70 | Bucket counts added up to a bound count the values within it |
| `Accounting.Metrics.RecordRuleDeny` | src/metrics.rs:101-109 | One of the rule's two counters goes up by one, saturating, and no other rule changes |
| `Accounting.RecordedMeans` | src/metrics.rs:101-109 | The named rule's counter of the mode goes up by one, up to 2^64 - 1, and no other counter of any rule changes |
| `Accounting.AccountsBalance` | src/main.rs:609-1239 | In every interleaving each request received is in one outcome counter, uncounted or in flight, and denials and dry runs match rule records plus those still due |
| `Accounting.CountersCountSteps` | src/main.rs:609-1239 | In every interleaving each outcome counter is the number of outcomes of its kind |
| `Accounting.RuleCountersCountSteps` | src/main.rs:774-974 | In every interleaving each rule's two counters are the number of its enforced denials and of its dry runs recorded |
| `Accounting.OutcomesWithinTotal` | src/main.rs:615-1206 | allowed + denied + bad request + body too large + timeouts <= total |
| `Accounting.QuietTotals` | src/main.rs:757-996 | With nothing in flight: denied = auth denials + rule denials, dry runs = rule dry runs, and the rate-limit counter plus rate-limit denials of upgrade requests = all rate-limit denials |
| `Accounting.UpgradeDenialMissed` | src/main.rs:757-823 | A run, of one upgrade request that a rate limit refuses, that ends with one such denial and a rate-limit counter of zero |

## Left out

- `f64` rounding: tokens are reals, so results that hinge on the last bits of a double are not covered.
- Overflow of clock arithmetic: adding a penalty or a lockout to a reading is unbounded here, where the source would panic.
- Wrap-around of the authentication counters: `LockoutThreads` and `Authentication` count without bound.
- AccountsBalance, CountersCountSteps, RuleCountersCountSteps: hold for fewer than 2^64 requests, since the counters wrap there.
- Histogram.LatencyHistogram.Render: the line counts hold for fewer than 2^64 observations and with none in flight; the three atomic adds of an observation are one step.
- EvaluateRequestDetailed: stands for an evaluation that no other interrupts; `ClientIsolation` lets them interleave at each check, and `FinishResolves` ties the two together.
- JsonGetMut: returns a position instead of a reference, so aliasing is not expressed; the source's documents have none.
- SortRulesByPriority: the library's stable sort is an insertion sort here; only its result is claimed.
- Authenticate: takes the role that a certificate maps to as input, and leaves out the identity and the message of the answer.
- Timing of the token comparison: only its answer is modelled.
- GrantsIffKnown, ConfiguredIffAccepting, RoleByFields, BearerAdmitsIff and the lemmas about attempts: hold for configured credentials below 4 GiB, where the comparison is equality.
- ApplyResponseFilters: starts from a parsed document; bodies that are not JSON pass through unchanged in the source.
- Deriving the client address from forwarding headers, and the size limits on headers.
- Configuration loading: environment expansion, regex compilation, validation and overrides.
- Connection handling, upgrades, timeouts as such, TLS, the audit writer and logging; only the order of counter updates in the request handler is kept.
- Requests abandoned by their client stay in flight for ever in `Accounting`.
- The setup wizard and the shell scripts.
