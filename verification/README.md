# Barbacane: a verified model of the gateway's stateful core

Barbacane is an API gateway whose behaviour is compiled from specifications and whose middlewares
are sandboxed plugins. This project models the parts where its correctness is not visible from one
function body, and proves what holds over every input, every run and every interleaving:

- **Runs of shared state.** The circuit breaker, the sliding-window rate limiter and the response
  cache are classes with a ghost history of lock acquisitions. Each is proved to be an
  implementation of a much simpler thing: a breaker without lazy evaluation, one sliding window per
  key and an admission log that is never pruned, a map without capacity. Plugins share the limiter and the cache through prefixed
  keys; `Isolation` says exactly how far they are separated.
- **The plugin boundary.** A plugin is an arbitrary strategy that reacts to everything it has been
  told. Over all plugins: onion order of the chain, failures on the response path are as if the
  plugin were absent, every turn is given exactly the metadata, context and body that the turns before
  it have made, and plugins without access cannot tell bodies apart, on the way in, on the way out, and on the way back
  from a short circuit.
- **The compiler.** The path-template validator accepts exactly a grammar, normal forms are equal
  exactly for equal skeletons, the one-pass route check accepts exactly the pairwise-compatible
  operation lists, so acceptance does not depend on declaration order and the operation table
  depends on it in exactly one way, and the text that is hashed into the artifact hash determines
  its inputs. The section walker finds a manifest exactly in bytes that begin with well-formed
  sections that have one.
- **The router.** The backtracking walk through the trie stops at the most specific planted pattern;
  this gives the exact answer to every lookup. Which templates the router can tell apart, which
  accepted operations keep their place, which of them some request reaches, and when parameters keep
  their names are each decided by a condition that is necessary and sufficient.
- **Signing.** The calendar conversion agrees with a day-by-day calendar for every day, and the
  canonical query string is a complete invariant of the multiset of decoded parameters.

Where the documentation and the code say different things, the model follows the code:

- A rate limit with a window above 300 seconds is not guaranteed, because idle keys are dropped
  after 300 seconds although windows of up to 366 days are accepted (`QuotaGuaranteedIff`).
- Prefixing keys is said to keep one plugin from exhausting the limiter's table for another; the
  table has one bound for all (`TableIsExhaustible`, `LimiterIsolationIff`).
- Operations are sorted for deterministic output, but the first spec with a root MCP setting decides
  for all specs, so the table can depend on the order of specs (`CompileIgnoresOrderIff`,
  `FirstSpecDecides`).
- The router is described as backtracking to the most specific match, but the walk does not come back
  from a node that no route ends at, so `/a/b/c` hides `/a/{id}` from `/a/b` (`RouteIsMissed`,
  `MissedIff`).
- Conflict detection compares templates as text and the router compares segments, so accepted
  operations can displace each other (`TrailingSlashCollides`, `MessageMethodCollides`,
  `EnclosedCollides`); `OperationKeptIff` says exactly when. Conversely, templates rejected as
  ambiguous can fit different paths (`PartialParameterIsText`, `SameSkeletonSamePathsIff`).
- `{param+}` is documented as a catch-all, but a wildcard operation can be accepted and reached by no
  request (`WildcardIsShadowed`, `OperationReachedIff`), and an operation's parameters can be reported
  under the names of another one (`NameIsTaken`, `NamesIff`).
- The half-open state is documented to let one request through; the code does not count requests
  (`HalfOpenAdmitsAll`).
- A failure threshold of 0 opens the breaker at the second failure, not at the first.
- `+` is documented as a single suffix; `{a++}` passes validation (`RepeatedPlusAccepted`,
  `DocumentedNameIff`).
- The fifth byte of a length in a WASM section keeps only four of its seven bits, so lengths are
  read modulo 2^32 (`ReadsBack`).
- Canonicalising a path escapes the percent signs of an already escaped path
  (`UriIdempotentIff`), and timestamps widen from the year 10000 on (`FormatWidths`).

The clock, the network, parsers for JSON, which characters beyond ASCII are alphanumeric, and the
values secrets resolve to are parameters. Times are natural numbers read at the points where the
code reads the clock.

## Model

| member | source | states |
|---|---|---|
| CircuitBreakers.CircuitBreaker.constructor | crates/barbacane-wasm/src/circuit_breaker.rs:67-77 | a new breaker is closed with nothing recorded |
| CircuitBreakers.CircuitBreaker.EvaluateState | crates/barbacane-wasm/src/circuit_breaker.rs:171-183 | open turns half-open exactly when the clock is strictly past the opening time plus the reset timeout |
| CircuitBreakers.CircuitBreaker.State | crates/barbacane-wasm/src/circuit_breaker.rs:80-84 | the object stays the outcome of its whole call history, extended by this query, and the answer is its state |
| CircuitBreakers.CircuitBreaker.RecordSuccess | crates/barbacane-wasm/src/circuit_breaker.rs:87-112 | the object stays the outcome of its history extended by this success, in all three states |
| CircuitBreakers.CircuitBreaker.RecordFailure | crates/barbacane-wasm/src/circuit_breaker.rs:115-168 | the object stays the outcome of its history extended by this failure, with its two clock readings |
| CircuitBreakers.QueriesAreInvisible | crates/barbacane-wasm/src/circuit_breaker.rs:171-183 | after any run, the breaker differs from the one that saw only the recorded outcomes at most by a timeout still to be evaluated |
| CircuitBreakers.LazyEqualsEager | crates/barbacane-wasm/src/circuit_breaker.rs:80-84 | two runs with the same recorded outcomes and arbitrary queries in between are in the same state at the next query |
| CircuitBreakers.RunJustified | crates/barbacane-wasm/src/circuit_breaker.rs:87-168 | in every run the counters count: the failures of one success-free stretch inside the window, the successes of one failure-free stretch after the timeout |
| CircuitBreakers.OpensOnlyAfterStreak | crates/barbacane-wasm/src/circuit_breaker.rs:115-156 | a closed breaker opens only on a failure that completes a success-free stretch of threshold many failures in one window |
| CircuitBreakers.StreakOpensExactly | crates/barbacane-wasm/src/circuit_breaker.rs:115-156 | conversely such a stretch opens it at its last failure and not before |
| CircuitBreakers.StaysOpen | crates/barbacane-wasm/src/circuit_breaker.rs:171-183 | an open breaker ignores everything until the reset timeout has passed and is seen half-open exactly afterwards |
| CircuitBreakers.OpenedByFailure | crates/barbacane-wasm/src/circuit_breaker.rs:115-168 | in every run an open breaker was opened by a failure, at the time that failure was recorded, and nothing has changed it since |
| CircuitBreakers.FailedProbeOpens | crates/barbacane-wasm/src/circuit_breaker.rs:157-161 | a failure that meets a half-open breaker opens it again |
| CircuitBreakers.AnsweredOpenIff | crates/barbacane-wasm/src/circuit_breaker.rs:80-84 | in every run a query is answered open exactly when no more than the reset timeout has passed since the recorded time of some failure that opened the breaker, from closed or half-open, whatever was recorded since |
| CircuitBreakers.HalfOpenAdmitsAll | crates/barbacane-wasm/src/circuit_breaker.rs:80-84 | any number of queries in the half-open state are all answered half-open and change nothing |
| CircuitBreakers.ClosesOnlyAfterRecovery | crates/barbacane-wasm/src/circuit_breaker.rs:87-112 | a breaker closes only on a success that completes threshold many successes, without a failure, after the timeout |
| CircuitBreakers.RecoveryClosesExactly | crates/barbacane-wasm/src/circuit_breaker.rs:87-112 | conversely such a stretch closes it at its last success, not before, and with a clean slate |
| CircuitBreakers.CountersFit | crates/barbacane-wasm/src/circuit_breaker.rs:48-64 | in every run the counters stay at or below the thresholds, so the 32-bit counters never wrap |
| RateLimiting.RateLimiter.constructor | crates/barbacane-wasm/src/rate_limiter.rs:129-135 | a new limiter has an empty table and history |
| RateLimiting.RateLimiter.MaybeCleanup | crates/barbacane-wasm/src/rate_limiter.rs:197-228 | a sweep happens only when a full threshold has passed and both locks are free; the table stays the outcome of the history |
| RateLimiting.RateLimiter.CheckLocked | crates/barbacane-wasm/src/rate_limiter.rs:143-194 | the table stays within its bound and the outcome of the history; the answer is the one of the history so far |
| RateLimiting.RateLimiter.CheckLimit | crates/barbacane-wasm/src/rate_limiter.rs:143-194 | the whole call: the history gains the sweep if one was due and then the check, and the answer is that of the history before it |
| RateLimiting.RateLimiter.CheckWindows | crates/barbacane-wasm/src/rate_limiter.rs:147-193 | table and answer after clamping, eviction, refusal, window update, pruning and recording |
| RateLimiting.PrunedMatchesLog | crates/barbacane-wasm/src/rate_limiter.rs:57-107 | in every run, what pruning and sweeping leave of a key is, for every later moment and narrower window, what a never-pruned log would show |
| RateLimiting.CheckIsExact | crates/barbacane-wasm/src/rate_limiter.rs:57-107 | in every run a check with a window of at most 300 seconds, no wider than the earlier ones of its key, is allowed exactly when fewer requests than its quota, counted up to a million, were admitted within the window; limit, remaining, reset instant and retry time follow from that count and the oldest of them |
| RateLimiting.FirstCheckIsExact | crates/barbacane-wasm/src/rate_limiter.rs:143-194 | the same for the first check of a key and any window, counted up to 366 days |
| RateLimiting.RefusedIff | crates/barbacane-wasm/src/rate_limiter.rs:163-184 | a check is refused exactly when it brings a new key to a table of 100000 keys that each have a request recorded in the last 300 seconds; what the refusal reports |
| RateLimiting.LimiterIsLog | crates/barbacane-wasm/src/rate_limiter.rs:143-194 | all admissions and answers of a key are those of a log that is never pruned, swept or evicted, for windows of at most 300 seconds that do not grow after the first request |
| RateLimiting.LimiterIsWindow | crates/barbacane-wasm/src/rate_limiter.rs:143-228 | in every run a key is answered as by one sliding window of its own that is never swept or evicted, for windows of at most 300 seconds that may change in any way from call to call |
| RateLimiting.AloneShowsLog | crates/barbacane-wasm/src/rate_limiter.rs:57-107 | what pruning leaves of a window shows a later request the same as the full log, if windows do not grow |
| RateLimiting.AloneIsLog | crates/barbacane-wasm/src/rate_limiter.rs:57-107 | so such a window answers as the log |
| RateLimiting.GrowthForgets | crates/barbacane-wasm/src/rate_limiter.rs:190-193 | wherever a window grows after the first request there are requests that the window and the log answer differently |
| RateLimiting.LogGuaranteedIff | crates/barbacane-wasm/src/rate_limiter.rs:190-193 | window and log agree for all quotas and times exactly when the sequence of windows does not grow after the first |
| RateLimiting.QuotaRespected | crates/barbacane-wasm/src/rate_limiter.rs:57-107 | in every run, every time interval as long as the window contains at most quota admissions of a key |
| RateLimiting.LogRespectsQuota | crates/barbacane-wasm/src/rate_limiter.rs:57-107 | the same of the log |
| RateLimiting.LongWindowLeaks | crates/barbacane-wasm/src/rate_limiter.rs:197-228 | for every window above 300 seconds there is a run that exceeds the quota |
| RateLimiting.AdmitsTwice | crates/barbacane-wasm/src/rate_limiter.rs:143-228 | two calls on a limiter object, 300 seconds apart, are both admitted under a quota of 1, which for longer windows is inside one window |
| RateLimiting.QuotaGuaranteedIff | crates/barbacane-wasm/src/rate_limiter.rs:129-135 | the quota holds in every run exactly for windows of at most 300 seconds |
| RateLimiting.ResetIsExact | crates/barbacane-wasm/src/rate_limiter.rs:57-107 | after a rejection, every request before the reported reset instant is rejected and the first one from it on is admitted |
| RateLimiting.TableBounded | crates/barbacane-wasm/src/rate_limiter.rs:163-184 | no run holds more than 100000 keys |
| RateLimiting.KeysAreIndependent | crates/barbacane-wasm/src/rate_limiter.rs:143-194 | two runs with the same checks on a key, refused in neither, give it the same answers, for windows of at most 300 seconds |
| RateLimiting.RefusalsShow | crates/barbacane-wasm/src/rate_limiter.rs:163-184 | a key is never refused exactly when no outcome is a refusal, and then the outcomes are the decisions |
| RateLimiting.OutcomesAgreeIff | crates/barbacane-wasm/src/rate_limiter.rs:143-194 | with the same checks on a key, outcomes agree with those of a run that never refuses exactly when this one never refuses |
| RateLimiting.FewKeysNeverRefused | crates/barbacane-wasm/src/rate_limiter.rs:163-184 | a run that mentions at most 100000 keys refuses none of them |
| ResponseCaching.ResponseCache.constructor | crates/barbacane-wasm/src/cache.rs:84-90 | a new cache is empty with an empty history |
| ResponseCaching.ResponseCache.MaybeCleanup | crates/barbacane-wasm/src/cache.rs:177-196 | a sweep happens only when due and both locks are free; the table stays the outcome of the history |
| ResponseCaching.ResponseCache.GetLocked | crates/barbacane-wasm/src/cache.rs:93-127 | the result is the lookup in the outcome of the history; nothing else changes |
| ResponseCaching.ResponseCache.Set | crates/barbacane-wasm/src/cache.rs:130-162 | the table stays the outcome of a legal history and within its bound |
| ResponseCaching.ResponseCache.MakeRoomFor | crates/barbacane-wasm/src/cache.rs:146-160 | expired entries go first; if the table is still full, one entry with the earliest expiry goes |
| ResponseCaching.ResponseCache.Invalidate | crates/barbacane-wasm/src/cache.rs:165-168 | the table stays the outcome of the history extended by this removal |
| ResponseCaching.ResponseCache.Clear | crates/barbacane-wasm/src/cache.rs:171-174 | the table stays the outcome of the history extended by this clearing |
| ResponseCaching.LookupExact | crates/barbacane-wasm/src/cache.rs:93-127 | in every run a lookup sees exactly an unbounded map with expiry, minus the keys evicted and not set again |
| ResponseCaching.IdealIsLatestSet | crates/barbacane-wasm/src/cache.rs:130-174 | the unbounded map holds, per key, the latest set that was neither invalidated nor cleared |
| ResponseCaching.HitIsLatestSet | crates/barbacane-wasm/src/cache.rs:93-162 | every hit returns the entry of the latest set of that key, strictly before its clamped expiry |
| ResponseCaching.LookupIff | crates/barbacane-wasm/src/cache.rs:93-137 | in every run a lookup gives the entry of the key's latest set exactly if that was not evicted and its time to live, at most 366 days, has not passed, and nothing if there is no such set |
| ResponseCaching.CacheBounded | crates/barbacane-wasm/src/cache.rs:146-160 | no run exceeds the entry bound |
| ResponseCaching.EvictionJustified | crates/barbacane-wasm/src/cache.rs:146-160 | a live entry is evicted only from a table that is full of live entries, for a new key, and it is one with the earliest expiry |
| ResponseCaching.LostWasEvicted | crates/barbacane-wasm/src/cache.rs:146-160 | every missing live key was the victim of an identifiable eviction and has not been set since |
| ResponseCaching.SweepsInvisible | crates/barbacane-wasm/src/cache.rs:177-196 | every legal run, stale readings included, has a legal run without sweeps that differs only in victims, has the same live entries and gives every lookup the same result |
| ResponseCaching.OrderedSweepsInvisible | crates/barbacane-wasm/src/cache.rs:177-196 | when clock readings are in order, even the victims are the same |
| ResponseCaching.FewKeysNoEviction | crates/barbacane-wasm/src/cache.rs:146-160 | a run that stores under at most 10000 keys evicts nothing |
| ResponseCaching.KeysAreIndependent | crates/barbacane-wasm/src/cache.rs:93-174 | without evictions, two runs with the same events on a key, victims aside, give its lookups the same results |
| ResponseCaching.ResultsUpToMisses | crates/barbacane-wasm/src/cache.rs:93-174 | with evictions, every lookup gives what the events on its key alone determine, or a miss |
| Isolation.NamespaceInjective | crates/barbacane-wasm/src/instance.rs:63-65 | prefixed keys are equal exactly when plugin and key are, for NUL-free names and arbitrary keys |
| Isolation.OwnChecksAreOwn | crates/barbacane-wasm/src/instance.rs:1651-1657 | the checks on a plugin's keys in a shared run are exactly those of the plugin's own calls |
| Isolation.LimiterIsolationIff | crates/barbacane-wasm/src/instance.rs:1651-1657 | in every interleaving the shared limiter answers a plugin as any limiter of its own that gets the same checks, sweeps on a schedule of its own and never refuses it, exactly when the shared one never refuses that plugin's key either |
| Isolation.LimiterIsolation | crates/barbacane-wasm/src/instance.rs:1651-1657 | in every interleaving in which all plugins together check at most 100000 keys, a plugin with windows of at most 300 seconds is answered as by a limiter of its own, whenever that one sweeps |
| Isolation.TableIsExhaustible | crates/barbacane-wasm/src/instance.rs:1651-1657 | a run in which one plugin's calls make another plugin's first call be refused |
| Isolation.OwnOpsAreOwn | crates/barbacane-wasm/src/instance.rs:1716-1722 | the cache operations on a plugin's keys in a shared run are exactly those of the plugin's own calls, victims aside |
| Isolation.CacheIsolation | crates/barbacane-wasm/src/instance.rs:1716-1722 | in every interleaving a lookup gives what a private unbounded cache would, or a miss; without evictions, and so when all plugins together store under at most 10000 keys, what a private cache gives that sweeps on a schedule of its own |
| Isolation.FewKeysCached | crates/barbacane-wasm/src/instance.rs:1792-1797 | with at most 10000 keys stored by all plugins together, neither the shared nor the private cache evicts |
| Isolation.HitsAreOwn | crates/barbacane-wasm/src/instance.rs:1792-1797 | every hit returns the entry of the plugin's own latest set of that key, whatever the other plugins stored |
| PluginHost.PluginState.constructor | crates/barbacane-wasm/src/instance.rs:204-232 | a new instance holds no body, output or context |
| PluginHost.PluginState.HostFunction | crates/barbacane-wasm/src/instance.rs:831-906 | the buffers and the reply after each host call; reading takes the held body even when it does not fit |
| PluginHost.PluginState.Call | crates/barbacane-wasm/src/instance.rs:704-739 | a handler call clears the output buffer, keeps the others, and runs the plugin to a return code or a trap |
| PluginHost.PluginState.TakeOutput | crates/barbacane-wasm/src/instance.rs:384-386 | hands out the output and leaves it empty |
| PluginHost.PluginState.TakeOutputBody | crates/barbacane-wasm/src/instance.rs:415-417 | hands out the output body and leaves it unset |
| PluginHost.PluginState.SetRequestBody | crates/barbacane-wasm/src/instance.rs:407-409 | replaces the held body and nothing else |
| PluginHost.PluginState.SetContext | crates/barbacane-wasm/src/instance.rs:389-391 | replaces the context and nothing else |
| PluginHost.SeesNoBody | crates/barbacane-wasm/src/instance.rs:857-872 | an instance that holds no body is told so by every reply, whatever calls the plugin makes |
| PluginHost.UnreadStays | crates/barbacane-wasm/src/instance.rs:871-872 | after any run the instance still holds its body exactly if no read was among the calls |
| PluginHost.OutputBodyIsLastCall | crates/barbacane-wasm/src/instance.rs:875-906 | for every plugin, returning or trapping, the output body is what its last `host_body_set` or `host_body_clear` said |
| PluginHost.OutputIsLastCall | crates/barbacane-wasm/src/instance.rs:830-851 | the output is what the last `host_set_output` said |
| PluginHost.ContextIsCalls | crates/barbacane-wasm/src/instance.rs:1025-1059 | the context is the one before with every `host_context_set` applied in turn |
| PluginHost.CallsAsked | crates/barbacane-wasm/src/instance.rs:674-739 | the calls of a run are those the plugin wants after the replies so far |
| PluginHost.RepliesExact | crates/barbacane-wasm/src/instance.rs:857-1018 | every reply follows from the calls before it: a body can be read once and has its length until then, and the context is as set |
| PluginHost.RunEnds | crates/barbacane-wasm/src/instance.rs:712-739 | a run ends with what the plugin does after all replies, or when its steps are used up |
| PluginHost.MoreFuel | crates/barbacane-wasm/src/instance.rs:712-739 | a call that returns returns the same with any larger step bound |
| Chain.ContinueIff | crates/barbacane-wasm/src/chain.rs:329-369 | an output continues exactly when code and structured action both say so, fails exactly when it is empty with a nonzero code, and otherwise short-circuits; what is handed on is the data of the structured output, or the output itself |
| Chain.ExecuteOnRequest | crates/barbacane-wasm/src/chain.rs:146-241 | the loop computes the front-to-back pass over instances, result and visits |
| Chain.ExecuteOnResponse | crates/barbacane-wasm/src/chain.rs:256-309 | the loop computes the back-to-front pass over instances, response and visits |
| Chain.ExecuteOnResponsePartial | crates/barbacane-wasm/src/chain.rs:314-326 | after a short circuit the pass covers exactly the middlewares before it |
| Chain.RequestVisits | crates/barbacane-wasm/src/chain.rs:146-241 | the request path visits a prefix in order, all of it when it completes, and stops at the last one visited |
| Chain.RequestIsHandedOn | crates/barbacane-wasm/src/chain.rs:146-241 | each middleware is called with exactly the data and the context that the call before it left |
| Chain.RequestEnds | crates/barbacane-wasm/src/chain.rs:146-241 | and the pass ends with what the last call handed on |
| Chain.ResponseVisits | crates/barbacane-wasm/src/chain.rs:256-309 | the response path visits every middleware once, last first, traps included |
| Chain.OnionOrder | crates/barbacane-wasm/src/chain.rs:314-326 | over a whole round trip the visits go up to some middleware and back down from the one before it, or from the last when dispatched |
| Chain.ResponseIsLocal | crates/barbacane-wasm/src/chain.rs:256-309 | the response pass depends only on the members it visits |
| Chain.FailuresAreSkipped | crates/barbacane-wasm/src/chain.rs:256-309 | the response is the one of the chain without the members that trapped |
| BodyChannel.BodyAccessControl.constructor | crates/barbacane-wasm/src/body_access.rs:30-35 | holds the given metadata and body |
| BodyChannel.BodyAccessControl.PrepareInstance | crates/barbacane-wasm/src/body_access.rs:43-50 | gives the body to the instance exactly with body access, and leaves the held one in place |
| BodyChannel.BodyAccessControl.CollectAfter | crates/barbacane-wasm/src/body_access.rs:57-73 | replaces metadata by nonempty output; with access, takes the output body from the instance and replaces the held body if the plugin set or cleared it; without, leaves both as they are |
| BodyChannel.TakeRequestTurn | crates/barbacane/src/main.rs:1608-1622 | one middleware's turn on the request path, up to its verdict |
| BodyChannel.ExecuteOnResponsePartial | crates/barbacane-wasm/src/chain.rs:314-326 | over mutable instances, the way back from a short circuit is the response pass through exactly the middlewares before it, with nothing prepared or collected |
| BodyChannel.ExecuteMiddlewareOnRequest | crates/barbacane/src/main.rs:1605-1696 | the method over mutable instances computes the whole outcome: the forwarded body and context, or the answer after its way back through the earlier middlewares, with the body put aside for it |
| BodyChannel.TakeResponseTurn | crates/barbacane/src/main.rs:1726-1762 | one middleware's turn on the response path, a trap leaving metadata and body as they were |
| BodyChannel.ExecuteMiddlewareOnResponse | crates/barbacane/src/main.rs:1704-1765 | the reverse loop computes the response pass over metadata and body |
| BodyChannel.RequestTurns | crates/barbacane/src/main.rs:1605-1650 | in every chain each turn of the request path goes to the next middleware, with the metadata, the context and, with access, the body that the calls in the turns before it have made, and ends the pass unless code and action let the request through |
| BodyChannel.RequestResult | crates/barbacane/src/main.rs:1605-1696 | what the request pass ends with follows from what was said in its turns |
| BodyChannel.MetadataIsLast | crates/barbacane-wasm/src/body_access.rs:57-64 | the metadata after some turns is the data of the last turn that handed any on, or the metadata from before |
| BodyChannel.RequestInstances | crates/barbacane/src/main.rs:1605-1650 | every instance is left as its own turn leaves it, with a collected body taken, and the others are untouched |
| BodyChannel.ResponseTurns | crates/barbacane/src/main.rs:1721-1765 | the turns of the response path go to the middlewares in reverse, each with what the turns before it made of metadata and body and with the context of the request |
| BodyChannel.ResponseResult | crates/barbacane/src/main.rs:1721-1765 | all of them have their turn, and what they made of metadata and body is delivered, with traps leaving both alone |
| BodyChannel.TurnLeavesLastCall | crates/barbacane-wasm/src/instance.rs:875-906 | what a turn leaves for collection is the last body call in it |
| BodyChannel.RequestStartsClean | crates/barbacane-wasm/src/pool.rs:223-268 | instances that start with nothing waiting for collection start their turn so and leave the request path so |
| BodyChannel.LastCallDecides | crates/barbacane-wasm/src/body_access.rs:57-73 | if no turn starts with a left-over body, the last body call of all counting turns decides |
| BodyChannel.LastCallsDecide | crates/barbacane/src/main.rs:1605-1765 | over a whole exchange with fresh instances, the dispatched and the delivered body are what the last body calls of body-access plugins on the two paths made of them |
| BodyChannel.BodyIsInvisible | crates/barbacane/src/main.rs:1597-1612 | without body access anywhere, changing the incoming body changes the outcome only by carrying the other body |
| BodyChannel.ResponseBodyIsInvisible | crates/barbacane/src/main.rs:1721-1765 | the same on the response path |
| BodyChannel.TurnIgnoresBody | crates/barbacane-wasm/src/body_access.rs:43-73 | in any chain, a turn without body access, what is said in it and what it hands on do not depend on the held body, which it keeps |
| BodyChannel.NoAccessSeesNothing | crates/barbacane-wasm/src/body_access.rs:43-50 | no reply to a plugin without body access reveals a body, in either direction, even if its instance was left holding one |
| BodyChannel.RequestIsBlind | crates/barbacane/src/main.rs:1605-1696 | in every chain with any mix of access flags, no turn without access on the request path is told of a body |
| BodyChannel.ResponseIsBlind | crates/barbacane/src/main.rs:1721-1765 | nor on the response path |
| BodyChannel.ShortCircuitTurns | crates/barbacane/src/main.rs:1637-1648 | after a short circuit the earlier plugins have their turns in reverse order; each starts with exactly the request body it was given and has not read, and is told its length; one without access is told of no body here either |
| BodyChannel.AnsweredLeaves | crates/barbacane/src/main.rs:1605-1650 | up to a short circuit every middleware had one turn, and its instance holds what it was given and did not read |
| BodyChannel.PartialTurns | crates/barbacane/src/main.rs:1643-1648 | on the way back each plugin is given what the ones before it made of the answer, with the context of the plugin that stopped the request |
| BodyChannel.PartialResult | crates/barbacane/src/main.rs:1643-1648 | and what they made of it is delivered |
| BodyChannel.OutcomeFromTurns | crates/barbacane/src/main.rs:1605-1696 | the whole outcome, told from the turns: forwarded metadata, body and context, or the answer after the way back with the body the answering plugin last said |
| BodyChannel.DeliveredBody | crates/barbacane/src/main.rs:1637-1654 | the delivered body of an answer is the same whatever the other plugins do on the way back |
| BodyChannel.GlueProtocol | crates/barbacane-plugin-macros/src/lib.rs:116-163 | whatever state a handler keeps and whatever it asks the host, the generated glue calls it with exactly the held body, and if it decides, leaves exactly its body, output and code for the host, over anything set before |
| BodyChannel.GlueRuns | crates/barbacane-plugin-macros/src/lib.rs:128-161 | once the body is read, a run of the glue is the handler's own run followed by setting or clearing the body, setting the output and returning the code |
| BodyChannel.KeeperReturns | crates/barbacane-plugin-macros/src/lib.rs:116-203 | with any step bound, a glued handler that decides for the body it is given, and returns, leaves that body for collection, or could not parse its input and left the output body alone |
| BodyChannel.IdentityTurn | crates/barbacane-plugin-macros/src/lib.rs:116-163 | a glued handler with any state and any host calls that decides for the body it is given keeps the held body whenever the request continues, with or without access |
| BodyChannel.IdentityChain | crates/barbacane/src/main.rs:1605-1696 | so does every request that passes a chain of such plugins, each with its own handler and access flag |
| BodyChannel.IdentityResponseTurn | crates/barbacane-plugin-macros/src/lib.rs:167-203 | the same for one turn on the response path, traps and unparsable metadata included |
| BodyChannel.IdentityResponseChain | crates/barbacane/src/main.rs:1721-1765 | and for every response through such a chain |
| PathTemplates.ValidatePathTemplate | crates/barbacane-compiler/src/artifact.rs:1219-1326 | the loop reports the first error of the scan, or none |
| PathTemplates.ValidateAccepts | crates/barbacane-compiler/src/artifact.rs:1219-1326 | the text of every template is accepted |
| PathTemplates.ValidateReads | crates/barbacane-compiler/src/artifact.rs:1219-1326 | every accepted path is the text of a template |
| PathTemplates.ValidateIff | crates/barbacane-compiler/src/artifact.rs:1219-1326 | a path is accepted exactly when it is the text of well-formed tokens with distinct names and at most one wildcard, alone in the last nonempty segment |
| PathTemplates.ErrorIsFirst | crates/barbacane-compiler/src/artifact.rs:1219-1326 | a rejected path is reported with what is wrong at the first position where anything is: a brace out of place, an empty, repeated or misplaced name, a second wildcard, a character that no name can have, or a parameter left open |
| PathTemplates.WordIff | crates/barbacane-compiler/src/artifact.rs:1292-1313 | the characters of a name are the ASCII digits, letters and underscore, and beyond ASCII what counts as alphanumeric |
| PathTemplates.PassesIff | crates/barbacane-compiler/src/artifact.rs:1242-1291 | the checks made at each closing brace are together the conditions on the whole token list |
| PathTemplates.WildcardIsLastText | crates/barbacane-compiler/src/artifact.rs:1266-1282 | a wildcard alone in the last segment passes the textual comparison |
| PathTemplates.TextIsLastWildcard | crates/barbacane-compiler/src/artifact.rs:1266-1282 | the textual comparison passes only for such a wildcard |
| PathTemplates.TextAloneIsUnsound | crates/barbacane-compiler/src/artifact.rs:1266-1282 | without the at-most-one rule the comparison lets a wildcard through that is not last |
| PathTemplates.RepeatedPlusAccepted | crates/barbacane-compiler/src/artifact.rs:1292-1313 | a name with two plus signs is accepted |
| PathTemplates.DocumentedNameIff | crates/barbacane-compiler/src/artifact.rs:1210-1218 | an accepted name follows the documented grammar exactly when its last character but one is no plus |
| PathTemplates.NormalizePathTemplate | crates/barbacane-compiler/src/artifact.rs:1333-1368 | the loop computes the normal form |
| PathTemplates.NormalizePrint | crates/barbacane-compiler/src/artifact.rs:1333-1368 | the normal form of a template is its skeleton, printed |
| PathTemplates.NormalizeIff | crates/barbacane-compiler/src/artifact.rs:1333-1368 | two templates have equal normal forms exactly when they have the same skeleton: literals, parameters and wildcards in the same places |
| Routes.ResolvedByName | crates/barbacane-compiler/src/artifact.rs:466-484 | name by name, a nonempty operation list decides the names it mentions and the globals decide the others |
| Routes.CheckOperation | crates/barbacane-compiler/src/artifact.rs:551-680 | the checks against the seen-maps report the first conflict with everything declared so far and keep the maps in step |
| Routes.CheckConflicts | crates/barbacane-compiler/src/artifact.rs:554-586 | three map lookups find the first conflict of the operation with any earlier one, in operation id, route or structure, and the maps go on to hold what was declared |
| Routes.CompileSpec | crates/barbacane-compiler/src/artifact.rs:513-724 | one spec's operations are compiled, or the first error reported |
| Routes.Compile | crates/barbacane-compiler/src/artifact.rs:487-730 | the pass over all specs returns the sorted, renumbered table or the first error |
| Routes.FirstErrorIff | crates/barbacane-compiler/src/artifact.rs:551-680 | an operation passes exactly when it is fine by itself and compatible with every earlier one |
| Routes.AcceptsIff | crates/barbacane-compiler/src/artifact.rs:487-724 | the pass succeeds exactly when all middlewares are named, every operation is fine and all pairs are compatible |
| Routes.AcceptsMeans | crates/barbacane-compiler/src/artifact.rs:487-724 | the same in terms of what is declared: every middleware has a name, every path is a template, every operation has a dispatcher, and no two share an id, or normal form and method |
| Routes.FlattenPermutes | crates/barbacane-compiler/src/artifact.rs:513-531 | reordering specs and their operations only permutes the declared operations |
| Routes.ExtractRootMcp | crates/barbacane-compiler/src/artifact.rs:1470-1493 | the loop finds the enabled flag of the first spec with a root MCP setting, or none |
| Routes.RootMatters | crates/barbacane-compiler/src/artifact.rs:1496-1514 | the root MCP setting makes a difference to an operation exactly when it does not set the flag itself |
| Routes.AcceptanceIgnoresOrder | crates/barbacane-compiler/src/artifact.rs:487-724 | reordering specs and operations does not change acceptance |
| Routes.CompileIgnoresOrderIff | crates/barbacane-compiler/src/artifact.rs:726-730 | reordering leaves the table as it was exactly when the first root MCP setting stays the same or every operation sets its own |
| Routes.FirstSpecDecides | crates/barbacane-compiler/src/artifact.rs:1469-1493 | swapping two accepted specs with opposite root MCP settings changes the table |
| Routes.SwapChangesTable | crates/barbacane-compiler/src/artifact.rs:1469-1493 | two such specs, written out |
| Routes.TableOrdered | crates/barbacane-compiler/src/artifact.rs:726-730 | the table holds every compiled operation as often as declared, and the index is the position |
| Routes.KeysAreDistinct | crates/barbacane-compiler/src/artifact.rs:565-573 | in an accepted list equal (path, method) keys mean the same table entry, so the sort has one result |
| Routes.NoSharedSkeleton | crates/barbacane-compiler/src/artifact.rs:575-586 | no two accepted operations of one method have templates with the same skeleton |
| Routes.TableAscends | crates/barbacane-compiler/src/artifact.rs:726-730 | the table ascends by path, and by method where paths are equal |
| Routes.EntryOf | crates/barbacane-compiler/src/artifact.rs:600-724 | every operation of an accepted compile has its entry with its own path, method, id, dispatch and details; its middlewares are the spec's if it lists none, none for an empty list, and otherwise the spec's that its list does not mention followed by its list; its MCP setting is its own or the enabled one of the first spec that has a setting |
| Routes.ConflictMeans | crates/barbacane-compiler/src/artifact.rs:554-586 | which conflict is reported, in terms of ids, paths, methods and normal forms |
| Routes.ErrorMeans | crates/barbacane-compiler/src/artifact.rs:551-680 | which of the other errors is reported, each only if nothing before it applies |
| Routes.FirstFailure | crates/barbacane-compiler/src/artifact.rs:513-724 | the error of a spec is that of its first failing operation |
| Routing.NormalizeRequestPath | crates/barbacane/src/router/trie.rs:228-255 | the loop computes the normalised path |
| Routing.NormalizeKeepsSegments | crates/barbacane/src/router/trie.rs:228-255 | normalising a request path never changes its segments |
| Routing.NormalizedShape | crates/barbacane/src/router/trie.rs:228-255 | a normalised path starts as the path does, has no two slashes in a row and ends in none unless it is just that |
| Routing.InsertedAt | crates/barbacane/src/router/trie.rs:84-150 | inserting a route adds exactly its beginnings as nodes and its index at its end, names aside |
| Routing.BuiltAt | crates/barbacane/src/router/trie.rs:84-150 | after any insertions the trie has a node exactly for every beginning of a route, holding the last index per method |
| Routing.TraverseAndMatch | crates/barbacane/src/router/trie.rs:155-205 | the backtracking search with one shared, truncated parameter list finds the node and the captures of the walk, and leaves the list alone when it fails |
| Routing.TraverseFindsBest | crates/barbacane/src/router/trie.rs:155-205 | the walk ends at the most specific pattern in the trie that fits the path, and fails only if none fits |
| Routing.FindRoute | crates/barbacane/src/router/trie.rs:94-116 | normalising, splitting and searching answer as the lookup on the path's segments |
| Routing.InsertedName | crates/barbacane/src/router/trie.rs:124-145 | inserting names a parameter only where it had no name |
| Routing.BuiltName | crates/barbacane/src/router/trie.rs:124-145 | a parameter carries the name of the first inserted route through its place |
| Routing.CapturedInBuild | crates/barbacane/src/router/trie.rs:155-205 | so captured values are reported under those names |
| Routing.LookupExact | crates/barbacane/src/router/trie.rs:94-116 | for every table and path: nothing is found if no beginning of a route fits; otherwise the most specific fitting one alone decides index, captures, allowed methods or a miss |
| Routing.MissedIff | crates/barbacane/src/router/trie.rs:94-116 | a path that some route fits is missed exactly when the most specific fitting beginning is no route |
| Routing.RouteIsMissed | crates/barbacane/src/router/trie.rs:155-205 | two routes and a path, for which that happens |
| Routing.OwnNamesIff | crates/barbacane/src/router/trie.rs:119-150 | values are captured under a route's own names exactly when, at each of its parameters, the first inserted route through that place uses the same name |
| TemplatePatterns.SegmentsPrint | crates/barbacane/src/router/trie.rs:209-225 | the segments of a template are its tokens between slashes |
| TemplatePatterns.KindOfGroup | crates/barbacane/src/router/trie.rs:209-225 | the router reads a segment as a wildcard or parameter exactly when it begins and ends with a parameter, of which the last one decides, and as its text otherwise |
| TemplatePatterns.ParameterName | crates/barbacane/src/router/trie.rs:209-225 | a segment that is one parameter carries its name, a wildcard without the plus sign |
| TemplatePatterns.PatternByGroups | crates/barbacane/src/router/trie.rs:209-225 | two templates get the same pattern exactly when their segments have these kinds in common |
| TemplatePatterns.SameSkeletonIff | crates/barbacane-compiler/src/artifact.rs:1328-1368 | templates with equal skeletons have the same pattern exactly when every segment is enclosed by parameters or has the same text in both |
| TemplatePatterns.SamePatternIsSkeletonIff | crates/barbacane-compiler/src/artifact.rs:1328-1368 | templates with the same pattern have equal skeletons exactly when their slashes are laid out alike and the segments enclosed by parameters have equal skeletons |
| TemplatePatterns.TemplateIsProper | crates/barbacane-compiler/src/artifact.rs:1266-1281 | in the pattern of a template a wildcard is last and texts can occur in request paths |
| TemplatePatterns.PathTells | crates/barbacane/src/router/trie.rs:155-205 | two different patterns of that kind are told apart by a path that one fits and the other does not |
| TemplatePatterns.SamePathsIff | crates/barbacane/src/router/trie.rs:155-205 | two templates fit the same request paths exactly when they have the same pattern |
| TemplatePatterns.SameSkeletonSamePathsIff | crates/barbacane-compiler/src/artifact.rs:1328-1368 | templates the compiler calls ambiguous fit the same request paths exactly when every segment is enclosed by parameters or has the same text in both |
| TemplatePatterns.PartialParameterIsText | crates/barbacane/src/router/trie.rs:209-225 | so two such templates that differ in the name of a parameter behind text fit different paths |
| Reachability.LastWins | crates/barbacane/src/router/trie.rs:84-88 | pattern and method lead to a route exactly when it has them and no later one does |
| Reachability.KeptIff | crates/barbacane/src/router/trie.rs:84-88 | a route keeps its own place in the trie exactly when no later one has the same pattern and method |
| Reachability.AnswerIff | crates/barbacane/src/router/trie.rs:94-116 | for every table and request: a route answers exactly the requests of its method for which its pattern is the most specific fitting one, and none at all once a later route has its pattern and method |
| Reachability.NamesIff | crates/barbacane/src/router/trie.rs:94-150 | a route that answers reports the values under its own names exactly when, at each parameter, the first route through that place uses the same name |
| Reachability.ShadowedIsUnreached | crates/barbacane/src/router/trie.rs:155-205 | a wildcard route is the most specific one for no path if another route continues its beginning with parameters and ends in a wildcard |
| Reachability.PathForRoute | crates/barbacane/src/router/trie.rs:155-205 | every other route is the most specific one for some request path |
| Reachability.ReachedIff | crates/barbacane/src/router/trie.rs:94-205 | some request reaches a route exactly when no later one collides with it and no wildcard route shadows it |
| RoutedTables.TableDiffers | crates/barbacane-compiler/src/artifact.rs:575-586 | no two entries of an accepted table share normal form and method |
| RoutedTables.RouteOfEntry | crates/barbacane/src/main.rs:915-932 | an entry is inserted under its template and its index; SEND becomes POST, RECEIVE becomes GET, other methods stay |
| RoutedTables.OperationKeptIff | crates/barbacane/src/main.rs:915-932 | an operation of an accepted table keeps its own place in the trie exactly when no later entry has the same kinds of segments and the same HTTP method |
| RoutedTables.CollisionCause | crates/barbacane/src/main.rs:915-932 | accepted operations collide only as a message and an HTTP method, with different layouts of slashes, or where parameters enclose different segments |
| RoutedTables.EveryOperationKept | crates/barbacane/src/main.rs:915-932 | so every operation keeps its place in a table of tidy paths, plain HTTP methods and parameters that enclose a segment only by being all of it |
| RoutedTables.OperationReachedIff | crates/barbacane/src/main.rs:1195 | some request reaches an operation of an accepted table exactly when no later entry collides with it and no wildcard operation shadows it |
| RoutedTables.TwoCompile | crates/barbacane-compiler/src/artifact.rs:551-587 | any two templates of different skeletons or methods are accepted together, in the order of their texts |
| RoutedTables.PairIsDisplaced | crates/barbacane/src/main.rs:915-932 | of two accepted operations with one pattern and HTTP method, the first of the table is reached by no request, and the second answers every request the first is declared for |
| RoutedTables.TrailingSlashCollides | crates/barbacane/src/router/trie.rs:209-225 | for every template, the same path with a trailing slash is accepted next to it and displaces it |
| RoutedTables.MessageMethodCollides | crates/barbacane/src/main.rs:919-923 | for every template, SEND displaces POST, and RECEIVE displaces GET |
| RoutedTables.EnclosedCollides | crates/barbacane/src/router/trie.rs:209-225 | of a segment such as `{a}-{b}`, with anything between its parameters, and a plain parameter, both are accepted and one displaces the other |
| RoutedTables.WildcardIsShadowed | crates/barbacane/src/router/trie.rs:155-205 | a catch-all next to a longer one behind a parameter is accepted, keeps its place, and is reached by no request |
| RoutedTables.NamesAreTaken | crates/barbacane/src/router/trie.rs:119-150 | of two accepted operations with one pattern and different HTTP methods, requests for the second are answered with the first one's parameter names |
| RoutedTables.NameIsTaken | crates/barbacane/src/router/trie.rs:119-150 | for reading and posting to one place under two names, what the lookup returns |
| ArtifactHash.ComputeHashText | crates/barbacane-compiler/src/artifact.rs:898-944 | the loops feed the hasher exactly the lines, in order |
| ArtifactHash.AppendSpecs | crates/barbacane-compiler/src/artifact.rs:907-909 | the loop appends one line per source spec |
| ArtifactHash.AppendChecksums | crates/barbacane-compiler/src/artifact.rs:911-913 | the loop appends one line per checksum |
| ArtifactHash.AppendPlugins | crates/barbacane-compiler/src/artifact.rs:917-931 | the loop appends one line per plugin, host functions sorted |
| ArtifactHash.AppendCapabilities | crates/barbacane-compiler/src/artifact.rs:916-942 | the flag, the plugins and the MCP settings follow, in this order |
| ArtifactHash.LinesReadBack | crates/barbacane-compiler/src/artifact.rs:905-943 | the text determines its lines |
| ArtifactHash.SpecLineInjective | crates/barbacane-compiler/src/artifact.rs:907-909 | a spec line determines file and digest, even if the file name contains an equals sign |
| ArtifactHash.ChecksumLineInjective | crates/barbacane-compiler/src/artifact.rs:911-913 | a checksum line determines key and value |
| ArtifactHash.HostFunctionsInjective | crates/barbacane-compiler/src/artifact.rs:918-928 | the joined sorted names determine the multiset of names |
| ArtifactHash.PluginLineInjective | crates/barbacane-compiler/src/artifact.rs:917-931 | a plugin line determines every field, host functions up to order |
| ArtifactHash.McpLineInjective | crates/barbacane-compiler/src/artifact.rs:934-942 | the MCP line determines its fields, an absent name counting as empty |
| ArtifactHash.McpLinesCollide | crates/barbacane-compiler/src/artifact.rs:934-942 | the condition is needed: with tabs, text can move between server name and version without changing the line |
| ArtifactHash.HashTextInjective | crates/barbacane-compiler/src/artifact.rs:898-944 | equal texts come from the same specs, checksums, flag, plugins and MCP settings, although lines of different kinds are not separated |
| ArtifactHash.HashTextIff | crates/barbacane-compiler/src/artifact.rs:898-944 | texts are equal exactly when the inputs are, up to host-function order and absent versus empty names |
| WasmSections.LebLength | crates/barbacane-compiler/src/manifest.rs:72-87 | finds the one prefix that is a varint of at most five bytes, or there is none |
| WasmSections.ReadUleb128 | crates/barbacane-compiler/src/manifest.rs:72-87 | the shifting loop computes the denoted value modulo 2^32 and the bytes consumed |
| WasmSections.EncodeUleb128 | crates/barbacane-compiler/src/manifest.rs:581-593 | the encoding loop computes the shortest varint |
| WasmSections.ReadsBack | crates/barbacane-compiler/src/manifest.rs:72-87 | every varint is read as its value modulo 2^32, padded encodings included, whatever follows |
| WasmSections.ReadInvertsLeb | crates/barbacane-compiler/src/manifest.rs:580-603 | reading what was encoded gives the 32-bit value and consumes exactly its bytes |
| WasmSections.ReadFrame | crates/barbacane-compiler/src/manifest.rs:98-106 | one section's id, contents and end, or a failure when the length does not fit |
| WasmSections.ReadName | crates/barbacane-compiler/src/manifest.rs:106-112 | the name and payload of a custom section |
| WasmSections.ReadEmbeddedManifest | crates/barbacane-compiler/src/manifest.rs:95-117 | the position-based loop finds what the walk over sections finds |
| WasmSections.WalkComplete | crates/barbacane-compiler/src/manifest.rs:95-117 | on every encoded section list the walk returns the payload of the first manifest section, if it is UTF-8 |
| WasmSections.ManifestComplete | crates/barbacane-compiler/src/manifest.rs:580-603 | so does the reader on every module made of a header and such a list |
| WasmSections.WalkSound | crates/barbacane-compiler/src/manifest.rs:95-117 | a manifest is only ever returned from bytes that begin with an encoded section list whose first manifest it is |
| WasmSections.WalkIgnoresTail | crates/barbacane-compiler/src/manifest.rs:95-117 | once an encoded list has a manifest, what follows the list does not matter |
| WasmSections.WalkIff | crates/barbacane-compiler/src/manifest.rs:95-117 | on arbitrary bytes a manifest is found exactly when they begin with well-formed sections whose first manifest it is |
| WasmSections.ManifestIff | crates/barbacane-compiler/src/manifest.rs:95-117 | a file has a manifest exactly when such sections follow its eight bytes of header |
| WasmSections.ManifestSectionName | crates/barbacane-compiler/src/manifest.rs:95-117 | the name of the section that is looked for |
| Secrets.CollectRefs | crates/barbacane-wasm/src/secrets.rs:168-191 | appends all references in document order |
| Secrets.ReferenceAsks | crates/barbacane-wasm/src/secrets.rs:136-150 | a reference asks the environment, or the secrets directory, for what follows its scheme |
| Secrets.ReservedSchemes | crates/barbacane-wasm/src/secrets.rs:151-161 | the reserved schemes are reported as unsupported by name |
| Secrets.ReferenceIff | crates/barbacane-wasm/src/secrets.rs:123-129 | a string is a reference exactly if it starts with one of the five schemes, and otherwise an invalid one |
| Secrets.LeafIsCollected | crates/barbacane-wasm/src/secrets.rs:168-191 | every reference at every position is collected |
| Secrets.ResolveDependsOnRefs | crates/barbacane-wasm/src/secrets.rs:194-225 | two stores that agree on a document's references resolve it alike |
| Secrets.ResolveAt | crates/barbacane-wasm/src/secrets.rs:194-225 | resolving commutes with going to a position: no node is moved, added or lost |
| Secrets.Scoped | crates/barbacane-wasm/src/secrets.rs:66-74 | a scoped store has exactly the allowed keys with unchanged values |
| Secrets.ScopedResolvesAlike | crates/barbacane-wasm/src/secrets.rs:66-74 | a scope that allows a document's references changes nothing for it |
| Secrets.CollectAll | crates/barbacane-wasm/src/secrets.rs:235-238 | gathers the references of all documents |
| Secrets.ResolveEach | crates/barbacane-wasm/src/secrets.rs:243-255 | resolves each reference or reports its error, in order |
| Secrets.ResolveAllSecrets | crates/barbacane-wasm/src/secrets.rs:231-262 | succeeds exactly when every reference in every document resolves; then the store has exactly those references with their values, otherwise all errors are reported |
| Secrets.UniqueAscends | crates/barbacane-wasm/src/secrets.rs:239-240 | the references are resolved in ascending order without repetition |
| Secrets.ErrorsIff | crates/barbacane-wasm/src/secrets.rs:246-261 | there are no errors exactly when everything resolves |
| Secrets.AllLeavesResolved | crates/barbacane-wasm/src/secrets.rs:194-262 | after success every reference at every position is replaced by its value, other strings stay, and a store scoped to the document's references does the same |
| Calendar.CountedDate | crates/barbacane-sigv4/src/lib.rs:64-90 | the reference calendar, counted day by day from 1970-01-01, only has valid dates |
| Calendar.YearOfEraCorrect | crates/barbacane-sigv4/src/lib.rs:76 | the division formula finds the year within a 400-year era |
| Calendar.CivilInvertsDays | crates/barbacane-sigv4/src/lib.rs:73-82 | converting the day number of any date from 1970 on gives the date back |
| Calendar.NextDayCounts | crates/barbacane-sigv4/src/lib.rs:73-82 | the inverse formula counts one day for the next calendar day |
| Calendar.CivilIsCountedDate | crates/barbacane-sigv4/src/lib.rs:64-90 | for every day number the division-only conversion gives the date reached by counting |
| Calendar.CountedDateMonotone | crates/barbacane-sigv4/src/lib.rs:64-90 | later day numbers are later dates |
| Calendar.FourDigitYears | crates/barbacane-sigv4/src/lib.rs:64-90 | the year has four digits exactly before day 2932897 |
| Calendar.FormatWidths | crates/barbacane-sigv4/src/lib.rs:64-90 | the date is a prefix of the timestamp, and the widths are 16 and 8 exactly before the year 10000 |
| Calendar.ParseInvertsFormat | crates/barbacane-sigv4/src/lib.rs:64-90 | parsing a 16-character timestamp gives the seconds back; its letters stand where the format puts them, and the date is its beginning |
| Calendar.FormatPreservesOrder | crates/barbacane-sigv4/src/lib.rs:64-90 | timestamps sort as strings exactly as they do in time |
| Query.HexRoundTrip | crates/barbacane-sigv4/src/lib.rs:271-278 | every hex digit the encoder writes is read back |
| Query.HexIff | crates/barbacane-sigv4/src/lib.rs:271-278 | a byte is a hexadecimal digit of a value exactly if it is that digit in upper or lower case |
| Query.EscapeNamesByte | crates/barbacane-sigv4/src/lib.rs:253-269 | an escape decodes to the byte it names, in either spelling |
| Query.OtherwiseKept | crates/barbacane-sigv4/src/lib.rs:253-269 | a byte that starts no complete escape decodes to itself, the plus sign included |
| Query.EncodesByte | crates/barbacane-sigv4/src/lib.rs:280-293 | letters, digits and four more characters, and in a path the slash, stand for themselves; every other byte becomes a percent sign and two upper-case digits |
| Query.PercentEncodeQuery | crates/barbacane-sigv4/src/lib.rs:280-293 | the loop computes the escaped text |
| Query.PercentDecode | crates/barbacane-sigv4/src/lib.rs:253-269 | the loop computes the unescaped, lossily decoded text |
| Utf8.IsUtf8Iff | crates/barbacane-sigv4/src/lib.rs:268 | bytes pass as text exactly if they are the encodings of code points without surrogates |
| Utf8.GoodPrefixIff | crates/barbacane-sigv4/src/lib.rs:268 | what is replaced at once is the longest beginning of an encoding |
| Utf8.LossyReplaces | crates/barbacane-sigv4/src/lib.rs:268 | well-formed characters stay, and every other such beginning becomes U+FFFD |
| Query.DecodeEncode | crates/barbacane-sigv4/src/lib.rs:253-293 | decoding undoes encoding exactly on UTF-8 texts |
| Query.EncodeClean | crates/barbacane-sigv4/src/lib.rs:280-293 | an encoded text is a sequence of unreserved bytes, kept slashes and complete upper-case escapes |
| Query.EncodedHasNoSeparators | crates/barbacane-sigv4/src/lib.rs:280-293 | an encoded text contains neither an ampersand nor an equals sign |
| Query.CanonicalUri | crates/barbacane-sigv4/src/lib.rs:103-122 | the loop escapes the path, with a leading slash, and keeps slashes |
| Query.UriIdempotentIff | crates/barbacane-sigv4/src/lib.rs:103-122 | canonicalising a path twice is canonicalising it once exactly when nothing in it needs escaping |
| Query.FindEquals | crates/barbacane-sigv4/src/lib.rs:141-144 | the position of the first equals sign, or there is none |
| Query.EncodePart | crates/barbacane-sigv4/src/lib.rs:137-153 | a part is split at its first equals sign, decoded and re-encoded |
| Query.EncodeParts | crates/barbacane-sigv4/src/lib.rs:135-154 | the nonempty parts, encoded in order |
| Query.CanonicalQuery | crates/barbacane-sigv4/src/lib.rs:129-163 | the loop, sort and join compute the canonical query |
| Query.ShowReadsBack | crates/barbacane-sigv4/src/lib.rs:158-162 | a printed parameter is nonempty, free of ampersands and decodes to itself |
| Query.ParamsOfPrinted | crates/barbacane-sigv4/src/lib.rs:129-163 | printing any list of text parameters and parsing it gives the list back |
| Query.CanonicalKeepsParams | crates/barbacane-sigv4/src/lib.rs:129-163 | canonicalisation keeps the multiset of decoded parameters |
| Query.CanonicalIff | crates/barbacane-sigv4/src/lib.rs:129-163 | two queries have the same canonical form exactly when they have the same multiset of decoded parameters |
| Query.CanonicalIdempotent | crates/barbacane-sigv4/src/lib.rs:129-163 | canonicalising twice is canonicalising once |
| Query.CanonicalIgnoresOrder | crates/barbacane-sigv4/src/lib.rs:129-163 | reordering the parts of a query does not change its canonical form |
| Query.CanonicalSorted | crates/barbacane-sigv4/src/lib.rs:156 | the canonical query prints the encoded parameters by ascending key, and by ascending value where keys are equal, in byte order |
| Lex.LexIff | crates/barbacane-sigv4/src/lib.rs:156 | the order of texts: a beginning comes first, and otherwise the first difference decides |

## Left out

- SHA-256, HMAC and the signing steps built on them; the artifact hash is modelled up to the text that is hashed.
- The WASM engine: linear memory, instruction counting, deadlines, and host calls whose memory range is invalid. Plugins are strategies over host calls with a step bound.
- `dispatch` handlers, streaming, WebSocket, HTTP, message brokers and the other host functions; they do not touch the modelled state.
- JSON, YAML, TOML and version parsing; outputs and metadata are bytes with a parser as a parameter.
- The router updates its nodes in place; the model rebuilds the path to the changed node, so aliasing is not captured. Upper-casing of methods and the order of the allowed methods are not modelled.
- The request and response validator, percent-decoding of captured values, the MCP endpoint, the control plane, telemetry and the command line.
- Schema complexity and the plaintext-URL test, which are parameters of the route pass; compiler warnings, archive writing and plugin download.
- File confinement of `file://` secrets and environment access; resolving one reference is a parameter.
- `created_at`, `expires_at` and `ttl_remaining` of a cache hit, the wall-clock form of a rate limit's reset, and the statistics of both tables.
- Time is unbounded: overflow of 64-bit milliseconds or of `Instant` arithmetic is not modelled. Shifts and masks are written as arithmetic.
- Threads are modelled by the order of lock acquisitions; lock fairness and poisoning are not.
- LimiterIsLog: for windows of at most 300 seconds that do not grow after the first request; QuotaGuaranteedIff and LogGuaranteedIff show that both limits are exact, and LimiterIsWindow covers growing windows.
- QuotaRespected: for a fixed window and quota per key; with changing limits there is no single bound to state.
- CheckIsExact: for windows of at most 300 seconds that are no wider than the earlier ones of the key; LimiterIsWindow covers windows that grow, and QuotaGuaranteedIff shows that longer ones are forgotten.
- LimiterIsolation: for windows of at most 300 seconds, because the periodic sweep, which all plugins trigger, forgets longer ones.
- HashTextIff: for fields without the separators of their line (newline, tab, comma inside a host function, equals sign inside a digest) and checksum keys of the two forms the compiler writes; McpLinesCollide shows why.
- GlueProtocol: for metadata that parses and a plugin that is initialised; otherwise the glue returns 1 without calling the handler, as in KeeperReturns. Serialising the output is taken to succeed.
- EveryOperationKept: a readable special case; OperationKeptIff is the exact condition for every accepted table.
- ExecuteMiddlewareOnRequest: up to the bytes of the answer; decoding them into a response, and the error reply if that fails, is not modelled.
- FormatPreservesOrder: before the year 10000, where FormatWidths shows the widths change.
