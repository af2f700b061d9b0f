# Verified model of uxum

uxum is a Rust framework for HTTP services. This project models the parts of it that carry
state or do text processing with promises attached, and proves those promises for all inputs,
all runs and all schedules:

- **Rate limiting** (`src/layers/rate.rs`). `Gcra.dfy` is one bucket and its runs,
  `TokenBucket.dfy` the bucket the module documentation describes, `DocumentedLimits.dfy` what
  is documented of keys and of chains, said with those buckets alone, `KeyedLimiter.dfy` the
  limiter with overrides and eviction, `Quotas.dfy` the arithmetic of a configuration,
  `RateLimit.dfy` the ordered chain of limits and `RateLimitService.dfy` the chain as objects,
  built from configuration and put through whole traces. The main result is `ServeTrace`: for
  any configuration and any trace, every verdict, reported wait included, is that of the first
  limit whose documented token bucket objects. Such a bucket is kept forever, used by its own
  key only, and sees the requests that pass the documented buckets of the limits before it.
- **HTTP log appender** (`src/logging/http.rs`, in `HttpLog.dfy`). Exactly-once, in-order
  hand-off of accepted messages over every schedule, and progress: every receive takes the
  oldest entry, and flushes, ticks, closing and dropping deliver.
- **Prometheus text format** (`src/metrics/text_exporter/serialize.rs`, in `Text.dfy`,
  `Sanitize.dfy` and `Exposition.dfy`). The name sanitizer against a one-pass form, help
  escaping, and label blocks that read back.
- **Authentication** (`src/auth/extractor.rs`, `src/auth/config.rs`, `src/auth/layer.rs`,
  `src/auth/provider.rs`, in `AuthStack.dfy` and `AuthLayer.dfy`). A nested stack of extractors
  is its list of leaves; who is let through; refused credentials all look alike.
- **Router and OpenAPI document** (`src/builder/app.rs`, `src/apidoc.rs`, in `Routes.dfy`). When
  the two builders agree, and what the document loses when they do not.

`Wrappers.dfy` and `Sequences.dfy` are shared helpers. `dafny verify dfyconfig.toml` checks
everything.

## Assumptions

- The `governor` crate is not part of this model. Assumed of it, from the module documentation
  (`src/layers/rate.rs:5-15`): virtual scheduling over integer nanoseconds, as in Annex A of
  ITU-T I.371. A request at `t` is admitted iff `tat - t <= (burst - 1) * period`; admission
  stores `max(tat, t) + period`; rejection stores nothing; an absent key is a full bucket;
  `retain_recent` forgets exactly the keys with `tat <= now`.
- The clock never goes back. A request is one atomic step with three clock readings (eviction,
  decision, wait), which all limits of a chain share. The theorem about eviction allows any
  set of stale keys to be forgotten at any point.
- Key extraction is an input: a request carries what each extractor finds, if anything.
  Override keys come with the outcome of parsing them.
- For the log appender, "sent" means handed to `send_logs`, and "accepted" means accepted by
  `try_send`. Nobody writes after the appender is dropped, because dropping it is what cancels
  the worker.
- A leaf extractor is any four functions or values of the right types. How the built-in leaves
  render errors is modelled; making a header value of a challenge is an input, as its validity
  is decided by the `http` crate. So is the verification of hashed passwords.
- `MethodRouter` of the `axum` crate panics when a method is registered twice, and the source
  panics on a method it has no registration for.

## Where the code and its documentation differ

- `CollapsePromiseFails`, `FastPathAgreesIff`: runs of underscores are documented to collapse,
  but a name that starts with exactly two underscores and is otherwise clean comes back
  unchanged. The lemma says exactly when.
- `RateIsExactIff`, `FasterThanConfigured`: `rps` is documented as the refill rate, but the
  period is rounded down to nanoseconds. Runs respect the configured rate in every window iff
  `rps` divides 10^9; at 600 million per second a thousand million pass. Above 10^9 building
  the quota panics (`QuotaPanicsIff`).
- `ChainReportsZero`, `ConfiguredRetry`, `ConfiguredWait`, `RetryAfterReportedWaitMayFail`: a
  rejected caller is told when the method is available again, but the wait is truncated to
  whole seconds (delay-seconds of section 10.2.3 of RFC 9110 are whole) and no configured period
  is longer than one. So callers are told zero seconds, or one second if some limit or override
  is set to one request per second, and then only if the wait is computed at the instant of the
  last check of the key. Retrying exactly when told to succeeds iff that second was reported or
  every window had room again when the wait was computed. A period after the last check before
  the rejection, a retry passes in any case.
- `OutlastsBurstDurationIff`, `ShortBurstIsCutOff`: a client sending at `burst_rps` is documented
  to last longer than the burst duration. It does if that duration is at least a period. The
  request after the first `burst` passes iff a period fits into the time they took.
- `LoweringRpsKeepsBurst`, `ZeroDurationLosesBurst`: an override that lowers `rps` keeps a large
  burst, as documented, except when the burst duration is zero.
- `RegistrableIff`, `BuildBoth`, `DocumentKeepsIff`, `DocumentHidesConflict`: two enabled
  handlers for one path and method make the router panic, while the OpenAPI builder keeps the
  later one without a word. Given unique names, this is the only way to get a document and no
  router, and the handlers missing from the document are exactly those with a later enabled
  handler for the same path and method.
- `FinalNameIsNameIff`, `UnitSpoilsName`: exposed metric names match the documented pattern
  exactly when the unit consists of name characters and there is a name, a unit or a counter
  suffix at all. The unit `m^2` spoils every name.
- `NoOpRendersIff`: the no-op extractor is expected never to render an error
  (`src/auth/extractor.rs:71`). With the provider that looks users up in the configuration it
  renders one for every request.

## Model

| member | source | states |
|---|---|---|
| Gcra.GlobalLimiter.CheckLimit | src/layers/rate.rs:484-489 | one check of a bucket in place: verdict, truncated wait and new stored time |
| Gcra.AdmittedIffWindowsHaveRoom | src/layers/rate.rs:5-15 | after any run, a request passes iff every window ending with it has room for it under burst + floor(length / period) |
| Gcra.WindowBound | src/layers/rate.rs:9-19 | over every run, no window holds more admissions than burst + floor(length / period) |
| Gcra.EveryRunFaithful | src/layers/rate.rs:14-15 | after every run, the one stored number is the latest of "admission j plus a period for it and each later one" |
| Gcra.ConformingClientNeverRejected | src/layers/rate.rs:9-12 | a client whose requests respect the limit in every window has all of them admitted |
| Gcra.SimultaneousBurst | src/layers/rate.rs:10-11 | of n simultaneous requests a full bucket admits exactly min(n, burst) |
| Gcra.SteadyClient | src/layers/rate.rs:11-12 | evenly spaced requests all pass as long as the difference of the two rates fits the bucket, and not one longer |
| Gcra.SustainedBurstExample | src/layers/rate.rs:17-19 | the documented example at 50 per second: 124 requests pass, the one due after 2.48 s is rejected |
| Gcra.ReportedWaitBrackets | src/layers/rate.rs:484-489 | the arithmetic of one stored time: rejected before the reported wait, admitted a second after it, and exactly when retrying on time works |
| Gcra.WaitWithinPeriod | src/layers/rate.rs:484-489 | over every run, a rejected request waits at most one period from the last check before it, and the reported seconds never exceed a period |
| Gcra.BurstThenOneMore | src/layers/rate.rs:10-12 | of evenly spaced requests the first `burst` pass, and one more passes iff a period fits into the time they took |
| Gcra.DrainedBucketRefills | src/layers/rate.rs:14-19 | a drained bucket is full again exactly `burst` periods later |
| TokenBucket.CheckIsTake | src/layers/rate.rs:5-15 | one step of the stored time and of the documented bucket agree on verdict, wait and resulting state |
| TokenBucket.GcraIsTokenBucket | src/layers/rate.rs:5-15 | over every run, verdict and wait are those of a bucket that starts full, refills one per period and loses nothing on rejection |
| KeyedLimiting.KeyedLimiter.CheckLimit | src/layers/rate.rs:523-548 | the keyed check in place is the step function: key policy, override, counter, eviction, shared bucket |
| KeyedLimiting.KeyedLimiter.CheckShared | src/layers/rate.rs:537-546 | a shared check advances the wrapping counter, evicts on every 4096th count and charges one bucket |
| KeyedLimiting.KeyedLimiter.CheckOverride | src/layers/rate.rs:531-533 | an overridden key touches its own bucket and nothing else of the limiter |
| KeyedLimiting.KeyedLimiter.RetainRecent | src/layers/rate.rs:539-542 | eviction forgets exactly the keys whose bucket is full |
| KeyedLimiting.KeyedLimiter.constructor | src/layers/rate.rs:575-581 | a new limiter has no stored keys and a counter of zero |
| KeyedLimiting.HandleSimulates | src/layers/rate.rs:531-546 | one step, with any stale keys forgotten before it, keeps the debt of every key equal to that of a bucket of its own |
| KeyedLimiting.VerdictIsDocumented | src/layers/rate.rs:21-41 | whatever keys interleave and whatever full buckets are forgotten, each verdict is that of the key's own documented bucket |
| KeyedLimiting.SourceVerdictIsDocumented | src/layers/rate.rs:524-547 | the same for the limiter with its periodic eviction |
| KeyedLimiting.EvictionIsLossless | src/layers/rate.rs:40-41 | verdicts and waits equal those of a limiter that never forgets a key |
| KeyedLimiting.KeysAreIsolated | src/layers/rate.rs:23-24 | two histories that agree on the checks of a key answer its next request alike |
| KeyedLimiting.ForeignRequestsDoNotMatter | src/layers/rate.rs:23-24 | over every run, leaving out a request with another key, or with none, changes no answer |
| KeyedLimiting.PassIffKeyWindowsHaveRoom | src/layers/rate.rs:543-546 | a request of a limited key passes iff every window of that key alone has room |
| KeyedLimiting.RetryBrackets | src/layers/rate.rs:543-546 | over every run: after a reported wait, and as long as nothing is admitted for the key, whatever else comes in between, a retry is rejected before that wait is over, passes a second after it and a period after the key's last check before at the latest; on time, with a period of a second at most, it passes iff one second was reported or every window had room when it was |
| KeyedLimiting.ReportedWaitWithinPeriod | src/layers/rate.rs:543-546 | over every run of a limiter, what it reports is at most a period of the key's quota |
| KeyedLimiting.StoredKeysBounded | src/layers/rate.rs:520-542 | eviction at every 4096th shared check and no other, across counter wraps; stored keys at most those in debt at the last eviction plus 4096 |
| Quotas.PeriodRoundsDown | src/layers/rate.rs:216-218 | period * rps <= 10^9 < (period + 1) * rps, and the period is zero iff rps > 10^9 |
| Quotas.QuotaPanicsIff | src/layers/rate.rs:221-227 | building a quota panics iff rps > 10^9, and gives none iff rps is not set |
| Quotas.QuotaMeans | src/layers/rate.rs:205-229 | the quota from the fields alone: period, and capacity by the larger of rps and burst_rps |
| Quotas.OverrideMeans | src/layers/rate.rs:235-243 | for each field, the override counts where it sets it and the limit where it does not |
| Quotas.RateIsExactIff | src/layers/rate.rs:9 | every run of a configured bucket admits at most burst plus rps times length in every window iff rps divides 10^9 |
| Quotas.FasterThanConfigured | src/layers/rate.rs:216-218 | a bucket configured for 600 million per second admits a thousand million per second without end |
| Quotas.ConfiguredWait | src/layers/rate.rs:110-115 | over every run of a configured bucket, the reported wait is one second iff rps is one and no window has room until then, and zero otherwise |
| Quotas.RetryAfterReportedWaitMayFail | src/layers/rate.rs:110-115 | one request per second: a rejected caller is told zero seconds, retries and is rejected again |
| Quotas.OutlastsBurstDurationIff | src/layers/rate.rs:11-12 | a client sending evenly at burst_rps or slower has a request admitted after the burst duration iff burst times the distance is at least a period, so always if the duration is |
| Quotas.ShortBurstIsCutOff | src/layers/rate.rs:11-12 | a config under which the client does not last the burst duration |
| Quotas.BurstIsRoundedUp | src/layers/rate.rs:205-213 | capacity is max(burst_rps, rps) * duration rounded up and saturated, and rps only for zero duration |
| Quotas.DefaultCapacityIsRps | src/layers/rate.rs:13 | with the defaults, capacity equals rps |
| Quotas.DocumentedExample | src/layers/rate.rs:17-19 | the documented example is a bucket of 100, and once drained by 100 requests it is full again exactly after 10 seconds |
| Quotas.LoweringRpsKeepsBurst | src/layers/rate.rs:49-51 | lowering rps in an override keeps a large burst, except for zero duration |
| Quotas.ZeroDurationLosesBurst | src/layers/rate.rs:205-213 | an override that lowers rps and loses the burst, the duration being zero |
| Quotas.DroppedOverrideHasNoDefault | src/layers/rate.rs:561-565 | an override has no quota iff neither it nor the limit sets rps, and then there is no default quota |
| RateLimiting.OverrideDecidesItsKey | src/layers/rate.rs:555-571 | the last override of a key that comes to a quota decides; a key with overrides but none of that kind is unlimited; any other key has the default |
| RateLimiting.KeyMeans | src/layers/rate.rs:412-424 | each key type goes by its own part of the request, a global limit by none |
| RateLimiting.GlobalLimitMeans | src/layers/rate.rs:414-419 | over every run, a global limit is one bucket for all requests with the quota of its config: pass iff every window has room, or without rps always |
| RateLimiting.KeylessRequest | src/layers/rate.rs:525-530 | a request without the key of a limit is rejected iff the config requires a key |
| RateLimiting.KeyedLimitMeans | src/layers/rate.rs:531-546 | over every run, a request with a key passes iff every window of that key has room under the last override with a quota, or else the limit itself; without rps always |
| RateLimiting.BuildableIff | src/layers/rate.rs:222-229 | building works iff every rps that is needed is at most 10^9 |
| RateLimiting.NoLimiterIff | src/layers/rate.rs:572-574 | a limiter is left out iff rps is unset and, for a keyed limit, no parsed override sets it and no key is required |
| RateLimiting.CallPointwise | src/layers/rate.rs:374-392 | one call updates exactly the limits it reaches, passes iff all pass, and answers with the first objection |
| RateLimiting.ChainSplits | src/layers/rate.rs:45-47 | over every run, a limit is in the state it would reach alone on the requests that passed the limits before it |
| DocumentedLimits.PipelineIsPassedBefore | src/layers/rate.rs:45-47 | when each stage is what the documented buckets of one limit let through of the stage before, stage i is the trace filtered by the limits before i |
| DocumentedLimits.FirstObjectionMeans | src/layers/rate.rs:374-380 | the documented answer is that of the first limit that objects, or a pass |
| RateLimiting.ReachingIsDocumented | src/layers/rate.rs:45-47 | over every run, the requests that reach a limit are those that pass the documented buckets of the limits before it |
| RateLimiting.ChainIsDocumented | src/layers/rate.rs:43-53 | over every run, the chain answers as the documented buckets do, none of which is defined through the implementation: the first objection, wait included |
| RateLimiting.ConfiguredRetry | src/layers/rate.rs:543-546 | RetryBrackets for every configured limit, overrides included: the reported wait is zero or one second, when it is one, and when a retry passes |
| RateLimiting.ChainReportsZero | src/layers/rate.rs:374-380 | over every run of a configured chain, callers are told zero seconds, or one if some limit or override is set to one request per second |
| RateLimiting.ChainWindowBound | src/layers/rate.rs:45-47 | over every run, what the chain admits respects the window limit of every limiter for every key |
| RateLimiting.DroppingLimitersIsUnobservable | src/layers/rate.rs:402-407 | a chain without the limiters that never reject answers every trace as the full chain does |
| RateLimiting.DroppedIffNeverRejects | src/layers/rate.rs:409-425 | a config whose quotas can be built gets no limiter iff no run could make its limit reject |
| RateLimitService.RateLimit.Check | src/layers/rate.rs:374-380 | the loop over limiter objects is the chain function, limits after a rejection untouched |
| RateLimitService.MakeOverrides | src/layers/rate.rs:557-571 | one fresh bucket object per overridden key with a quota |
| RateLimitService.MakeKeyed | src/layers/rate.rs:555-582 | none iff the limiter would never reject, otherwise a fresh limiter with the limits of the config |
| RateLimitService.MakeLimiter | src/layers/rate.rs:412-425 | the same for every key type, overrides ignored for a global limit; none iff the fields of the config set no limit |
| RateLimitService.NewRateLimit | src/layers/rate.rs:402-407 | the service holds the kept limiters in order, all fresh and sharing no object |
| RateLimitService.ServeTrace | src/layers/rate.rs:358-407 | built from any configuration and put through any trace, the service gives the documented answer to every request |
| HttpLog.HttpLogAppender.Write | src/logging/http.rs:203-214 | accepted iff the worker runs and the queue has room; errors iff not accepted under back pressure, with the reason |
| HttpLog.HttpLogAppender.RequestFlush | src/logging/http.rs:216-227 | the same for flush requests |
| HttpLog.HttpLogAppender.OnReceive | src/logging/http.rs:265-280 | one received entry, with the size- and flush-triggered sends |
| HttpLog.HttpLogAppender.Finish | src/logging/http.rs:285-303 | drain and chunked sending on leaving the loop |
| HttpLog.HttpLogAppender.Execute | src/logging/http.rs:249-284 | appender and worker under any schedule follow the step functions |
| HttpLog.ExactlyOnceInOrder | src/logging/http.rs:249-303 | at every step: accepted = sent, then buffered, then queued; batches non-empty and within the maximum; buffer below it while waiting |
| HttpLog.PayloadAndFlattenMean | src/logging/http.rs:286-290 | the messages among entries, and the messages of batches, list by list |
| HttpLog.AcceptedIffRoom | src/logging/http.rs:203-214 | over every schedule, writes and flush requests are accepted iff the worker runs and the queue has room |
| HttpLog.ReceiveTakesOldest | src/logging/http.rs:265-281 | over every schedule, a receive takes exactly the oldest entry, and sends iff that fills the buffer or is a flush that counts |
| HttpLog.EmptyQueueEndsIff | src/logging/http.rs:282 | a receive on an empty queue ends the worker iff the channel is closed |
| HttpLog.FlushDelivers | src/logging/http.rs:267-271 | whatever else happens, as many receives as entries were waiting send everything accepted before a flush |
| HttpLog.CloseDelivers | src/logging/http.rs:282-303 | whatever else happens, one receive more than entries were waiting ends a closed worker with everything sent |
| HttpLog.AllSentOnExit | src/logging/http.rs:285-303 | when the worker has ended, all that was ever accepted has been sent, in order |
| HttpLog.DropDelivers | src/logging/http.rs:189-200 | whatever happens between dropping the appender and the worker noticing it, nothing more is accepted and the worker ends with everything sent |
| HttpLog.ChunksPartition | src/logging/http.rs:291-302 | the shutdown chunks partition the leftovers into legal batches |
| HttpLog.ChunksAreCutAtSize | src/logging/http.rs:291-302 | chunk i begins after i full chunks and only the last is shorter |
| HttpLog.StreamIsScheduleIndependent | src/logging/http.rs:306-317 | the concatenated bodies depend on the accepted messages only, not on sizes, flushes, ticks or interleaving |
| HttpLog.AssembleBody | src/logging/http.rs:313-317 | a body is its lines one after the other |
| HttpLog.BodyMeans | src/logging/http.rs:313-317 | the body of one line is the line, bodies of lists are put one after the other |
| HttpLog.FlushIsBarrier | src/logging/http.rs:267-271 | every received flush has everything accepted before it sent, unless flushes are ignored |
| HttpLog.TickSendsReceived | src/logging/http.rs:254-263 | after a tick every received message has been sent |
| HttpLog.BatchesAreChunks | src/logging/http.rs:273-278 | without flushes and ticks, the batches are the accepted messages cut at the maximum size, for every schedule |
| Sanitize.SanitizeName | src/metrics/text_exporter/serialize.rs:465-524 | scan, cleaning and collapsing loops compute the one-pass form |
| Sanitize.SanitizedReplaces | src/metrics/text_exporter/serialize.rs:457-524 | with the alphabet written out: characters outside it become underscores, then runs collapse, except for a lone leading pair |
| Sanitize.CollapseMerges | src/metrics/text_exporter/serialize.rs:518-521 | a double underscore counts as one wherever it stands, and texts without one stay |
| Sanitize.CollapseByReplacing | src/metrics/text_exporter/serialize.rs:518-521 | repeated replacement ends in the one-pass collapse after exactly ceil(log2(longest run)) passes |
| Sanitize.PassHalvesRuns | src/metrics/text_exporter/serialize.rs:519-520 | one pass halves the longest run of underscores, rounding up |
| Sanitize.FastPathAgreesIff | src/metrics/text_exporter/serialize.rs:466-494 | fast and slow path agree on every name but those starting with a lone pair of underscores and otherwise clean |
| Sanitize.CollapsePromiseFails | src/metrics/text_exporter/serialize.rs:464 | a name whose double underscore is not collapsed |
| Sanitize.SanitizedIsName | src/metrics/text_exporter/serialize.rs:457-464 | the output is a valid name or empty, with a double underscore exactly in the exceptional case |
| Sanitize.SanitizedIsIdempotent | src/metrics/text_exporter/serialize.rs:465-524 | sanitizing twice is sanitizing once |
| Sanitize.FinalNameIsNameIff | src/metrics/text_exporter/serialize.rs:183-208 | the exposed name is non-empty and matches the pattern iff the unit consists of name characters and name, unit and counter suffix are not all missing; counters end in _total |
| Sanitize.FinalNameShape | src/metrics/text_exporter/serialize.rs:193-208 | the exposed name is exactly the sanitized name, then the unit unless absent or already there, then _total if wanted and not already there |
| Sanitize.FinalNameInFull | src/metrics/text_exporter/serialize.rs:193-208 | underscore and unit unless the name ends with it, then _total for counters unless it is there |
| Sanitize.EndsWithMeans | src/metrics/text_exporter/serialize.rs:582-588 | a text ends with a suffix iff it is something followed by it |
| Sanitize.UnitSpoilsName | src/metrics/text_exporter/serialize.rs:193-208 | a unit that spoils every exposed name: m^2 |
| Text.ReplaceCharIsMap | src/metrics/text_exporter/serialize.rs:671-674 | replacing one character is a map over the characters |
| Exposition.FourPassesAreOne | src/metrics/text_exporter/serialize.rs:668-675 | the four replacements equal a single pass that escapes each character |
| Exposition.EscapedCharacter | src/metrics/text_exporter/serialize.rs:668-675 | what each character of a help text becomes |
| Exposition.HelpRoundTrip | src/metrics/text_exporter/serialize.rs:668-675 | escaped help text unescapes to the input and has no raw newline, tab or carriage return |
| Exposition.QuoteRoundTrip | src/metrics/text_exporter/serialize.rs:614 | a quoted value reads back, for any choice of printable characters |
| Exposition.QuotedCharacter | src/metrics/text_exporter/serialize.rs:614 | what each character of a value becomes |
| Exposition.HexMeans | src/metrics/text_exporter/serialize.rs:614 | code points are written in lower-case hexadecimal without leading zeros |
| Exposition.BlockSyntax | src/metrics/text_exporter/serialize.rs:598-630 | braces, commas and equals signs of a label block |
| Exposition.LabelWriter.Emit | src/metrics/text_exporter/serialize.rs:606-616 | the output stays an unfinished block of exactly the labels emitted |
| Exposition.LabelWriter.Finish | src/metrics/text_exporter/serialize.rs:618-629 | the output becomes one block of emitted and static labels, or nothing |
| Exposition.BlockRoundTrip | src/metrics/text_exporter/serialize.rs:598-630 | every label block reads back to exactly its labels |
| Exposition.GenerateStaticLabels | src/metrics/text_exporter/serialize.rs:83-108 | the static text is the joined labels of the selected attributes, or none |
| Exposition.SelectedMeans | src/metrics/text_exporter/serialize.rs:83-108 | static labels are, in order, those of all attributes, of none, or of those on the list; keys sanitized, values kept |
| Exposition.SerializeResource | src/metrics/text_exporter/serialize.rs:126-157 | target_info is written with one label block, or not at all |
| Exposition.TargetInfoIsComplete | src/metrics/text_exporter/serialize.rs:141-152 | its block reads back to labels in which each attribute appears exactly once, static or emitted, with its sanitized key and its own value |
| AuthStack.ExtractAuth | src/auth/extractor.rs:519-533 | extraction by a nested stack is the first success, or else the first error, of its leaves |
| AuthStack.FirstSuccessMeans | src/auth/extractor.rs:519-533 | the result is that of the first leaf to succeed, or of the leftmost leaf when all fail |
| AuthStack.LeavesMean | src/auth/extractor.rs:500-533 | the leaves of a stack are those of its extractors from left to right |
| AuthStack.ErrorResponse | src/auth/extractor.rs:535-538 | errors are rendered by the leftmost leaf |
| AuthStack.SecuritySchemes | src/auth/extractor.rs:540-546 | schemes are those of the leaves merged from left to right |
| AuthStack.MergedSchemesMean | src/auth/extractor.rs:540-546 | a scheme is offered iff some leaf has it, as the last such leaf has it |
| AuthStack.SensitiveHeaders | src/auth/extractor.rs:548-554 | headers are those of the leaves from left to right |
| AuthStack.ConcatHeadersMeans | src/auth/extractor.rs:548-554 | the headers of one leaf, and of lists of leaves one after the other |
| AuthStack.ExtractOrRender | src/auth/layer.rs:131-145 | when every leaf fails, the leftmost both supplies and renders the error |
| AuthStack.MakeFlattens | src/auth/config.rs:173-206 | a config builds exactly its leaves, or fails with the leftmost setup error |
| AuthStack.CollectMeans | src/auth/config.rs:198-203 | all made leaves in order, or the leftmost error |
| AuthStack.LeafConfigsMean | src/auth/config.rs:198-204 | the leaf configs of a nested config, an empty stack being one no-op leaf |
| AuthStack.NestingIsUnobservable | src/auth/config.rs:198-204 | a nested config behaves as the flat stack of its leaves, an empty stack being one no-op leaf |
| AuthStack.TitleReadsBack | src/auth/errors.rs:8-44 | the title of an error identifies it, but for an unknown user and a failed authentication |
| AuthStack.RenderMeans | src/auth/extractor.rs:107-133 | status and challenge of every response of the built-in leaves, error by error |
| AuthStack.SameResponseIff | src/auth/errors.rs:31-37 | exactly when two errors get the same response from a built-in leaf: always for an unknown user and a failed authentication, and for no other two unless the challenge is not a valid header value |
| AuthLayer.Authorize | src/auth/provider.rs:77-92 | a permission is granted iff some role of the user grants it; otherwise the refusal says whether the user is unknown |
| AuthLayer.Call | src/auth/layer.rs:131-175 | the layer answers with the first objection of extraction, authentication and the permissions in order, rendered by the leftmost leaf |
| AuthLayer.AuthenticationMeans | src/auth/provider.rs:58-75 | which credentials authenticate, and the error of those that do not |
| AuthLayer.AllowedIff | src/auth/provider.rs:77-92 | a permission is granted iff some configured role of the user is a super user's or has it |
| AuthLayer.FailedExtractionIsRendered | src/auth/layer.rs:139-143 | when no leaf extracts anything, the leftmost renders its own error |
| AuthLayer.RefusalIsRendered | src/auth/layer.rs:150-155 | when authentication refuses, the leftmost leaf renders its error |
| AuthLayer.MissingPermissionIsRendered | src/auth/layer.rs:157-164 | the error for the first missing permission is rendered, or for an unknown user |
| AuthLayer.LetThroughIff | src/auth/layer.rs:131-175 | let through iff the provider vouches for what the first successful leaf extracted and its user has every permission |
| AuthLayer.RefusedCredentialsLookAlike | src/auth/errors.rs:29-40 | refused credentials get one and the same response for all users, passwords, roles and permissions |
| AuthLayer.MissingPermissionIsNamed | src/auth/provider.rs:77-92 | the first missing permission is named to a known user; an unknown one gets the response to refused credentials |
| AuthLayer.NoOpRendersIff | src/auth/extractor.rs:66-77 | the no-op extractor renders an error iff users are looked up in the configuration |
| Routes.RegisterPath | src/builder/app.rs:436-458 | none iff all disabled, panic iff a method is unknown or taken, otherwise the method table |
| Routes.BuildRouter | src/builder/app.rs:291-316 | the first repeated name is an error, otherwise the routes are the table of enabled handlers |
| Routes.BuildSpec | src/apidoc.rs:402-441 | an enabled unsupported method is an error, the one reported being the first at the least path that has one; otherwise the paths are the table of enabled handlers |
| Routes.FirstUnsupportedMeans | src/apidoc.rs:434 | the first unsupported method among the handlers of a path |
| Routes.AtMostMeans | src/apidoc.rs:407-416 | paths are visited in lexicographic order |
| Routes.PathItem | src/apidoc.rs:419-437 | a path item is the table of its enabled handlers |
| Routes.RouteTableMeans | src/builder/app.rs:434-458 | a route table has exactly the enabled (path, method) pairs and no empty path |
| Routes.BuiltRoutesMean | src/builder/app.rs:447-452 | a path and method are in the routes iff a handler with them is not mapped to true by the config; likewise for the document |
| Routes.TablesAgree | src/apidoc.rs:407-441 | both tables are equal when handlers have one path for both |
| Routes.RegistrableIff | src/builder/app.rs:448-458 | the router accepts the enabled handlers iff all their methods are supported and no two share path and method |
| Routes.DocumentKeepsIff | src/apidoc.rs:419-437 | the document keeps an enabled handler iff no later enabled handler has its path and method |
| Routes.BuildBoth | src/builder/app.rs:291-375 | exactly when each of router and document is built; given unique names, a document without a router means a conflict; with a router, both have the same entries |
| Routes.DocumentHidesConflict | src/apidoc.rs:425-435 | the smallest conflict: the router panics, the document loses the earlier handler |

## Left out

- MakeLimiter: requires that no `unwrap` on the way panics; `QuotaPanicsIff` says exactly when one would.
- BurstIsRoundedUp: exact rationals instead of `f64`, so rounding of very large or very fine durations is not modelled.
- SourceVerdictIsDocumented: the counter increment, the eviction and the check of one call are one step; interleavings of threads inside a call are covered only through `VerdictIsDocumented`, which allows eviction at any point.
- RateLimit.Check: all limits of a chain share the clock readings of a request.
- SerializeResource: attribute values come as text, so the two ways of formatting non-string values are not modelled.
- TargetInfoIsComplete: attributes whose keys sanitize to the same name give repeated labels, as in the source.
- BuildRouter: `Router::route` (`src/builder/app.rs:314`) also panics on path patterns that are malformed or clash with one another; such panics are not modelled, paths being compared as text.
- RegisterPath: services and layers around a handler, and the routes merged in later, are not modelled.
- The `governor` crate, its atomics and hash maps, and its behaviour at the ends of the `u64` range.
- The error counter that thins out messages on standard error, and delivery or failure of HTTP requests.
- `convert_unit`, the histogram and gauge lines, and the comments other than help text.
- Key extraction from headers and connections, and parsing of override keys.
- What the built-in leaf extractors other than the no-op one extract from a request, and password hashing.
- The rest of the OpenAPI document, the `hidden` handler flag (the builder does not consult it), and gRPC services.
- Timeouts, CORS, tracing, TLS, SPIFFE, JWT, Kafka, the HTTP client, probes, signals and configuration parsing.
