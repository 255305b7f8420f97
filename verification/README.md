# NetVantage in Dafny: routes, correlation, rate limiting, prefixes and delivery

NetVantage watches the Internet from two sides. A Python analyzer reads BGP update
streams and keeps the latest route of every peer; Go agents run traceroutes, pings and
other probes and ship the results through a transport that may be down. A Go processor
counts path changes and correlates what BGP announces with what traceroute observes,
publishing a verdict per prefix, vantage point (pop) and target. A control plane in front
of all this limits request rates per client.

This project models the in-memory logic of those components and proves properties of it
over all inputs and all runs. `dafny verify dfyconfig.toml` checks everything.

## Modules

- `AsPaths`: AS paths, run compression, contiguous segments, shared ASNs
- `Text`, `AsPathParser`: the analyzer's AS_PATH parser (AS_PATH: section 4.3 of RFC 4271);
  `AnyText`: what it reads from any text
- `Correlation`, `CorrelationRuns`, `CorrelationCounters`: the correlation engine as a
  class over maps, its state machine, and its whole runs
- `RouteTable`, `Analyzer`: the analyzer's route table with its origin index, and the
  decisions per stream element; `StreamRuns`: whole streams, read off the raw elements
- `EndToEnd`: analyzer and engine joined, from announcement text to gauge value;
  `EngineContents`: what the raw elements leave in the engine
- `Prefixes`: CIDR networks (section 3.1 of RFC 4632, section 2.3 of RFC 4291) and the
  monitored-prefix lookup
- `RateLimiter`, `Eviction`: the token bucket per key, and cleanup passes over whole runs
- `Delivery`: publishing with a bounded fallback buffer
- `PathChanges`: path-change counting in the processor
- `Traceroute`, `Ping`: AS path of a hop list, probe statistics, jitter
- `Options`, `Integers`, `Reals`: the optional value and small arithmetic facts

Where the source updates an object in place the model is a class, and every method is
proved against a function of the old state; the lemmas about whole runs speak of those
functions. Map traversals visit entries in an arbitrary order, as in Go.

## What the code does where its comments say otherwise

- `active_origins` is described as the origins currently announcing a prefix. A peer that
  changes its origin leaves the old one in the set until the next withdrawal on the prefix.
  `ActiveOriginsExact` gives the exact content, `OriginChangeRaisesFlag` a two-event run in
  which the multiple-origin flag is raised with a single origin announced, and
  `MoasFlagExact` says exactly when that happens.
- The gauge of the engine is meant to show the current verdict. Registering a target
  evaluates nothing, so a registration that comes after both sides are known leaves the
  gauge silent. `IncrementalEqualsRecompute` proves that this is the only way to fall
  behind, `TimelyRegistrationsSuffice` gives the condition on the registrations,
  `LateRegistrationExample` a run that fails, and `AnnouncementSyncs` shows that the
  next announcement repairs it.
- `Drain` is described as stopping at the first error; it goes on.
  `DrainMatchesDocumentation` says exactly for which transport answers the two agree.
- `pathOverlap` is described as a set intersection; it counts positions.
  `OverlapVersusIntersection` says exactly when the two agree.
- The last mismatch branch of the evaluation, for equal origins without overlap, is dead
  (`ClassificationTheorem`).
- The engine drops a prefix on any withdrawal, even when other peers still announce it
  (`EngineMissesLiveRoute`).
- The minimum round-trip time of scamper probes starts at the first probe even when that
  probe got no answer (`ExtremesOfReplies`).
- Path-change counters are kept under `target@pop`; two pairs that spell the same key
  disturb each other (`CountingIsExactIffKeysDistinct`).
- Evicting idle rate-limit buckets is invisible only for limits whose ten-minute income
  covers the burst (`EvictionUnobservable`).

## Model

| member | source | states |
|---|---|---|
| AsPaths.IsSubsequence | internal/processor/correlation/correlation.go:415-436 | the loop answers exactly whether the first path is a contiguous segment of the second |
| AsPaths.PathOverlap | internal/processor/correlation/correlation.go:439-451 | the loop counts the positions of the second path whose ASN occurs in the first |
| AsPaths.OverlapVersusIntersection | internal/processor/correlation/correlation.go:438-451 | that count is the size of the set intersection exactly when no shared ASN repeats in the second path, and larger otherwise |
| AsPaths.RunCompressUnique | bgp-analyzer/src/netvantage_bgp/analyzer.py:547-549 | dropping consecutive duplicates yields the one repeat-free route of which the path is a stretching |
| AsPathParser.ParseAsPath | bgp-analyzer/src/netvantage_bgp/analyzer.py:530-550 | the parser returns the run compression of all ASNs written in the text, for every text |
| AsPathParser.ParsePieces | bgp-analyzer/src/netvantage_bgp/analyzer.py:543-549 | the inner loop appends a token's ASNs to the path, skipping immediate repeats |
| AsPathParser.ParseOfRendering | bgp-analyzer/src/netvantage_bgp/analyzer.py:530-550 | on any rendering of ASNs and brace sets with any whitespace: the repeat-free route that the written ASNs stretch, ending in the last ASN written |
| AsPathParser.PrependingInvisible | bgp-analyzer/src/netvantage_bgp/analyzer.py:534-549 | texts of two stretchings of one route, with any prepending and spacing, parse alike |
| AsPathParser.ParseInvertsPrinting | bgp-analyzer/src/netvantage_bgp/analyzer.py:530-550 | parsing inverts plain decimal printing exactly on paths without adjacent repeats |
| AnyText.TextReadsWords | bgp-analyzer/src/netvantage_bgp/analyzer.py:538-540 | any text, well formed or not, falls at any ASCII whitespace into two texts that are read one after the other, merging equal neighbours at the seam |
| AnyText.WordReadsNumbers | bgp-analyzer/src/netvantage_bgp/analyzer.py:541-546 | a word with any braces around it contributes exactly the decimal numbers among its comma-separated pieces, in order |
| AnyText.SingleWord | bgp-analyzer/src/netvantage_bgp/analyzer.py:545-546 | a number is read with any leading zeros, and a word that is no number is skipped |
| Correlation.ClassificationTheorem | internal/processor/correlation/correlation.go:298-359 | each verdict holds if and only if its meaning does: mismatch is exactly an origin change, exact a shared origin with a contiguous segment, partial a shared origin without one |
| Correlation.Evaluate | internal/processor/correlation/correlation.go:298-359 | the evaluation with its two loops computes the classified result of the pair |
| Correlation.RecordAllAnyOrder | internal/processor/correlation/correlation.go:273-295 | evaluating a set of traces has the same effect in every traversal order |
| Correlation.Engine.RecordResult | internal/processor/correlation/correlation.go:362-389 | the whole new metric state after one result |
| Correlation.Engine.CorrelateTarget | internal/processor/correlation/correlation.go:251-270 | evaluates exactly the stored pair of the target, when mapping, path and trace are all known |
| Correlation.Engine.CorrelatePrefix | internal/processor/correlation/correlation.go:273-295 | the nested map loops evaluate each trace registered under the prefix once and nothing else |
| Correlation.Engine.CorrelateTraces | internal/processor/correlation/correlation.go:283-294 | the inner loop covers exactly the stored traces of one target |
| Correlation.Engine.HandleBgpUpdate | internal/processor/correlation/correlation.go:161-199 | withdrawal deletes the path; any other event type stores it and re-evaluates the covered traces |
| Correlation.Engine.HandleTracerouteResult | internal/processor/correlation/correlation.go:213-238 | stores the trace and evaluates its own pair |
| Correlation.Engine.RegisterPrefix | internal/processor/correlation/correlation.go:243-248 | changes the mapping and nothing else |
| Correlation.Engine.GetCorrelationState | internal/processor/correlation/correlation.go:392-409 | returns exactly the recomputed verdicts of all correlatable traces |
| CorrelationRuns.SyncedMeansQueryAgrees | internal/processor/correlation/correlation.go:366-409 | agreement of gauge and recomputation is the statement that the gauge value of every query entry identifies that entry's verdict |
| CorrelationRuns.TracesAreLatest | internal/processor/correlation/correlation.go:213-228 | after any run a key holds a trace exactly when the run has a result with that key, namely the latest one |
| CorrelationRuns.MappingsAreLatest | internal/processor/correlation/correlation.go:243-248 | after any run a target is mapped to the prefix of its latest registration |
| CorrelationRuns.PathsAreLatest | internal/processor/correlation/correlation.go:161-187 | after any run a prefix has a path exactly when the latest update on it is not a withdrawal, namely that update's path |
| CorrelationRuns.StepWritesGauge | internal/processor/correlation/correlation.go:251-389 | every event writes 1, 0.5, 0 or -1, by what the two paths are, to the gauge of each pair it evaluates, and leaves every other entry as it was |
| CorrelationRuns.AnnouncementSyncs | internal/processor/correlation/correlation.go:185-196 | an announcement brings every trace under its prefix into agreement from any state and leaves other prefixes' gauge entries alone |
| CorrelationRuns.StepKeepsSync | internal/processor/correlation/correlation.go:161-295 | every event keeps gauge and recomputation in agreement if and only if it is not a registration that uncovers a stale or missing entry |
| CorrelationRuns.FirstLateUncovers | internal/processor/correlation/correlation.go:243-248 | in every run, registering a new pair after both its path and a trace are known uncovers a missing entry |
| CorrelationRuns.IncrementalEqualsRecompute | internal/processor/correlation/correlation.go:161-409 | in every run the gauge equals the recomputation after every event if and only if no registration of the run uncovers a stale entry |
| CorrelationRuns.TimelyRegistrationsSuffice | internal/processor/correlation/correlation.go:161-409 | when no target returns to an earlier prefix, that is if and only if no registration comes after both the path and a trace are known |
| CorrelationRuns.LateRegistrationExample | internal/processor/correlation/correlation.go:243-248 | trace, announcement, registration: the concrete three-event run that falls out of agreement |
| CorrelationCounters.AnnouncementCountsEachTraceOnce | internal/processor/correlation/correlation.go:273-295 | evaluation and mismatch counters grow by the number of covered traces, and of those with that verdict |
| CorrelationCounters.StepCounts | internal/processor/correlation/correlation.go:251-389 | every event raises each evaluation counter by the number of pairs it evaluates there, and each mismatch counter by the number of those with that verdict |
| CorrelationCounters.CountersStayConsistent | internal/processor/correlation/correlation.go:362-389 | in every run, partial and mismatch counts of a prefix and pop together never exceed its evaluations |
| RouteTable.PrefixState.RecordAnnouncement | bgp-analyzer/src/netvantage_bgp/analyzer.py:82-124 | the new table and index, and the change record against the previous route of the peer |
| RouteTable.PrefixState.RecordWithdrawal | bgp-analyzer/src/netvantage_bgp/analyzer.py:126-138 | removes the peer's route and rebuilds the index from the remaining ones |
| RouteTable.TableHoldsLiveRoutes | bgp-analyzer/src/netvantage_bgp/analyzer.py:82-138 | after any history the table holds exactly the route of each peer's latest announcement not withdrawn by it |
| RouteTable.ActiveOriginsExact | bgp-analyzer/src/netvantage_bgp/analyzer.py:82-142 | after any history the index is exactly the live origins plus those abandoned by a re-announcing peer since the prefix's last withdrawal |
| RouteTable.ExactAfterWithdrawal | bgp-analyzer/src/netvantage_bgp/analyzer.py:131-136 | right after a withdrawal on the prefix the index is exactly the live origins |
| RouteTable.MoasFlagExact | bgp-analyzer/src/netvantage_bgp/analyzer.py:425-441 | the flag after an announcement is raised for every real conflict, and otherwise exactly when an abandoned origin lingers |
| RouteTable.OriginChangeRaisesFlag | bgp-analyzer/src/netvantage_bgp/analyzer.py:119-122 | one peer changing its origin raises the flag although one origin is announced |
| Analyzer.BgpAnalyzer.ProcessElement | bgp-analyzer/src/netvantage_bgp/analyzer.py:237-276 | filtering, dispatch by kind, and the whole effect on table, published updates and report |
| Analyzer.BgpAnalyzer.HandleAnnouncement | bgp-analyzer/src/netvantage_bgp/analyzer.py:278-361 | the table update, the published message and each alert's condition |
| Analyzer.BgpAnalyzer.HandleWithdrawal | bgp-analyzer/src/netvantage_bgp/analyzer.py:363-394 | the table update, the published message and the reported previous route |
| Analyzer.AlertsMean | bgp-analyzer/src/netvantage_bgp/analyzer.py:289-348 | in any run the change alerts speak of the peer's live route in the history, the multiple-origin alert misses no conflict, and the sub-prefix alert is the origin alert on a strictly smaller network |
| Analyzer.MoasAlertMeans | bgp-analyzer/src/netvantage_bgp/analyzer.py:425-441 | in any run the multiple-origin alert is raised exactly for a real conflict or an abandoned origin nobody announces any more |
| Analyzer.WithdrawalReportsLiveRoute | bgp-analyzer/src/netvantage_bgp/analyzer.py:371-378 | a withdrawal reports the route the peer was announcing in the history |
| Analyzer.RunsIgnoreOrder | bgp-analyzer/src/netvantage_bgp/analyzer.py:244-276 | with incomparable monitored prefixes no state and no report of any run depends on the set's iteration order |
| StreamRuns.EventMeans | bgp-analyzer/src/netvantage_bgp/analyzer.py:237-276 | only elements covered by a monitored network count, and of those only announcements, with the parsed path and its last ASN or 0, and withdrawals |
| StreamRuns.TableHoldsLatestElement | bgp-analyzer/src/netvantage_bgp/analyzer.py:237-276 | after any stream a peer's route is held exactly when its latest covered element on the prefix is an announcement, with the path written there |
| StreamRuns.PublishesEveryMessage | bgp-analyzer/src/netvantage_bgp/analyzer.py:352-394 | after any stream the published messages are exactly one per covered announcement or withdrawal, in order, and none without a publisher |
| StreamRuns.ReportMeans | bgp-analyzer/src/netvantage_bgp/analyzer.py:237-276 | coverage and kind decide the report, which names the first monitored prefix covering the element |
| StreamRuns.HijackMeans | bgp-analyzer/src/netvantage_bgp/analyzer.py:396-404 | the hijack alert is raised exactly when the last ASN of the parsed path, or 0, is not the expected origin; the sub-prefix alert exactly when also the network is smaller |
| StreamRuns.HijackOfWrittenPath | bgp-analyzer/src/netvantage_bgp/analyzer.py:254-262 | on a written path the ASN compared with the expected origin is the last one written, however prepended |
| StreamRuns.ChangeAlertsMean | bgp-analyzer/src/netvantage_bgp/analyzer.py:289-325 | the change alerts compare the written path with that of the peer's latest element, if it is an announcement, and exclude each other |
| StreamRuns.WithdrawalReportMeans | bgp-analyzer/src/netvantage_bgp/analyzer.py:371-385 | a withdrawal reports a previous route exactly when the peer's latest element announces, with the path written there |
| EndToEnd.EngineShowsLatest | internal/processor/correlation/correlation.go:168-187 | in every interleaving the engine's entry for a prefix is the latest announcement on it unless withdrawn later |
| EngineContents.EngineHoldsLatestElement | internal/processor/correlation/correlation.go:168-187 | in every interleaving the engine has a path for a prefix exactly when the latest covered element on it announces, with every field read off that element |
| EngineContents.FeedMeans | bgp-analyzer/src/netvantage_bgp/analyzer.py:352-394 | a covered withdrawal publishes that withdrawal and deletes the engine's path; a covered announcement publishes and stores its path |
| EngineContents.OthersKeepPaths | bgp-analyzer/src/netvantage_bgp/analyzer.py:237-276 | every other step publishes nothing and leaves the engine's paths alone |
| EngineContents.SilentWithoutPublisher | bgp-analyzer/src/netvantage_bgp/analyzer.py:352-394 | without a publisher the engine evaluates nothing in any run |
| EndToEnd.EnginePathsAreLive | internal/processor/correlation/correlation.go:168-187 | simulation: every path the engine holds is the live announcement, in the analyzer's table, of the peer it names |
| EndToEnd.EngineMissesLiveRoute | bgp-analyzer/src/netvantage_bgp/analyzer.py:363-394 | the engine lacks a prefix some peer announces exactly when the latest event on it is a withdrawal |
| EndToEnd.EngineRunsAlone | internal/processor/correlation/correlation.go:161-248 | every engine state of the joined system is one of the engine's own runs, so its run theorems carry over |
| EndToEnd.HonestPathVerdict | internal/processor/correlation/correlation.go:298-339 | any written path with any prepending, and hops observing a suffix of its route: exact if and only if the target was reached and the suffix crosses an AS border |
| EndToEnd.ProbeGaugesVerdict | internal/processor/correlation/correlation.go:213-270 | from stream text to gauge: after any run a probe writes the verdict on the latest announcement of its target's prefix |
| EndToEnd.HonestPathIsGauged | internal/processor/correlation/correlation.go:213-270 | the same as the value of the gauge after any run of the joined system |
| EndToEnd.AnnounceThenProbe | internal/processor/correlation/correlation.go:161-270 | after any run, mapping a target, announcing a written path for its prefix and probing along a suffix of its route leaves that value in the gauge |
| Prefixes.ContainsIsBitPrefix | bgp-analyzer/src/netvantage_bgp/prefix.py:26-45 | the address-range test holds exactly when the parent is no longer and all its leading bits agree |
| Prefixes.ContainsIsInclusion | bgp-analyzer/src/netvantage_bgp/prefix.py:26-45 | the range test is inclusion of address sets |
| Prefixes.SubPrefixIsStrict | bgp-analyzer/src/netvantage_bgp/prefix.py:48-68 | a sub-prefix is a contained network different from the monitored one |
| Prefixes.Laminarity | bgp-analyzer/src/netvantage_bgp/prefix.py:71-73 | the overlap test holds exactly when some address lies in both networks: networks are nested or disjoint |
| Prefixes.LookupFinds | bgp-analyzer/src/netvantage_bgp/prefix.py:76-85 | the lookup returns the first prefix in iteration order covering the announcement, or none when no one covers it |
| Prefixes.LookupOrderIndependence | bgp-analyzer/src/netvantage_bgp/prefix.py:76-85 | the lookup is independent of the iteration order for every announcement if and only if no monitored prefix contains another |
| RateLimiter.Bucket.Refill | internal/server/api/middleware/ratelimit.go:64-73 | whole intervals bring tokens up to the burst and move the refill time; otherwise nothing changes |
| RateLimiter.Limiter.Allow | internal/server/api/middleware/ratelimit.go:52-81 | the answer and the whole new table for a request |
| RateLimiter.Limiter.CleanupPass | internal/server/api/middleware/ratelimit.go:87-92 | keeps exactly the buckets refilled since ten minutes ago, unchanged |
| RateLimiter.AdmissionBound | internal/server/api/middleware/ratelimit.go:52-81 | admissions since creation are at most max(burst, 1) plus rate times the whole intervals elapsed |
| RateLimiter.WindowBound | internal/server/api/middleware/ratelimit.go:52-81 | admissions in any window of any run are at most max(burst, 1) plus rate times one more than its whole intervals |
| RateLimiter.DeniedOnlyWhenSpent | internal/server/api/middleware/ratelimit.go:64-80 | a denial comes within an interval of the last refill, and min(rate, burst) requests were admitted from that refill on |
| RateLimiter.QuietIntervalAdmits | internal/server/api/middleware/ratelimit.go:64-80 | a key quiet for one whole interval is admitted |
| RateLimiter.ExactSupply | internal/server/api/middleware/ratelimit.go:64-80 | n simultaneous requests on a bucket get exactly min(n, burst, its unspent tokens plus rate times the whole intervals since its last refill) |
| RateLimiter.ExactSupplyAtCreation | internal/server/api/middleware/ratelimit.go:59-62 | n simultaneous first requests get exactly min(n, max(burst, 1)) |
| RateLimiter.UncappedSupply | internal/server/api/middleware/ratelimit.go:64-80 | in any run that never overflows its bucket, admissions and tokens left are exactly the tokens at the start plus k rates, with the time of the run between k and 2k + 1 intervals |
| Eviction.KeysIndependent | internal/server/api/middleware/ratelimit.go:52-81 | the bucket of a key depends on that key's own requests only |
| Eviction.OtherKeysIrrelevant | internal/server/api/middleware/ratelimit.go:52-81 | requests on other keys never change an answer |
| Eviction.IdleKeysForgotten | internal/server/api/middleware/ratelimit.go:83-95 | after any run a cleanup pass leaves no key whose requests are all older than ten minutes |
| Eviction.RecentKeysKept | internal/server/api/middleware/ratelimit.go:83-95 | and keeps, unchanged, the bucket of every key requested within ten minutes less one interval |
| Eviction.EvictionUnobservable | internal/server/api/middleware/ratelimit.go:83-95 | cleanup passes anywhere change no answer of any run if and only if there is a burst and the income of ten minutes and a tick covers it |
| Delivery.MemoryBuffer.Push | internal/agent/buffer/buffer.go:63-78 | appends a message if and only if it fits, and keeps the size in step |
| Delivery.MemoryBuffer.Drain | internal/agent/buffer/buffer.go:80-97 | every message is offered once, refused ones stay in order, and the size is recomputed |
| Delivery.Agent.PublishResult | internal/agent/agent.go:196-216 | one publish attempt, then buffering, then dropping; nothing when marshalling fails |
| Delivery.Agent.DrainTick | internal/agent/agent.go:257-276 | a tick replays the buffer, and does nothing when it is empty |
| Delivery.Conservation | internal/agent/agent.go:196-276 | in every interleaving with any failures, submitted results are exactly the delivered, buffered and dropped ones with multiplicity |
| Delivery.ExactlyOnePlace | internal/agent/agent.go:196-276 | when results differ, each submitted one is in exactly one of the three places, once |
| Delivery.DroppedOnlyWhenFull | internal/agent/agent.go:205-215 | a result is dropped if and only if its publish failed while the buffer had no room for it |
| Delivery.BufferWithinLimit | internal/agent/buffer/buffer.go:67-70 | in every run the buffered bytes stay within the limit |
| Delivery.BufferInSubmissionOrder | internal/agent/buffer/buffer.go:75-95 | in every run buffered results keep the order of submission |
| Delivery.DrainMatchesDocumentation | internal/agent/buffer/buffer.go:28-32 | the drain behaves as documented if and only if no publish succeeds after an error |
| Delivery.HealthyDrainEmpties | internal/agent/agent.go:257-276 | after any run a drain empties the buffer exactly when every publish succeeds, and then delivers all of it in order |
| Delivery.SizeIsAdditive | internal/agent/buffer/buffer.go:63-97 | the size of a buffer is the number of its data bytes |
| PathChanges.AsPathString | internal/processor/processor.go:508-517 | the loop renders the decimal ASNs separated by single spaces |
| PathChanges.PathTextInjective | internal/processor/processor.go:508-517 | the text determines the path, for all integers, and is empty only for the empty path |
| PathChanges.PathTextParses | internal/processor/processor.go:508-517 | the processor's text of a path is what the analyzer's parser reads back, exactly when no ASN repeats its neighbour |
| PathChanges.Processor.HandleTracerouteResult | internal/processor/processor.go:472-502 | the path-change bookkeeping and the hand-over to the correlation engine |
| PathChanges.OwnKeyCountsExactly | internal/processor/processor.go:472-488 | the counter of a pair whose key is its own is the number of neighbouring unequal non-empty paths it reported |
| PathChanges.CountingIsExactIffKeysDistinct | internal/processor/processor.go:472-488 | every run over a set of pairs counts every pair exactly if and only if no two pairs spell the same key |
| PathChanges.PlainPopsKeepKeysDistinct | internal/processor/processor.go:473 | pop names without '@' keep keys apart whatever the targets |
| Traceroute.BuildAsPath | internal/agent/canary/traceroute/traceroute.go:442-454 | the loop returns the run compression of the known ASNs of the hops |
| Traceroute.KnownOfParts | internal/agent/canary/traceroute/traceroute.go:444-447 | the ASNs compressed are those of the hops in order, unknown ones left out |
| Traceroute.MtrRecoversReceived | internal/agent/canary/traceroute/traceroute.go:298-301 | for every count of lost probes and every report, the received count is sent minus lost exactly for reports in the stated band, and 0 when nothing was sent |
| Traceroute.MtrSmallErrorIsHarmless | internal/agent/canary/traceroute/traceroute.go:298-301 | in particular for errors of the ratio below 1 / (2 * sent) |
| Traceroute.ProbeStats | internal/agent/canary/traceroute/traceroute.go:409-433 | the loop counts the answered probes and averages their times; a silent hop has loss 1 and no times, an empty list nothing |
| Traceroute.StatsCount | internal/agent/canary/traceroute/traceroute.go:409-432 | received is the number of probes with a reply, the loss is 1 exactly when none answered and 0 exactly when all did, and a silent hop has no times |
| Traceroute.RepliesInOrder | internal/agent/canary/traceroute/traceroute.go:413-416 | the times taken are those of the answered probes, each at its place among them |
| Traceroute.TotalOfParts | internal/agent/canary/traceroute/traceroute.go:413-416 | the sum adds the time of each answered probe and nothing else |
| Traceroute.StatsOfOne | internal/agent/canary/traceroute/traceroute.go:409-432 | the complete statistics of a single probe |
| Traceroute.StatsOfParts | internal/agent/canary/traceroute/traceroute.go:409-432 | more probes add to the count and keep the larger maximum |
| Traceroute.StatsInRange | internal/agent/canary/traceroute/traceroute.go:409-433 | received is at most sent, loss is a ratio, and the average lies between the extremes |
| Traceroute.StatsBalance | internal/agent/canary/traceroute/traceroute.go:425-432 | loss times sent is the number unanswered, and average times received the sum of the answered times |
| Traceroute.ExtremesOfReplies | internal/agent/canary/traceroute/traceroute.go:410-423 | the minimum is the smaller of the first probe's time and the answered times, the maximum the larger of 0 and those, and when each is an answered time |
| Ping.ComputeJitter | internal/agent/canary/ping/ping.go:127-139 | the loop computes the mean absolute difference of neighbouring samples |
| Ping.JitterBounds | internal/agent/canary/ping/ping.go:127-139 | jitter lies between the net change per step and the spread of the samples |
| Ping.JitterZero | internal/agent/canary/ping/ping.go:127-139 | jitter is zero exactly when all samples are equal |
| Ping.JitterReversed | internal/agent/canary/ping/ping.go:127-139 | reversing the samples leaves the jitter unchanged |
| Ping.JitterGrows | internal/agent/canary/ping/ping.go:127-139 | one more sample adds its distance in milliseconds from the one before to the scaled jitter, and fewer than two samples have none |

## Left out

- EnginePathsAreLive: assumes that published updates arrive decoded, in order and without loss. The publisher sends a numeric timestamp (bgp-analyzer/src/netvantage_bgp/publisher.py:69) where the engine's record declares a string (internal/processor/correlation/correlation.go:157), and it drops messages while disconnected.
- LookupOrderIndependence: networks are taken as decoded values with host bits clear; parsing of address text, its errors and its cache are not modelled.
- ParseAsPath: text is ASCII; other Unicode digits and spaces, which the source's string methods also know, are not modelled.
- Allow: the interval is positive, and bounds assume a rate that is not negative and requests in time order, as from a monotonic clock.
- ComputeJitter: arithmetic is over exact integers and reals, here and in the probe statistics; rounding of floating-point numbers is not modelled, nor machine overflow anywhere.
- Concurrency: each handler call or locked section is one atomic step; the engine's release and retaking of its lock between map traversal steps is not modelled.
- Values: route, path and message records never change after being stored, so they are values and not objects; sharing of slices between them is not modelled. Rate-limit buckets are objects.
- Transports, HTTP handlers, authentication, audit log, configuration, database access and schema: plumbing around the modelled logic; publishing is an oracle that may fail at any time.
- Running mtr, scamper, ping, DNS and HTTP probes, host name resolution and the reached-target test: inputs of the model.
- RPKI validation and ROA expiry logging: answers of an external validator.
- Logs, timestamps, detail strings and metrics that are written and never read by the logic.
