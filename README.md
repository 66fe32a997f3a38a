# ollama-speedrun in Dafny

ollama-speedrun finds Ollama servers on the local network, lists the models each server offers, benchmarks each model with one streaming generate request, scores the results, and prints one table per memory tier with a top recommendation. This project models that pipeline stage by stage. Every remote call is replaced by an input:

- a probe outcome per address, and a sequence of outcomes for the localhost attempts;
- a tag listing per host;
- a show reply per model name on a host;
- per benchmark, a reply with its body as a sequence of decoded text reads, plus clock readings.

`JSON.parse` becomes an abstract `Parser` (a function from a line to an optional chunk). `performance.now()` becomes natural-number clock readings.

Modules:

- `Types`: the shared records: host, model info, benchmark result, the five memory tiers, scored result, and the configuration with its defaults.
- `Text`: the JavaScript string operations the core relies on: `split` on one character, `join`, `includes`, `trim`, and integer printing.
- `Benchmark`:
  - `benchmarkModel`: the read loop keeps a line buffer and the chunk counters, then derives the result record. It is an imperative method proved equal to a fold over the reads.
  - `benchmark`: keeps the successful runs in order.
- `Discover`:
  - the localhost retry loop;
  - `getLocalSubnets`, with /24 bases and first-seen deduplication;
  - the candidate addresses of a subnet;
  - batching, and ordered collection of the hosts that answered.
- `Enumerate`: the per-host listing and the per-model show validation.
- `Ranking`: the stable descending sort by composite score, which the top recommendation and the tier tables share, and the earliest maximum.
- `Ui`:
  - `padRight`;
  - the unit choice of `formatBytes`;
  - the score colour;
  - the tier tables of `renderTieredResults` (tier order, filter, sort, star on the first row).
- `Assess`: `getTier`, the speed, quality and composite scores of `scoreResult`, and the result of `assess` (nothing for an empty list, otherwise the tables and the best result).

The imperative loops of the source are modelled as methods (`BenchmarkModel`, `BenchmarkAll`, `CheckLocalhost`, `GetLocalSubnets`, `CandidateIps`, `ScanSubnet`, `DiscoverHosts`, `EnumerateModels`, `RenderTieredResults`). Each method is proved equal to a specification function. The properties are lemmas about those functions.

Where a description of the tool and the code differ, the model follows the code. Self-exclusion in discovery is one such case. The code records only the first address seen for each /24 (`src/discover.ts:89-92`), and only those addresses are left out of the scan (`src/discover.ts:30, 36`). A second external address of the machine on the same /24 is therefore probed like any other host, so the machine can be found twice. `Discover.SecondLocalAddressProbed` states this.

Throughput without any fragment is a second such case. The code then measures from the request start (`src/benchmark.ts:115`), so a stream with only a `done` line still reports a non-zero throughput. `Benchmark.DoneOnlyThroughput` states this.

## Model

| member | source | states |
|---|---|---|
| Types.TierRank | src/types.ts:27 | the five memory tiers are numbered 0 to 4 in display order (Tiny to XL) |
| Text.Split | src/benchmark.ts:73 | `split` on one character always yields at least one piece |
| Text.Join | src/discover.ts:88 | `join` with a one-character separator (a definition; its properties are `JoinSplit` and `SplitJoin`) |
| Text.JoinSplit | src/benchmark.ts:73 | joining the pieces of `split("\n")` with the separator gives the text back |
| Text.SplitPiecesFree | src/benchmark.ts:73 | no piece of a split contains the separator |
| Text.SplitJoin | src/benchmark.ts:73 | splitting a join of separator-free pieces gives the pieces back |
| Text.SplitAppend | src/benchmark.ts:72-74 | splitting `p + t` gives the closed pieces of `p`, then the split of `p`'s unterminated rest followed by `t` |
| Text.Contains | src/benchmark.ts:61 | `includes` holds exactly when the pattern occurs at some position |
| Text.DecimalRoundTrip | src/benchmark.ts:61 | the decimal text of a status number reads back as that number |
| Text.TrimEmptyIffBlank | src/benchmark.ts:77 | `line.trim()` is empty exactly when the line is all JavaScript whitespace |
| Text.Trim | src/benchmark.ts:77 | `trim()` is never longer than its input, and the result neither starts nor ends with whitespace |
| Text.TrimKeepsEnds | src/benchmark.ts:77 | `trim()` keeps a first character that is not whitespace, and likewise a last one |
| Benchmark.HttpError | src/benchmark.ts:59-62 | the message starts with "HTTP " followed by the decimal status; the " (model removed or not pulled)" suffix appears exactly when the body contains "not found" |
| Benchmark.StatusLineLacksHint | src/benchmark.ts:61 | the status line alone never contains the not-pulled hint |
| Benchmark.Derive | src/benchmark.ts:109-120 | the record names the model and carries the response; `totalTokens` is at least `evalCount`; throughput is 0 when `evalCount` is 0 and never negative when the clock did not run backwards; time to first token is 0 without a fragment and otherwise runs from the start to the first-token time; `totalTime` is the end time minus the start time; `evalCount` and `promptEvalCount` are the counters' values |
| Benchmark.Outcome | src/benchmark.ts:41-121 | a transport error is passed on as the failure; a response that is not ok or has no body fails with the `HttpError` message built from its status and body text; a stream-level error is passed on as the failure; the run succeeds exactly when the response is ok, has a body, and its stream does not abort |
| Benchmark.BenchmarkModel | src/benchmark.ts:41-121 | the response checks, the read loop and the final record yield exactly `Outcome`: a transport error, the HTTP error, the stream's error, or the result derived from the counters after all reads |
| Benchmark.ReadStream | src/benchmark.ts:68-107 | the read loop ends with the buffer and counters of `Consume`: each read is appended to the buffer, its complete lines are processed and the unterminated rest is kept |
| Benchmark.ProcessLines | src/benchmark.ts:76-106 | the inner loop over one read's complete lines computes `ApplyLines` on the counters |
| Benchmark.ApplyLine | src/benchmark.ts:77-105 | one line counts at most one token, and a first-token time once set is kept |
| Benchmark.ApplyLineTally | src/benchmark.ts:86-102 | for one line, the counters other than the first-token time do not depend on the clock |
| Benchmark.Feed | src/benchmark.ts:72-74 | one read: afterwards the buffer holds no newline; the processed lines, each followed by a newline, then the buffer, are the old buffer plus the new text |
| Benchmark.StreamLines | src/benchmark.ts:68-74 | however the stream is cut into reads, the lines processed are exactly the newline-terminated lines of the whole text; the unterminated rest stays in the buffer and is never parsed |
| Benchmark.ApplyLinesAppend | src/benchmark.ts:76-106 | processing two batches of lines in turn is processing their concatenation |
| Benchmark.ApplyLinesTally | src/benchmark.ts:86-102 | apart from the first-token time, the counters do not depend on the clock |
| Benchmark.ChunkingIrrelevant | src/benchmark.ts:68-107 | apart from the first-token time, the counters after the stream depend only on its complete lines, not on how the reads cut them |
| Benchmark.SkippedLineChangesNothing | src/benchmark.ts:77-105 | a blank line or one that fails to parse leaves every counter unchanged |
| Benchmark.TokensAreFragments | src/benchmark.ts:86-92 | each non-empty fragment adds exactly one to the local token count; the response is the fragments concatenated in order |
| Benchmark.FirstTokenSetOnce | src/benchmark.ts:87-89 | a set first-token time is never replaced; it stays unset without a fragment, and is set at the first fragment |
| Benchmark.NoDoneKeepsCounts | src/benchmark.ts:99-102 | without a `done` chunk, `evalCount` and `promptEvalCount` keep their values |
| Benchmark.LastDoneWins | src/benchmark.ts:99-102 | the last `done` chunk decides: `eval_count`, or else the local count at that chunk; `prompt_eval_count`, or else 0 |
| Benchmark.StreamResult | src/benchmark.ts:109-120 | a completed stream reports the model, the concatenated fragments, `totalTokens` equal to `evalCount` when that is non-zero and else to the fragment count, zero throughput when `evalCount` is 0, zero time to first token without a fragment, a time to first token measured from the start to the clock reading of the read that delivered the first fragment, `totalTime` from start to end, `evalCount` and `promptEvalCount` equal to the stream's final counters (so `LastDoneWins` decides them), and zero counts without a `done` chunk |
| Benchmark.StreamCounters | src/benchmark.ts:68-107 | after the whole stream the response is the fragments concatenated, the local count is their number, the first-token time is unset without a fragment, and the reported counts stay 0 without a `done` chunk |
| Benchmark.ConsumeFirstToken | src/benchmark.ts:87-89 | with no fragment in the whole stream, the first-token time stays 0 |
| Benchmark.ConsumeFirstTokenAt | src/benchmark.ts:86-89 | the first-token time of the whole stream is the clock reading of the read whose lines contain the first fragment, when that reading is not 0 |
| Benchmark.FragmentsAppend | src/benchmark.ts:86-92 | the fragments of two line batches are the fragments of each, in order |
| Benchmark.Outcomes | src/benchmark.ts:20-25 | one outcome per model |
| Benchmark.BenchmarkAll | src/benchmark.ts:17-39 | the loop returns the successful outcomes in order, failures dropped |
| Benchmark.SuccessesInOrder | src/benchmark.ts:24-35 | one kept value per success, at strictly increasing positions; a position is kept exactly when its outcome succeeded |
| Benchmark.OutcomeModel | src/benchmark.ts:112 | a successful result reports the model it was run for |
| Benchmark.BenchmarkKeepsSuccesses | src/benchmark.ts:20-36 | `benchmark` returns exactly one result per model whose run did not throw, in input order; failed models are absent |
| Benchmark.EveryLineAFragment | src/benchmark.ts:86-92 | lines that all carry a fragment contribute one fragment each |
| Benchmark.FiveFragmentsThenDone | src/benchmark.ts:68-120 | five one-token fragments followed by a `done` line with `eval_count` 5 report 5 tokens and a five-character response |
| Benchmark.OneReadConsume | src/benchmark.ts:68-74 | one read of newline-terminated lines processes exactly those lines |
| Benchmark.FiveThenDoneCounts | src/benchmark.ts:86-102 | five one-token fragments then `done` with `eval_count` 5 give `evalCount` 5 and a five-character response |
| Benchmark.DoneOnlyThroughput | src/benchmark.ts:115-116 | with no fragment, throughput is measured from the request start: a lone `done` line with `eval_count` 5 between clock readings 0 and 1000 gives 5 tokens per second and a time to first token of 0 |
| Benchmark.DoneOnlyCounts | src/benchmark.ts:76-105 | that lone `done` line leaves nothing counted locally and `evalCount` 5 |
| Benchmark.FragmentLengths | src/benchmark.ts:90 | one-character fragments concatenate to one character per fragment |
| Discover.ProbeOllama | src/discover.ts:59-71 | a probe is reachable exactly when a response arrived with `ok`; thrown errors and timeouts read as unreachable |
| Discover.CheckLocalhost | src/discover.ts:11-20 | at most `localhostRetries` probes; found exactly when one of them succeeds; probing stops at the first success |
| Discover.GetLocalSubnets | src/discover.ts:78-96 | the nested loops with the `seen` set compute `LocalSubnets` |
| Discover.SubnetBase | src/discover.ts:87-88 | the /24 base: the first three dotted parts of the address, joined (a definition; `BaseOfHostIp` states its property) |
| Discover.Dedup | src/discover.ts:89-92 | one subnet per new base, in first-seen order (a definition; `DedupDistinct`, `DedupKeepsFirst` and `DedupOrder` state its properties) |
| Discover.DedupSnoc | src/discover.ts:89-92 | one more entry either adds a new base or leaves the subnets unchanged |
| Discover.FirstAddress | src/discover.ts:89-92 | the first address with a base exists exactly when some entry has that base |
| Discover.DedupDistinct | src/discover.ts:81-92 | the recorded bases are distinct and are exactly the bases of the entries |
| Discover.DedupKeepsFirst | src/discover.ts:89-92 | each recorded subnet keeps the first address seen with its base |
| Discover.DedupOrder | src/discover.ts:89-92 | the subnets come in the order in which their bases first occur among the entries |
| Discover.FirstIndex | src/discover.ts:89 | the position of the first entry with a given base: it holds that base, and no earlier entry does |
| Discover.LocalSubnetsSpec | src/discover.ts:78-96 | the recorded subnets have distinct bases, cover every base of an eligible entry, keep the first address seen with each base, and come in the order their bases were first seen |
| Discover.EligibleSpec | src/discover.ts:83-86 | an entry takes part exactly when it is an external IPv4 entry of some interface |
| Discover.EligibleStep | src/discover.ts:83-86 | membership in the eligible entries carries over when one more interface is visited |
| Discover.ConsideredInSpec | src/discover.ts:85-86 | within one interface, exactly the external IPv4 entries are kept |
| Discover.CandidateIps | src/discover.ts:33-37 | the loop builds exactly `Candidates` |
| Discover.CandidateNumbersSpec | src/discover.ts:34-36 | a host number is kept exactly when it lies in 1..254 and its address is not a recorded local IP; the numbers ascend |
| Discover.HostIpInjective | src/discover.ts:35 | different host numbers give different addresses |
| Discover.CandidatesSpec | src/discover.ts:30-37 | an address is a candidate exactly when it is `base.k` for some k in 1..254 and not a recorded local IP; no duplicates; at most 254 |
| Discover.CandidatesMembers | src/discover.ts:30-37 | an address is a candidate exactly when it is `base.k` with k in 1..254 and not a recorded local IP |
| Discover.CandidatesDistinct | src/discover.ts:34-37 | no candidate appears twice |
| Discover.CountBelow | src/discover.ts:34 | a strictly ascending list of numbers in 1..n has at most n elements |
| Discover.BaseOfHostIp | src/discover.ts:35 | a candidate's /24 base is the subnet base it was built from |
| Discover.SecondLocalAddressProbed | src/discover.ts:89-92 | a second external address of the machine on an already recorded /24 stays among the candidates |
| Discover.BatchesCover | src/discover.ts:39-40 | the batches are non-empty, at most the batch size long, and concatenate to the candidate list exactly once, in order |
| Discover.ReachableAppend | src/discover.ts:45-51 | collecting the answering addresses distributes over concatenation |
| Discover.HostsAtAppend | src/discover.ts:48 | building hosts distributes over concatenation |
| Discover.ProbeBatch | src/discover.ts:42-51 | one batch yields `ip:port` hosts for its reachable addresses, in batch order |
| Discover.ScanSubnet | src/discover.ts:39-52 | the batch loop visits `Batches` and collects the reachable addresses of the whole list, in list order |
| Discover.BatchStep | src/discover.ts:39-40 | each iteration of the batch loop takes the next slice of at most the batch size |
| Discover.FoundStep | src/discover.ts:42-51 | the hosts found up to the end of a batch are those found before it, then the batch's |
| Discover.ScanAllStep | src/discover.ts:31-54 | scanning one more subnet appends that subnet's finds |
| Discover.ScanSubnets | src/discover.ts:31-54 | the loop over subnets computes `ScanAll` |
| Discover.DiscoverHosts | src/discover.ts:6-57 | `discover` returns exactly `Discovered`: localhost first if it answered, then the finds of each subnet in order |
| Discover.ReachableSpec | src/discover.ts:45-46 | an address is kept exactly when it is in the list and its probe succeeded |
| Discover.HostsAtSpec | src/discover.ts:48 | a built host is `ip:port` with hostname `ip` for an address in the list |
| Discover.ScanAllSpec | src/discover.ts:31-54 | the subnet scans find exactly the reachable candidates of the recorded subnets |
| Discover.ScanStep | src/discover.ts:31-54 | the scan property carries over from all but the last subnet to all of them |
| Discover.CandidateNotLocalhost | src/discover.ts:35-48 | a scanned host's name is a dotted address, never "localhost" |
| Discover.DiscoveredSpec | src/discover.ts:6-57 | localhost comes first when found; a host is returned exactly when it is localhost and found, or a reachable candidate; a "localhost" entry implies localhost answered |
| Discover.NoneEligible | src/discover.ts:83-86 | with no external IPv4 entry anywhere, no entry takes part |
| Discover.NoneConsidered | src/discover.ts:85-86 | an interface without external IPv4 entries contributes none |
| Discover.NoExternalIPv4OnlyLocalhost | src/discover.ts:6-57 | with no external IPv4 address, the result is at most the localhost host |
| Enumerate.Info | src/enumerate.ts:55-63 | the descriptor references the host and copies name, size, parameter size, quantization and family, with the given capabilities |
| Enumerate.AbortSticky | src/enumerate.ts:55-67 | once a host's listing is abandoned, later entries add nothing |
| Enumerate.ScanListing | src/enumerate.ts:27-66 | the loop over one listing computes `HostScan`: failed shows skipped, the first ok entry without details ends the listing |
| Enumerate.EnumerateModels | src/enumerate.ts:5-73 | the loop over hosts computes `Enumerated`; a failed listing contributes nothing and the loop goes on |
| Enumerate.HostScanSplit | src/enumerate.ts:27-66 | the loop's back-to-front fold agrees with the front-to-back reading on any split of the listing |
| Enumerate.Step | src/enumerate.ts:29-63 | one entry: nothing changes after an abandon; at most one model is appended, and exactly one when the show was ok and the entry has details |
| Enumerate.HostScanSnoc | src/enumerate.ts:27-66 | scanning one more listed entry is one more step of the loop |
| Enumerate.StepThenRest | src/enumerate.ts:27-66 | one step on the head of a listing, then the rest, is reading the whole listing |
| Enumerate.HostScanValidated | src/enumerate.ts:27-66 | the loop keeps exactly `Validated`: ok entries in list order, stopping at the first ok entry without details |
| Enumerate.Validated | src/enumerate.ts:27-66 | the front-to-back reference reading of one listing; every kept model references the host |
| Enumerate.ValidatedSound | src/enumerate.ts:29-63 | no more models than listed; each kept model is a listed entry whose show was ok, with its fields copied and its capabilities or else the empty list |
| Enumerate.ValidatedComplete | src/enumerate.ts:41-63 | when no ok entry lacks details, every listed entry whose show was ok is kept |
| Enumerate.AbortTruncates | src/enumerate.ts:55-69 | the first ok entry without details ends the host's listing: nothing after it is kept |
| Enumerate.EnumeratedAppend | src/enumerate.ts:8-72 | output order is host order: enumerating `a + b` is enumerating `a`, then `b` |
| Enumerate.CollectAppend | src/enumerate.ts:8-72 | collecting the contributions of `a + b` is collecting those of `a`, then those of `b` |
| Enumerate.HostModelsBounds | src/enumerate.ts:9-69 | a failed listing contributes nothing; a host contributes at most as many models as it listed, all referencing that host |
| Enumerate.EnumeratedBound | src/enumerate.ts:8-72 | the output holds no more models than the hosts listed in all, counting only successful listings, and each model references one of the given hosts |
| Ranking.Insert | src/assess.ts:16 | inserting keeps every element (multiset) |
| Ranking.SortDesc | src/assess.ts:16 | the sort is a permutation of its input |
| Ranking.InsertSorted | src/assess.ts:16 | inserting into a list with non-increasing scores keeps it non-increasing |
| Ranking.InsertBounded | src/assess.ts:16 | inserting a result no larger than a bound into a list bounded by it keeps the bound |
| Ranking.ConsSorted | src/assess.ts:16 | a head at least as large as every element of a sorted tail gives a sorted list |
| Ranking.SortDescSorted | src/assess.ts:16 | the sorted list has non-increasing composite scores and is a permutation of the input |
| Ranking.FirstMax | src/assess.ts:16 | the earliest best result is in the list and no result scores more |
| Ranking.FirstMaxIsEarliest | src/assess.ts:16 | no result before it has its score |
| Ranking.SortDescHead | src/assess.ts:16 | the head of the stable descending sort is the earliest result with the highest score |
| Ui.Spaces | src/ui.ts:74 | `" ".repeat(n)` is n spaces |
| Ui.SliceEnd | src/ui.ts:74 | `slice(0, len)` ends within the string, counting a negative `len` back from the end |
| Ui.PadRight | src/ui.ts:73-75 | length exactly `len` for `len >= 0`; a shorter string is followed by spaces only; otherwise the first `len` characters; JavaScript slice semantics for negative `len` |
| Ui.PadRightKeepsPrefix | src/ui.ts:73-75 | the characters that fit are never lost |
| Ui.Scale | src/ui.ts:38-41 | every unit has a positive scale |
| Ui.FormatBytes | src/ui.ts:38-42 | KB below 1024², MB below 1024³, GB otherwise; the value times the unit's scale is the byte count |
| Ui.FormatBytesRange | src/ui.ts:38-42 | below GB the value is under 1024; above KB it is at least 1 |
| Ui.ScoreColour | src/ui.ts:64 | green from 70, yellow from 40 to below 70, red below 40 |
| Ui.ScoreColourMonotone | src/ui.ts:64 | a higher score never gets a worse colour |
| Ui.RowAt | src/ui.ts:60-66 | the star is on row 0 only; the name, host and parameter cells are 28, 18 and 10 characters wide; the row is built from its scored result |
| Ui.Rows | src/ui.ts:60-68 | one row per result of the tier |
| Ui.TableRows | src/ui.ts:60-68 | the row loop computes `Rows`, with the star on row 0 |
| Ui.RenderTieredResults | src/ui.ts:44-71 | the loop over the fixed tier order computes `Rendered` |
| Ui.InTier | src/ui.ts:48 | the filter keeps no more than it is given, and only results of the tier |
| Ui.InTierCount | src/ui.ts:48 | filtering keeps exactly the results of the tier, as many times as they occur |
| Ui.GroupShape | src/ui.ts:48-64 | a table's rows are a permutation of its tier's results, with non-increasing scores, all of that tier, the star on the first row only |
| Ui.GroupCount | src/ui.ts:48 | a table holds each result of its tier as often as the scored list does |
| Ui.TablesShape | src/ui.ts:45-49 | the tables follow the order of the tiers, skip empty tiers, and each is its tier's sorted rows |
| Ui.TablesOrdered | src/ui.ts:45-49 | the tables follow the order of the tiers |
| Ui.TablesRankBelow | src/ui.ts:45-49 | tiers ranked below a bound give tables ranked below it |
| Ui.GroupsSnocAscending | src/ui.ts:47-49 | a table of a higher tier appended to ascending tables keeps them ascending |
| Ui.TablesGroups | src/ui.ts:47-49 | each table is the sorted, non-empty table of one of the visited tiers |
| Ui.RenderedSpec | src/ui.ts:44-71 | the tables are in the order Tiny, Small, Medium, Large, XL, none empty; each holds exactly the results of its tier; every scored result's tier has a table |
| Ui.TierOrderAscending | src/ui.ts:45 | the display order is strictly ascending by tier rank |
| Ui.TierListed | src/ui.ts:45 | every tier is in the display order |
| Ui.RenderedCounts | src/ui.ts:47-48 | each table holds exactly the results of its tier, as often as they occur |
| Ui.RenderedCovers | src/ui.ts:45-49 | every scored result's tier has a table |
| Ui.TierPresent | src/ui.ts:47-49 | a tier with a result gets a table |
| Assess.GetTier | src/assess.ts:45-52 | total and non-overlapping, with exclusive upper bounds at 2, 4, 8 and 16 GiB |
| Assess.GetTierMonotone | src/assess.ts:45-52 | a larger model never lands in a smaller tier |
| Assess.MaxOf | src/assess.ts:25-30 | the maximum is absent exactly for an empty list; otherwise it is an element and no element exceeds it |
| Assess.Normalised | src/assess.ts:26-31 | with a positive maximum the score is 100 times the value over the maximum, else 0 |
| Assess.SpeedScore | src/assess.ts:25-26 | the throughput normalised against the largest throughput in the list (a definition; `SpeedScoreRange` states its range) |
| Assess.QualityScore | src/assess.ts:30-31 | the token count normalised against the largest count in the list; never negative |
| Assess.Composite | src/assess.ts:34 | the weighted sum of the two scores (a definition; `CompositeMonotone` and `CompositeRange` state its properties) |
| Assess.ScoreResult | src/assess.ts:23-43 | the record is for the given result, with the tier of its size |
| Assess.ScoreAll | src/assess.ts:11 | one scored record per result, in order |
| Assess.NormalisedRange | src/assess.ts:26-31 | for non-negative values the score is in [0, 100], and the maximum scores 100 when positive |
| Assess.SpeedScoreRange | src/assess.ts:25-26 | for non-negative throughputs the speed score is in [0, 100]; the fastest scores 100; all score 0 when no throughput is positive |
| Assess.QualityScoreRange | src/assess.ts:30-31 | the quality score is in [0, 100]; the most tokens score 100; all score 0 when every count is 0 |
| Assess.CompositeMonotone | src/assess.ts:34 | with non-negative weights the composite never decreases when either score grows |
| Assess.CompositeRange | src/assess.ts:34 | with non-negative weights summing to 1, scores in [0, 100] give a composite in [0, 100] |
| Assess.Assess | src/assess.ts:5-21 | no report exactly for an empty result list |
| Assess.AssessBest | src/assess.ts:11-16 | the top recommendation is one of the scored results, none scores more, and it is the earliest with that score |
| Assess.ScoreDependsOnMetrics | src/assess.ts:23-43 | the composite score depends only on throughput and token count within the list, and the tier only on the size |

## Left out

- Network I/O is not modelled. This covers `fetch`, the `AbortController` timeouts and the `Promise.all` fan-out of a batch. Probes, listings, show replies and generate replies are inputs. A batch's probes are modelled one after another; they are independent, and the results are collected in batch order either way.
- `os.networkInterfaces()` is an input: a sequence of interfaces, each with an optional entry list.
- `TextDecoder` is left out: each read is already decoded text.
- `JSON.parse` of a stream line is an abstract `Parser`. The JSON of the tag listing and the show reply is folded into `ListOutcome` and `ShowOutcome`.
- `performance.now()` readings are inputs. Each read carries one clock value, used for every line that read completes.
- Probe, listing and show replies are functions of their request. A request repeated with the same arguments therefore gets the same answer in the model, where the source sends an independent request that may be answered differently.
- The live-progress throughput, and all logging, progress lines, banners and ANSI colour codes, are left out. They are output only.
- `toFixed` formatting is left out. `FormatBytes` returns the scaled value and its unit, and a row records its cells before printing.
- The header line and rule lines of each table are left out. They are constant text.
- Reading `src/config.ts` from the environment is left out. The configuration is an input record, with `DefaultConfig` holding the defaults.
- `src/index.ts` is not part of this model: it chains the stages and exits on empty results.
- The benchmark prompt text is an opaque constant and is not modelled.
- Benchmark.Derive: a zero elapsed time with a non-zero `evalCount` gives `Infinity` in the source. The model gives 0.0, and its throughput is an exact real quotient, not a rounded double.
- Assess.Normalised: scores are exact reals. Double rounding is not modelled, so "the maximum scores exactly 100" holds for the model but only approximately for doubles.
- Assess.MaxOf: `Math.max` of an empty list is `-Infinity`. It is modelled as `None`, which scores 0, the same as the source's `maxTps > 0` test failing.
- Ui.PadRight: a Dafny string is a sequence of Unicode scalar values, so lengths and slices count scalar values. JavaScript's `length` and `slice` count UTF-16 code units, so the two differ for any character outside the Basic Multilingual Plane: the model pads "a\u{1F600}" to 3 with one space, where the source leaves it unpadded.
- Discover.DiscoverHosts: a batch size of 0 or less makes the source's batch loop never advance. The model requires a positive batch size. The source ends normally with such a size when no subnet has a candidate to scan; the model does not cover that case.
- Discover.CheckLocalhost: a negative retry count makes no attempt, as in the source. The attempts are given as one outcome per attempt, which must cover the configured count.
- Enumerate.EnumerateModels: the tag listing's HTTP status is not checked by the source. A non-JSON or model-less body throws, and is folded into `ListFailed`.
- Ranking.SortDesc: `Array.prototype.sort` is stable and sorts in place. The model is a pure stable sort, and `assess` reads its head. The in-place reordering of `scored`, which no later code reads except through `[0]`, is not modelled.
