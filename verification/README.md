# Verified model of the kube-diagnose operator core

This project models the in-memory algorithms and small protocols of the kube-diagnose operator in Dafny and
proves what they guarantee, for all inputs and over all runs. Clock readings are parameters (integers, in
nanoseconds); LLM providers, the embedder, the vector store and the Kubernetes API server are oracles, maps or
nondeterministic steps. `dafny verify dfyconfig.toml` checks everything.

| file | what it models |
|---|---|
| `SlidingWindows`, `LateReadings`, `PatternDetector` | the burst detector: a value-level state machine and its refinement of a detector that forgets nothing; its exact answers on clock readings out of order; the mutable map of mutable slices that takes exactly those steps |
| `CostGuard`, `RateLimiter`, `ConcurrentAnalyzer`, `Analyzer` | cache, cost gate, hourly limit and provider chain of the LLM analyzer: one request and runs without overlap; the limiter's interleaved steps; whole Analyze calls, interleaved; the class with the source's fields |
| `Fingerprint`, `Words` | SimHash fingerprints, their printing, parsing and distance; 64-bit words |
| `Retrieval`, `Documents`, `Chunking`, `Indexing`, `DocUuid` | retrieval over three collections, overlapping chunks, batched indexing through one reused buffer, FNV-1a point ids |
| `IncidentLedger`, `IncidentMerging`, `IncidentSync`, `IncidentNames`, `IncidentStore` | the incident store: bookkeeping over runs, which events share a record, saving to and loading from Incident objects, object names; the classes updated in place |
| `WatcherRegistry`, `Watcher` | the log watcher's registry as interleaved start, stop and exit steps; the class with the map |
| `PromptSplit` | building a prompt and splitting it at its headers |
| `Basics` | an option type, set sizes, removing an element of a sequence |

Each stateful component appears twice. A module of pure functions says what the state machine does and holds the
theorems; a class with the source's fields has methods whose postconditions equate the new abstract state with
that machine's step, so the theorems are about the imperative code.

## What the code does, and where its words say otherwise

- `IsRecurring` is documented as "active over the entire 15-minute horizon". The windows are nested and the newest
  event is in all of them, so it is exactly `IsBursting(fp, 0)`: an event within the last minute
  (`SlidingWindows.RecurringIsBursting`). A single event is enough (`OneEventIsRecurring`).
- Eviction after 30 idle minutes is invisible except to a burst query with a negative threshold about a fingerprint
  that is not tracked; `StepRefines` states this as an equivalence and `NegativeThresholdSeesEviction` gives a run.
- The "rolling window" limit of the analyzer is a fixed window, reset lazily. With `n` overlapping calls the
  check-then-count gap overshoots the limit by at most `n - 1`, and that bound is reached (`OvershootIsBounded`,
  `OvershootIsReached`). For every limit `max` and every `n`, `2 * (max + n - 1)` successful calls can fall within two
  nanoseconds (`RateLimiter.TwiceTheLimitAroundAReset`), and never more than that within any hour. The rolling reading
  holds of every hour without a reset: more than `max + n - 1` needs the guard at internal/llm/analyzer.go:206 to fire
  between two calls of that hour (`RollingLimitFailsOnlyAroundAReset`). When the guard fires at `t`, some continuation
  within the new window exceeds `max + n - 1` in a closed hour containing `t` iff a call was counted in the hour up to
  `t` (`ResetBreaksRollingLimitExactly`; `n = 1` is the case of calls that do not overlap).
- The burst detector's queries read the clock before they take its lock, so overlapping calls can act on readings out
  of order. Then a window shows the recorded events except those too old at the call's own reading and those an earlier
  call or cleanup has found old (`LateReadingsExactly`). It never shows too many, and what it misses is too old at the
  latest reading (`LateReadingsNeverOvercount`); it can miss events (`LateReadingCanUndercount`), and a frequency report
  is complete iff all that is gone is too old at its own reading (`LateFrequencyIsFull`).
- The periodic sync is not idempotent: it lists the pods of a record by walking a map, in another order each time, so
  it can rewrite an unchanged record with two pods (`TwoPodsCanBeReordered`). The next sync of an unchanged store
  changes nothing, whatever the orders, iff no two records share a namespace and object name and no record has more
  than one pod (`QuietExactly`); with distinct names the order of the pods is all that can change
  (`ResyncOnlyRelists`).
- `parseFingerprint` reads little-endian what `%016x` printed big-endian, so parsing a printed word gives its byte
  reversal, and the word itself only for byte palindromes. `Similarity` is right all the same (`SimilarityOfPrinted`).
- README.md:14 of the repository promises to merge logs at Hamming distance 3 or less; two events feed one record iff
  their fingerprints are equal (`SharedRecordMeansEqualFingerprints`). `AtDistanceOne` gives two events at distance 1
  that start two incidents. The promise is kept in a run iff no event brings a new fingerprint near a known one
  (`PromiseKeptExactly`); from an empty store, iff no two different fingerprints of the run are near
  (`PromiseNeedsFarApart`).
- A placeholder made by `GetOrCreate` is said to be filled by the first `RecordEvent`; it never is, and its events
  never count as new (`PlaceholderIsNeverFilled`). Nothing in the operator calls `GetOrCreate`.
- `IndexDocuments` says it fails only if all documents fail; it also fails on cancellation and on any rejected request,
  for example for a single embedded document whose request is rejected (`RejectedRequestFails`). The promise is kept iff
  the run is not cancelled and each of its ceil(points / 20) requests is accepted, or no document can be embedded
  (`Indexing.PromiseKeptExactly`).
- The branch of `incidentCRDName` for names over 63 characters is never taken: names have at most 49 (`NameIsShort`).
- A cost-gate threshold above 1 never skips the LLM, because retrieval scores are at most 1 (`GateSkipsLLM`).
- A cache key does not determine its pattern and namespace when a namespace contains `|` (`KeyCollisions`,
  `KeyDeterminesRequest`). Kubernetes namespaces never do.
- Stopping and quickly restarting a watched container can leave two loops streaming it, one of which no call can stop:
  the first loop's clean-up deletes the second loop's entry (`RestartCanDuplicate`, `OrphanCannotBeStopped`). Waiting
  for the stopped loop's exit before restarting is sufficient and necessary (`GuardIsExact`).
- `splitPrompt` panics on a prompt whose first user header precedes its first system header
  (`PanicsOnSwappedHeaders`), such as the two headers alone in the wrong order (`HeadersSwappedPanic`); on built
  prompts it never does.

## Model

| member | source | states |
|---|---|---|
| SlidingWindows.DetectorShowsFullHistory | internal/aggregator/pattern_detector.go:121-310 | under a non-decreasing clock and any interleaving of operations, every answer is the one a full, never pruned history gives |
| SlidingWindows.StepRefines | internal/aggregator/pattern_detector.go:121-278 | one operation keeps the refinement; its answer agrees with full history iff the query is not a negative-threshold burst query about an untracked fingerprint |
| SlidingWindows.PrunedLengthIsCount | internal/aggregator/pattern_detector.go:283-310 | the length of a lazily pruned window is the number of events of the full history at or after the cutoff |
| SlidingWindows.RecurringIsBursting | internal/aggregator/pattern_detector.go:173-212 | the counts that GetFrequency reports are nested in every reachable state, and IsRecurring holds iff IsBursting with threshold 0, iff the latest event is at most a minute old |
| SlidingWindows.FrequencyInSeconds | internal/aggregator/pattern_detector.go:138-171 | in every reachable state the three reports show the number of events of the last 60, 300 and 900 seconds, both ends included, and rates that times the seconds give the counts |
| SlidingWindows.CleanupInSeconds | internal/aggregator/pattern_detector.go:258-278 | a cleanup keeps exactly the fingerprints last seen at most 1800 seconds ago, as they are |
| SlidingWindows.OneEventIsRecurring | internal/aggregator/pattern_detector.go:190-212 | after a single event, IsRecurring answers true for exactly one minute |
| SlidingWindows.NegativeThresholdSeesEviction | internal/aggregator/pattern_detector.go:175-188 | a run whose two equal queries with a negative threshold differ because of eviction |
| LateReadings.LateReadingsExactly | internal/aggregator/pattern_detector.go:121-278 | the exact answer of every operation with clock readings in any order: each window shows the recorded events less the larger of two numbers, those before its own cutoff and the most that any earlier query of the window or eviction found old |
| LateReadings.PrunedRest | internal/aggregator/pattern_detector.go:283-310 | pruning a window that has already lost some events leaves the full list without the larger of what is gone and what is too old |
| LateReadings.LateReadingsNeverOvercount | internal/aggregator/pattern_detector.go:121-278 | with clock readings in any order, events of a fingerprint recorded in order and a non-negative burst threshold, every answer lies between those of the full history at any time no reading so far exceeds and at the operation's own reading, and is the latter if its reading is the latest |
| LateReadings.LateFrequencyIsFull | internal/aggregator/pattern_detector.go:138-171 | on readings in any order, a frequency report is the one of the full history iff in every window all that earlier operations have dropped is too old at its own reading |
| LateReadings.LateReadingCanUndercount | internal/aggregator/pattern_detector.go:175-188 | a run in which a burst query with an older clock reading misses an event of its own last minute, because a later reading has pruned it |
| PatternDetector.AppendTo | internal/aggregator/pattern_detector.go:128-130 | Go's append: the view grows by one time, in the same array or a fresh one |
| PatternDetector.PrunedAtBoundary | internal/aggregator/pattern_detector.go:286-309 | dropping the leading old times is cutting at the boundary the binary search looks for |
| PatternDetector.CopyDown | internal/aggregator/pattern_detector.go:308-308 | Go's overlapping copy moves the surviving times to the front |
| PatternDetector.PruneWindow | internal/aggregator/pattern_detector.go:283-310 | binary search and in-place shift leave, in the same array, exactly the times from the first recent one on |
| PatternDetector.FingerprintData.constructor | internal/aggregator/pattern_detector.go:76-84 | three empty windows that share no array |
| PatternDetector.FingerprintData.Push | internal/aggregator/pattern_detector.go:126-130 | the event is appended to every window and becomes the last one seen; windows still share no array |
| PatternDetector.FingerprintData.Prune | internal/aggregator/pattern_detector.go:156-157 | one window is pruned in place, the others are untouched |
| PatternDetector.PatternDetector.GetOrCreate | internal/aggregator/pattern_detector.go:247-254 | an entry exists afterwards; only a missing one is created, empty |
| PatternDetector.PatternDetector.Record | internal/aggregator/pattern_detector.go:121-131 | the detector takes the Record step; no other fingerprint changes |
| PatternDetector.PatternDetector.GetFrequency | internal/aggregator/pattern_detector.go:138-171 | state and result are those of the GetFrequency step |
| PatternDetector.PatternDetector.IsBursting | internal/aggregator/pattern_detector.go:175-188 | state and answer are those of the IsBursting step |
| PatternDetector.PatternDetector.IsRecurring | internal/aggregator/pattern_detector.go:194-212 | state and answer are those of the IsRecurring step, with its early returns |
| PatternDetector.PatternDetector.Cleanup | internal/aggregator/pattern_detector.go:258-278 | exactly the fingerprints last seen before now minus 30 minutes are dropped, in whatever order the map is walked |
| RateLimiter.OvershootIsBounded | internal/llm/analyzer.go:204-220 | with at most n calls in flight, counted plus admitted-but-uncounted calls never exceed max + n - 1; with one call in flight the limit is kept |
| RateLimiter.OvershootIsReached | internal/llm/analyzer.go:204-247 | for every limit and every n a run reaches max + n - 1 counted calls |
| RateLimiter.AnyHourIsBounded | internal/llm/analyzer.go:204-247 | resets are more than an hour apart, and any closed hour contains at most 2 (max + n - 1) successful calls |
| RateLimiter.RollingLimitFailsOnlyAroundAReset | internal/llm/analyzer.go:204-220 | a closed hour without a reset holds at most max + n - 1 successful calls (max when calls do not overlap); one with more has a reset between two of its calls |
| RateLimiter.ResetBreaksRollingLimitExactly | internal/llm/analyzer.go:206-209 | when, in any reachable state and with any calls in flight, the window has expired and reopens at t, some continuation within the new window puts more than max + n - 1 successful calls into a closed hour containing t iff a call was counted in the hour up to t |
| RateLimiter.TwiceTheLimitAroundAReset | internal/llm/analyzer.go:206-209 | for every limit and every number n of calls in flight, 2 (max + n - 1) calls can succeed within two nanoseconds, so the bound on an hour is reached; with n = 1 that is twice the limit without any overlap |
| RateLimiter.FailedCallResets | internal/llm/analyzer.go:205-220 | a call whose providers all fail reopens an expired window and is not counted |
| ConcurrentAnalyzer.EntriesFollowStores | internal/llm/analyzer.go:45-82 | in every interleaving of Analyze calls and purges, a cached entry is the one its key's latest store left, and a missing entry's latest store has expired |
| ConcurrentAnalyzer.HitIffLatestStoreIsFresh | internal/llm/analyzer.go:172-187 | however calls overlap, a call is a cache hit iff the latest store of its key when it read the cache is at most ttl old when it compares with the clock; it answers with that result except for its source |
| ConcurrentAnalyzer.OnlyFreshAnalysesAreStored | internal/llm/analyzer.go:189-268 | a call stores exactly once if it ends by the shortcut or a provider, its own fresh answer under its own key, and never if it ends by a hit, rate-limited, degraded, or not yet |
| ConcurrentAnalyzer.AnswersFollowTheRequest | internal/llm/analyzer.go:165-269 | in every interleaving: the shortcut is taken only on enough confidence and answers from retrieval; below that a provider's answer is the first success in order, a degraded answer means that all providers failed and quotes the last error, and a limited answer is from retrieval |
| ConcurrentAnalyzer.PurgingIsInvisible | internal/llm/analyzer.go:73-82 | leaving out all purges of an interleaving, the other moves are still possible and every call ends, stores and counts as before |
| ConcurrentAnalyzer.OverlappingCallsKeepTheLimit | internal/llm/analyzer.go:165-269 | with at most n whole Analyze calls in flight the limiter's bounds hold: max + n - 1 counted or admitted, twice that in any closed hour, more than that only around a reset |
| ConcurrentAnalyzer.OperationIsItsMoves | internal/llm/analyzer.go:165-269 | a call that nothing overlaps ends with the answer and the state of the sequential machine |
| ConcurrentAnalyzer.SequentialRunsAreRuns | internal/llm/analyzer.go:165-269 | every run without overlap is one of these interleavings |
| CostGuard.HitRepeatsLatestAnalysis | internal/llm/analyzer.go:172-202 | over all runs without overlap, a request is a cache hit iff the latest shortcut or provider answer for its key is at most ttl old, and repeats it except for its source; limited and degraded answers are never reused |
| CostGuard.PurgeIsInvisible | internal/llm/analyzer.go:73-82 | purging never changes a later lookup |
| CostGuard.SequentialLimit | internal/llm/analyzer.go:204-256 | when calls do not overlap the counter never exceeds the limit and providers answer at most twice the limit within any closed hour |
| CostGuard.KeyCollisions | internal/llm/analyzer.go:172-172 | exactly when two pairs of pattern and namespace share a cache key |
| CostGuard.KeyDeterminesRequest | internal/llm/analyzer.go:172-172 | a namespace is told apart by its keys iff it contains no bar |
| CostGuard.Configure | internal/llm/analyzer.go:123-148 | after defaulting, thresholds, limit and ttl are positive |
| CostGuard.Defaults | internal/llm/analyzer.go:123-148 | settings that are not positive become 0.75, 0.9, 60 calls and 24 hours; the others are kept |
| CostGuard.WhichExit | internal/llm/analyzer.go:152-268 | which exit a request takes, from the cache entry and its expiry, its confidence against the threshold of its severity, the calls of the hour, and whether all providers fail |
| CostGuard.WhatIsAnswered | internal/llm/analyzer.go:172-324 | each exit's answer: the cached one with its source replaced, retrieval's with its confidence, severity and fixed texts, the first successful provider's, or retrieval's with the last provider's error |
| CostGuard.WhatIsKept | internal/llm/analyzer.go:172-268 | which exits cache the answer, under pattern, bar and namespace, for ttl from the store; which counter each exit raises; and that a check after the end of the hour starts a new count, ending an hour after its second reading |
| Analyzer.AnalysisCache.Get | internal/llm/analyzer.go:45-53 | returns an entry up to and including its expiry time, and nothing later |
| Analyzer.AnalysisCache.Set | internal/llm/analyzer.go:56-63 | replaces the entry of one key, expiring ttl from now |
| Analyzer.AnalysisCache.Purge | internal/llm/analyzer.go:73-82 | exactly the expired entries go, in whatever order the map is walked |
| Analyzer.Analyzer.constructor | internal/llm/analyzer.go:123-148 | starts in the machine's initial state with the defaulted configuration |
| Analyzer.Analyzer.Analyze | internal/llm/analyzer.go:165-269 | answer, cache, counters and window are those of the CostGuard machine, on each of its five exits; with calls left and neither a cached nor a confident answer, the first provider that succeeds answers, or all have failed and the last error is quoted |
| Analyzer.Analyzer.AskProviders | internal/llm/analyzer.go:222-268 | the answer of the first successful provider is cached, otherwise retrieval's with the last error is returned and nothing is |
| Analyzer.Analyzer.TryProviders | internal/llm/analyzer.go:224-256 | the result is a success before which every provider failed; there is none iff all fail, and then the last one's error is reported; a success is counted once and nothing else is |
| Analyzer.Analyzer.PurgeCache | internal/llm/analyzer.go:287-299 | the ticker's purge is the machine's Purge step |
| Fingerprint.FingerprintTokens | internal/aggregator/fingerprint.go:120-152 | the printed word has bit i set iff the hashes of more than half of the tokens have it; it is the SimHash of the token hashes |
| Fingerprint.BuildFingerprint | internal/aggregator/fingerprint.go:143-149 | or-ing in the bits with positive counters gives the SimHash |
| Fingerprint.MajorityDecidesEachBit | internal/aggregator/fingerprint.go:117-149 | a bit is set iff a strict majority of the token hashes set it |
| Fingerprint.FingerprintIgnoresTokenOrder | internal/aggregator/fingerprint.go:120-152 | token lists with the same multiset have the same fingerprint, for any MD5 |
| Fingerprint.HashingBringsCloser | internal/aggregator/fingerprint.go:127-132 | hashing the tokens, even with collisions, does not enlarge the symmetric difference of two token lists |
| Fingerprint.SimHashIsLocal | internal/aggregator/fingerprint.go:120-152 | for token multisets with symmetric difference d and any MD5, differing bits are among those whose vote lies in (-d, d], which bounds the Hamming distance |
| Fingerprint.VotesAreClose | internal/aggregator/fingerprint.go:127-141 | each token in only one list moves each counter by at most one |
| Fingerprint.HammingCountsDifferingBits | internal/aggregator/fingerprint.go:179-181 | xor and popcount count the differing positions |
| Fingerprint.HammingIsAMetric | internal/aggregator/fingerprint.go:179-181 | zero iff equal, symmetric, triangle inequality |
| Fingerprint.ParseOfPrintReversesBytes | internal/aggregator/fingerprint.go:239-248 | parsing a printed word gives the word with its bytes in the opposite order, bit by bit |
| Fingerprint.ParseUndoesPrintOnlyOnPalindromes | internal/aggregator/fingerprint.go:239-248 | parse undoes print exactly on words whose bytes read the same both ways |
| Fingerprint.ParseAcceptsSixteenHexDigits | internal/aggregator/fingerprint.go:239-248 | which strings parse, and that a string that does not has similarity 0 to everything |
| Fingerprint.DistanceOfPrinted | internal/aggregator/fingerprint.go:164-181 | printed words parse, and their parses are as far apart as the words |
| Fingerprint.SimilarityOfPrinted | internal/aggregator/fingerprint.go:164-175 | similarity of printed words is one minus the fraction of differing bits, and 1 iff the words are equal |
| DocUuid.DocUuidOf | internal/rag/engine.go:480-505 | the byte loop computes both FNV-1a lanes and prints their layout |
| DocUuid.LanesAreFnv | internal/rag/engine.go:480-494 | each lane starts from its own offset and takes in each byte by exclusive or and multiplication by 0x100000001b3 modulo 2^64 |
| DocUuid.IdOfNothing | internal/rag/engine.go:480-504 | the id of the empty string is cbf29ce4-8422-2325-14c4-b09d7afb5f99 |
| DocUuid.LayoutFields | internal/rag/engine.go:496-504 | which part of which lane each of the five fields prints |
| Words.HexAppends | internal/rag/engine.go:496-504 | appending a hexadecimal digit multiplies by sixteen and adds its place in the alphabet |
| DocUuid.TimesPrimeInjective | internal/rag/engine.go:485-494 | multiplication by the prime is injective modulo 2^64 |
| DocUuid.StepInjective | internal/rag/engine.go:489-494 | each FNV-1a round is injective in the lane |
| DocUuid.LayoutIsInjective | internal/rag/engine.go:496-504 | the printed UUID determines both lanes |
| DocUuid.UuidShape | internal/rag/engine.go:496-504 | ids print as five hexadecimal fields of 8, 4, 4, 4 and 12 digits (section 4 of RFC 9562) |
| DocUuid.CommonSuffixIsIrrelevant | internal/rag/engine.go:480-505 | docUUID(a+s) = docUUID(b+s) iff docUUID(a) = docUUID(b) |
| DocUuid.ByteDifferenceSpreads | internal/rag/engine.go:489-494 | two different bytes make a round differ beyond the low eight bits |
| DocUuid.AdjacentBytesNeverCollide | internal/rag/engine.go:480-505 | ids of equal length that differ only inside two adjacent bytes never collide |
| Retrieval.SortByScore | internal/rag/engine.go:333-335 | a descending permutation; nothing is assumed about ties |
| Retrieval.Collect | internal/rag/engine.go:301-323 | results of the answering collections in order, with normalised scores; failing collections contribute nothing |
| Retrieval.ThreeSearches | internal/rag/engine.go:281-323 | runbooks, incidents and metadata contribute in this order, each point of a successful search once, with its document, its collection and its cosine mapped from [-1, 1] to [0, 1]; each search is for max(2k, 5) points |
| Retrieval.Retrieve | internal/rag/engine.go:275-354 | returns a best k of what was collected, the top score as confidence, and only fails with the embedder |
| Retrieval.RetrieveIsGlobalTop | internal/rag/engine.go:294-353 | if each answering collection returns its true best max(2k, 5), the returned items are a best k of everything stored in those collections |
| Retrieval.TopFromCounts | internal/rag/engine.go:332-340 | a descending part of the whole list, as long as a best k and with as many scores above every bound, is a best k |
| Retrieval.BestScoresAgree | internal/rag/engine.go:332-340 | any two best k of the same points have the same scores in the same order |
| Retrieval.NormaliseAtLeast | internal/rag/engine.go:361-372 | for positive x, a normalised score reaches x iff x is at most 1 and the raw cosine is at least 2x - 1 |
| Retrieval.GateSkipsLLM | internal/llm/analyzer.go:152-158 | on retrieval's confidence the LLM is skipped iff the severity's threshold t is at most 1 and some stored point has raw cosine at least 2t - 1 |
| Retrieval.TopCounts | internal/rag/engine.go:332-340 | a best k holds as many scores above any bound as the whole list, up to k |
| Indexing.Server.Upsert | internal/rag/qdrant_client.go:280-307 | what the server gets is a copy in a fresh array; nothing is sent for no points |
| Indexing.Append | internal/rag/engine.go:179-185 | a point joins the buffer, and a full buffer is sent and emptied or the failure reported |
| Indexing.SendFullBatches | internal/rag/engine.go:149-186 | after any number of documents, batches sent plus buffer are exactly their points in order, and the counters agree |
| Indexing.IndexDocuments | internal/rag/engine.go:126-203 | on success the accepted batches hold exactly the embeddable documents in order, each as a point with the id of its own document id, its own vector and itself as payload, all requests of 20 but the last, and indexed plus skipped is the total; on failure they are a prefix; reusing the buffer never alters a sent batch; which oracle answer causes which outcome |
| Indexing.PointsInTurn | internal/rag/engine.go:149-179 | the j-th embeddable document is point j, with id docUUID of its id, its vector and its payload |
| Indexing.SucceedsExactly | internal/rag/engine.go:126-203 | the run gets through iff it is never cancelled and each of the ceil(points / 20) requests is accepted; it returns nil iff moreover some document could be embedded or there was none |
| Indexing.PromiseKeptExactly | internal/rag/engine.go:119-203 | an error means that all documents failed iff the run gets through, or there are documents and none of them can be embedded |
| Indexing.RejectedRequestFails | internal/rag/engine.go:119-203 | one embedded document whose request is rejected: an error although no document failed |
| Indexing.ChunksGetDifferentPoints | internal/rag/engine.go:168-168 | chunks of one document whose indexes have equally many digits and differ in the last two only get different point ids |
| Indexing.ChunksAreSentApart | internal/rag/engine.go:166-186 | two such chunks among the indexed documents are sent as points with different ids |
| Documents.BytesConcat | internal/rag/engine.go:489-489 | the bytes of a concatenated id are the concatenated bytes |
| Documents.Utf8Decodes | internal/rag/engine.go:489-489 | the bytes of a character are its UTF-8 encoding (section 3 of RFC 3629) |
| Indexing.FinishRun | internal/rag/engine.go:188-202 | what the final flush completes, and when no document could be indexed |
| Chunking.TokenizeWords | internal/rag/document_loader.go:323-332 | the scan loop yields the words of the text |
| Chunking.SpaceSeparates | internal/rag/document_loader.go:323-332 | white space of ASCII or Latin-1 separates words: the words around it are those of the two sides |
| Chunking.OneWord | internal/rag/document_loader.go:323-332 | a text of visible ASCII characters is one word |
| Chunking.WordsOfJoin | internal/rag/document_loader.go:284-284 | tokenising undoes joining with single spaces |
| Chunking.JoinIsSpaced | internal/rag/document_loader.go:284-284 | a chunk's words are joined by single spaces |
| Chunking.ChunkIdInjective | internal/rag/document_loader.go:286-287 | a chunk id determines document id and index |
| Chunking.DecimalAppends | internal/rag/document_loader.go:287-288 | indexes are printed in decimal |
| Chunking.Effective | internal/rag/document_loader.go:253-265 | after defaulting and clamping, the overlap is smaller than the chunk size |
| Chunking.SettingsUsed | internal/rag/document_loader.go:240-265 | the defaults are 512 and 50, and an overlap that is no smaller than the chunk becomes half of it |
| Chunking.ChunkDocument | internal/rag/document_loader.go:252-318 | the chunks are those of the specification |
| Chunking.ShortDocumentIsItsChunk | internal/rag/document_loader.go:267-272 | a document of at most the chunk size comes back as the single chunk equal to itself |
| Chunking.ChunkSaysPart | internal/rag/document_loader.go:278-293 | chunk k has the id and title of index k, the words from k steps on, and type, source and tags of the document |
| Chunking.ChunkWords | internal/rag/document_loader.go:274-308 | the loop terminates and yields one chunk per word slice |
| Chunking.SliceCount | internal/rag/document_loader.go:278-308 | there are ceil((n - c) / s) + 1 slices |
| Chunking.SliceAt | internal/rag/document_loader.go:278-284 | the k-th slice starts k steps into the words |
| Chunking.LaterSlices | internal/rag/document_loader.go:278-308 | every later chunk repeats o words, adds at least one, and together they cover the rest |
| Chunking.ChunksCoverDocument | internal/rag/document_loader.go:252-318 | number of chunks, distinct ids, re-tokenised contents, and that the chunks stitch back to exactly the document's words |
| IncidentNames.SlugifyShape | internal/aggregator/incident_store.go:468-481 | a slug is 1 to 40 letters and digits separated by single dashes |
| IncidentNames.SlugSpellsPattern | internal/aggregator/incident_store.go:468-481 | a slug is the letters and digits of the lower-cased pattern in order, with a dash exactly where something else stands between two of them, cut at forty characters and without a dash at the end; incident if there are none |
| IncidentNames.SlugifyFixesSlugs | internal/aggregator/incident_store.go:468-481 | slugify is idempotent and leaves exactly the slugs alone |
| IncidentNames.NameIsShort | internal/aggregator/incident_store.go:443-460 | names have at most 49 characters and the long-name branch never applies |
| IncidentNames.NameIsDnsLabel | internal/aggregator/incident_store.go:440-460 | a name is a DNS label iff the fingerprint is not empty and its first eight characters are label characters not ending in a dash; lower-case hexadecimal digits always give one |
| IncidentNames.NameCollisions | internal/aggregator/incident_store.go:443-460 | two names are equal iff the slugs and the fingerprint prefixes are, or the extra characters of a longer prefix continue the other slug; only the former for prefixes of equal length or without dashes |
| IncidentLedger.StoreAccounting | internal/aggregator/incident_store.go:131-325 | over any run, syncs included, from any loaded state: no key is removed; count, pods, windows and last-seen time account for exactly the events; identity and first-seen time never change; the object name is the initial one or, once synced without one, the derived one; analysis and severity are those of the latest operations that set them |
| IncidentLedger.NewRecordIsItsEvent | internal/aggregator/incident_store.go:142-174 | after any run, the record of a new event has that event's pattern, sample, namespace and policy, was first seen at its time, is unresolved, and has severity low until an update rates it |
| IncidentLedger.AfterFirstEvent | internal/aggregator/incident_store.go:142-174 | right after its first event a record has seen one event, one time and at most one pod |
| IncidentLedger.AnalysisAccounting | internal/aggregator/incident_store.go:244-258 | at the end of any run a record's analysis is that of the latest update that found the record, its severity that of the latest such update with a severity, and the initial ones if there is none |
| IncidentLedger.LatestAnalysisIsLatest | internal/aggregator/incident_store.go:244-258 | the operation found is one that applies to the fingerprint (with a severity, when looking for that), and no later one does |
| IncidentLedger.NewMeansFirst | internal/aggregator/incident_store.go:139-174 | in any run, syncs included, an event is new iff nothing loaded or created its fingerprint before |
| IncidentLedger.AtMostOneNew | internal/controller/logintelligenceplatform_controller.go:257-273 | at most one event per fingerprint is new, so at most one analysis is started for it |
| IncidentLedger.WindowsStayEven | internal/aggregator/incident_store.go:169-172 | the three frequency lists stay equal and hold exactly the event times |
| IncidentLedger.TimesInOrder | internal/aggregator/incident_store.go:169-172 | they are non-decreasing when events arrive in clock order |
| IncidentLedger.PlaceholderIsNeverFilled | internal/aggregator/incident_store.go:182-203 | a placeholder keeps its empty identity through every later run and none of its events is new |
| IncidentMerging.SharedRecordMeansEqualFingerprints | internal/aggregator/incident_store.go:139-174 | in any run from any store, two events feed one record iff their fingerprints are equal |
| IncidentMerging.PromiseKeptExactly | README.md:14 | the promise to join an incident within distance 3 is kept in a run, from any store, iff no event brings a new fingerprint near one loaded or created before |
| IncidentMerging.PromiseNeedsFarApart | README.md:14 | from an empty store and without placeholders, it is kept iff no two different fingerprints of the run are within distance 3 |
| IncidentMerging.NearEventsStayApart | README.md:14 | any two events with different fingerprints within distance 3 start two incidents and break the promise |
| IncidentMerging.AtDistanceOne | README.md:14 | a concrete pair at distance 1 |
| IncidentMerging.NearWords | internal/aggregator/fingerprint.go:164-181 | printed fingerprints are near iff the words are |
| IncidentSync.RoundTrip | internal/aggregator/incident_store.go:270-581 | after a sync with any accepted and rejected writes, in any cluster and listing pods in any order, a load into an empty store finds a fingerprint iff an active object carries it; if the last listed one is the record's own, the record comes back as synced, except for fractions of seconds, the frequency windows and the object name, which is the derived one, if some record was written to that object (its own accepted write suffices), and as the object held it before otherwise; from another object it never comes back; its own object carries the fingerprint iff the last record written there is this one, unresolved and with a fingerprint, or none was written there and it did before |
| IncidentSync.RoundTripWithoutStrays | internal/aggregator/incident_store.go:270-581 | with any accepted and rejected writes and no other active object carrying a fingerprint of the store, a record is recovered iff it is unresolved, has a fingerprint, is written and not overwritten |
| IncidentSync.DistinctNamesSurvive | internal/aggregator/incident_store.go:316-327 | with distinct object names a record is the last writer of its object iff its writes are accepted |
| IncidentSync.RestartContinues | internal/aggregator/incident_store.go:498-581 | after a sync with any accepted and rejected writes, restart and load, through any later run, a restored record goes on counting, keeps its object name, and none of its later events is new |
| IncidentSync.ResyncChangesNothing | internal/aggregator/incident_store.go:291-309 | after one complete sync of records with distinct object names, syncing the store it leaves behind, in any record order, changes no object iff it lists the pods of every record in the order the first sync did |
| IncidentSync.ResyncNeedsNamesApart | internal/aggregator/incident_store.go:291-309 | if two records share a namespace and object name, some record order of the next sync rewrites their object even when pods are listed as before |
| IncidentSync.ResyncOnlyRelists | internal/aggregator/incident_store.go:291-309 | with distinct object names the next sync of an unchanged store changes at most the order of the listed pods of each record's object, and nothing of the other objects |
| IncidentSync.QuietExactly | internal/aggregator/incident_store.go:291-309 | after one complete sync, the next one changes no object in any record order and any pod orders iff no two records share a namespace and object name and no record has more than one pod |
| IncidentSync.TwoPodsCanBeReordered | internal/aggregator/incident_store.go:484-494 | one record with two pods, and two orders of them, for which the second of two syncs in a row changes the object |
| IncidentSync.SyncIgnoresNames | internal/aggregator/incident_store.go:316-349 | what a sync writes does not depend on the object names it caches |
| IncidentSync.SyncIsItsSteps | internal/aggregator/incident_store.go:270-325 | the in-memory effect of a sync is a Synced step of the ledger per record |
| IncidentSync.NamesApartAreDistinct | internal/aggregator/incident_store.go:270-287 | syncing every record once, distinct record names give distinct object names in the sync |
| IncidentSync.SyncLeavesTheRest | internal/aggregator/incident_store.go:329-381 | whichever writes fail, a sync leaves spec, foreign labels, conditions, notified, notifiedAt, resolvedAt and frequency of every existing object alone |
| IncidentSync.SyncedObject | internal/aggregator/incident_store.go:270-287 | after a sync whose writes all succeed an object holds the record that wrote it last; objects no record names are untouched |
| IncidentSync.SyncedStatus | internal/aggregator/incident_store.go:270-436 | after a sync with any accepted and rejected writes, an object's status is that of the last record whose writes to it were both accepted, or as it was before |
| IncidentSync.SyncedShows | internal/aggregator/incident_store.go:352-436 | after a sync with any accepted and rejected writes, an object shows the last record written to it field by field: phase Resolved, Analyzing from the second event on, or Detecting; pattern, sample, count, severity, policy, times in whole seconds, one resource per pod, and the analysis with numbered actions |
| IncidentSync.SyncedLabels | internal/aggregator/incident_store.go:329-345 | its three labels are those of the last record whose labels were accepted |
| IncidentSync.LastWriterIsLast | internal/aggregator/incident_store.go:273-286 | no later record in the sync order has the name of the object and an accepted write |
| IncidentSync.RecordSurvives | internal/aggregator/incident_store.go:352-436 | reading back a written object gives the expected record, and it is active iff unresolved with a fingerprint |
| IncidentSync.RecoveredReads | internal/aggregator/incident_store.go:512-564 | a loaded record says field by field what the object shows; only Pod resources are pods; objects that are resolved or have no fingerprint are not loaded |
| IncidentSync.WireKeepsSeconds | internal/aggregator/incident_store.go:402-403 | a time loses its fraction of a second and nothing else, the zero time included |
| IncidentSync.LoadFinds | internal/aggregator/incident_store.go:507-580 | into any store, loading takes each fingerprint from the last listed active object that carries it and keeps the other records |
| IncidentSync.OwnCarrier | internal/aggregator/incident_store.go:270-581 | for any accepted and rejected writes: at a record's own name, if some record was written there, an active object carries its fingerprint iff the last one written is the record, unresolved and with a fingerprint, and then restores it; if none was, iff one did before, and then restores what it held |
| IncidentSync.StaysWellKeyed | internal/aggregator/incident_store.go:131-203 | every record stays keyed by its own fingerprint through every run |
| IncidentSync.LoadIsWellKeyed | internal/aggregator/incident_store.go:512-564 | loading keys every record by its own fingerprint |
| IncidentStore.IncidentRecord.Observe | internal/aggregator/incident_store.go:161-172 | count, last-seen time, pods and the three windows of the live record change as in the ledger |
| IncidentStore.IncidentStore.RecordEvent | internal/aggregator/incident_store.go:131-175 | the store takes the Event step, updating the live record in place, and reports whether it was new; a new record has the arguments in their fields, count 1, severity low and is unresolved |
| IncidentStore.IncidentStore.GetOrCreate | internal/aggregator/incident_store.go:185-203 | the store takes the GetOrCreate step |
| IncidentStore.IncidentStore.UpdateSeverityAndAnalysis | internal/aggregator/incident_store.go:244-258 | the store takes the Analysed step; no analysis or no record changes nothing |
| IncidentStore.IncidentStore.SyncRecord | internal/aggregator/incident_store.go:316-349 | object and live record end as specified for each way the two writes can go; if both are accepted the object has the record's labels and shows it field by field |
| IncidentStore.IncidentStore.SyncStatus | internal/aggregator/incident_store.go:352-436 | the patched status is the specified one and shows the record field by field, or nothing changes |
| IncidentStore.IncidentStore.SyncToKubernetes | internal/aggregator/incident_store.go:270-287 | every record is synced exactly once, as specified, in an arbitrary order, with its pods listed in an arbitrary order of its own; every object shows the last record written to it field by field; failures do not stop the others and are reported |
| IncidentStore.IncidentStore.LoadExistingIncidents | internal/aggregator/incident_store.go:498-581 | the store after loading is the specified one; later objects win |
| IncidentStore.Reconstruct | internal/aggregator/incident_store.go:517-564 | one object is rebuilt into its record, field by field, by the pod and action loops |
| IncidentStore.AffectedPodsToResources | internal/aggregator/incident_store.go:484-494 | one Pod resource per pod, each pod once, in whatever order the map is walked |
| WatcherRegistry.EntriesAlwaysStream | internal/logwatcher/watcher.go:99-208 | in every interleaving, a map entry names a loop of its own key that is not stopped and has not run its clean-up |
| WatcherRegistry.StartStreams | internal/logwatcher/watcher.go:99-127 | after a start the key has an entry for a streaming loop of its own, a new one iff it had none; other entries stay |
| WatcherRegistry.StopCancels | internal/logwatcher/watcher.go:131-154 | after a stop the entry is gone, its loop is cancelled, and nothing else has changed |
| WatcherRegistry.StopAllStops | internal/logwatcher/watcher.go:159-168 | after StopAll nothing is watched and exactly the orphans still stream |
| WatcherRegistry.GuardedRunsAreExact | internal/logwatcher/watcher.go:99-208 | if a triple is only restarted after its stopped loop has exited, entries and streaming loops correspond and each triple has at most one live loop |
| WatcherRegistry.GuardedRunsAreCounted | internal/logwatcher/watcher.go:172-176 | in such runs WatchedCount is the number of streaming loops |
| WatcherRegistry.WatchedCountIsLoops | internal/logwatcher/watcher.go:172-176 | the count never exceeds the number of streaming loops, and equals it iff no loop is an orphan |
| WatcherRegistry.WithoutStopsNothingLingers | internal/logwatcher/watcher.go:99-208 | every run without stop calls is such a run |
| WatcherRegistry.GuardIsExact | internal/logwatcher/watcher.go:99-208 | starting a key keeps the correspondence in every guarded future iff no stopped loop of it is still to exit |
| WatcherRegistry.OrphansComeFromExits | internal/logwatcher/watcher.go:195-208 | the only step that orphans a loop is the exit of another loop of the same key |
| WatcherRegistry.OrphanCannotBeStopped | internal/logwatcher/watcher.go:131-168 | no later call stops an orphaned loop, not even StopAll |
| WatcherRegistry.RestartCanDuplicate | internal/logwatcher/watcher.go:99-208 | a run after which two loops stream one container and one is counted |
| WatcherRegistry.StopAllKeyByKey | internal/logwatcher/watcher.go:159-168 | cancelling and deleting entry by entry, in any order, amounts to the StopAll step |
| Watcher.Watcher.StartWatchingPod | internal/logwatcher/watcher.go:99-127 | the Start step; a goroutine is launched iff the key was not watched |
| Watcher.Watcher.Remove | internal/logwatcher/watcher.go:134-139 | the Delete step, handing over the removed loop's cancel function |
| Watcher.Watcher.StopWatchingPod | internal/logwatcher/watcher.go:131-154 | the Delete step followed by the Cancel step, or nothing for an unknown key |
| Watcher.Watcher.StopAll | internal/logwatcher/watcher.go:159-168 | the StopAll step |
| Watcher.Watcher.WatchedCount | internal/logwatcher/watcher.go:172-176 | the number of entries |
| Watcher.Watcher.CleanUp | internal/logwatcher/watcher.go:196-202 | the Exit step: the key's entry goes, whoever owns it |
| PromptSplit.IndexOf | internal/llm/openai.go:179-188 | the first place of the substring, -1 iff there is none |
| PromptSplit.Index | internal/llm/openai.go:179-188 | no earlier place holds the substring, and -1 means no place does |
| PromptSplit.TrimRight | internal/llm/openai.go:191-197 | the loop removes the trailing white space |
| PromptSplit.Trimmed | internal/llm/openai.go:191-197 | a prefix that does not end in white space, with only white space after it |
| PromptSplit.TrimsFour | internal/llm/openai.go:191-197 | blanks, tabs and line ends are trimmed and nothing else is |
| PromptSplit.SplitPrompt | internal/llm/openai.go:156-176 | the split of any prompt, missing headers and the panic included |
| PromptSplit.SplitParts | internal/llm/openai.go:156-176 | which part of the prompt becomes the system and which the user section, by the first places of the two headers |
| PromptSplit.HeadersDoNotOverlap | internal/llm/openai.go:157-160 | occurrences of the two headers never overlap |
| PromptSplit.PanicsOnSwappedHeaders | internal/llm/openai.go:162-175 | the slice is invalid iff both headers occur and the first user header comes before the first system header |
| PromptSplit.HeadersSwappedPanic | internal/llm/openai.go:162-175 | the user header followed by the system header makes the slice invalid |
| PromptSplit.SplitOfCombined | internal/llm/openai.go:156-176 | what becomes of every built prompt; it never panics on one |
| PromptSplit.SplitUndoesBuild | internal/llm/openai.go:156-197 | splitting gives back system text and user section, whatever the user section contains, iff the system text contains no user header and does not end in white space |
| PromptSplit.TextWithoutHashes | internal/llm/prompt.go:12-57 | a system text without hash signs that ends in a visible character is enough |
| PromptSplit.BuildAnalysisPrompt | internal/llm/prompt.go:66-114 | the section layout, and when a provider gets both sections back |
| PromptSplit.PromptLayout | internal/llm/prompt.go:66-114 | the headers, the system text, the task, the titles, the incident, the documents and the schema stand in this order; the documents are there iff some character of theirs is not white space |
| PromptSplit.UserSectionCarries | internal/llm/prompt.go:88-99 | the user section contains the incident, and the retrieved documents if some character of theirs is not white space |

## Left out

- Message normalisation and token filtering (regular expressions, stop words) and the body of MD5: a message arrives as its token list, and MD5 is an arbitrary function to 64-bit words.
- Float rounding: scores, confidences, thresholds, rates and similarities are reals.
- Machine overflow of counters and of time arithmetic (`Count`, `callsThisHour`, the vote counters, nanoseconds); FNV-1a arithmetic is modulo 2^64.
- HTTP, SDK, embedder, vector-store and Kubernetes clients: they are oracles that succeed or fail. A request that fails but is applied by the server all the same is not modelled.
- The server's validation of Incident objects: which writes are accepted is a parameter. The enum at config/crd/bases/diagnose.diagnose.k8s.io_incidents.yaml:115-119 excludes the provider names that the LLM clients put in AnalysisSource, so statuses with such an analysis are among the rejected writes; `RoundTrip` says what becomes of their records and that they do not affect the others.
- What a sync writes while events change the store between two records (the source copies each record under its lock, but not all records at once): the ledger interleaves the in-memory step of syncing with events, the written objects are those of one store value. Conflicting writes by other controllers during a sync.
- The aliasing of a cached result with the pointer its first caller received: results are values.
- The statistics counters in overlapping calls: `CostGuard` has them, `ConcurrentAnalyzer` does not. Writing one call's several steps as one class method (`Analyzer.Analyze`) is for calls that do not overlap.
- Fixed texts of degraded answers are named by their line instead of spelled out.
- Loops over the three fixed windows are written out, and the dead guard against a zero step in chunking (lines 300-302) is dropped.
- Lower-casing is an arbitrary character map in object names; severities fold ASCII letters.
- Collisions of the point ids of distant ids: `ChunksGetDifferentPoints` and `AdjacentBytesNeverCollide` say where none can happen.
- Words over the scanner's token limit in `tokenizeWords`, which make the scanner stop early.
- The retry loop of `streamLoop`: attempts, back-off and the reasons for an exit are not modelled; a loop may exit at any time. `backoffDuration` uses floating-point powers outside the range of int64 for large attempts.
- The text of the system prompt is a parameter of `PromptSplit`. The constant at internal/llm/prompt.go:12-57 contains no hash sign and ends in dashes, which is the condition of `TextWithoutHashes`. JSON marshalling of the incident is a parameter, and so is the white space of `TrimSpace`.
- `ParseAnalysisResponse`, `documentFromPayload`, `FormatContext`, `IndexResolvedIncident`, directory and ConfigMap loading: field copying and JSON.
- The phase reconciler, the dashboard, logging, tickers and context plumbing.
