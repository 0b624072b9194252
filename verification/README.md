# Verification of the anime recommender

Dafny models of the parts of the repository where correctness is hardest to see from the code, with proofs of what they
promise. `dafny verify dfyconfig.toml` checks everything.

| files | component |
|---|---|
| `WorkerProtocol`, `Worker` | at-least-once delivery with idempotency claims, as interleaved atomic steps of any number of workers, and the consumer whose methods are runs of that protocol |
| `Sse` | the server-sent-events printer (Python) against the incremental parser (TypeScript), over arbitrary network reads; the format is that of the WHATWG HTML Standard, sections 9.2.5 and 9.2.6 |
| `CircuitBreaker`, `LlmStack`, `LlmClient`, `LlmStreams` | the breaker, the nested LLM clients and the flat policy they amount to, the client objects, and the streaming paths |
| `Ranking`, `Fusion`, `FusionLaws`, `Mmr`, `Metrics` | stable sorting, reciprocal rank fusion, maximal marginal relevance, nDCG and MRR |
| `Hybrid`, `Pipeline` | retrieval with failing legs, session recovery, dedup, rerank and diversification |
| `Chunker` | sentence packing with overlap |
| `Cache`, `Quota` | expiring caches and the daily quota on a millisecond clock |
| `AsciiText`, `QueryKey`, `Embedder`, `CachedService` | query normalisation and keys, the embedding cache and the response cache under arbitrary eviction |
| `Erasure` | deletion of a user over CASCADE and SET NULL foreign keys, in both implementations |
| `Schemas`, `Grounding`, `Service` | grounding of the model's answer, and the answer contract of both entry points |

Code that works by changing state is modelled by classes and methods with loops; each is proved equal to a specification
function, and the properties are lemmas about that function over all inputs, all runs or all reachable states. Where a
promise does not always hold, a lemma named `...Exactly` gives the condition under which it does, in both directions; other
lemmas of that ending say of a function what it computes, in terms of its inputs alone.

Where the code and its own documentation disagree, the model follows the code:

- `quotas.py:63-68` says the time to live is rounded up; the code rounds down, so a counter can lapse in the last second
  of a day (`Quota.LapseBeforeMidnight`, with `Quota.DayAdmitsAtMostTwice` as the resulting bound, and
  `Quota.FixedExactly` and `Quota.RefreshedExactly` for when the counts are right under the two expiry policies).
- `chunker.py:34` promises chunks of at most `TARGET_CHARS`; `Chunker.TargetExactly` says when that is so.
- `resilience.py:67` allows one trial call in half-open; calls that overlap are both let through
  (`CircuitBreaker.TwoTrials`), and `CircuitBreaker.HalfOpenExactly` and `CircuitBreaker.OneTrialExactly` say when there is
  only one.
- `worker.py:38-41` says that replaying dead letters loses nothing; a job dead-lettered for want of a handler keeps its
  claim, and its replay is deleted as a duplicate (`WorkerProtocol.LostToReplay`; `WorkerProtocol.ReplayRunsExactly` says
  when a replay reaches its handler).
- `service.py:144-145` speaks of dropping no right answer over a wrong id; an id that belongs to another retrieved anime is
  not corrected either (`Grounding.WrongIdStands`; the condition is in `Grounding.RightTitleIsGrounded`).
- `rtbf.py:59-70` calls the summary what was deleted; rows the database cascades to are not in it
  (`Erasure.TotalFallsShort`, with `Erasure.ReportedTotalExactly` for when it is complete).

The worker's own test that its registry is total (`apps/worker/tests/test_smoke.py:9`) is needed:
`WorkerProtocol.ConservationExactly` fails without it.

## Model

| member | source | states |
|---|---|---|
| WorkerProtocol.ConservationExactly | apps/worker/src/anime_worker/worker.py:121-145 | Over every interleaving of any number of workers, with SQS sends and deletes free to fail and dead letters replayed at will, every published job is completed or a message with its key is still queued, in flight or dead-lettered, if and only if the registry is total, no process dies between claim and verdict, no message is redelivered while held and the cache loses no delete |
| WorkerProtocol.InvStep | apps/worker/src/anime_worker/worker.py:121-145 | Each atomic step keeps the key invariant: a seen key is completed or claimed by a live handler whose message is not deleted |
| WorkerProtocol.InvRun | apps/worker/src/anime_worker/worker.py:167-195 | The invariant holds after every run from the empty system |
| WorkerProtocol.InvConserved | apps/worker/src/anime_worker/worker.py:121-145 | The invariant implies that no job is lost |
| WorkerProtocol.ReceiveExactly | apps/worker/src/anime_worker/worker.py:66-172 | An idle worker takes any one to ten visible messages and then holds exactly those |
| WorkerProtocol.RedriveExactly | apps/worker/src/anime_worker/worker.py:140-145 | The queue may dead-letter any visible message and changes nothing else by it |
| WorkerProtocol.LostWithoutHandler | apps/worker/src/anime_worker/worker.py:127-135 | With a job type that has no handler, a concrete run loses a job: its claim survives in the dead-letter path and its duplicate is deduplicated away |
| WorkerProtocol.LostToDeath | apps/worker/src/anime_worker/worker.py:137-145 | A process death between claim and verdict loses a job in a concrete run |
| WorkerProtocol.LostToLapse | apps/worker/src/anime_worker/worker.py:173-190 | Redelivery while a worker still holds the message loses a job in a concrete run |
| WorkerProtocol.LostWithTheDelete | apps/worker/src/anime_worker/worker.py:141-145 | A swallowed un-claim loses a job in a concrete run |
| WorkerProtocol.DedupedAway | apps/worker/src/anime_worker/worker.py:121-125 | A message whose key is claimed by nobody is deleted as a duplicate, with nothing left of its job |
| WorkerProtocol.ExclusionExactly | apps/worker/src/anime_worker/worker.py:121-145 | No two workers ever run one key's handler at once and each key's handler succeeds at most once, in every run, if and only if claims neither expire nor fail open, or there is no handler at all |
| WorkerProtocol.ClaimInvStep | packages/core/src/anime_core/cache.py:93-103 | Each step keeps: a running handler's key is claimed, not completed, and claimed by that handler alone |
| WorkerProtocol.BothRun | packages/core/src/anime_core/cache.py:161-171 | With claims that expire or fail open, a concrete run has two workers in one key's handler |
| WorkerProtocol.RetryRuns | apps/worker/src/anime_worker/worker.py:141-145 | After a failed run the key is claimable again, in every configuration: once the un-claim is applied, the message still held reaches its handler at any idle worker it is redelivered to |
| WorkerProtocol.CopyRuns | apps/worker/src/anime_worker/worker.py:121-145 | So does any other visible message with that key whose type has a handler; while claims hold it is then the only one being handled for the key |
| WorkerProtocol.ReplayRunsExactly | apps/worker/src/anime_worker/worker.py:38-41 | A replayed dead letter whose type has a handler reaches it, at an idle worker that takes it, if and only if its key is not claimed; otherwise it is taken for a duplicate |
| WorkerProtocol.LostToReplay | apps/worker/src/anime_worker/worker.py:127-135 | A job cleanly dead-lettered for want of a handler keeps its claim, and in a concrete run its replay is deleted as a duplicate |
| Worker.Consumer.ProcessMessage | apps/worker/src/anime_worker/worker.py:89-145 | The verdict and the cache steps of one message, as a run of the protocol: poison exactly for a malformed body or a missing handler, duplicate exactly for a claimed key, otherwise as the handler ends |
| Worker.Consumer.RunHandler | apps/worker/src/anime_worker/worker.py:127-145 | Missing handler, success and failure with un-claim, as protocol steps |
| Worker.Consumer.Settle | apps/worker/src/anime_worker/worker.py:182-195 | A stored send puts poison into the DLQ; an applied delete, after an acknowledged send for poison, removes the message; anything else leaves it for redrive, also when a call fails |
| Worker.Consumer.HandleBatch | apps/worker/src/anime_worker/worker.py:167-195 | The receive loop over a batch is a run of the protocol and leaves the worker idle with nothing pending |
| Sse.SseEvent | packages/core/src/anime_core/streaming.py:13-23 | The frame printer builds exactly the event line, one data line per line of the text and a blank line |
| Sse.ParseSSEFrame | apps/web/src/lib/sse.ts:14-30 | The loop computes the block's event and joined data, or null for a blank block |
| Sse.ReadStream | apps/web/src/lib/use-recommend.ts:75-95 | The read loop yields the text and done flag of the recursive reader, for any reads |
| Sse.ChunkIndependence | apps/web/src/lib/use-recommend.ts:77-95 | However the printed frames and the done frame are cut into reads, the loop ends at a done frame with the same text |
| Sse.RoundTrip | packages/core/src/anime_core/streaming.py:13-23 | That text is the concatenation of the tokens if and only if no token holds a carriage return or equals `[DONE]` |
| Sse.SplitStream | apps/web/src/lib/sse.ts:35-40 | Splitting a prefix of the stream at its leftmost blank lines gives whole frames and a remainder from which the rest of the stream continues |
| Sse.CutBuffer | apps/web/src/lib/sse.ts:35-40 | After any read, the frames split off are the next printed frames and the kept buffer with the unread text is the rest of the stream |
| Sse.StripSplitsAlike | apps/web/src/lib/sse.ts:15-37 | Where no carriage return directly follows a newline, as nowhere in a printed stream, removing carriage returns before or after splitting gives the same blocks |
| Sse.ParsePrinted | apps/web/src/lib/sse.ts:14-30 | Parsing a printed frame returns the event and the data without carriage returns |
| Sse.HandleParts | apps/web/src/lib/use-recommend.ts:83-93 | Handling printed frames appends their tokens in order and stops at the first that says done |
| Sse.WireShape | apps/api/src/anime_api/routes/recommend.py:134-140 | The body of the stream is the printed token frames followed by the done frame, none of them holds a blank line, and no carriage return directly follows a newline |
| CircuitBreaker.CountIsHistory | packages/core/src/anime_core/resilience.py:78-115 | Under arbitrarily overlapping calls the counter is the number of failed completions since the last success |
| CircuitBreaker.ClosedExactly | packages/core/src/anime_core/resilience.py:99-112 | The breaker is closed exactly while that count is below `fail_max`, in every history, if and only if `fail_max` is at least 1 |
| CircuitBreaker.FailureOpens | packages/core/src/anime_core/resilience.py:107-112 | After any history, a failure that is at least the fail_max-th since the last success opens the breaker, or keeps it open, with the timeout starting anew |
| CircuitBreaker.OtherEventsExactly | packages/core/src/anime_core/resilience.py:78-112 | No other event moves the time of opening; a success closes, a poll after the timeout half-opens, and nothing else changes the state |
| CircuitBreaker.RateBound | packages/core/src/anime_core/resilience.py:78-115 | With calls one after another and a dependency that keeps failing, at most fail_max + floor(T / reset_timeout) calls get through in time T |
| CircuitBreaker.HalfOpenExactly | packages/core/src/anime_core/resilience.py:78-115 | A half-open period lasts until the first completion of any call: a second call is let through in the same period if and only if none has completed since the first |
| CircuitBreaker.TwoTrials | packages/core/src/anime_core/resilience.py:67-90 | Two overlapping calls are both let through by one half-open period, with concrete times |
| CircuitBreaker.OneTrialExactly | packages/core/src/anime_core/resilience.py:78-97 | Calls one after another, after any history: a trial call leaves the breaker half-open, so that another may follow, if and only if it was cancelled |
| CircuitBreaker.AsyncCircuitBreaker.State | packages/core/src/anime_core/resilience.py:78-86 | Reading the state turns an open breaker half-open once the timeout has elapsed |
| CircuitBreaker.AsyncCircuitBreaker.Succeeded | packages/core/src/anime_core/resilience.py:99-105 | A success resets the count and closes, also from open |
| CircuitBreaker.AsyncCircuitBreaker.Failed | packages/core/src/anime_core/resilience.py:107-112 | A failure counts and, from `fail_max` on, opens and restarts the timeout |
| CircuitBreaker.AsyncCircuitBreaker.Call | packages/core/src/anime_core/resilience.py:88-97 | A call is invoked unless the breaker is open, and settles the breaker as other calls left it meanwhile; cancellation counts as neither outcome |
| CircuitBreaker.AsyncCircuitBreaker.Overlap | packages/core/src/anime_core/resilience.py:78-115 | Other calls act on the breaker as the events of a history do |
| LlmStack.StackIsFlat | packages/core/src/anime_core/llm_client.py:341-505 | The nested budget, venue, tiered and guarded clients do the same calls and give the same reply as one ordered policy over at most four legs, whatever other requests do to the breakers meanwhile |
| LlmStack.FirstLegExactly | packages/core/src/anime_core/venue.py:137-139 | The venue is first exactly if it is enabled and the published confidence reaches the threshold; else the escalation or default tier by the difficulty heuristic; the budget fires exactly when int(words * 1.5) exceeds it |
| LlmStack.NextLegExactly | packages/core/src/anime_core/llm_client.py:345-395 | The venue and the primary are followed on an error or an empty answer, a parse failure of the primary by asking it once more, unless primary and fallback are the same client |
| LlmStack.AskExactly | packages/core/src/anime_core/llm_client.py:437-442 | Asking a tier polls its breaker; if open nothing else happens; otherwise the provider is invoked, others act on all breakers, and the tier's own records a failure for a raise, nothing for a cancellation and a success for any answer |
| LlmStack.ServeHistory | packages/core/src/anime_core/resilience.py:88-112 | Over any requests one after another, each tier's breaker has exactly the history of its tier's replies and of what other requests did to it |
| LlmStack.FailingTierLeftAlone | packages/core/src/anime_core/resilience.py:88-90 | After requests in which a tier failed fail_max times or more since its last success, no further request invokes it until its timeout |
| LlmStack.FailuresCount | packages/core/src/anime_core/resilience.py:107-112 | Failures with no success among them all count towards fail_max, whatever polls and cancellations stand between |
| LlmStack.TrailFollowsPolicy | packages/core/src/anime_core/llm_client.py:341-395 | The legs asked form a chain in which each next leg is the one the policy names for the reply before it |
| LlmStack.CallsOfTrail | packages/core/src/anime_core/llm_client.py:437-442 | Provider invocations extend the log by at most one for each leg asked |
| LlmStack.CallBound | packages/core/src/anime_core/venue.py:209-250 | At most 4 provider invocations for a request, 3 without the venue, none over budget |
| LlmStack.FirstReplyStands | packages/core/src/anime_core/llm_client.py:382-395 | An answer or refusal of the first leg asked is returned unchanged, with no further call |
| LlmStack.EscapesExactly | packages/core/src/anime_core/llm_client.py:345-371 | An exception escapes exactly when the budget guard fires or the last leg asked raises |
| LlmStack.RefusalSurvivesExactly | packages/core/src/anime_core/llm_client.py:387-395 | A refusal of the last leg is returned if and only if no earlier leg gave an empty answer |
| LlmStack.NoCallThroughOpenBreaker | packages/core/src/anime_core/resilience.py:88-90 | A tier whose breaker is open when the request starts, with its timeout not elapsed when it ends, is not invoked by the whole stack, whatever the other tiers do and however other requests poll or fail that breaker |
| LlmStack.QuietKeepsShut | packages/core/src/anime_core/resilience.py:78-115 | Polls before the timeout and failures of other requests keep an open breaker open |
| LlmStack.NoCallWithAllOpen | packages/core/src/anime_core/llm_client.py:345-371 | With every breaker open no call is made at all and the request ends in the breaker's error |
| LlmStack.VenueCounters | packages/core/src/anime_core/venue.py:215-248 | The attempt counter grows by one for a request sent to the venue, the fallback counter by one exactly when it falls through |
| LlmClient.Client.Guarded | packages/core/src/anime_core/llm_client.py:437-442 | The guarded tier polls its breaker, awaits the provider while other requests act on all breakers, and settles its own, as the step function says |
| LlmClient.Client.TieredRecommend | packages/core/src/anime_core/llm_client.py:341-395 | Primary, one re-ask on a parse failure, fallback on other errors or an empty answer |
| LlmClient.Client.VenueRecommend | packages/core/src/anime_core/venue.py:209-250 | Venue first for confident queries, with counters, then the hosted chain |
| LlmClient.Client.BudgetedRecommend | packages/core/src/anime_core/llm_client.py:496-505 | Over budget raises before any call; otherwise the composition below |
| LlmStreams.StreamsAreFlat | packages/core/src/anime_core/llm_client.py:397-416 | The nested streaming layers amount to opening the legs in order until one does not raise before its first token |
| LlmStreams.NeverSplices | packages/core/src/anime_core/venue.py:252-285 | The text a reader sees is a prefix of exactly one leg's stream, whole unless the reader left; every leg before it yielded nothing; a notice follows exactly when that leg raised, or none was opened, with the reader still there |
| LlmStreams.OneVoiceInOrder | packages/core/src/anime_core/llm_client.py:400-413 | Of the legs opened in order all but the last raised before a token |
| LlmStreams.TieredAstream | packages/core/src/anime_core/llm_client.py:397-416 | The generator yields what its specification says, up to what the reader takes |
| LlmStreams.VenueAstream | packages/core/src/anime_core/venue.py:252-285 | Likewise with the venue in front |
| LlmStreams.Relay | packages/core/src/anime_core/llm_client.py:444-446 | Re-yielding passes on every token in order and the same ending |
| LlmStreams.ServiceAstream | packages/retrieval/src/anime_retrieval/service.py:331-336 | Over the whole stack the reader sees what the nested layers yield, with the notice |
| LlmStreams.WithNotice | packages/retrieval/src/anime_retrieval/service.py:331-336 | The service passes the tokens on and adds one notice when the stream raises with the reader still there |
| Fusion.Fuse | packages/retrieval/src/anime_retrieval/hybrid.py:41-75 | The accumulator loop and stable sort give each key's closed-form score sum, first text and leg scores, in stable descending order, cut to top_k |
| FusionLaws.LegScoreAt | packages/retrieval/src/anime_retrieval/hybrid.py:51-61 | In a duplicate-free leg a listed key scores 1 / (k + place + 1) |
| FusionLaws.FusedExactly | packages/retrieval/src/anime_retrieval/hybrid.py:51-73 | From duplicate-free legs a fused candidate has the dense leg's text if listed there, else the sparse leg's, each leg's own score, the sum of the reciprocal ranks and no later score |
| Fusion.Absent | packages/retrieval/src/anime_retrieval/hybrid.py:51-61 | A key that a leg does not list scores 0 from it and has no score of it |
| FusionLaws.BetterIsEarlier | packages/retrieval/src/anime_retrieval/hybrid.py:74-75 | A key that scores more, or ties and was inserted earlier, precedes any other fused key |
| FusionLaws.ConsensusPrecedes | packages/retrieval/src/anime_retrieval/hybrid.py:51-75 | With duplicate-free legs no longer than k + 1, every key found by both legs precedes every key found by one |
| FusionLaws.ConsensusExactly | packages/retrieval/src/anime_retrieval/hybrid.py:51-75 | For legs of bounded length this holds for all legs if and only if the bound is at most k + 1 |
| FusionLaws.LongLegsFail | packages/retrieval/src/anime_retrieval/hybrid.py:51-75 | With legs of k + 2, concrete lists put a single-leg key first |
| FusionLaws.OneLegKeepsOrder | packages/retrieval/src/anime_retrieval/hybrid.py:41-75 | Fusing with an empty leg returns the other leg's order, cut to top_k |
| Ranking.RankIsRanking | packages/retrieval/src/anime_retrieval/hybrid.py:74 | The sort is a permutation in descending order with ties in insertion order |
| Ranking.GreedyIsPrefix | packages/retrieval/src/anime_retrieval/hybrid.py:74-75 | Picking each time what comes before everything left gives a prefix of that order, so it is unique |
| Mmr.Select | packages/retrieval/src/anime_retrieval/mmr.py:44-87 | Returns min(k, n) picks, each maximising the marginal score over what remains with ties to the lowest index, with that score recorded; the two argument errors exactly when they apply |
| Mmr.FindBest | packages/retrieval/src/anime_retrieval/mmr.py:68-80 | The inner loop finds the best remaining candidate, ties to the lowest index |
| Mmr.MarginalExactly | packages/retrieval/src/anime_retrieval/mmr.py:71-77 | That score is relevance for the first pick, and after it lambda times relevance less (1 - lambda) times the similarity to the most similar of all selected |
| Mmr.MaxSimExactly | packages/retrieval/src/anime_retrieval/mmr.py:75-76 | The maximum is over everything selected, and reached |
| Mmr.PicksDistinct | packages/retrieval/src/anime_retrieval/mmr.py:83-84 | No candidate is picked twice |
| Mmr.ScoresFall | packages/retrieval/src/anime_retrieval/mmr.py:74-85 | Recorded scores never rise from the second pick on |
| Mmr.RelevanceOnly | packages/retrieval/src/anime_retrieval/mmr.py:67-87 | With lambda = 1 the selection is the stable top-k by relevance |
| Mmr.FirstPickMostRelevant | packages/retrieval/src/anime_retrieval/mmr.py:72-73 | Whatever lambda is, the first pick is the most relevant candidate, ties to the lowest index |
| Mmr.GreedyUnique | packages/retrieval/src/anime_retrieval/mmr.py:67-87 | The selection of a given length is unique |
| Metrics.NdcgAtK | packages/eval/src/anime_eval/metrics.py:64-74 | The loop computes discounted gain over ideal gain, 0 without expectations or ideal |
| Metrics.NdcgExactly | packages/eval/src/anime_eval/metrics.py:64-74 | It is 0 if nothing is expected or looked at, else gain in units of a positive ideal gain of min(k, number expected) hits |
| Metrics.TopKExactly | packages/eval/src/anime_eval/metrics.py:27-28 | The slice is the first k items, or all but the last -k, as far as there are any |
| Metrics.Mrr | packages/eval/src/anime_eval/metrics.py:54-61 | The loop computes the reciprocal of the first relevant rank |
| Metrics.MrrIsFirst | packages/eval/src/anime_eval/metrics.py:58-60 | It is the reciprocal of the rank of the first relevant item |
| Metrics.MrrZeroExactly | packages/eval/src/anime_eval/metrics.py:56-61 | It is 0 if and only if no item is relevant |
| Metrics.DcgAtMostIdeal | packages/eval/src/anime_eval/metrics.py:68-73 | Gain is at most that of as many hits at the top, with equality exactly when they are at the top |
| Metrics.HitsAtMostExpected | packages/eval/src/anime_eval/metrics.py:72 | A duplicate-free list hits no more than was expected |
| Metrics.NdcgInRange | packages/eval/src/anime_eval/metrics.py:64-74 | nDCG of a duplicate-free ranking lies in [0, 1] |
| Metrics.NdcgPerfectExactly | packages/eval/src/anime_eval/metrics.py:64-74 | It is 1 if and only if the first min(k, number expected) places are all relevant |
| Metrics.NdcgSwap | packages/eval/src/anime_eval/metrics.py:64-74 | Moving a relevant item up past an irrelevant neighbour never lowers it |
| Metrics.MrrSwap | packages/eval/src/anime_eval/metrics.py:54-61 | MRR obeys the same swap law |
| Hybrid.HybridRetriever.RunLeg | packages/retrieval/src/anime_retrieval/hybrid.py:141-146 | A guarded leg fails on an open breaker, an unusable session or its own error, and settles its breaker |
| Hybrid.HybridRetriever.Recover | packages/retrieval/src/anime_retrieval/hybrid.py:107-114 | The hook makes the session usable if it rolls back, and its failure is swallowed |
| Hybrid.HybridRetriever.Retrieve | packages/retrieval/src/anime_retrieval/hybrid.py:116-186 | Both legs, recovery after each failure, and the fusion of what succeeded, as one step of breakers and session; unavailable exactly when both legs fail |
| Hybrid.ServedExactly | packages/retrieval/src/anime_retrieval/hybrid.py:140-186 | Served are the hits of each search whose breaker polls not open, whose turn comes on a usable session and which finds hits, and nothing of the other; no leg is left exactly if neither counts |
| Hybrid.BreakersFollow | packages/retrieval/src/anime_retrieval/hybrid.py:141-176 | Each breaker is polled when its leg starts and, unless open, told of a success, failure or cancellation as the search went |
| Hybrid.HookHealsExactly | packages/retrieval/src/anime_retrieval/hybrid.py:149-176 | With a hook that rolls back, a retrieval leaves the session usable, whatever state it found it in, if and only if no leg was cancelled in a way that spoiled it |
| Hybrid.LegsIndependent | packages/retrieval/src/anime_retrieval/hybrid.py:136-179 | So after any run that ended with a healed session, retrieval is unavailable exactly when each leg has its own breaker open or its own search fail |
| Hybrid.SpoiledForGood | packages/retrieval/src/anime_retrieval/hybrid.py:96-101 | Without rolling back, a spoiled session stays unusable and every later retrieval is unavailable |
| Pipeline.DedupByAnime | packages/retrieval/src/anime_retrieval/pipeline.py:56-65 | The loop keeps the first chunk of each anime |
| Pipeline.DedupExactly | packages/retrieval/src/anime_retrieval/pipeline.py:56-65 | Dedup keeps one chunk for every anime there is, the one that comes first, and no anime twice |
| Pipeline.DedupInOrder | packages/retrieval/src/anime_retrieval/pipeline.py:56-65 | Dedup keeps the order of what it keeps |
| Pipeline.Finish | packages/retrieval/src/anime_retrieval/pipeline.py:173-236 | Rerank or hybrid order, cut, drop what has no embedding, greedy diversification, scores and ranks; the error cases exactly |
| Pipeline.Retrieve | packages/retrieval/src/anime_retrieval/pipeline.py:116-236 | Embedding failure and double leg failure give unavailable; a session left unusable fails the embedding query; otherwise the stages above on the fused hits |
| Pipeline.ResultInvariant | packages/retrieval/src/anime_retrieval/pipeline.py:173-236 | Whatever fails, a returned list has at most final_k candidates, ranks 1 to n, pairwise distinct anime, each the best-fused chunk of its anime |
| Pipeline.FusedDescends | packages/retrieval/src/anime_retrieval/hybrid.py:74-75 | Fused hits come in descending order of score, with no later score set |
| Pipeline.RerankExactly | packages/retrieval/src/anime_retrieval/pipeline.py:189-213 | Reranking is the stable descending order by score, cut to rerank_k, each candidate with its score; on failure or a wrong number of scores the hybrid order is kept |
| Pipeline.AlignedExactly | packages/retrieval/src/anime_retrieval/pipeline.py:221-224 | Exactly the candidates with a stored embedding go on to diversification, in their order |
| Pipeline.PickedScores | packages/retrieval/src/anime_retrieval/pipeline.py:226-236 | The first candidate returned records its relevance to the query, each later one lambda times its relevance less the rest times its similarity to the most similar one before it |
| Pipeline.ScoredExactly | packages/retrieval/src/anime_retrieval/pipeline.py:189-213 | All returned candidates carry a rerank score, if the reranker scored all it was given, or none does |
| Chunker.PackSentences | packages/ingestion/src/anime_ingestion/chunker.py:33-62 | The loop's chunk texts are those of the recursive packing |
| Chunker.BuildOverlap | packages/ingestion/src/anime_ingestion/chunker.py:48-54 | The backwards loop collects the fitting tail and its size |
| Chunker.TailIsLongestFit | packages/ingestion/src/anime_ingestion/chunker.py:47-54 | The overlap is the longest suffix of the previous chunk within the budget |
| Chunker.PackLossless | packages/ingestion/src/anime_ingestion/chunker.py:44-62 | The new parts of the chunks concatenate to the input sentences in order |
| Chunker.PackedTexts | packages/ingestion/src/anime_ingestion/chunker.py:44-62 | Each text is its overlap, a space and its new sentences; without the overlaps the texts joined by spaces are all sentences joined by spaces, in order |
| Chunker.JoinSpaceAppend | packages/ingestion/src/anime_ingestion/chunker.py:46 | Joining keeps the order with one space between |
| Chunker.PackShape | packages/ingestion/src/anime_ingestion/chunker.py:44-62 | Each chunk is the overlap of the one before followed by at least one new sentence, and was opened only because the sentence did not fit |
| Chunker.ChunksBounded | packages/ingestion/src/anime_ingestion/chunker.py:33-62 | Every chunk is at most max(TARGET_CHARS, OVERLAP_CHARS + longest sentence + 1) - 1 long |
| Chunker.BoundReached | packages/ingestion/src/anime_ingestion/chunker.py:44-58 | That bound is reached by some sentences for every longest length from TARGET_CHARS - OVERLAP_CHARS on |
| Chunker.TargetExactly | packages/ingestion/src/anime_ingestion/chunker.py:33-62 | The docstring's limit of 2000 characters holds for all lists if and only if no sentence is longer than 1700 |
| Chunker.SentencesKeepText | packages/ingestion/src/anime_ingestion/chunker.py:26-30 | Sentence splitting keeps every visible character in order |
| Chunker.SentencesSplitRight | packages/ingestion/src/anime_ingestion/chunker.py:26-30 | The text is split at every end mark followed by white space and nowhere else: it is the sentences with white space around them, some between any two, each but the last ends with an end mark and none holds such a place or is blank |
| Chunker.ChunkAnime | packages/ingestion/src/anime_ingestion/chunker.py:65-94 | Chunks are numbered from 0, carry the header and one packed piece each, and know how many there are; after the header a text's visible characters are those of its overlap, then of its new sentences, and of the whole synopsis if there is one chunk |
| Chunker.HeaderLines | packages/ingestion/src/anime_ingestion/chunker.py:71-72 | The header names the title, then the genres in order, or that they are unknown |
| Chunker.OneChunkKeepsText | packages/ingestion/src/anime_ingestion/chunker.py:75-80 | A synopsis that makes one chunk is all in its text |
| Chunker.BlankSynopsis | packages/ingestion/src/anime_ingestion/chunker.py:73-76 | A synopsis without sentences makes one chunk of it, cut to TARGET_CHARS |
| Chunker.ChunkingKeepsText | packages/ingestion/src/anime_ingestion/chunker.py:65-94 | No visible character of a synopsis is lost or reordered |
| Cache.InMemoryCache.Get | packages/core/src/anime_core/cache.py:79-87 | Returns the live value; dropping an expired entry changes nothing any later read can see |
| Cache.InMemoryCache.SetNx | packages/core/src/anime_core/cache.py:93-100 | Succeeds exactly when the key is not live, and otherwise leaves it as it was |
| Cache.InMemoryCache.IncrWithTtl | packages/core/src/anime_core/cache.py:114-124 | Counts up keeping the first expiry, starts at 1 with a new one when not live, fails on text |
| Cache.RedisCache.IncrWithTtl | packages/core/src/anime_core/cache.py:185-198 | Counts up and pushes the expiry on each time; 0 when the server fails |
| Quota.SecondsLeft | packages/core/src/anime_core/quotas.py:61-68 | The time to live, also the Retry-After, is between 1 and 86400 seconds |
| Quota.SecondsLeftExactly | packages/core/src/anime_core/quotas.py:61-68 | It is the whole seconds left of the day, rounded down, and 1 in the last second |
| Quota.CallKeyExactly | packages/core/src/anime_core/quotas.py:57-59 | Two calls share a counter if and only if one user makes both on one UTC day |
| Quota.QuotaCounter.IncrAndCheck | packages/core/src/anime_core/quotas.py:70-91 | The gate's result follows the counter of the user's day under the cache's expiry policy; a cache that is off or down counts 0 and admits |
| Quota.CounterTracks | packages/core/src/anime_core/quotas.py:83-85 | While all calls of a key come by one second before midnight its counter is alive, right and expires no earlier |
| Quota.CountIsOrdinal | packages/core/src/anime_core/quotas.py:83-91 | Under both policies and any interleaving of users, the n-th such call is given count n |
| Quota.EarlyAdmissions | packages/core/src/anime_core/quotas.py:86-91 | Exactly min(n, limit) of them are admitted |
| Quota.DayAdmitsAtMostTwice | packages/core/src/anime_core/quotas.py:61-91 | A user is admitted at most 2 * limit times in one day |
| Quota.LapseBeforeMidnight | packages/core/src/anime_core/quotas.py:66-68 | The bound is reached: a concrete pair of calls in the last two seconds is admitted twice with limit 1 |
| Quota.FixedExactly | packages/core/src/anime_core/cache.py:114-124 | In memory, all counts of a key up to a call are right if and only if that call comes before the first one's time to live runs out |
| Quota.RefreshedExactly | packages/core/src/anime_core/cache.py:185-198 | In Redis, all counts of a key so far are right if and only if each of its calls comes before the time to live given by the key's call before it runs out |
| Quota.RefreshedTracks | packages/core/src/anime_core/cache.py:191-195 | Until then the counter is alive and right and expires as the last increment set it |
| Embedder.CachingEmbedder.Embed | packages/core/src/anime_core/embedder.py:53-74 | A text is found exactly if the cache held it and has not forgotten it when asked; only the others are sent, in order, and nothing when all are found; the answer is the inner embedder's for the whole batch in input order; a wrong number of answers is an error; the cache then holds exactly what the writes and what it forgets leave, stays honest, and after an answered call that forgets nothing holds the whole batch, so that the same call again sends nothing |
| Embedder.CachingEmbedder.LookUp | packages/core/src/anime_core/embedder.py:54-56 | Finds exactly what the cache held and has not forgotten when asked, and leaves the rest as it is |
| Embedder.CachingEmbedder.Fill | packages/core/src/anime_core/embedder.py:65-67 | Answers go to the places that were missing, in order, and each into the cache under its text |
| Embedder.CachingEmbedder.Collect | packages/core/src/anime_core/embedder.py:69 | The values are collected in input order |
| Embedder.FilledExactly | packages/core/src/anime_core/embedder.py:65-67 | After the writes the cache holds a text if and only if it was written and not forgotten since, or was there and not forgotten |
| Embedder.RemainingExactly | packages/core/src/anime_core/embedder.py:55 | After the lookups it holds what it held and has not forgotten |
| QueryKey.NormalForm | packages/core/src/anime_core/caches.py:66-81 | The normal form of a query is its lower-case words with single spaces |
| QueryKey.NormalizeIdempotent | packages/core/src/anime_core/caches.py:66-81 | Normalising twice is normalising once |
| QueryKey.SameFormExactly | packages/core/src/anime_core/caches.py:66-81 | Two queries have the same normal form if and only if they have the same words in the same order, but for case |
| QueryKey.SharedEntryExactly | packages/core/src/anime_core/caches.py:125-130 | Two requests share a response entry if and only if they have the same tenant segment and the same words, whatever characters the tenant holds |
| QueryKey.SegmentExactly | packages/core/src/anime_core/caches.py:130 | No tenant, the empty one and one named anon share a segment; any two others do not |
| AsciiText.WordExactly | packages/core/src/anime_core/caches.py:62 | A word character is, by code, a digit, a letter, the underscore, or beyond ASCII |
| AsciiText.LowerCharExactly | packages/core/src/anime_core/caches.py:79 | A capital becomes its small letter and nothing else changes |
| AsciiText.BlankExactly | packages/core/src/anime_core/caches.py:63 | White space is, by code, tab to carriage return, the four separators and the space |
| AsciiText.StripExactly | packages/core/src/anime_core/caches.py:79-81 | Stripping takes all white space off both ends and nothing else |
| QueryKey.EmbeddingEntriesApart | packages/core/src/anime_core/caches.py:94-101 | Each text has its own embedding entry, apart from every response entry |
| CachedService.CachedRecommendationService.constructor | packages/retrieval/src/anime_retrieval/cached_service.py:43-50 | The service may start over a cache that already holds answers, of any kind of entry beside them, as long as the answers were given |
| CachedService.CachedRecommendationService.Get | packages/core/src/anime_core/caches.py:132-134 | A hit was given before by an inner service to the same tenant segment for the same words, not degraded and not over a day ago |
| CachedService.CachedRecommendationService.Recommend | packages/retrieval/src/anime_retrieval/cached_service.py:52-63 | A hit is such an answer; a miss returns the inner answer and keeps it for a day from when it is stored, unless it is degraded; no other entry changes |
| CachedService.CachedRecommendationService.Astream | packages/retrieval/src/anime_retrieval/cached_service.py:65-74 | A hit is replayed with the same guarantee; a miss stores nothing |
| CachedService.CachedRecommendationService.Evict | packages/core/src/anime_core/caches.py:122-139 | The guarantee survives dropping any entries |
| Erasure.RunErases | packages/core/src/anime_core/rtbf.py:133-141 | The four deletes with their cascades leave exactly the rows that do not concern the user |
| Erasure.ErasureIsExact | packages/core/src/anime_core/rtbf.py:48-53 | Row by row: nothing names the user, the user's rows are gone rather than unlinked, every other row is unchanged except feedback on erased history, which is gone |
| Erasure.DeleteKeepsIntegrity | packages/core/src/anime_core/db/models.py:99-121 | Every single delete, with CASCADE and SET NULL, keeps referential integrity |
| Erasure.RunKeepsIntegrity | packages/core/src/anime_core/rtbf.py:133-141 | So integrity holds after any sequence of the deletes |
| Erasure.DryRunPredicts | packages/core/src/anime_core/rtbf.py:135-138 | When a table's turn comes the database counts what it counted before any delete |
| Erasure.RerunIsNoOp | packages/core/src/anime_core/rtbf.py:143-158 | Running again finds nothing, changes nothing and keeps the first audit row |
| Erasure.ErasuresCommute | packages/core/src/anime_core/rtbf.py:133-141 | Erasing two users gives the same tables in either order |
| Erasure.UsersFirstExactly | packages/core/src/anime_core/rtbf.py:45-53 | Deleting the users row first reaches the same tables if and only if the user had no history and no feedback |
| Erasure.ReportedTotalExactly | packages/core/src/anime_core/rtbf.py:68-70 | The reported total is the number of rows removed if and only if nobody else's feedback hangs on the user's history, and never more |
| Erasure.TotalFallsShort | apps/api/src/anime_api/routes/feedback.py:34-40 | Concrete consistent tables in which it falls short: one user's feedback on another's history |
| Erasure.DeleteUser | packages/core/src/anime_core/rtbf.py:95-166 | The loop of counts and deletes, audit row and commit: live and dry runs report each table's count before any delete, a finished run stores the erasure, a Clerk or database failure stores nothing, and the database fails the run exactly if it fails one of the statements a whole run sends |
| Erasure.EraseTable | packages/core/src/anime_core/rtbf.py:135-141 | One table's turn: its count, then its delete if the run is live and there is something to delete; no result exactly if either statement fails |
| Erasure.HandleGdprDelete | apps/worker/src/anime_worker/handlers/gdpr_delete.py:27-39 | The worker's deletes store the same user tables, or nothing exactly if one of its statements or the commit fails; a payload without user is rejected |
| Grounding.GroundRecommendations | packages/retrieval/src/anime_retrieval/service.py:133-160 | The loop grounds each item by id, else by title, else drops it |
| Grounding.MatchTitle | packages/retrieval/src/anime_retrieval/service.py:163-173 | Through the dict: an exact title first, else the first similar candidate's title; either way the last candidate that bears it |
| Grounding.MatchedExactly | packages/retrieval/src/anime_retrieval/service.py:163-173 | The match is the last bearer of the title; without one, the last bearer of the title of the first candidate whose title is like it; nothing for a blank title or if nothing is like it |
| Grounding.SimilarExactly | packages/retrieval/src/anime_retrieval/service.py:171 | Similar means that one title is the other with something before and after it |
| Grounding.BuildIndex | packages/retrieval/src/anime_retrieval/service.py:146-149 | The dict keeps the place of a title's first candidate and the id of its last |
| Grounding.FirstKeyIsFirstSimilar | packages/retrieval/src/anime_retrieval/service.py:170-172 | Going through the keys finds the title of the first similar candidate |
| Grounding.GroundOneExactly | packages/retrieval/src/anime_retrieval/service.py:151-159 | An item survives exactly when its id was retrieved or its title matches; only the id may change, only if it was not retrieved, and the new one was |
| Grounding.KeptInOrder | packages/retrieval/src/anime_retrieval/service.py:151-160 | The grounded list keeps the order of the items, and whatever is missing could not be grounded |
| Grounding.GroundingIdempotent | packages/retrieval/src/anime_retrieval/service.py:133-160 | Grounded ids were all retrieved, there are at most five items, and grounding again changes nothing |
| Schemas.ValidatedExactly | packages/core/src/anime_core/schemas.py:62-68 | Validation keeps the first five items, all if there are no more |
| Schemas.OfExactly | packages/core/src/anime_core/schemas.py:105-108 | A wrapped answer keeps its items, and its refusal exactly if it has no items and one that is not blank |
| Grounding.TitleRoundTrip | packages/retrieval/src/anime_retrieval/service.py:125-130 | The title read from a chunk is the first line of the name that the chunker wrote into its header |
| Grounding.RightTitleIsGrounded | packages/retrieval/src/anime_retrieval/service.py:136-157 | A recommendation that names a retrieved anime, in any case, is never dropped, whatever id the model gave; the id it ends with bears the title if and only if the model's id was not retrieved or bears the title itself |
| Grounding.WrongIdStands | packages/retrieval/src/anime_retrieval/service.py:151-155 | The right title with another retrieved anime's id keeps the wrong id, in a concrete answer |
| Service.TopRerankConfidence | packages/retrieval/src/anime_retrieval/service.py:102-110 | The loop returns the first rerank score there is |
| Service.Recommend | packages/retrieval/src/anime_retrieval/service.py:206-291 | The branches give the decided answer, and ask the model exactly when the request reaches it |
| Service.Astream | packages/retrieval/src/anime_retrieval/service.py:293-336 | For a reader that takes any number of chunks, the streaming branches give the decided chunks, and ask the model exactly when the request reaches it |
| Service.AnswerContract | packages/retrieval/src/anime_retrieval/service.py:206-291 | Every result is a refusal, a degraded answer or a grounded one, never two of them, and which one is decided exactly by the request and the model's reply |
| Service.EarlyExactly | packages/retrieval/src/anime_retrieval/service.py:206-256 | The model is reached exactly if generation is enabled, no named title is missing, retrieval found candidates and the first rerank score there is, if any, is not below the floor; every other branch gives its very message at both entry points |
| Service.LateExactly | packages/retrieval/src/anime_retrieval/service.py:262-291 | The model's failure, refusal, ungrounded and grounded answers give each its very result |
| Service.StreamExactly | packages/retrieval/src/anime_retrieval/service.py:331-336 | A reader of the stream gets the model's tokens in order, as many as it takes, and a notice after them exactly if the model then raised with the reader still there; a cancellation escapes |
| Service.FirstScoreExactly | packages/retrieval/src/anime_retrieval/service.py:102-110 | The confidence is the score of the first candidate that has one, none if none has |
| Service.EntryPointsAgree | packages/retrieval/src/anime_retrieval/service.py:294-336 | The model is asked by both entry points or by neither; otherwise both give the same refusal, notice or error |
| Service.ConfidenceIsFirst | packages/retrieval/src/anime_retrieval/service.py:86-110 | On the pipeline's results the confidence is the first candidate's score or nothing, so a failed reranker never causes a refusal |

## Left out

- SQS, Redis, Postgres, Clerk and the model providers appear only through the outcomes of single steps: success, failure,
  loss, delay.
- Float rounding and NaN: scores, similarities and times are reals.
- Cosine similarity, the embedding model, the cross-encoder, log2 and SHA-256 are abstract: a similarity function, a
  positive decreasing discount, an injective hash of fixed length.
- Sse.ReadStream: reads are cut between characters, as the streaming TextDecoder delivers them; HTTP errors, 429 and abort
  are not modelled.
- QueryKey.NormalForm: Unicode NFKC and case folding beyond ASCII are not modelled; other characters count as letters
  without case.
- QueryKey.NormalizeIdempotent: within ASCII, for the same reason.
- QueryKey.SameFormExactly: within ASCII, for the same reason.
- QueryKey.SharedEntryExactly: within ASCII, for the same reason.
- Grounding.RightTitleIsGrounded: titles are lower-cased and stripped within ASCII only, as everywhere in `Grounding`.
- Chunker.SentencesKeepText: white space is the ASCII set of Python's `strip` and `\s`, not all of Unicode; a missing
  synopsis is the empty one; of a chunk's metadata only the number of chunks is kept.
- Sse.ParseSSEFrame: `trim` knows the white space of Latin-1 and the byte order mark, not all of Unicode.
- WorkerProtocol.ConservationExactly: idempotency keys and message ids are numbers, the redrive count of SQS is a free
  choice rather than a counter, and a dead letter is replayed only once its original is gone from the main queue.
- Worker.Consumer.HandleBatch: no other worker acts between the steps of this one; the interleavings are those of
  `WorkerProtocol`, whose steps these are.
- LlmStack.StackIsFlat: a provider's reply and duration are a function of the tier and of how many invocations came before;
  other requests act on the breakers only while a provider is awaited, which is where the event loop can switch; the
  difficulty heuristic and the word count are inputs.
- LlmStack.VenueCounters: counts one request's own attempts and fall-throughs, not those of others that share the counters.
- CircuitBreaker.RateBound: says nothing of overlapping calls, which can let more through.
- Quota.QuotaCounter.IncrAndCheck: a Redis pipeline that fails after taking effect counts as not having taken effect; a
  stored text that happens to be digits is not read as a number.
- Quota.DayAdmitsAtMostTwice: covers calls the cache carries out by midnight; one delayed past it starts a new counter.
- Embedder.CachingEmbedder.Embed: token counts and latencies of the result are dropped.
- CachedService.CachedRecommendationService.Astream: the text of the replay is not modelled, only the answer replayed.
- CachedService.CachedRecommendationService.Recommend: whatever others write under response keys is taken to be an answer
  that was given, and JSON reading to undo JSON writing.
- Pipeline.Retrieve: cancellation is modelled inside the two legs only.
- Service.Recommend: the text of notices and refusals, the context given to the model and `accumulate` are not modelled;
  the catalogue's verdict and the kill switch are inputs.
- Erasure.DeleteUser: each run is one transaction with no concurrent writer.
- The web pages, authentication, logging, metrics, redaction, pricing, recall and precision, and the evaluation gate: only
  easy members.
