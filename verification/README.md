# Verification model of the dual query engine

This project models the logic around the engine's libraries and proves what that logic promises. The
databases, the neural models, the JSON codecs and the wall clock enter as parameters; everything the
repository itself decides is modelled, branch by branch.

Six components, one or more modules each:

| component | modules | what is proved |
|---|---|---|
| ingestion | `Ingestion` | A best-effort lookup, per-batch deduplication and a merge-insert refine "insert each row if its key is absent", for every batch size, every lookup failure, every crash point. |
| semantic cache | `Recency`, `Cache`, `CacheRuns` | The timestamp scan is least-recently-used replacement; exact characterisations of both lookup tiers, of residency, of hits; inclusion between caches of different capacities. |
| query pipeline | `Firewall`, `QueryPipeline`, `PipelineCall`, `PipelineRuns` | Fence stripping and the quote check; grounding of everything cached or returned, for every interleaving of calls and every model output; what each call must answer and leave in the cache; exact hits of calls in sequence; exactly when interleaved calls keep cached queries inequivalent; what a call that finds nothing has proved. |
| retrieval ranking | `Sorting`, `RankFusion`, `Rerank`, `HybridSearch`, `Exclusion` | The fused ranking is unique and conserves score; order laws; exact selection; exactly which filter lists keep excluded terms out; stable top-k re-ranking. |
| printers and readers | `FallbackSql`, `Framing` | The printed SQL text is lexed and evaluated back to "contains all words"; the framed array reads back to the records. |
| embeddings | `Reals`, `Embeddings` | Buffer indexing; normalisation over the reals, and the distance bound it gives to the cache. |

`Outcomes`, `Sequences` and `Text` hold shared datatypes and functions.

Code that works by changing state is a class or a method with a loop, proved equal to a function of
the old state; the properties are proved about those functions. A run of the pipeline is modelled
twice: as structured code on the cache object (`RunSemanticPipeline`) and as a step machine, so that
calls may interleave; the first is proved to be the second run alone. What a call must answer is stated
apart from both, over the inputs it was given (`PipelineCall.IsAnswer`).

## Where the code and its documentation differ

- `architecture.md:59` and the log line at `src/pipelines/query/mod.rs:256` say that an empty fallback
  answer proves absence. For a blank intent the printed condition is `1=0`, so the answer is empty
  whatever is stored: `FallbackSql.AbsenceProof` shows that the proof is sound exactly when the intent
  has a word or nothing is stored. In a dialect whose LIKE has an escape character by default, a word
  that uses it may fail to match a sentence containing it (`FallbackSql.EscapeLosesContainment`);
  `FallbackSql.ContainmentMatchesExactly` says for which words that cannot happen.
- A `NOT` filter followed by a positive filter need not keep its term out of the result, because the
  later fetch puts dropped chunks back: excluding Berlin and then asking for Acme returns the customer
  Acme in Berlin (`Exclusion.BerlinLeaks`). `Exclusion.ExclusionExactly` says for exactly which filter
  lists exclusion holds over stored customers and their rendered chunks.
- A customer's own name can fail to find it, because the fallback search returns five rows at most:
  `FallbackSql.StoredCustomerIsFound` gives the exact condition.
- Two calls for the same query that interleave both miss and both insert, so the cache can hold
  equivalent queries (`PipelineRuns.InterleavedCallsDuplicate`). `PipelineRuns.InequivalentExactly` says
  exactly when a run does not, and `PipelineRuns.NoOverlapIsSerial` gives a schedule that rules it out.
- A larger cache can lose an exact hit that a smaller one keeps, because the similarity tier may refresh
  different entries (`CacheRuns.LargerCacheCanMiss`); `CacheRuns.LargerCacheIncludes` gives the exact
  condition, and `PipelineRuns.LargerHitsMore` a workload without the anomaly.
- With `overwrite`, the table is dropped before the CSV file is opened, so a missing file leaves no
  table (`Ingestion.ExecuteIngestion`). A failing drop is ignored.
- `EmbeddingBatch::into_vecs` returns no rows when the dimension is zero, whatever the count
  (`Embeddings.IntoVecsConcat`).

## Model

| member | source | states |
|---|---|---|
| Ingestion.FindExistingInDb | src/pipelines/ingest/dedup.rs:9-35 | Whatever fails on the way, the answer holds only keys that are stored, and all those that the stream delivered. |
| Ingestion.MergePendingIsInsertAll | src/pipelines/ingest/chunker.rs:88-117 | For every sound lookup answer, however partial, merging the deduplicated rest of a batch gives the same table as inserting its rows one by one if absent. |
| Ingestion.InsertAllMeaning | src/pipelines/ingest/chunker.rs:94-98 | The insert-if-absent table is the old table followed by the rows whose key is neither stored nor used by an earlier row: first occurrence wins, in first-occurrence order. |
| Ingestion.InsertAllDescribes | src/pipelines/ingest/chunker.rs:100-108 | Old rows stay; every new one has the key, name and city of the first row of the file with its key, each "Unknown" when missing, and the sentence that names the four fields in their places. |
| Ingestion.InsertAllKeepsDistinctKeys | src/engines/vector.rs:53-62 | Keys stay distinct. |
| Ingestion.PendingCountsGrowth | src/pipelines/ingest/chunker.rs:119 | The count of a batch is at least the growth of the table, and equals it if and only if the lookup returned every stored key of the batch. |
| Ingestion.InsertBatch | src/engines/vector.rs:14-64 | Merge into the table or create it; on any error, unequal columns included, the table is unchanged. |
| Ingestion.CollectPending | src/pipelines/ingest/chunker.rs:90-109 | The two parallel columns, zipped, are the customers of the rows that are neither known nor repeated, and each describes, field by field and in its sentence, the first row of the batch with its key. |
| Ingestion.ProcessCurrentBatch | src/pipelines/ingest/chunker.rs:74-120 | A batch that succeeds inserts its rows if absent, one that fails changes nothing; it succeeds if and only if nothing is new, or the new rows fit the embedding limit and both model and write work; the count is that of the new rows, bounds the growth, and is exact if and only if the lookup covered the stored keys. |
| Ingestion.ProcessCsvInBatches | src/pipelines/ingest/chunker.rs:34-72 | For every batch size and lookup behaviour, success gives the plain fold over all rows; failure leaves the table after a whole number of batches; when embeddings and writes work, it succeeds exactly when every row parses; the total covers the growth, and is exact if and only if the lookup of each batch returned every key of it that was stored by then. |
| Ingestion.ExactLookupCovers | src/pipelines/ingest/chunker.rs:81-88 | If every row has a key and the lookup loses nothing it was asked for, it returns every stored key of the batch; so the count is exact. |
| Ingestion.RerunRecovers | src/pipelines/ingest/chunker.rs:45-71 | Ingesting any prefix and then the whole file equals ingesting the file once; a second ingestion of a finished file changes nothing. |
| Ingestion.CrashAndRerun | src/pipelines/ingest/chunker.rs:45-71 | A run that stopped anywhere, followed by a run with any other batch size, ends in the table of one uninterrupted run. |
| Ingestion.ExecuteIngestion | src/pipelines/ingest/mod.rs:21-77 | Out-of-range batch sizes and a failing connection touch nothing; otherwise the table is the fold over the file from the old table or from none, or a whole number of batches of it on failure; the embedding size guard never fires. |
| Text.SplitIsRuns | src/engines/vector.rs:181 | The words of an intent are exactly its maximal runs of non-white-space characters. |
| Text.WhitespaceExactly | src/engines/vector.rs:181 | White space is exactly the 25 code points of the Unicode property. |
| FallbackSql.BuildFallbackSql | src/engines/vector.rs:179-189 | The loop prints the text whose meaning is given by PrintedMeaning. |
| FallbackSql.ConditionMeaning | src/engines/vector.rs:144 | For any term, quotes included, the printed condition lexes and evaluates to one like predicate for that term. |
| FallbackSql.PrintedMeaning | src/engines/vector.rs:179-189 | For every intent the printed text is well-formed SQL, true of a row exactly when there is a word and every word's pattern matches the sentence. |
| FallbackSql.LikeMeansContains | src/engines/vector.rs:182-183 | A word's pattern means "contains the word" on every sentence if and only if the word has no wildcard and no escape character. |
| FallbackSql.ContainmentMatchesExactly | src/engines/vector.rs:182-183 | Every sentence that contains a word matches its pattern if and only if the word matches its own pattern. |
| FallbackSql.NoEscapeMatchesItself | src/engines/vector.rs:182-183 | Words without the escape character match their own pattern, wildcards or not. |
| FallbackSql.EscapeLosesContainment | src/engines/vector.rs:182-183 | With backslash as escape character, a word ending in one misses a sentence that contains it. |
| FallbackSql.AbsenceProof | src/engines/vector.rs:191-205 | If every word matches its own pattern, an empty answer proves that no stored sentence contains all words, exactly when the intent has a word or nothing is stored; for plain words emptiness is equivalent to absence and every returned row contains all words. |
| FallbackSql.AnsweredExactly | src/engines/vector.rs:199-202 | A stored row is among the answers if and only if the printed filter is true of it and of fewer than five rows before it. |
| FallbackSql.StoredCustomerIsFound | src/pipelines/ingest/chunker.rs:104-107 | A stored customer is among the answers to its own name or city if and only if that is not blank and fewer than five customers before it match. |
| Cache.SemanticCache.GetExact | src/engines/cache.rs:30-40 | The first entry whose trimmed query has the same characters up to the case of ASCII letters gives its response and alone is refreshed; without one, nothing changes. |
| Cache.FindExactMeaning | src/engines/cache.rs:32-37 | The exact tier hits the first entry with such a query, and misses if and only if there is none. |
| Cache.EquivalentHitsAlike | src/engines/cache.rs:32-37 | Queries equivalent in that sense have the same hit. |
| Cache.PaddedIsEquivalent | src/engines/cache.rs:32-34 | White space around a query does not matter. |
| Cache.RecasedIsEquivalent | src/engines/cache.rs:34 | Nor does the case of ASCII letters. |
| Cache.ChangedIsNotEquivalent | src/engines/cache.rs:34 | Any other change of a character of a trimmed query does. |
| Cache.SemanticCache.GetSimilar | src/engines/cache.rs:41-61 | Returns and refreshes the entry characterised by SimilarHitExactly. |
| Cache.SemanticCache.Insert | src/engines/cache.rs:62-75 | Appends the entry after dropping, if full, the first entry with the least timestamp. |
| Cache.SimilarHitExactly | src/engines/cache.rs:41-61 | A hit occurs if and only if some entry of the same length reaches the threshold and exceeds -1, and it is the earliest maximiser of the dot product. |
| Cache.SimilarHitIsClose | src/engines/cache.rs:47-54 | For unit vectors a hit lies within squared distance 2 - 2 * threshold; for thresholds up to 1, looking up a stored embedding hits an entry with that embedding. |
| Recency.AccessKeepsFaithful | src/engines/cache.rs:62-75 | Under strictly increasing times, dropping an entry with the least timestamp keeps the store in step with the access history: stamps are injective and order entries by last access, and keys not stored have had a capacity's worth of others accessed since. |
| Recency.ResidentExactly | src/engines/cache.rs:62-68 | A key is stored if and only if it was accessed and fewer distinct others than the capacity were accessed since. |
| CacheRuns.CapacityBound | src/engines/cache.rs:62-75 | After any calls, with any clock, there are at most max(1, capacity) entries. |
| CacheRuns.LruExactly | src/engines/cache.rs:30-75 | In every run over both tiers with an increasing clock, an entry is cached if and only if fewer distinct other entries than the capacity were inserted or hit since it last was. |
| CacheRuns.LargerCacheIncludes | src/engines/cache.rs:30-75 | Under one sequence of calls that inserts only what the larger cache misses, the larger cache always holds all entries of the smaller, timestamps included, if and only if every similarity lookup has the same hit in both; then it answers all exact hits of the smaller alike. |
| CacheRuns.ExactRunsAgree | src/engines/cache.rs:30-40 | Without similarity lookups that condition holds. |
| CacheRuns.LargerCacheCanMiss | src/engines/cache.rs:41-61 | With them a larger cache can lose an exact hit that a smaller one keeps, for every threshold up to 1. |
| CacheRuns.InsertInequivalentExactly | src/engines/cache.rs:62-75 | An insert keeps cached queries pairwise inequivalent if and only if what is left after eviction has no equivalent of the new query. |
| CacheRuns.ExactByKey | src/engines/cache.rs:32-37 | Exact lookup depends only on the trimmed, case-folded query, and with inequivalent entries at most one matches. |
| Firewall.CleanJson | src/pipelines/query/firewall.rs:9-28 | The four-prefix code equals: trim, drop a fence with an optional tag, trim, drop a closing fence, trim. |
| Firewall.CleanedIsInfix | src/pipelines/query/firewall.rs:9-28 | What is decoded is a contiguous part of what the model wrote. |
| Firewall.BareForm | src/pipelines/query/firewall.rs:10-28 | A bare trimmed payload survives if and only if it neither starts nor ends with a fence. |
| Firewall.TaggedForm | src/pipelines/query/firewall.rs:12-28 | Any trimmed payload in a tagged block, with any white space around it, is recovered. |
| Firewall.UntaggedForm | src/pipelines/query/firewall.rs:16-28 | A payload in an untagged block is recovered if and only if it does not both touch the fence and start with the tag. |
| Firewall.OpenForm | src/pipelines/query/firewall.rs:12-28 | A block that is never closed gives back a payload that does not end in a fence. |
| Firewall.ClosedForm | src/pipelines/query/firewall.rs:22-28 | A closing fence without an opening one is dropped. |
| Firewall.FirewallExactly | src/pipelines/query/firewall.rs:36-62 | A response is accepted if and only if it decodes and, when it claims an answer, the first chunk with the cited id contains the quote; each rejection has its cause. |
| QueryPipeline.RunKeepsInv | src/pipelines/query/mod.rs:164-269 | For every interleaving of calls and every input, each cached entry encodes a grounded answer to its own query, and every call in flight carries only answers grounded in what it retrieved. |
| QueryPipeline.Grounding | src/pipelines/query/mod.rs:242-268 | Every cached response decodes to a Verified one, and every Verified response returned or cached quotes a chunk with the cited id that the producing call retrieved; Degraded results are never cached and list only chunks that their own call retrieved. |
| QueryPipeline.ExactAnswerProvenance | src/pipelines/query/mod.rs:165-170 | In every run, an answer of the exact tier is a grounded one that was produced for an equivalent query. |
| PipelineCall.RunSemanticPipeline | src/pipelines/query/mod.rs:164-269 | The result is the one that the replies, search results and cache hits call for: a decodable hit; the chunks when the model is off; the first reply if it claims an answer; else the second one, accepted or rejected, unless the fallback is empty or the model is off by then. The cache is left with the refreshed hits and, for an answer of its own, its encoding under the query and vector; all as the step machine does when run alone. |
| PipelineCall.LoneCall | src/pipelines/query/mod.rs:164-269 | The step machine, run alone, answers and leaves the cache in the same way. |
| PipelineRuns.RunAnswers | src/pipelines/query/mod.rs:164-269 | In every interleaving, each finished call has the result that its own inputs and the entries at its two lookups call for. |
| PipelineRuns.RunStores | src/pipelines/query/mod.rs:260-268 | A step inserts only to end its call, and then exactly the encoding of the answer returned, under its query and vector; every other step changes times of access only. |
| PipelineRuns.RunFallsBackOnIntent | src/pipelines/query/mod.rs:172-188 | The fallback search is for the decoded intent, or for the query itself when the model is off or its reply does not decode. |
| PipelineRuns.AdvanceKeepsSerial | src/pipelines/query/mod.rs:165-202 | Each step of a call running alone keeps cached queries inequivalent: past the exact tier the call's own query has no match. |
| PipelineRuns.SerialIsInequivalent | src/pipelines/query/mod.rs:260-267 | Any sequence of calls one after the other keeps the cached queries pairwise inequivalent. |
| PipelineRuns.HitExactly | src/pipelines/query/mod.rs:165-267 | After any calls in sequence, through both tiers and with any failures, the exact tier hits a query if and only if its key was hit or inserted and fewer distinct other keys than the capacity were since. |
| PipelineRuns.LargerHitsMore | src/pipelines/query/mod.rs:165-267 | If every call can be answered and inequivalent queries have dissimilar embeddings, a larger cache hits whenever a smaller one does. |
| PipelineRuns.InequivalentExactly | src/pipelines/query/mod.rs:260-267 | For every interleaving, the cached queries are inequivalent at all times if and only if each insertion finds no equivalent left after eviction. |
| PipelineRuns.NoOverlapIsSerial | src/pipelines/query/mod.rs:165-267 | If no two calls past the exact tier ever have equivalent queries, every interleaving keeps the cached queries inequivalent, and every call that has missed still misses. |
| PipelineRuns.AbsenceAnswered | src/pipelines/query/mod.rs:244-258 | In every run, a call that stores "not found" right after its fallback search has proved that no stored sentence contains all words of its intent, if these match themselves; for plain words it does so if and only if none does. |
| PipelineRuns.InterleavedCallsDuplicate | src/pipelines/query/mod.rs:165-267 | Two interleaved calls for one query can leave two equivalent entries. |
| RankFusion.FuseRankedCandidates | src/engines/rank_fusion.rs:5-23 | For every draining order of the map, the result is over exactly the ids of both inputs, each with the sum of its reciprocal ranks; of two entries the greater score stands first, and on equal scores the id that is a proper prefix or has the smaller character where they first differ. |
| RankFusion.FusionMeaning | src/engines/rank_fusion.rs:20-22 | Every fused ranking is in that order, over those ids. |
| RankFusion.ScoreMeaning | src/engines/rank_fusion.rs:12-18 | Each further place of a ranking adds one over the place plus k to the id it holds, and nothing to others. |
| RankFusion.FusionUnique | src/engines/rank_fusion.rs:20-22 | There is only one such list. |
| RankFusion.FusionConserves | src/engines/rank_fusion.rs:12-18 | The scores sum to the total reciprocal rank handed out by the two lists. |
| RankFusion.BothBeatsOne | src/engines/rank_fusion.rs:12-21 | With duplicate-free lists shorter than k + 2, an id in both lists precedes every id that is in only one. |
| RankFusion.LastInBothMayLose | src/engines/rank_fusion.rs:12-18 | That length bound is sharp: the id last in both lists outscores the first of one if and only if the length is below k + 2. |
| RankFusion.Dominance | src/engines/rank_fusion.rs:12-21 | An id ranked no later in both lists and earlier in one precedes the other. |
| Rerank.RerankByScores | src/engines/rerank.rs:74-83 | The kept candidates are the first top_k of the stable ranking of the zipped indices: finite scores descend as numbers, +0 before -0, infinities and NaNs by sign around them, equal patterns in input order. |
| Rerank.KeyMeaning | src/engines/rerank.rs:80 | The compared key orders any two patterns as the numbers they stand for, with infinities at the ends, positive NaNs above and negative NaNs below. |
| Rerank.TwoValues | src/engines/rerank.rs:80 | The patterns of one half and of minus two stand for these numbers. |
| Rerank.StableRankingUnique | src/engines/rerank.rs:80 | There is only one stable descending ranking. |
| Rerank.KeptAboveDropped | src/engines/rerank.rs:79-82 | Kept and dropped pairs partition the input; every finite kept score is at least every finite dropped one as a number, and NaNs and infinities keep to their ends. |
| Rerank.RerankTwice | src/engines/rerank.rs:79-82 | Re-ranking to some length and then to a shorter one equals re-ranking to the shorter one. |
| Rerank.RerankCandidatesExactly | src/engines/rerank.rs:85-107 | Succeeds if and only if there is nothing to rank or the scorer returns one score per candidate; then the result is the head of the stable ranking. |
| HybridSearch.ExtractChunks | src/engines/vector.rs:66-95 | Succeeds exactly on readable streams; the ids are those of all rows in order and the map holds the last chunk of each. |
| HybridSearch.RowsInOrder | src/engines/vector.rs:70-93 | Each row of a complete record batch stands after all rows of the batches before it. |
| HybridSearch.LexicalInOrder | src/engines/vector.rs:136-149 | The lexical ranking lists the keys of the positive filters in filter order, repeats kept. |
| HybridSearch.ReplaySurvivors | src/engines/vector.rs:129-149 | After any fetches and filters an id is in the map if and only if no excluded term after its last fetch occurs in its chunk, and it maps to the chunk last fetched. |
| HybridSearch.ExecuteHybridSearch | src/engines/vector.rs:122-161 | Fails exactly when the table or a stream fails; otherwise the result is the selection of the first 20 fused ids from the replayed fetches and filters. |
| HybridSearch.SelectionExactly | src/engines/vector.rs:154-160 | The result is the order-preserving subsequence of the ids that survive, with distinct ids and the chunk last fetched. |
| HybridSearch.ResultExactly | src/engines/vector.rs:151-160 | The result is, in order, the surviving ones among the first 20 ids of the fusion with constant 60, each with the chunk last fetched. |
| Exclusion.ChunkShape | src/engines/vector.rs:84-88 | A chunk is the three escaped fields in a fixed text. |
| Exclusion.GuardedExcludes | src/engines/vector.rs:136-149 | If each positive filter that follows a NOT filter, and can match a stored sentence at all, is followed by a NOT filter whose term lies in the first term or in the fixed text of every chunk, no search over stored customers returns a chunk with the excluded term. |
| Exclusion.UnguardedLeaks | src/engines/vector.rs:136-149 | For every other filter list, if its NOT terms have no quote or backslash, there is one customer such that a search over it returns a chunk with an excluded term. |
| Exclusion.ExclusionExactly | src/engines/vector.rs:136-149 | For such lists, exclusion holds of all searches over stored customers if and only if the list is guarded in that sense. |
| Exclusion.NotsLastAreGuarded | src/engines/vector.rs:136-149 | Lists whose NOT filters come last are guarded. |
| Exclusion.BerlinLeaks | src/engines/vector.rs:136-149 | Excluding Berlin and then asking for Acme returns the chunk of the customer Acme in Berlin. |
| Exclusion.NameIsFixed | src/engines/vector.rs:84-88 | A list whose last NOT filter names a key of the rendered object is guarded, whatever it excludes before. |
| HybridSearch.DualMatchFirst | src/engines/vector.rs:132-160 | With at most 20 distinct ids per list, every returned chunk found by both passes precedes every one found by only one. |
| Framing.FrameLines | src/gateway/http/routes.rs:103-122 | The byte loop builds the bracketed, comma-joined list of the non-empty lines, without a trailing return. |
| Framing.UnframeFramed | src/gateway/http/routes.rs:103-122 | Reading the array at its top-level commas gives back any non-empty self-contained records, in order. |
| Framing.FramingRoundTrip | src/gateway/http/routes.rs:94-122 | For any list of JSON objects, printed one per line, both the framed array and the line list give back exactly their texts. |
| Framing.EscapedBack | src/engines/vector.rs:84-88 | Every string is read back from its escaped form, so a rendered chunk or record loses nothing of its fields. |
| Framing.ConsumersAgree | src/engines/sql.rs:53-66 | On well-formed line records both consumers of the writer's output see exactly the records. |
| Framing.AnyLineEnds | src/gateway/http/routes.rs:107-112 | The lines framed are those between the line ends, whether these have a return or not, and the text after the last one; one return is dropped, not more. |
| Framing.EmptyLineDropped | src/gateway/http/routes.rs:113-115 | An empty line anywhere leaves no trace. |
| Framing.ConsumersAgreeExactly | src/engines/sql.rs:57-65 | On any text at all the two consumers agree if and only if no line has white space around it. |
| Embeddings.TryNew | src/engines/embeddings.rs:87-95 | Succeeds if and only if the product fits the word size and equals the length, and keeps all three parts; overflows at 2^64. |
| Embeddings.RowInBounds | src/engines/embeddings.rs:97-105 | For positive dimension a row exists exactly for indices below the count, is in bounds, and is the slice at that stride. |
| Embeddings.IntoVecsConcat | src/engines/embeddings.rs:107-114 | The rows concatenate back to the flat data, all of the dimension's length. |
| Embeddings.ScaledSumBetween | src/engines/embeddings.rs:129-130 | The sum of the squared scaled entries lies between 1 and the length. |
| Embeddings.NormIsEuclidean | src/engines/embeddings.rs:129-131 | The computed norm is the Euclidean norm and at least the greatest magnitude. |
| Embeddings.NormalizedMeaning | src/engines/embeddings.rs:124-137 | A slice becomes a positive multiple of itself with unit norm, or is left alone when its norm is at most the least normal float. |
| Embeddings.NormalizedExactly | src/engines/embeddings.rs:124-137 | A vector whose squared length is at most 2^-252 is left as it is; any other becomes a positive multiple of itself of length one. |
| Embeddings.NormalizeIdempotent | src/engines/embeddings.rs:124-137 | Normalising twice equals normalising once. |
| Embeddings.NormalizeVectorSlice | src/engines/embeddings.rs:124-137 | In place, the slice becomes its normal form and nothing outside it changes. |
| Embeddings.NormalizeRows | src/engines/embeddings.rs:180-183 | The chunk loop normalises every full row and leaves an incomplete last one alone. |
| Embeddings.MapRowsRest | src/engines/embeddings.rs:181-183 | What does not fill a last row stays as it is. |
| Embeddings.BatchRows | src/engines/embeddings.rs:180-185 | Each row of the batch that results is the normal form of the row before. |
| Embeddings.NormalizedHitIsClose | src/engines/cache.rs:41-61 | With normalised embeddings in the cache and in the query, a similarity hit is within squared distance 2 - 2 * threshold. |

## Left out

- The vector column: sentences are padded to the longest of their batch without an attention mask, so it may depend on the batching.
- The insides of LanceDB, DataFusion, Candle, the tokenizers and the SQL parser. A table is an optional list of customers, a merge-insert is atomic and keyed on `kunnr`, and a query answers with some of the stored rows or an error.
- Ingestion.FindExistingInDb: does not say which stored keys the filter selects, because ids are pasted into the filter text without escaping.
- `ast_guard.rs`, the Ollama client, prompt texts, the route decision, the command line, telemetry, the gRPC service, health checks, index internals: input and output or library configuration.
- Ingestion.CrashAndRerun: composes two runs; the repository has no such function.
- Rounding, overflow and NaN in floating-point arithmetic: fusion, similarity and normalisation are over the reals, with the square root given by `s >= 0 && s * s == x`. Re-rank scores are 32-bit patterns, so NaN and signed zero are included there.
- RankFusion.FuseRankedCandidates: excludes a k for which some place divides by zero, where floats give infinity; the only caller passes 60.
- Embeddings.NormalizeRows: requires a positive dimension, because chunking by zero panics.
- JSON decoding and encoding: parameters of the pipeline, with decoding after encoding assumed to be the identity on Verified answers. The printer in `Framing` stands for the compact JSON of the writer; numbers are any text of digits, signs, dots and exponents.
- Exclusion.ExclusionExactly: is for NOT terms without quotes and backslashes, whose places in a rendered chunk depend on more than one field; for other terms only GuardedExcludes is proved. CSV fields may be empty strings in the model, which the CSV library reads as missing.
- FallbackSql.AbsenceProof: has the dialect's default escape character as a parameter, any but a wildcard; the standard has none by default. When a word does not match its own pattern, only the rows that match are claimed, since other words may make up for it.
- FallbackSql.AnsweredExactly: a limited query returns the first matches in table order.
- The clock: readings are parameters, required to increase strictly only where least-recently-used order is claimed.
- CacheRuns.LargerCacheIncludes: does not cover inserts of a query that the larger cache still has an equivalent of.
- Lock poisoning, and the race of two readers on one timestamp: each cache method is one atomic step.
- That a similarity hit was answered under the same filters: entries are keyed on the intent's embedding alone, and the program does not check it.
- The standard library's sort is modelled as a stable insertion sort; the order in which a hash map is drained is arbitrary.
- Text is a sequence of characters standing for UTF-8; lower-casing is ASCII only, as in the program, and white space is the Unicode property.
