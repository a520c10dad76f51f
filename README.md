# audit-protocol core, modelled in Dafny

audit-protocol keeps one append-only audit chain per project. The chain is made of
blocks in a content-addressed block store (IPFS). Each block points back to the block
one height below it. A Redis index store records:

- which cid sits at which height,
- which payload commits are still pending,
- which transactions were discarded,
- short-lived spans (cached ranges of blocks),
- containers (archives of pruned heights),
- per-project sliding-window markers.

This project models the ordering and consistency logic that runs over those two
stores:

- **The chain builder and the pending-transaction ledger** (`DagUtils`). It covers the
  touch protocol that removes an entry and re-adds its updated copy at the same score,
  linking a new block to the cid one height below, and discarding a tentative height.
- **Range retrieval** (`Retrieval`). It covers the asymmetric percentage intersection
  of two height ranges, best-span and first-covering-span selection, the descending
  block fetch that prefers spans, the container window with first-bloom-match
  selection, and the filter that decides which heights need a container.
- **The sliding-window indexer** (`SlidingWindow`). It covers the tail search from
  height 1 or from the stored tail, and marker writes that happen only on success.
  The tail never moves backwards.
- **The daily-stats snapshotter for trading pairs** (`PairsSnapshotter`). It covers
  nearest-timestamp selection, currency-text unpacking, linking the latest pair
  snapshot with the one 24 hours older, per-contract change figures, the height gate,
  and pruning of the daily-stats sorted set.
- **Configuration defaulting in the two Go services** (`GoUtilsSettings`,
  `PayloadCommitSettings`, with the per-field rules in `SettingsDefaults`).

Shared modules:

- `Stores` holds the index store as a class with one field per key purpose, each keyed
  by project id. It also holds the content store, a class whose blocks sit under an
  injective cid function.
- `ZSets` gives Redis sorted-set semantics. Ordered reads list members by score, then
  by member text.
- `Decimal` gives integers as Redis stores them (decimal text) and Python's `int(...)`.
- `Collecting` holds the generic folds that specify the source's accumulating loops.
- `Wrappers` holds `Option` and `Outcome`. `Raised` stands for a Python exception.

Imperative code is modelled as methods that update these classes. Loops are `while`
loops proved against specification functions. The properties are lemmas about those
functions.

The code is followed where it differs from its own documentation:

- `check_overlap` returns `(0.0, "", {})` when no span overlaps. It does not return
  the -1 its docstring announces.
- `get_container_id` returns the last container scanned when none matches. It returns
  `None` only for an empty window.
- `save_event_data` writes neither the `eventData:{payloadCommitId}` hash nor the
  `pendingBlocks` set that its docstring announces. It only re-touches the pending
  entry with -1 and the copied event fields.

## Model

| member | source | states |
|---|---|---|
| Decimal.ParseFormat | utils/dag_utils.py:187-188 | An integer written to a Redis key as text parses back to itself with `int(...)`. |
| Decimal.FormatInjective | utils/dag_utils.py:187-188 | Two heights are written as the same text only if they are equal. |
| Decimal.RemoveAllChar | v2_pairs_daily_stats_snapshotter.py:48 | `replace(",", "")` leaves no comma. |
| Decimal.RemoveAllAbsent | v2_pairs_daily_stats_snapshotter.py:47-48 | Text without the pattern's first character is left unchanged by `replace`. |
| Decimal.RemoveAllPrefix | v2_pairs_daily_stats_snapshotter.py:47 | A leading "US$" is dropped by `replace("US$", "")`. |
| ZSets.Add | utils/dag_utils.py:59-62 | ZADD sets the member's score, keeps every other member and score, and counts 1 only for a new member. |
| ZSets.Rem | utils/dag_utils.py:51-53 | ZREM removes exactly that member, keeps the others with their scores, and counts what it removed. |
| ZSets.RemRangeByScore | utils/dag_utils.py:248-252 | ZREMRANGEBYSCORE removes exactly the members scored in [lo, hi], keeps the others' scores, and counts the removals. |
| ZSets.LeastIsLeast | v2_pairs_daily_stats_snapshotter.py:131-136 | The member ZRANGE 0 0 lists precedes every other member in (score, member) order and is the only one that does. |
| ZSets.ListingIsListing | v2_pairs_daily_stats_snapshotter.py:72-77 | The full listing holds every member once, with its score, in (score, member) order. |
| ZSets.RangeByScore | utils/retrieval_utils.py:169-174 | ZRANGEBYSCORE lists exactly the members scored in [lo, hi], with their scores, strictly ordered. |
| ZSets.RemLowestRanks | v2_pairs_daily_stats_snapshotter.py:292-296 | ZREMRANGEBYRANK 0 k removes exactly k + 1 members, each ranked before every member kept. |
| Stores.CidAt | utils/dag_utils.py:153-157 | `get_dag_cid` finds a cid indexed at exactly that height, and finds none only when no cid is indexed there. |
| Stores.CidAtIsFirstAt | utils/dag_utils.py:153-157 | The cid found is the first one ZRANGEBYSCORE lists at that height, and it is unique. |
| Stores.CidAtOtherHeight | utils/dag_utils.py:182-185 | Indexing a new cid at one height does not change the cid found at any other height. |
| Stores.CidAtNewHeight | utils/dag_utils.py:182-185 | Indexing a cid at an empty height makes it the cid found there. |
| Stores.ContentStore.Put | utils/dag_utils.py:112-117 | A put either fails and changes nothing, or stores the block under its own cid and changes no stored block. |
| DagUtils.TouchLifecycle | utils/dag_utils.py:55-58 | An entry touched with -1 and event data, then with a height and none, ends at that height and keeps the captured event data, `txHash` and `requestID`. |
| DagUtils.UpdatePendingTxBlockTouch | utils/dag_utils.py:41-63 | The old entry is removed and its touched copy is added at the tentative height. Every other member and score is kept, and other projects are unchanged. The status is true exactly when the removal and the addition both counted. |
| DagUtils.SaveEventData | utils/dag_utils.py:66-92 | The entry is touched with -1 at the signal's tentative height, and its event data is exactly the seven fields copied from the signal. |
| DagUtils.ChainLinkage | utils/dag_utils.py:153-166 | On a linked chain, following `prevCid` h2 - h1 times from the block at h2 reaches a cid indexed at h1. |
| DagUtils.ChainLinkageUnique | utils/dag_utils.py:153-166 | With one cid per height, the cid reached is the one `get_dag_cid` returns at h1. |
| DagUtils.AppendKeepsChainLinked | utils/dag_utils.py:153-188 | Appending a block above every indexed height, linked to the cid found one height below, keeps the whole chain linked. |
| DagUtils.CreateDagBlock | utils/dag_utils.py:143-190 | The block has the tentative height, the cid indexed one height below as `prevCid`, and `{cid, HOT_IPFS}` as data. A failed put writes no index key. A successful one sets the last-cid key, the dag-cids entry and the block-height text. |
| DagUtils.ClearPayloadCommitData | utils/dag_utils.py:228-263 | Exactly the pending entries scored at the height are removed, and the payload-commit key is deleted. The result holds the removal count twice, then the deletion count. |
| DagUtils.DiscardEvent | utils/dag_utils.py:193-225 | No pending entry at the height remains and others keep their scores. The commit key is gone. The discarded set gains exactly the transaction hash, at that height. The four counts are the pending removals (twice), the commit-key deletions, and 1 exactly when the hash is new. |
| Retrieval.HeightRange | utils/retrieval_utils.py:34-35 | `set(range(lo, hi + 1))` holds exactly the heights lo..hi. |
| Retrieval.RangeCard | utils/retrieval_utils.py:34 | That set has hi - lo + 1 heights, or none when hi < lo. |
| Retrieval.IntersectionCounts | utils/retrieval_utils.py:36-37 | The overlap's size is the common-height count, at most the size of the first range. |
| Retrieval.CheckIntersection | utils/retrieval_utils.py:29-39 | The division raises exactly when the first range is empty. |
| Retrieval.IntersectionBounds | utils/retrieval_utils.py:37-38 | The intersection is a percentage in [0, 100]. |
| Retrieval.IntersectionClosedForm | utils/retrieval_utils.py:29-39 | The intersection is 100 times the common-height count over the length of the first range. |
| Retrieval.IntersectionAsymmetric | utils/retrieval_utils.py:29-39 | [1,10] against [5,15] gives 60, while [5,15] against [1,10] gives 600/11. |
| Retrieval.SingleHeightCovered | utils/retrieval_utils.py:95-99 | The single-height intersection is 100 exactly when the span contains the height. |
| Retrieval.BestSpanIsFirstMax | utils/retrieval_utils.py:61-88 | The best span has the greatest overlap of the decoded spans and is the first scanned with it. There is none exactly when every overlap is 0. Missing or undecodable values are skipped. |
| Retrieval.AddCoveredContents | utils/retrieval_utils.py:91-100 | The per-height loop maps each unassigned height of cur..to that the span covers, and changes no assigned height. |
| Retrieval.CoverSpansFirstWins | utils/retrieval_utils.py:64-100 | Each height of [from, to] maps to the first scanned span that contains it, no other height is mapped, and no height is reassigned. |
| Retrieval.CoverSpansSound | utils/retrieval_utils.py:91-100 | Every mapped height lies in [from, to] and in its span's range. |
| Retrieval.RecordCoveredHeights | utils/retrieval_utils.py:91-100 | The inner while loop computes the per-height update of one span. |
| Retrieval.CheckOverlap | utils/retrieval_utils.py:43-102 | The scan returns the best overlap, the best span's id (or "") and the first-covering-span map. |
| Retrieval.SliceContents | utils/retrieval_utils.py:223-229 | A span holds a range exactly when it holds each height, and the collected blocks are in ascending height order. |
| Retrieval.SpanBlockIsSlice | utils/retrieval_utils.py:285-291 | The single-height read `fetch_blocks` makes is `fetch_from_span` with from = to. |
| Retrieval.FetchFromSpan | utils/retrieval_utils.py:202-229 | The read gives the span's blocks from..to, -1 for an undecodable value, or the error a missing span or height raises. |
| Retrieval.SaveSpan | utils/retrieval_utils.py:232-255 | The span is stored under an id derived from (from, to, projectId) alone, without the project id in the document, and with the expiry set. |
| Retrieval.SavedSpanReadsBack | utils/retrieval_utils.py:232-255 | In the height-keyed span model, a saved span is stored under the key `fetch_from_span` reads, and reading any sub-range of it back gives the saved blocks in order. The source itself cannot do this, as the "## Left out" line on `dag_blocks` says. |
| Retrieval.StoredSpanCovers | utils/retrieval_utils.py:64-100 | Once a span is stored under a scanned key, every queried height it contains is mapped to some span. |
| Retrieval.VisitsKeys | utils/retrieval_utils.py:276-294 | Visit i of the descending loop is at height to - i, keyed by the cid indexed there. |
| Retrieval.VisitsReads | utils/retrieval_utils.py:280-291 | Visit i reads from the covering span when the per-height map names one, and from the content store otherwise. |
| Retrieval.FetchFails | utils/retrieval_utils.py:276-294 | The fetch fails exactly when some height's read fails. |
| Retrieval.FetchKeysPresent | utils/retrieval_utils.py:276-294 | A successful fetch has a key for the cid indexed at every height of from..to. |
| Retrieval.FetchKeysFromRange | utils/retrieval_utils.py:276-294 | Every key of a successful fetch is the cid indexed at some height of from..to. |
| Retrieval.FetchLowestWins | utils/retrieval_utils.py:276-294 | A cid indexed at no lower height of the range holds the read made at its height, because the lowest height is visited last. |
| Retrieval.FetchStep | utils/retrieval_utils.py:278-294 | One iteration either ends the fetch with its read's error or sets its cid's value. |
| Retrieval.FetchHeight | utils/retrieval_utils.py:279-293 | One iteration reads from the span the map names, or else from the content store by the indexed cid. |
| Retrieval.FetchBlocks | utils/retrieval_utils.py:259-298 | The result is the fold of the descending visits, using the per-height map of the overlap check. |
| Retrieval.FetchDescending | utils/retrieval_utils.py:276-298 | The while loop from `to` down to `from` computes that fold. |
| Retrieval.FirstMatch | utils/retrieval_utils.py:123-132 | The scan finds the first container whose filter reports the cid, or none. Before that it raises only on a container without readable settings. |
| Retrieval.ContainerChoice | utils/retrieval_utils.py:116-134 | The container chosen is in the ±(2·container_height + 1) window. It is None only for an empty window. When some container in the window reports the cid, the chosen one does. |
| Retrieval.GetContainerId | utils/retrieval_utils.py:105-134 | The window is read, then scanned in order until the first match; the loop variable keeps the last container scanned. |
| Retrieval.ScanContainers | utils/retrieval_utils.py:121-134 | The for loop computes the reference choice. |
| Retrieval.LookupsNeeding | utils/retrieval_utils.py:184-186 | Exactly the heights at or below the last pruned height and not covered by a span get a lookup. |
| Retrieval.ContainersRequired | utils/retrieval_utils.py:178-199 | One single-container entry is added per height that needs one, each container is flagged, and a flag is true exactly when its cached key exists. |
| Retrieval.LookupEntry | utils/retrieval_utils.py:180-197 | One iteration: skip, or look the container up and check its cached key. |
| Retrieval.LookupStep | utils/retrieval_utils.py:180-197 | A raised lookup decides the whole result, and any other lookup extends the prefix's result by one step. |
| Retrieval.CheckContainers | utils/retrieval_utils.py:155-199 | The result is the fold of the lookups over the cids listed in [from, to]. |
| Retrieval.LookupAll | utils/retrieval_utils.py:180-199 | The for loop computes that fold. |
| SlidingWindow.TimePeriodSeconds | proto_sliding_window_cacher_service.py:45-47 | '24h' gives 86400 and '7d' gives 604800, each in both directions, and any other text gives 3600. |
| SlidingWindow.ScanFirst | proto_sliding_window_cacher_service.py:60-68 | The scan returns the first height in [cur, head) whose block is within the period, with every height before it too old. Otherwise it returns None, or the first unreadable block's error. |
| SlidingWindow.ScanFindsWindow | proto_sliding_window_cacher_service.py:60-68 | If a height before the head is within the period and every block before it is readable, the scan finds a height. |
| SlidingWindow.TailSearchBounds | proto_sliding_window_cacher_service.py:50-68 | A tail found from `start` lies in [start, head) and is within one period of the head block. |
| SlidingWindow.SeekAheadTail | proto_sliding_window_cacher_service.py:50-68 | The loop reads the head timestamp, then computes the upward search from the stored tail. |
| SlidingWindow.FindTail | proto_sliding_window_cacher_service.py:71-89 | The same search, started at height 1. |
| SlidingWindow.FirstHeightIsTail | proto_sliding_window_cacher_service.py:81-87 | With the head at 100, blocks 60 s apart and a 24h window, the tail is 1. |
| SlidingWindow.WrittenMarkers | proto_sliding_window_cacher_service.py:103-151 | A write needs a parsable max height, which becomes the head. The tail is non-zero, below the head and within one period of it. It is at least 1 on a first run and at least the stored tail later. |
| SlidingWindow.UpdateKeepsMarkersValid | proto_sliding_window_cacher_service.py:118-151 | Markers written over well-formed ones are well formed: 1 <= tail < head. |
| SlidingWindow.BuildPrimaryIndex | proto_sliding_window_cacher_service.py:93-155 | Both markers are written together when the update succeeds. When it fails, neither marker changes. |
| PairsSnapshotter.NearestFromExact | v2_pairs_daily_stats_snapshotter.py:34-38 | The first entry scored exactly at the mark decides the scan. |
| PairsSnapshotter.NearestChoice | v2_pairs_daily_stats_snapshotter.py:28-44 | The scan returns the first exact entry if any. Otherwise it returns the first entry of least distance, provided that distance is below the distance of score 0; else "". |
| PairsSnapshotter.FirstExact | v2_pairs_daily_stats_snapshotter.py:34-38 | The position found is scored exactly at the mark and no earlier entry is. |
| PairsSnapshotter.NearestIsEntry | v2_pairs_daily_stats_snapshotter.py:32-44 | The result is "" or the value of an entry. |
| PairsSnapshotter.NearestSnapshot | v2_pairs_daily_stats_snapshotter.py:28-44 | The loop computes the nearest-entry scan. |
| PairsSnapshotter.UnpackFormat | v2_pairs_daily_stats_snapshotter.py:46-49 | A decimal integer, with or without "US$", unpacks to itself. |
| PairsSnapshotter.UnpackExample | v2_pairs_daily_stats_snapshotter.py:46-49 | "US$1,234" unpacks to 1234. |
| PairsSnapshotter.LastWithIsLast | v2_pairs_daily_stats_snapshotter.py:58-60 | An object is found exactly when one has the address, and it is the last such. |
| PairsSnapshotter.LinkShape | v2_pairs_daily_stats_snapshotter.py:51-62 | The keys are exactly the recent addresses. Each holds the last recent object with its address, and the last 24h-old object with that address if there is one. |
| PairsSnapshotter.AddressesShape | v2_pairs_daily_stats_snapshotter.py:53-56 | The key order lists every recent address once and nothing else. |
| PairsSnapshotter.LinkContracts | v2_pairs_daily_stats_snapshotter.py:51-62 | The nested loops build the linked dictionary and its insertion order. |
| PairsSnapshotter.ChangeApplies | v2_pairs_daily_stats_snapshotter.py:184-194 | The earlier value grown by the change gives today's value. The change stays 0 when the earlier value is 0. |
| PairsSnapshotter.ContractStatsMeaning | v2_pairs_daily_stats_snapshotter.py:165-197 | The stats come from the recent and 24h-old amounts, and the height and timestamp from the recent object. Each change is the percentage change from the 24h-old value to the current one. A contract without a 24h-old object fails. |
| PairsSnapshotter.StatsAllOk | v2_pairs_daily_stats_snapshotter.py:162-199 | The stats loop completes exactly when every linked contract's stats do, and then it holds one result per contract, in dictionary order. |
| PairsSnapshotter.DailyStatsContracts | v2_pairs_daily_stats_snapshotter.py:162-199 | The loop appends each contract's stats, and the first failure aborts it. |
| PairsSnapshotter.DailyPayloadShape | v2_pairs_daily_stats_snapshotter.py:153-199 | A payload has one entry per distinct recent address, in first-appearance order, at the first pair's non-zero height. |
| PairsSnapshotter.DailyPayloadNeedsOld | v2_pairs_daily_stats_snapshotter.py:153-199 | A payload exists only if every recent address has a 24h-old counterpart. |
| PairsSnapshotter.LatestIsLast | v2_pairs_daily_stats_snapshotter.py:72-84 | ZREVRANGE 0 0 gives the member ranked after every other, and gives none only for an empty set. |
| PairsSnapshotter.OldCidMember | v2_pairs_daily_stats_snapshotter.py:115-142 | The 24h-old cid is a member of the timestamp set, and there is one exactly when that set is not empty. |
| PairsSnapshotter.OldCidChoice | v2_pairs_daily_stats_snapshotter.py:115-142 | It is the nearest entry within 30 minutes of the mark when there is one, else the lowest-ranked entry. |
| PairsSnapshotter.PlanGate | v2_pairs_daily_stats_snapshotter.py:95-112 | The run is in sync exactly when the latest summary height is not above the latest daily height, which is 0 when that set is empty. It compares only when the summary is ahead. |
| PairsSnapshotter.PlanCompareCids | v2_pairs_daily_stats_snapshotter.py:102-142 | The latest cid is the top summary entry with a non-zero timestamp. The 24h-old cid is chosen for 86400 s before that timestamp. |
| PairsSnapshotter.PlanCompareKnown | v2_pairs_daily_stats_snapshotter.py:102-142 | Both compared cids are in the timestamp set. |
| PairsSnapshotter.PlanNoEmptyFallback | v2_pairs_daily_stats_snapshotter.py:137-139 | The empty-set abort of the fallback cannot happen once the latest cid has a timestamp. |
| PairsSnapshotter.PlanFallback | v2_pairs_daily_stats_snapshotter.py:129-139 | A run reaches the empty-set abort only with a timestamped latest cid and no nearby entry. |
| PairsSnapshotter.PruneAsWrittenStop | v2_pairs_daily_stats_snapshotter.py:291-296 | For 22 entries or more, the stop rank as written, counted from the end, is rank 21. |
| PairsSnapshotter.PruneAsWritten21 | v2_pairs_daily_stats_snapshotter.py:291-296 | With 21 entries the formula as written removes only the lowest-ranked one, leaving 20. |
| PairsSnapshotter.PruneAsWrittenDropsAll | v2_pairs_daily_stats_snapshotter.py:291-296 | With 22 entries or more the formula as written keeps only len - 22 entries, so 22 entries all go. |
| PairsSnapshotter.PruneAsWrittenKeepsTop | v2_pairs_daily_stats_snapshotter.py:291-296 | With 23 entries or more, the formula as written keeps the entry whose score is above all others. |
| PairsSnapshotter.PruneKeepsNewest | v2_pairs_daily_stats_snapshotter.py:289-297 | The intended prune keeps min(len, 20) entries with their scores, each ranked above every entry it drops. |
| PairsSnapshotter.RecordAsWrittenAgrees | v2_pairs_daily_stats_snapshotter.py:277-297 | The recording step as written (zadd, then the literal prune) gives the same set as the intended step when at most 20 entries were held before the add, so it then ends with at most 20. |
| PairsSnapshotter.RecordAsWrittenWipes | v2_pairs_daily_stats_snapshotter.py:277-297 | Adding a new entry to 21 entries or more, the step as written always removes ranks 0..21 and ends with len - 21 entries: 21 end empty. From 22 entries, when the new entry's height is above every earlier one, the new entry is among those kept. |
| PairsSnapshotter.RecordDailyBounded | v2_pairs_daily_stats_snapshotter.py:277-297 | The intended step (zadd, then keep the 20 highest-ranked) ends with at most 20 entries, and keeps the new entry unless at least 20 others rank above it. |
| SettingsDefaults.RetryDefault | goutils/settings/settings.go:198-203 | A nil retry count becomes the service default and 0 becomes `math.MaxInt`. Other counts are kept, and the result is never 0. |
| SettingsDefaults.IntDefault | goutils/settings/settings.go:204-212 | A zero setting takes its default, and a non-zero one is kept. |
| SettingsDefaults.StringDefault | goutils/settings/settings.go:213-215 | An empty setting takes its default, and a non-empty one is kept. |
| SettingsDefaults.RetryDefaultFixed | goutils/settings/settings.go:198-203 | Defaulting leaves a retry count unchanged exactly when it is a non-zero count, and applying it twice equals applying it once. |
| SettingsDefaults.IntDefaultFixed | goutils/settings/settings.go:204-212 | A setting is left unchanged exactly when it is non-zero, and applying it twice equals applying it once. |
| SettingsDefaults.StringDefaultFixed | goutils/settings/settings.go:213-215 | A setting is left unchanged exactly when it is non-empty, and applying it twice equals applying it once. |
| GoUtilsSettings.SettingsObj.SetDefaults | goutils/settings/settings.go:196-227 | Retry count nil → 10 and 0 → MaxInt. Zero interval, timeout and concurrency → 5, 10 and 20. An empty upload suffix → "/upload". Zero DAG-verifier interval, suppression and concurrency → 300, 1800 and 10. The Slack URL is untouched, nothing outside the named fields changes, the object ends configured, and a configured object is left as it is. |
| GoUtilsSettings.SettingsObj.SetServiceDefaults | goutils/settings/settings.go:198-215 | The retry, timeout, concurrency and upload-suffix defaults, with every other field of the storage section kept. |
| GoUtilsSettings.SettingsObj.SetDagVerifierDefaults | goutils/settings/settings.go:216-227 | The three DAG-verifier defaults, with the Slack URL and the section's other fields kept. |
| PayloadCommitSettings.SettingsObj.SetDefaults | go-payload-commit-service/settings.go:142-162 | Retry count nil → 15 and 0 → MaxInt. Zero interval, timeout and concurrency → 5, 10 and 20. An empty upload suffix → "/upload". Nothing outside the named fields changes, the object ends configured, and a configured object is left as it is. |

## Left out

- The IPFS client, its timeouts and its exceptions. A read returns a block or nothing, and a put may fail.
- HMAC signature checking (`check_signature`). It is foreign cryptography.
- keccak. The span id is a constructor of its (from, to, project id) preimage, so the hash is taken to be injective.
- Bloom filter internals. A filter is the set of cids it reports, so false positives are allowed and false negatives are not.
- JSON encoding and decoding. Pending-tx entries are values and their serialization is taken to be canonical. A span value either decodes or it does not.
- The decoded `dag_blocks` in `fetch_from_span` has text keys but is indexed by int. The model indexes a height-to-block map. `save_span` writes `dag_blocks` with `json.dumps`, which turns its integer keys into text (utils/retrieval_utils.py:252-254). In the source, every span read of a non-empty range therefore raises KeyError at line 226. `fetch_blocks` then fails at every height a span covers (285-291). The model reads the block instead.
- Concurrency:
  - the bounded semaphore and fan-out of `build_primary_indexes`;
  - the supervision callbacks;
  - the Redis connection decorators;
  - the race between two touches of the same entry. Every operation is sequential.
- DagUtils.SaveEventData: one integer stands for both the raw `tentativeBlockHeight` stored in the fields (utils/dag_utils.py:82) and the `int(...)` of it that scores the entry (line 89). A height that `int` rejects, and the ValueError it would raise, are not modelled.
- Python's `int(...)` accepts surrounding whitespace and `_` separators. `Decimal.ParseInt` accepts only an optional sign and digits.
- Floating point. Intersections and percentage changes use exact reals.
- The HTTP commit, the sleep-and-poll loop, the payload fetch and the TTL payload key of the snapshotter. Only the height gate, the cid choice, the stats and the record-and-prune step are modelled. Summary members stand for the payload cid they carry.
- `helper_functions` is not part of this model. `get_dag_cid` is `Stores.CidAt`. `get_last_pruned_height` and `container_height` are parameters.
- The order of KEYS results is a parameter of `Retrieval.CheckOverlap`.
- `check_ipfs_pinned`, `get_blocks_from_container` and `clear_payload_commit_processing_logs` are stubs or a single delete, outside the modelled operations.
- `ParseSettings` in both Go services reads a file, unmarshals JSON and panics. It is not modelled.
- Only the settings fields that `SetDefaults` reads or writes, plus a few neighbours, are modelled.
- Go's `int` is taken to be 64-bit, so `math.MaxInt` is 2^63 - 1. Integer settings are otherwise unbounded.
- The `*int` retry count is an `Option<int>` value. Aliasing of the pointee by other holders of the pointer is not modelled.
- SlidingWindow.BuildPrimaryIndex: a run that raises is modelled as a run that writes nothing. This covers an unreadable block hit during the search and a stored tail that does not parse.
- SlidingWindow.IndexUpdate: a found tail of 0 counts as failure, as Python's `not tail_marker` reads it.
- PairsSnapshotter.PlanRun: the empty-timestamp-set abort is kept as written although it cannot be reached (`PairsSnapshotter.PlanNoEmptyFallback`).
- PairsSnapshotter.RecordDailyBounded: states the bound for the corrected prune (see Findings). `PairsSnapshotter.RecordAsWritten` is the step as written. It equals the intended step from 20 entries or fewer (`PairsSnapshotter.RecordAsWrittenAgrees`). From 21 or more it always removes ranks 0..21 (`PairsSnapshotter.RecordAsWrittenWipes`).

## Findings

| source | as written | input that shows it | evidently intended | confidence | as-written member | corrected member |
|---|---|---|---|---|---|---|
| v2_pairs_daily_stats_snapshotter.py:291-296 | `zremrangebyrank(min=0, max=-1 * (len - 20) + 1)` | a daily-stats set of 22 entries: max is -1, so ranks 0..21 are removed and the set ends empty (with more entries, len - 22 are kept). It needs 21 or more entries before the add, which happens for example after two overlapping runs whose zadds both land before either zcard, or after an earlier run raised between its zadd (277-286) and its prune (289-296) and the exception was swallowed (305-306) | keep the 20 highest-ranked entries: remove ranks 0..len - 21 | not executed | PairsSnapshotter.PruneAsWrittenDropsAll | PairsSnapshotter.PruneKeepsNewest |
