# Cache-to-shadow consistency engine, modelled in Dafny

The chat data store keeps values in a key-value cache and mirrors every write in a
durable *shadow* collection (`kvshadow`). Each shadow record holds the key, the last
value, a fingerprint of that value and its write time. This project models how the
two are kept consistent, and proves properties of that model:

- **Outbox repository.** Two derived queries: the 50 oldest unprocessed events, and
  the number of unprocessed events (`outbox_repo.dfy`).
- **Outbox projector.** One pass of the scheduled loop that turns `KVMutated` events
  into shadow records and marks them processed (`projector.dfy`).
- **Hybrid synchronizer.** Tracks a cache write or delete in one of two ways. It tries
  a direct shadow save first, awaited with a timeout. When that does not answer true,
  it falls back to appending an outbox event. It also has a load-adaptive variant
  (`hybrid_sync.dfy`).
- **Verification service.** The full consistency report, the per-key check, the TTL
  listing and the emergency repair of one key (`verification.dfy`).
- **Tool layer.** `kv_set`, `kv_del` and `kv_scan` (`kv_tools.dfy`), and
  `get_cache_ttl_info` (`sync_verification_tools.dfy`).

Supporting files:

- `model.dfy` holds the records, the cache, and the cache client's `get`, `ttl` and
  `scan`.
- `fingerprint.dfy` models the fingerprint of every value made of Unicode scalar values: the Java string hash of the value,
  a null value hashing like "", printed as hex. The hash folds `31*h + unit` over
  UTF-16 code units and keeps 32 bits, printed in unsigned lower-case hex.
- `wrappers.dfy` holds `Option` (a nullable value) and `Reply` (returned or threw).

Modelling choices:

- **Outbox events.** An event is identified by its position in the append-only
  `outbox` sequence. Events with equal timestamps are ordered by position.
- **The shadow store** is a map from key to record. Every writer keeps the
  `ShadowInvariant`: each record is stored under its own key, and its fingerprint is
  the fingerprint of its value. Every writing operation is proved to preserve it.
- **The clock** is an integer parameter `now`, in seconds.
- **The worker pool.** What the caller observes of the pool is a parameter:
  - `DirectOutcome`: answered true, answered false, waiting threw, or timed out. The
    last two carry whether the abandoned save still landed.
  - `AppendOutcome`: whether the outbox save succeeded.
  - `PoolSample`: the pool counters read by the load heuristic.
- **`Map.of` rejects null.** This is modelled explicitly, because several outcomes
  depend on it:
  - a direct set without a TTL answers false and falls back;
  - an event-based set of a null value ends in `BOTH_FAILED`;
  - the delete fallback always ends in `BOTH_FAILED`, because its payload holds a null
    value, so a delete whose direct attempt does not answer true is never queued;
  - the projector leaves an event without `ttlSec` unprocessed forever.
- **`kv_set` with a null value** is modelled as throwing before anything is written.
  This is an assumption about the cache driver: `RedisKvClient.set` hands the value
  to Spring's Redis template unchanged, and the template is taken to reject null.
  Nothing in the repository's own source shows the rejection.
- **`kv_set` without a TTL.** Because of the first point, a `kv_set` without a TTL is
  never tracked directly. The cache stores it without expiry and the write goes to the
  outbox; `KvSet` states this.

## Where the code disagrees with its own text

The model follows the code. In two places the source's own messages and comments
describe something else, and these lemmas state what the code does:

- **Queued deletes.** `performEventBasedDeleteSync` (HybridSyncService.java:200-221)
  reports "Delete synchronization queued via outbox pattern" when its save succeeds
  (line 217). Its payload, however, holds a null value (line 204), which `Map.of`
  rejects. So that message is never returned: the call always ends in `BOTH_FAILED` and
  nothing is queued (`SyncKvDelete`). `KvTools.FailedDeleteLeavesDrift` shows the record
  then outlives the cache entry.
- **Repair of equal values.** In `forceSyncRepair` the comment on the third branch
  (CacheSyncVerificationService.java:208) says it handles values that differ, which
  leaves `no_repair_needed` (line 219) for equal values. The branch only tests that
  both sides exist, so equal values are rewritten and reported as `updated_shadow`.
  `no_repair_needed` is returned only when neither side holds the key
  (`Verification.RepairActionFollowsSides`). A removed record carries no repaired mark.

## Model

| member | source | states |
|---|---|---|
| OutboxRepo.SelectBatch | src/main/java/com/example/chatdatastore/repo/OutboxRepo.java:9 | the batch is min(50, unprocessed) distinct unprocessed events in increasing (ts, position) order; any unprocessed event left out comes after every batched one; with at most 50 pending, exactly the unprocessed events are returned |
| OutboxRepo.OldestBatchMembership | src/main/java/com/example/chatdatastore/repo/OutboxRepo.java:9 | for any batch with the properties SelectBatch guarantees, an event is in it exactly when it is unprocessed and fewer than 50 unprocessed events come before it, a description independent of the sort |
| OutboxRepo.SelectBatchIsOldest | src/main/java/com/example/chatdatastore/repo/OutboxRepo.java:9 | the batch the query returns holds exactly the events that are unprocessed with fewer than 50 unprocessed events before them |
| OutboxRepo.BatchIsOldestFirst | src/main/java/com/example/chatdatastore/repo/OutboxRepo.java:9 | batch timestamps are ascending, and no unprocessed event left out is older than a batched one |
| OutboxRepo.Sort | src/main/java/com/example/chatdatastore/repo/OutboxRepo.java:9 | the ordering step returns a permutation of its input that is strictly ordered by (ts, position) |
| OutboxRepo.UnprocessedIndices | src/main/java/com/example/chatdatastore/repo/OutboxRepo.java:9-10 | a position is listed exactly when its event is unprocessed, in increasing order, and the list is as long as the unprocessed count |
| OutboxRepo.CountUnprocessed | src/main/java/com/example/chatdatastore/repo/OutboxRepo.java:10 | the count never exceeds the number of events; CountIsNumberOfUnprocessed states that it is exactly the number of unprocessed ones |
| OutboxRepo.CountIsNumberOfUnprocessed | src/main/java/com/example/chatdatastore/repo/OutboxRepo.java:10 | the count equals the size of the set of unprocessed positions |
| Fingerprint.HashIsPolySumMod | src/main/java/com/example/chatdatastore/service/OutboxProjector.java:40 | the 32-bit left fold of String.hashCode equals the polynomial sum of the UTF-16 units times powers of 31, modulo 2^32 |
| Fingerprint.CharUnits | src/main/java/com/example/chatdatastore/service/OutboxProjector.java:40 | a character of the Basic Multilingual Plane is one unit equal to it; any other character is a high surrogate followed by a low surrogate that together encode it |
| Fingerprint.Utf16Units | src/main/java/com/example/chatdatastore/service/OutboxProjector.java:40 | the units of a string, one or two per character, each below 0x10000, decode back to the string |
| Fingerprint.FromHexToHex | src/main/java/com/example/chatdatastore/service/OutboxProjector.java:40 | reading back the hex text gives the hash: toHexString loses nothing |
| Fingerprint.ToHexLength | src/main/java/com/example/chatdatastore/service/OutboxProjector.java:40 | a value below 16^k prints in at most k hex digits |
| Fingerprint.ToHex | src/main/java/com/example/chatdatastore/service/OutboxProjector.java:40 | the text is canonical: non-empty lower-case hex digits without a leading zero |
| Fingerprint.CanonicalHexIsUnique | src/main/java/com/example/chatdatastore/service/OutboxProjector.java:40 | a canonical hex text that reads back as n is exactly toHexString(n), so text and number determine each other |
| Fingerprint.FingerprintIsCanonical | src/main/java/com/example/chatdatastore/service/HybridSyncService.java:128 | the fingerprint of a value, null hashing like "", is canonical hex text of its Java hash, and no other text, zero-padded or upper-case, reads back as that hash in canonical form |
| Projector.ProjectEvent | src/main/java/com/example/chatdatastore/service/OutboxProjector.java:31-59 | only this event's flag changes, from false to true. An unknown type is marked processed unless marking throws. A KVMutated event is marked only after its record is saved. A saved record carries the payload value, its fingerprint, the ids, the time and only ttlSec metadata, and replaces only its key. Without a save the store is unchanged. The invariant is preserved |
| Projector.ProjectAll | src/main/java/com/example/chatdatastore/service/OutboxProjector.java:30-60 | events outside the batch are untouched, only processed flags change and never back to false, no record is removed, and the invariant is preserved |
| Projector.ProjectAllMarks | src/main/java/com/example/chatdatastore/service/OutboxProjector.java:30-60 | after the loop an event is processed exactly when it already was or its handling completed |
| Projector.ProjectAllLastWriterWins | src/main/java/com/example/chatdatastore/service/OutboxProjector.java:30-60 | each key ends with the record rebuilt from the last batch event that saved it, or keeps its old record if none did |
| Projector.Run | src/main/java/com/example/chatdatastore/service/OutboxProjector.java:28-61 | the invariant is preserved; one pass touches only events among the 50 oldest unprocessed ones, and only their processed flag; such an event ends processed exactly when its handling completed; records are never deleted; the unprocessed count never grows; each key ends with the record rebuilt from the last of those events that saved it, and a key none of them saved keeps its record or its absence |
| Projector.LastOldestSaverExists | src/main/java/com/example/chatdatastore/service/OutboxProjector.java:28-61 | when one of the 50 oldest unprocessed events saves a key, one of them is the last such save, so Run's last-writer clause always applies |
| Projector.OldestLastSaver | src/main/java/com/example/chatdatastore/service/OutboxProjector.java:30-60 | walking a batch of exactly the oldest events in order, the last save of a key is the one no other saving oldest event follows, and there is none exactly when no oldest event saves the key |
| Projector.ReprojectionIsIdempotent | src/main/java/com/example/chatdatastore/service/OutboxProjector.java:44-56 | handling the same event twice gives the same records except the write time |
| Projector.NullValueIsUpserted | src/main/java/com/example/chatdatastore/service/OutboxProjector.java:39-53 | an event whose value is null is upserted as a record with a null value and is not deleted |
| HybridSync.AppendEvent | src/main/java/com/example/chatdatastore/service/HybridSyncService.java:181-194 | the shadow store is untouched. The call succeeds exactly when the payload builds and the save succeeds, and then appends one unprocessed KVMutated event. Otherwise it reports BOTH_FAILED and changes nothing |
| HybridSync.EventBasedSync | src/main/java/com/example/chatdatastore/service/HybridSyncService.java:170-195 | succeeds exactly for a non-null value and a working outbox, with one appended event carrying the key, value, TTL or 0, ids or "", and the fallback reason; otherwise BOTH_FAILED and nothing changes |
| HybridSync.SyncKvSet | src/main/java/com/example/chatdatastore/service/HybridSyncService.java:57-87 | a direct success is ASYNC_THREAD with the record saved and no event. Otherwise result and outbox are exactly those of the event path, with the original TTL and ids, so a successful fallback is EVENT_BASED. Only the key's record can change, and only if the direct save lands; a save that lands, even after the timeout, writes the direct record. The invariant is preserved |
| HybridSync.SyncKvDelete | src/main/java/com/example/chatdatastore/service/HybridSyncService.java:92-121 | success exactly when the direct delete answers true; otherwise BOTH_FAILED. A delete that lands, even after the timeout, removes exactly the key's record, and otherwise the store is unchanged; the outbox never changes; the invariant is preserved |
| HybridSync.IsSystemUnderHighLoad | src/main/java/com/example/chatdatastore/service/HybridSyncService.java:251-264 | high load exactly when the busy workers reach 0.8 of the pool size (in real arithmetic), a task is queued, or more than 100 events are unprocessed |
| HybridSync.AdaptiveSync | src/main/java/com/example/chatdatastore/service/HybridSyncService.java:251-276 | a failing read of the unprocessed count throws before anything is written. Under high load it is exactly the event path, which forwards the TTL (or 0) and the session and interaction ids (or "") and leaves the shadow untouched; otherwise it is exactly syncKvSet. ASYNC_THREAD means the direct save succeeded and holds the value; a failure leaves the outbox alone |
| HybridSync.SetLeavesOneRecord | src/main/java/com/example/chatdatastore/service/HybridSyncService.java:57-87 | a successful set leaves the value in the shadow store or a queued event for it. ASYNC_THREAD never queues, and EVENT_BASED never touches the shadow unless an abandoned save lands |
| HybridSync.HighLoadIsMonotone | src/main/java/com/example/chatdatastore/service/HybridSyncService.java:251-264 | more busy workers, queued tasks or pending events never turn high load off |
| HybridSync.HighLoadBoundaries | src/main/java/com/example/chatdatastore/service/HybridSyncService.java:259-263 | 100 pending events are not high load and 101 are; 8 of 10 busy workers are, 7 are not; one queued task is |
| HybridSync.TestSetAsyncSuccess | src/test/java/com/example/chatdatastore/service/HybridSyncServiceTest.java:43-62 | a direct success is ASYNC_THREAD with a shadow record and no event |
| HybridSync.TestSetFallsBackToEvent | src/test/java/com/example/chatdatastore/service/HybridSyncServiceTest.java:64-84 | a failing shadow save ends EVENT_BASED with one event and the shadow untouched |
| HybridSync.TestDeleteAsyncSuccess | src/test/java/com/example/chatdatastore/service/HybridSyncServiceTest.java:86-101 | a direct delete is ASYNC_THREAD and queues nothing |
| HybridSync.TestAdaptiveSyncNormalLoad | src/test/java/com/example/chatdatastore/service/HybridSyncServiceTest.java:148-166 | with 50 pending events and an idle pool of 10 the direct path is taken and succeeds |
| HybridSync.TestAdaptiveSyncHighLoad | src/test/java/com/example/chatdatastore/service/HybridSyncServiceTest.java:168-188 | with 150 pending events the event path is taken: one queued event and no shadow save |
| Verification.Mismatches | src/main/java/com/example/chatdatastore/service/CacheSyncVerificationService.java:75-89 | a listed key is reported exactly when cache and shadow disagree, and each entry carries the cache value, shadow value, hash and write time; for a listing without repetitions the entries follow the listing order, so each key appears once |
| Verification.CompareCacheWithShadow | src/main/java/com/example/chatdatastore/service/CacheSyncVerificationService.java:64-96 | checkedKeys is the number of records; allInSync holds exactly when no mismatch is listed, and exactly when every record agrees with the cache; the mismatches come one per out-of-sync record, in findAll order |
| Verification.CheckForStaleEntries | src/main/java/com/example/chatdatastore/service/CacheSyncVerificationService.java:101-116 | the stale keys are exactly the records written more than 24 hours before now, without repetition; the count is their number |
| Verification.VerifyCacheSync | src/main/java/com/example/chatdatastore/service/CacheSyncVerificationService.java:35-59 | HEALTHY exactly when no event is unprocessed, every record agrees with the cache and none is stale; otherwise ISSUES_DETECTED. The report embeds the full cache comparison and the staleness check |
| Verification.VerifyKeySync | src/main/java/com/example/chatdatastore/service/CacheSyncVerificationService.java:121-144 | one rule covers both branches: in sync exactly when the cache value equals the shadow value, a missing side counting as null |
| Verification.KeyCheckAgreesWithComparison | src/main/java/com/example/chatdatastore/service/CacheSyncVerificationService.java:75-80 | for a key with a record, the per-key check and the full comparison agree |
| Verification.CacheOnlyKeysAreInvisible | src/main/java/com/example/chatdatastore/service/CacheSyncVerificationService.java:65-72 | a key present only in the cache changes nothing in the full report, though the per-key check reports it out of sync |
| Verification.StalenessBoundary | src/main/java/com/example/chatdatastore/service/CacheSyncVerificationService.java:102-104 | a record exactly 24 hours old is not stale; one a second older is |
| Verification.TtlInfo | src/main/java/com/example/chatdatastore/service/CacheSyncVerificationService.java:153-156 | every scanned key gets its remaining seconds, or -1 exactly when it has no expiry or is gone |
| Verification.GetCacheTtlInfo | src/main/java/com/example/chatdatastore/service/CacheSyncVerificationService.java:149-159 | scannedKeys is the number of scanned keys and the TTL map covers exactly them |
| Verification.RepairedRecord | src/main/java/com/example/chatdatastore/service/CacheSyncVerificationService.java:189-216 | the repaired record holds the cached value, its fingerprint, the time and only the repaired mark; an existing record keeps its ids, a new one has none |
| Verification.RepairedStore | src/main/java/com/example/chatdatastore/service/CacheSyncVerificationService.java:189-217 | afterwards the key is in sync; a cached key has the repaired record, an uncached key has none; other keys are untouched; the invariant is preserved |
| Verification.ForceSyncRepair | src/main/java/com/example/chatdatastore/service/CacheSyncVerificationService.java:184-225 | without a fault it succeeds and leaves the key in sync, touching only that key; a fault leaves the store unchanged and reports repair_failed with the message, or throws when the message is null |
| Verification.RepairActionFollowsSides | src/main/java/com/example/chatdatastore/service/CacheSyncVerificationService.java:189-219 | created, removed, updated or no repair exactly as the key is only cached, only shadowed, on both sides (even with equal values) or on neither |
| Verification.RepairedKeyIsInSync | src/main/java/com/example/chatdatastore/service/CacheSyncVerificationService.java:184-219 | the per-key check reports the repaired key in sync |
| Verification.RepairTwiceOnlyRetimes | src/main/java/com/example/chatdatastore/service/CacheSyncVerificationService.java:207-216 | repairing again changes nothing but the write time of the key |
| Model.Scan | src/main/java/com/example/chatdatastore/kv/RedisKvClient.java:64-77 | the result is the first min(limit, number of matches) cached keys under the prefix, in cursor order; when fewer than limit are returned, every matching key is among them |
| KvTools.ClampLimit | src/main/java/com/example/chatdatastore/mcp/KvTools.java:71 | a missing or non-positive limit becomes 100, any other becomes min(limit, 1000) |
| KvTools.ClampIsIdempotent | src/main/java/com/example/chatdatastore/mcp/KvTools.java:71 | clamping a clamped limit changes nothing |
| KvTools.KvSet | src/main/java/com/example/chatdatastore/mcp/KvTools.java:38-49 | a null value or a cache failure throws before any sync. Otherwise the cache holds the value, with an expiry exactly for a positive TTL. adaptiveSync gets the original ttlSec, and its result is returned unchanged with ok true; when its count read throws, the call throws with the cache already written and the stores untouched. ASYNC_THREAD leaves the key in sync, and a write without a TTL is never ASYNC_THREAD. EVENT_BASED queues the write |
| KvTools.SetThenReadBack | src/main/java/com/example/chatdatastore/mcp/KvTools.java:38-40 | after kv_set the cache's get returns the value and its ttl returns the TTL exactly when the TTL was positive, and nothing otherwise |
| KvTools.KvDel | src/main/java/com/example/chatdatastore/mcp/KvTools.java:51-62 | the key leaves the cache first; syncKvDelete's result and stores are returned unchanged with ok true; the outbox never changes; sync succeeds exactly when the direct delete answers true, leaving the key in sync, and is BOTH_FAILED otherwise |
| KvTools.KvScan | src/main/java/com/example/chatdatastore/mcp/KvTools.java:70-74 | the first clamped-limit (so at most 1000) cached keys under the prefix, in cursor order |
| KvTools.QueuedSetIsInSyncAfterProjection | src/main/java/com/example/chatdatastore/mcp/KvTools.java:38-49 | a write that went EVENT_BASED becomes in sync, and its event processed, once the projector handles that event |
| KvTools.FailedDeleteLeavesDrift | src/main/java/com/example/chatdatastore/mcp/KvTools.java:51-62 | a delete whose direct attempt answers false, on a key with a non-null record, reports BOTH_FAILED, queues nothing and leaves the key out of sync |
| KvTools.DirectSetScenario | src/main/java/com/example/chatdatastore/mcp/KvTools.java:38-49 | on an idle pool with no backlog, a set with a positive TTL that is answered directly caches the value with that expiry, records it with that ttlSec, queues nothing and checks in sync |
| SyncVerificationTools.GetCacheTtlInfoTool | src/main/java/com/example/chatdatastore/mcp/SyncVerificationTools.java:28-32 | at most the clamped limit of keys are reported, all cached and under the prefix, each with its remaining seconds or -1 exactly when it has no expiry |
| SyncVerificationTools.TtlToolScansLikeKvScan | src/main/java/com/example/chatdatastore/mcp/SyncVerificationTools.java:30 | the TTL tool looks at exactly the keys kv_scan returns for the same prefix and limit |

## Left out

- Fingerprint.JavaHash: values holding an unpaired surrogate are not representable. A Java `String` may hold one and `String.hashCode` hashes it, but a Dafny `string` holds only Unicode scalar values.
- Threads, the timeout and cancellation are not modelled. The caller's observation
  (`DirectOutcome`) and the outbox save (`AppendOutcome`) are parameters. The model is
  sequential: a projector pass interleaving with a direct write is not modelled.
- The scheduling of the projector and of the periodic health check is left out.
  `scheduledSyncHealthCheck` only logs the report. `getSyncStats` only reports
  counters. Logging is dropped.
- The clock is read once per call, as `now`. The source reads it several times within
  one call: the record's write time versus `syncTimestamp`, the result's timestamp,
  and the staleness threshold versus the report timestamp.
- The cache and document drivers are left out beyond `get`, `ttl` and `scan`.
  `CompareCacheWithShadow` reads each record's cache value with `CacheGet`. The
  `mget` of RedisKvClient.java:30-40 requests values for a `HashSet` of the keys and
  pairs them with the keys in list order. That driver is not part of this model.
- Scan prefixes are matched literally: glob characters in the prefix, and keys the
  cursor returns twice, are not modelled.
- Events with equal timestamps are ordered by position, where the store leaves their
  order open.
- A payload always has a string `key`. A wrongly typed payload field (a
  `ClassCastException`, caught by the projector) is not modelled.
- The other cache tools (`kv_get`, `kv_mget`, `kv_ttl`) are left out. `kv_get` and
  `kv_ttl` build their reply with `Map.of` (KvTools.java:29 and 66), so they throw a
  NullPointerException for a missing key, and `kv_ttl` also for a key without expiry.
  `kv_mget` returns the driver's map.
- Three of the verification tools (`verify_cache_sync`, `verify_key_sync`,
  `force_sync_repair`) are left out: each passes its arguments through unchanged, and
  `VerifyCacheSync`, `VerifyKeySync` and `ForceSyncRepair` model what they return.
- MultiTierPersistenceService and its tools, the controllers, HybridSyncTools and the
  Python chat UI are not part of this model.
- `active >= max * 0.8` is a double comparison in the source. `IsSystemUnderHighLoad`
  states it in exact real arithmetic and computes it as `5 * active >= 4 * max`. The
  double rounding of `max * 0.8` is not modelled; it can only matter for pool sizes far
  beyond any thread pool.
- OutboxRepo.CountUnprocessed: its own contract only bounds the count by the outbox
  length. CountIsNumberOfUnprocessed states what it counts.
- KvTools.KvScan: the cursor order is a parameter. Which keys a real Redis `SCAN`
  visits, and in what order, is not modelled.
- Verification.VerifyCacheSync, Verification.VerifyKeySync and
  Verification.GetCacheTtlInfo: the model's reads never fail. In the source an exception
  from the cache or document driver propagates to the caller. Only the outbox count read
  of `adaptiveSync` is modelled as failing (`countFault`).
- Verification.ForceSyncRepair: a fault is modelled as happening before any write.
  A store write that fails part-way is not modelled.
