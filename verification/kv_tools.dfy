/**
 The cache tools that drive synchronization: `kv_set` writes the cache and then asks
 the hybrid synchronizer to track the write, `kv_del` deletes and tracks the delete,
 and `kv_scan` lists keys under a clamped limit.

 The cache client is the `Cache` map; a failing cache command is the `cacheFault`
 parameter, and the synchronizer's unobservable outcomes are passed through.
 */
module KvTools {
  import opened Wrappers
  import opened Model
  import opened OutboxRepo
  import opened HybridSync
  import opened Projector
  import opened Verification

  const DefaultScanLimit: int := 100
  const MaxScanLimit: int := 1000

  /** The limit of the scanning tools: a missing or non-positive limit becomes 100,
      otherwise min(limit, 1000). */
  function ClampLimit(limit: Option<int>): (lim: int)
    ensures 1 <= lim <= MaxScanLimit
    ensures (limit.None? || limit.value <= 0) ==> lim == DefaultScanLimit
    ensures limit.Some? && 0 < limit.value ==> lim <= limit.value
    ensures limit.Some? && 0 < limit.value <= MaxScanLimit ==> lim == limit.value
    ensures limit.Some? && limit.value > MaxScanLimit ==> lim == MaxScanLimit
  {
    if limit.None? || limit.value <= 0 then DefaultScanLimit
    else if limit.value <= MaxScanLimit then limit.value
    else MaxScanLimit
  }

  /** Clamping a clamped limit changes nothing. */
  lemma ClampIsIdempotent(limit: Option<int>)
    ensures ClampLimit(Some(ClampLimit(limit))) == ClampLimit(limit)
  {
  }

  /** The cache expiry `kv_set` asks for: none for a missing or non-positive TTL. */
  function ExpiryFor(ttlSec: Option<int>): (e: Option<nat>)
    ensures e.Some? <==> ttlSec.Some? && ttlSec.value > 0
    ensures e.Some? ==> e.value == ttlSec.value
  {
    if ttlSec.None? || ttlSec.value <= 0 then None else Some(ttlSec.value)
  }

  /** The cache after `kvClient.set(key, value, ttl)`: the key holds the value, expiring
      exactly for a positive TTL, and every other key is untouched. */
  function CacheSet(cache: Cache, key: string, value: string, ttlSec: Option<int>): (c: Cache)
    ensures CacheGet(c, key) == Some(value)
    ensures c[key].ttl.Some? <==> ttlSec.Some? && ttlSec.value > 0
    ensures forall k :: k != key ==> (k in c <==> k in cache)
    ensures forall k :: k != key && k in cache ==> c[k] == cache[k]
  {
    cache[key := CacheEntry(value, ExpiryFor(ttlSec))]
  }

  /** The reply of a tool that returned: `ok` is always true, and the synchronizer's result. */
  datatype ToolResult = ToolResult(ok: bool, syncResult: SyncResult)

  /** The cache and the stores after a tool call, and its reply. */
  datatype ToolOutcome = ToolOutcome(cache: Cache, stores: Stores, reply: Reply<ToolResult>)

  /** `kv_set`: the cache write comes first; a null value or a failing cache command throws
      before any synchronization. The synchronizer gets the TTL as passed in, not the
      normalised one, and its result is returned unchanged. A failing outbox count read
      (`countFault`) throws after the cache write, leaving that write untracked. */
  function KvSet(cache: Cache, st: Stores, pool: PoolSample, key: string, value: Option<string>,
                 ttlSec: Option<int>, sessionId: Option<string>, interactionId: Option<string>,
                 cacheFault: bool, countFault: bool, direct: DirectOutcome, append: AppendOutcome,
                 now: int): (r: ToolOutcome)
    ensures value.None? || cacheFault ==> r.reply.Threw? && r.cache == cache && r.stores == st
    ensures r.reply.Returned? <==> value.Some? && !cacheFault && !countFault
    ensures r.reply.Returned? ==> r.reply.value.ok
    ensures value.Some? && !cacheFault ==>
              && CacheGet(r.cache, key) == value
              && (r.cache[key].ttl.Some? <==> ttlSec.Some? && ttlSec.value > 0)
              && (forall k :: k != key ==> (k in r.cache <==> k in cache))
              && (forall k :: k != key && k in cache ==> r.cache[k] == cache[k])
              && r.stores.shadow.Keys <= st.shadow.Keys + {key}
    // the synchronizer sees the original arguments, and its answer is passed back as is
    ensures value.Some? && !cacheFault ==>
              var s := AdaptiveSync(st, pool, key, value, ttlSec, sessionId, interactionId, countFault, direct, append, now);
              && (s.Threw? ==> r.reply.Threw? && r.stores == st)
              && (s.Returned? ==> r.reply == Returned(ToolResult(true, s.value.result)) && r.stores == s.value.stores)
    // a direct success leaves the key consistent
    ensures r.reply.Returned? && r.reply.value.syncResult.methodName == AsyncThread ==>
              InSync(r.cache, r.stores.shadow, key)
    // a write without a TTL never completes directly
    ensures ttlSec.None? && r.reply.Returned? ==> r.reply.value.syncResult.methodName != AsyncThread
    ensures r.reply.Returned? && !r.reply.value.syncResult.success ==> r.stores.outbox == st.outbox
    ensures r.reply.Returned? && r.reply.value.syncResult.methodName == EventBased ==>
              QueuedWrite(st.outbox, r.stores.outbox, key, value, now)
    ensures ShadowInvariant(st.shadow) ==> ShadowInvariant(r.stores.shadow)
  {
    if value.None? || cacheFault then ToolOutcome(cache, st, Threw)
    else
      var cache' := CacheSet(cache, key, value.value, ttlSec);
      var s := AdaptiveSync(st, pool, key, value, ttlSec, sessionId, interactionId, countFault, direct, append, now);
      if s.Threw? then ToolOutcome(cache', st, Threw)
      else ToolOutcome(cache', s.value.stores, Returned(ToolResult(true, s.value.result)))
  }

  /** `kv_del`: the cache delete comes first, then the synchronizer tracks it and its
      result is returned unchanged. */
  function KvDel(cache: Cache, st: Stores, key: string, cacheFault: bool, direct: DirectOutcome,
                 append: AppendOutcome, now: int): (r: ToolOutcome)
    ensures cacheFault ==> r.reply.Threw? && r.cache == cache && r.stores == st
    ensures !cacheFault ==>
              var s := SyncKvDelete(st, key, direct, append, now);
              && r.reply == Returned(ToolResult(true, s.result))
              && r.stores == s.stores
    ensures !cacheFault ==>
              && r.reply.Returned? && r.reply.value.ok
              && r.cache == cache - {key}
              && r.stores.outbox == st.outbox
              && (r.reply.value.syncResult.success <==> direct.DirectOk?)
              && (r.reply.value.syncResult.success ==> InSync(r.cache, r.stores.shadow, key))
              && (!r.reply.value.syncResult.success ==> r.reply.value.syncResult.methodName == BothFailed)
    ensures ShadowInvariant(st.shadow) ==> ShadowInvariant(r.stores.shadow)
  {
    if cacheFault then ToolOutcome(cache, st, Threw)
    else
      var s := SyncKvDelete(st, key, direct, append, now);
      ToolOutcome(cache - {key}, s.stores, Returned(ToolResult(true, s.result)))
  }

  /** `kv_set` followed by `kv_get` and `kv_ttl`: the value reads back, and so does the
      TTL exactly when it was positive; otherwise the key never expires. */
  lemma SetThenReadBack(cache: Cache, st: Stores, pool: PoolSample, key: string, value: string,
                        ttlSec: Option<int>, sessionId: Option<string>, interactionId: Option<string>,
                        countFault: bool, direct: DirectOutcome, append: AppendOutcome, now: int)
    ensures var r := KvSet(cache, st, pool, key, Some(value), ttlSec, sessionId, interactionId, false, countFault,
                           direct, append, now);
            && CacheGet(r.cache, key) == Some(value)
            && (ttlSec.Some? && ttlSec.value > 0 ==> CacheTtl(r.cache, key) == Some(ttlSec.value))
            && (ttlSec.None? || ttlSec.value <= 0 ==> CacheTtl(r.cache, key) == None)
  {
  }

  /** `kv_scan`: the first keys under the prefix in cursor order, at most the clamped limit
      of them, all of them cached. */
  function KvScan(cache: Cache, order: seq<string>, prefix: string, limit: Option<int>): (keys: seq<string>)
    ensures var m := Matching(cache, order, prefix);
            keys == m[..if ClampLimit(limit) < |m| then ClampLimit(limit) else |m|]
    ensures |keys| <= ClampLimit(limit) <= MaxScanLimit
    ensures forall i :: 0 <= i < |keys| ==> keys[i] in cache && prefix <= keys[i]
    ensures |keys| < ClampLimit(limit) ==> forall k :: k in order && k in cache && prefix <= k ==> k in keys
  {
    Scan(cache, order, prefix, ClampLimit(limit))
  }

  /** A write that falls back to the outbox becomes consistent once the projector handles
      its event: with a TTL, the queued event rebuilds the record from the cached value. */
  lemma QueuedSetIsInSyncAfterProjection(cache: Cache, st: Stores, pool: PoolSample, key: string, value: string,
                                         ttlSec: Option<int>, sessionId: Option<string>, interactionId: Option<string>,
                                         direct: DirectOutcome, now: int, later: int)
    ensures var r := KvSet(cache, st, pool, key, Some(value), ttlSec, sessionId, interactionId, false, false, direct, AppendOk, now);
            r.reply.value.syncResult.methodName == EventBased ==>
              && |r.stores.outbox| == |st.outbox| + 1
              && var projected := ProjectEvent(r.stores, |st.outbox|, NoFault, later);
                 && InSync(r.cache, projected.shadow, key)
                 && projected.outbox[|st.outbox|].processed
  {
    var r := KvSet(cache, st, pool, key, Some(value), ttlSec, sessionId, interactionId, false, false, direct, AppendOk, now);
    if r.reply.value.syncResult.methodName == EventBased {
      var e := r.stores.outbox[|st.outbox|];
      assert SavesShadow(e, NoFault) && MarksProcessed(e, NoFault);
    }
  }

  /** A delete whose direct attempt fails is not tracked at all: the fallback cannot
      queue a tombstone, so the record outlives the cache entry. */
  lemma FailedDeleteLeavesDrift(cache: Cache, st: Stores, key: string, append: AppendOutcome, now: int)
    requires key in st.shadow && st.shadow[key].lastValue.Some?
    ensures var r := KvDel(cache, st, key, false, DirectFalse, append, now);
            && r.reply.value.syncResult.methodName == BothFailed
            && r.stores == st
            && !InSync(r.cache, r.stores.shadow, key)
  {
  }

  /** The common write on an idle pool with no backlog: a value set with a positive TTL
      and answered directly. The cache expires it after that TTL, the shadow record
      remembers the value and the TTL, nothing is queued, and the key checks in sync. */
  lemma DirectSetScenario(cache: Cache, st: Stores, key: string, value: string, ttl: int, now: int)
    requires CountUnprocessed(st.outbox) == 0 && ttl > 0
    ensures var r := KvSet(cache, st, PoolSample(0, 10, 0), key, Some(value), Some(ttl), None, None,
                           false, false, DirectOk, AppendOk, now);
            && r.reply == Returned(ToolResult(true, SyncResult(true, AsyncThread, "Direct synchronization completed successfully", now)))
            && r.cache[key] == CacheEntry(value, Some(ttl))
            && key in r.stores.shadow
            && r.stores.shadow[key].lastValue == Some(value)
            && r.stores.shadow[key].metadata["ttlSec"] == MetaInt(ttl)
            && r.stores.outbox == st.outbox
            && VerifyKeySync(r.cache, r.stores.shadow, key).inSync
  {
    var pool := PoolSample(0, 10, 0);
    assert !IsSystemUnderHighLoad(pool, 0);
    var s := AdaptiveSync(st, pool, key, Some(value), Some(ttl), None, None, false, DirectOk, AppendOk, now);
    assert s.value == SyncKvSet(st, key, Some(value), Some(ttl), None, None, DirectOk, AppendOk, now);
    assert s.value.stores.shadow[key] == DirectShadow(key, Some(value), ttl, None, None, now);
    var r := KvSet(cache, st, pool, key, Some(value), Some(ttl), None, None, false, false, DirectOk, AppendOk, now);
    assert r.reply.value.syncResult == s.value.result && r.stores == s.value.stores;
    assert InSync(r.cache, r.stores.shadow, key);
  }
}
