/**
 The hybrid synchronizer. A cache write is tracked either by a direct shadow save,
 run on a worker pool and awaited with a timeout, or, when that does not answer
 true in time, by appending a "KVMutated" event to the outbox.

 The worker pool, the timeout and the cancellation are replaced by the outcome the
 caller observes (`DirectOutcome`), and the outbox save by `AppendOutcome`; what is
 left is deterministic.
 */
module HybridSync {
  import opened Wrappers
  import opened Fingerprint
  import opened Model
  import opened OutboxRepo

  const AsyncThread: string := "ASYNC_THREAD"
  const EventBased: string := "EVENT_BASED"
  const BothFailed: string := "BOTH_FAILED"
  const FallbackReason: string := "ASYNC_TIMEOUT_OR_FAILURE"

  /** More unprocessed events than this counts as high load. */
  const EventBacklogThreshold: nat := 100

  /** What `getMessage()` of a NullPointerException thrown by `Map.of` prints when
      concatenated: its message is null. */
  const NullMessage: string := "null"

  /** How the direct attempt ends, as the waiting caller sees it.
      - DirectOk: the worker saved the record and answered true in time.
      - DirectFalse: building or saving the record threw inside the worker, which
        answered false.
      - DirectThrew: waiting for the worker threw (it was interrupted).
      - TimedOut: no answer in time; the caller cancels, which does not stop the worker.
      After the last two the caller gives up on the worker; `landed` tells whether its
      save still reached the store, which the caller cannot observe. */
  datatype DirectOutcome = DirectOk | DirectFalse | DirectThrew(landed: bool) | TimedOut(landed: bool)
  {
    /** The worker was abandoned and its save reached the store anyway. */
    predicate LandsLate()
    {
      (DirectThrew? || TimedOut?) && landed
    }
  }

  /** What the outbox save of the fallback path does. */
  datatype AppendOutcome = AppendOk | AppendThrows(message: string)

  /** The worker pool counters read by the load heuristic. */
  datatype PoolSample = PoolSample(activeCount: nat, maxPoolSize: nat, queueSize: nat)

  /** The stores after a synchronization call, and what the call returned. */
  datatype SyncOutcome = SyncOutcome(stores: Stores, result: SyncResult)

  /** The direct path builds its metadata with `Map.of`, which throws on a null TTL;
      the worker catches that and answers false without saving. */
  predicate DirectBuildFails(ttlSec: Option<int>)
  {
    ttlSec.None?
  }

  /** The fallback payload is built with `Map.of`, which throws on a null value. */
  predicate EventBuildFails(p: Payload)
  {
    p.value.None?
  }

  /** The record the direct path saves. */
  function DirectShadow(key: string, value: Option<string>, ttl: int, sessionId: Option<string>,
                        interactionId: Option<string>, now: int): Shadow
  {
    Shadow(key, Fp(value), value, now, sessionId, interactionId,
           map["ttlSec" := MetaInt(ttl), "syncMethod" := MetaString(AsyncThread), "syncTimestamp" := MetaInstant(now)])
  }

  /** The direct save reaches the shadow store (in time or, abandoned, afterwards). */
  predicate DirectLands(ttlSec: Option<int>, direct: DirectOutcome)
  {
    !DirectBuildFails(ttlSec) && (direct.DirectOk? || direct.LandsLate())
  }

  /** The caller sees the direct path answer true within the timeout. */
  predicate DirectSucceeds(ttlSec: Option<int>, direct: DirectOutcome)
  {
    !DirectBuildFails(ttlSec) && direct.DirectOk?
  }

  /** The fallback payload of a set: a null TTL becomes 0, null ids become "". */
  function SetPayload(key: string, value: Option<string>, ttlSec: Option<int>, sessionId: Option<string>,
                      interactionId: Option<string>): Payload
  {
    Payload(key, value, Some(ttlSec.GetOr(0)), Some(sessionId.GetOr("")), Some(interactionId.GetOr("")),
            Some(FallbackReason))
  }

  /** The fallback payload of a delete: `Map.of("key", key, "value", null, ...)`. */
  function DeletePayload(key: string): Payload
  {
    Payload(key, None, None, None, None, Some(FallbackReason))
  }

  /** Appends an unprocessed "KVMutated" event carrying `payload`, unless building the
      payload or saving the event throws. */
  function AppendEvent(st: Stores, payload: Payload, append: AppendOutcome, now: int,
                       okMessage: string, failPrefix: string): (r: SyncOutcome)
    ensures r.stores.shadow == st.shadow
    ensures r.result.success <==> !EventBuildFails(payload) && append.AppendOk?
    ensures r.result.success ==>
              && r.result.methodName == EventBased
              && r.stores.outbox == st.outbox + [Event(KvMutated, now, payload, false)]
    ensures !r.result.success ==> r.result.methodName == BothFailed && r.stores == st
  {
    if EventBuildFails(payload) then
      SyncOutcome(st, SyncResult(false, BothFailed, failPrefix + NullMessage, now))
    else if append.AppendThrows? then
      SyncOutcome(st, SyncResult(false, BothFailed, failPrefix + append.message, now))
    else
      SyncOutcome(st.(outbox := st.outbox + [Event(KvMutated, now, payload, false)]),
                  SyncResult(true, EventBased, okMessage, now))
  }

  /** `after` is `before` with one unprocessed "KVMutated" event appended at `now`, which
      carries `value` for `key` and a TTL. */
  ghost predicate QueuedWrite(before: seq<Event>, after: seq<Event>, key: string, value: Option<string>, now: int)
  {
    && |after| == |before| + 1
    && after[..|before|] == before
    && after[|before|].kind == KvMutated && !after[|before|].processed && after[|before|].ts == now
    && after[|before|].payload.key == key && after[|before|].payload.value == value
    && after[|before|].payload.ttlSec.Some?
    && after[|before|].payload.fallbackReason == Some(FallbackReason)
  }

  /** `performEventBasedSync`. */
  function EventBasedSync(st: Stores, key: string, value: Option<string>, ttlSec: Option<int>,
                          sessionId: Option<string>, interactionId: Option<string>,
                          append: AppendOutcome, now: int): (r: SyncOutcome)
    ensures r.stores.shadow == st.shadow
    ensures r.result.success <==> value.Some? && append.AppendOk?
    ensures r.result.success ==>
              && r.result.methodName == EventBased
              && |r.stores.outbox| == |st.outbox| + 1
              && r.stores.outbox[..|st.outbox|] == st.outbox
              && var e := r.stores.outbox[|st.outbox|];
                 && e.kind == KvMutated && !e.processed && e.ts == now
                 && e.payload.key == key && e.payload.value == value
                 && e.payload.fallbackReason == Some(FallbackReason)
                 && e.payload.ttlSec == Some(if ttlSec.Some? then ttlSec.value else 0)
                 && e.payload.sessionId == Some(if sessionId.Some? then sessionId.value else "")
                 && e.payload.interactionId == Some(if interactionId.Some? then interactionId.value else "")
    ensures !r.result.success ==> r.result.methodName == BothFailed && r.stores == st
  {
    var r := AppendEvent(st, SetPayload(key, value, ttlSec, sessionId, interactionId), append, now,
                         "Synchronization queued via outbox pattern",
                         "Both async and event-based sync failed: ");
    assert r.result.success ==> r.stores.outbox[..|st.outbox|] == st.outbox;
    r
  }

  /** `syncKvSet`: the direct attempt, then the fallback when it does not answer true. */
  function SyncKvSet(st: Stores, key: string, value: Option<string>, ttlSec: Option<int>,
                     sessionId: Option<string>, interactionId: Option<string>,
                     direct: DirectOutcome, append: AppendOutcome, now: int): (r: SyncOutcome)
    // direct success: one shadow save, no outbox append
    ensures DirectSucceeds(ttlSec, direct) ==>
              && r.result.success && r.result.methodName == AsyncThread
              && r.stores.outbox == st.outbox
              && key in r.stores.shadow
              && r.stores.shadow[key].lastValue == value
              && r.stores.shadow[key].valueHash == Fp(value)
              && r.stores.shadow[key].lastWriteAt == now
              && r.stores.shadow[key].sessionId == sessionId
              && r.stores.shadow[key].interactionId == interactionId
              && "syncMethod" in r.stores.shadow[key].metadata
              && r.stores.shadow[key].metadata["syncMethod"] == MetaString(AsyncThread)
    // otherwise the event path decides the result
    ensures !DirectSucceeds(ttlSec, direct) ==>
              && (r.result.methodName == EventBased || r.result.methodName == BothFailed)
              && (r.result.success <==> value.Some? && append.AppendOk?)
              && (r.result.success ==> |r.stores.outbox| == |st.outbox| + 1 && r.stores.outbox[..|st.outbox|] == st.outbox)
    ensures !r.result.success ==> r.result.methodName == BothFailed && r.stores.outbox == st.outbox
    ensures r.result.methodName == EventBased ==> QueuedWrite(st.outbox, r.stores.outbox, key, value, now)
    // the shadow store changes at most at `key`, and only when the direct save lands
    ensures forall k :: k != key ==> (k in r.stores.shadow <==> k in st.shadow)
    ensures forall k :: k != key && k in st.shadow ==> r.stores.shadow[k] == st.shadow[k]
    ensures !DirectLands(ttlSec, direct) ==> r.stores.shadow == st.shadow
    // a save that lands, even after the caller gave up on it, writes the direct record
    ensures DirectLands(ttlSec, direct) ==>
              key in r.stores.shadow &&
              r.stores.shadow[key] == DirectShadow(key, value, ttlSec.value, sessionId, interactionId, now)
    // without a direct answer of true, result and outbox are exactly those of the event path
    ensures !DirectSucceeds(ttlSec, direct) ==>
              var e := EventBasedSync(st, key, value, ttlSec, sessionId, interactionId, append, now);
              r.result == e.result && r.stores.outbox == e.stores.outbox
    ensures ShadowInvariant(st.shadow) ==> ShadowInvariant(r.stores.shadow)
  {
    var afterDirect :=
      if DirectLands(ttlSec, direct)
      then st.(shadow := st.shadow[key := DirectShadow(key, value, ttlSec.value, sessionId, interactionId, now)])
      else st;
    StoreKeepsInvariant(st.shadow, key, DirectShadow(key, value, ttlSec.GetOr(0), sessionId, interactionId, now));
    if DirectSucceeds(ttlSec, direct) then
      SyncOutcome(afterDirect, SyncResult(true, AsyncThread, "Direct synchronization completed successfully", now))
    else
      var r := EventBasedSync(afterDirect, key, value, ttlSec, sessionId, interactionId, append, now);
      assert r.stores.shadow == afterDirect.shadow;
      r
  }

  /** `syncKvDelete`: the direct delete, then the fallback when it does not answer true. */
  function SyncKvDelete(st: Stores, key: string, direct: DirectOutcome, append: AppendOutcome,
                        now: int): (r: SyncOutcome)
    ensures r.result.success <==> direct.DirectOk?
    ensures r.result.success ==> r.result.methodName == AsyncThread && key !in r.stores.shadow
    // the delete fallback payload holds a null value, so the fallback always fails
    ensures !r.result.success ==> r.result.methodName == BothFailed
    ensures r.stores.outbox == st.outbox
    ensures r.stores.shadow == st.shadow - {key} || r.stores.shadow == st.shadow
    ensures !direct.DirectOk? && !direct.LandsLate() ==> r.stores.shadow == st.shadow
    // a delete that lands, even after the caller gave up on it, removes the record
    ensures direct.DirectOk? || direct.LandsLate() ==> r.stores.shadow == st.shadow - {key}
    ensures ShadowInvariant(st.shadow) ==> ShadowInvariant(r.stores.shadow)
  {
    var afterDirect :=
      if direct.DirectOk? || direct.LandsLate()
      then st.(shadow := st.shadow - {key})
      else st;
    if direct.DirectOk? then
      SyncOutcome(afterDirect, SyncResult(true, AsyncThread, "Direct delete synchronization completed successfully", now))
    else
      AppendEvent(afterDirect, DeletePayload(key), append, now,
                  "Delete synchronization queued via outbox pattern",
                  "Both async and event-based delete sync failed: ")
  }

  /** `isSystemUnderHighLoad`: at least 80% of the pool busy, a queued task, or more
      than 100 unprocessed outbox events. The body compares `5 * active >= 4 * max`
      in integers; the contract states the source's `active >= max * 0.8`. */
  function IsSystemUnderHighLoad(pool: PoolSample, unprocessed: nat): (high: bool)
    ensures high <==> || pool.activeCount as real >= pool.maxPoolSize as real * 0.8
                      || pool.queueSize > 0
                      || unprocessed > EventBacklogThreshold
  {
    5 * pool.activeCount >= 4 * pool.maxPoolSize || pool.queueSize > 0 || unprocessed > EventBacklogThreshold
  }

  /** `adaptiveSync`: under high load straight to the event path, otherwise `syncKvSet`.
      The unprocessed count is read from the outbox itself; when that read fails
      (`countFault`) the exception reaches the caller before anything is written. */
  function AdaptiveSync(st: Stores, pool: PoolSample, key: string, value: Option<string>, ttlSec: Option<int>,
                        sessionId: Option<string>, interactionId: Option<string>, countFault: bool,
                        direct: DirectOutcome, append: AppendOutcome, now: int): (r: Reply<SyncOutcome>)
    ensures r.Threw? <==> countFault
    ensures r.Returned? && IsSystemUnderHighLoad(pool, CountUnprocessed(st.outbox)) ==>
              && r.value.stores.shadow == st.shadow
              && r.value.result.methodName != AsyncThread
              && (r.value.result.success <==> value.Some? && append.AppendOk?)
              && (r.value.result.success ==> |r.value.stores.outbox| == |st.outbox| + 1)
              && r.value == EventBasedSync(st, key, value, ttlSec, sessionId, interactionId, append, now)
    ensures r.Returned? && !IsSystemUnderHighLoad(pool, CountUnprocessed(st.outbox)) ==>
              r.value == SyncKvSet(st, key, value, ttlSec, sessionId, interactionId, direct, append, now)
    ensures r.Returned? && r.value.result.methodName == EventBased ==>
              QueuedWrite(st.outbox, r.value.stores.outbox, key, value, now)
    ensures r.Returned? && !r.value.result.success ==> r.value.stores.outbox == st.outbox
    ensures r.Returned? && r.value.result.methodName == AsyncThread ==>
              DirectSucceeds(ttlSec, direct) && ShadowHolds(r.value.stores.shadow, key, value)
    ensures r.Returned? ==> r.value.stores.shadow.Keys <= st.shadow.Keys + {key}
    ensures r.Returned? && ShadowInvariant(st.shadow) ==> ShadowInvariant(r.value.stores.shadow)
  {
    if countFault then Threw
    else if IsSystemUnderHighLoad(pool, CountUnprocessed(st.outbox)) then
      Returned(EventBasedSync(st, key, value, ttlSec, sessionId, interactionId, append, now))
    else
      Returned(SyncKvSet(st, key, value, ttlSec, sessionId, interactionId, direct, append, now))
  }

  /** The shadow store holds `value` for `key`. */
  ghost predicate ShadowHolds(shadow: ShadowStore, key: string, value: Option<string>)
  {
    key in shadow && shadow[key].lastValue == value
  }

  /** A successful set leaves a durable record of the write: the shadow record, or a queued
      event, never neither. Both only happen when an abandoned direct save lands after all. */
  lemma {:induction false} SetLeavesOneRecord(st: Stores, key: string, value: Option<string>, ttlSec: Option<int>,
                                              sessionId: Option<string>, interactionId: Option<string>,
                                              direct: DirectOutcome, append: AppendOutcome, now: int)
    ensures var r := SyncKvSet(st, key, value, ttlSec, sessionId, interactionId, direct, append, now);
            && (r.result.success ==> ShadowHolds(r.stores.shadow, key, value) || QueuedWrite(st.outbox, r.stores.outbox, key, value, now))
            && (r.result.methodName == AsyncThread ==> r.stores.outbox == st.outbox)
            && (r.result.methodName == EventBased && !direct.LandsLate() ==> r.stores.shadow == st.shadow)
  {
    var r := SyncKvSet(st, key, value, ttlSec, sessionId, interactionId, direct, append, now);
    if r.result.success && !DirectSucceeds(ttlSec, direct) {
      var afterDirect :=
        if DirectLands(ttlSec, direct)
        then st.(shadow := st.shadow[key := DirectShadow(key, value, ttlSec.value, sessionId, interactionId, now)])
        else st;
      assert r == EventBasedSync(afterDirect, key, value, ttlSec, sessionId, interactionId, append, now);
      assert QueuedWrite(st.outbox, r.stores.outbox, key, value, now);
    }
  }

  /** The load heuristic grows with load: more busy workers, a longer queue or a longer
      backlog never turn high load off. */
  lemma HighLoadIsMonotone(pool: PoolSample, unprocessed: nat, more: PoolSample, moreUnprocessed: nat)
    requires more.maxPoolSize == pool.maxPoolSize
    requires pool.activeCount <= more.activeCount && pool.queueSize <= more.queueSize
    requires unprocessed <= moreUnprocessed
    ensures IsSystemUnderHighLoad(pool, unprocessed) ==> IsSystemUnderHighLoad(more, moreUnprocessed)
  {
  }

  /** The backlog threshold is strict: with an idle pool of 10 workers, 50 or 100
      unprocessed events are not high load, 101 or 150 are. 8 busy workers of 10 are. */
  lemma HighLoadBoundaries()
    ensures !IsSystemUnderHighLoad(PoolSample(0, 10, 0), 50)
    ensures !IsSystemUnderHighLoad(PoolSample(0, 10, 0), 100)
    ensures IsSystemUnderHighLoad(PoolSample(0, 10, 0), 101)
    ensures IsSystemUnderHighLoad(PoolSample(0, 10, 0), 150)
    ensures !IsSystemUnderHighLoad(PoolSample(7, 10, 0), 0)
    ensures IsSystemUnderHighLoad(PoolSample(8, 10, 0), 0)
    ensures IsSystemUnderHighLoad(PoolSample(0, 10, 1), 0)
  {
  }

  /** Unit test "async success": a direct success saves the shadow and queues nothing. */
  lemma TestSetAsyncSuccess(st: Stores, now: int)
    ensures var r := SyncKvSet(st, "test-key", Some("test-value"), Some(300), Some("session-1"), Some("interaction-1"),
                               DirectOk, AppendOk, now);
            r.result.success && r.result.methodName == AsyncThread && "test-key" in r.stores.shadow
            && r.stores.outbox == st.outbox
  {
  }

  /** Unit test "fallback to event": a failing shadow save leads to one queued event. */
  lemma TestSetFallsBackToEvent(st: Stores, now: int)
    ensures var r := SyncKvSet(st, "test-key", Some("test-value"), Some(300), Some("session-1"), Some("interaction-1"),
                               DirectFalse, AppendOk, now);
            r.result.success && r.result.methodName == EventBased && r.stores.shadow == st.shadow
            && |r.stores.outbox| == |st.outbox| + 1
  {
  }

  /** Unit test "delete async success": a direct delete queues nothing. */
  lemma TestDeleteAsyncSuccess(st: Stores, now: int)
    ensures var r := SyncKvDelete(st, "test-key", DirectOk, AppendOk, now);
            r.result.success && r.result.methodName == AsyncThread && r.stores.outbox == st.outbox
  {
  }

  /** Unit test "adaptive sync, normal load". The service builds its pool of 10 workers
      before the test changes the configured size, so the pool reads 10 idle workers; a
      backlog of 50 keeps the direct path. */
  lemma TestAdaptiveSyncNormalLoad(st: Stores, now: int)
    requires CountUnprocessed(st.outbox) == 50
    ensures var r := AdaptiveSync(st, PoolSample(0, 10, 0), "test-key", Some("test-value"), Some(300), Some("session-1"),
                                  Some("interaction-1"), false, DirectOk, AppendOk, now);
            r.Returned? && r.value.result.success && r.value.result.methodName == AsyncThread
  {
    assert !IsSystemUnderHighLoad(PoolSample(0, 10, 0), 50);
  }

  /** Unit test "adaptive sync, high load": a backlog of 150 goes straight to the outbox,
      with one queued event and no shadow save. */
  lemma TestAdaptiveSyncHighLoad(st: Stores, now: int)
    requires CountUnprocessed(st.outbox) == 150
    ensures var r := AdaptiveSync(st, PoolSample(0, 10, 0), "test-key", Some("test-value"), Some(300), Some("session-1"),
                                  Some("interaction-1"), false, DirectOk, AppendOk, now);
            && r.Returned? && r.value.result.success
            && r.value.result.methodName == EventBased && r.value.stores.shadow == st.shadow
            && |r.value.stores.outbox| == |st.outbox| + 1
  {
    assert IsSystemUnderHighLoad(PoolSample(0, 10, 0), 150);
  }
}
