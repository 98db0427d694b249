/**
 The cache-to-shadow verification service: the full consistency report, the per-key
 check, the TTL listing and the emergency repair of one key.

 `findAll()` is modelled by a listing `order` of the store's keys; the report reads
 the clock once, as `now`.
 */
module Verification {
  import opened Wrappers
  import opened Fingerprint
  import opened Model
  import opened OutboxRepo

  /** A record not written for more than 24 hours is stale. */
  const StaleAfterSeconds: int := 86400

  const Healthy: string := "HEALTHY"
  const IssuesDetected: string := "ISSUES_DETECTED"

  /** `order` lists every key of the store exactly once. */
  ghost predicate IsListing(store: ShadowStore, order: seq<string>)
  {
    && (forall k :: k in store <==> k in order)
    && (forall a, b :: 0 <= a < b < |order| ==> order[a] != order[b])
  }

  /** The value the shadow store remembers for `key`; None when it has no record, or
      when the record remembers a null value. */
  function ShadowValue(store: ShadowStore, key: string): (v: Option<string>)
    ensures key !in store ==> v.None?
    ensures key in store ==> v == store[key].lastValue
  {
    if key in store then store[key].lastValue else None
  }

  /** The reference notion of consistency for one key: the cache and the shadow store
      agree on its value, a missing side counting as null. */
  predicate InSync(cache: Cache, store: ShadowStore, key: string)
  {
    CacheGet(cache, key) == ShadowValue(store, key)
  }

  /** One entry of the mismatch list of the full comparison. */
  datatype Mismatch = Mismatch(key: string, cacheValue: Option<string>, shadowValue: Option<string>,
                               shadowHash: string, lastWriteAt: int)

  /** `m` faithfully describes an inconsistent record of the store. */
  ghost predicate DescribesMismatch(cache: Cache, store: ShadowStore, m: Mismatch)
  {
    && m.key in store
    && m.cacheValue == CacheGet(cache, m.key)
    && m.shadowValue == store[m.key].lastValue
    && m.shadowHash == store[m.key].valueHash
    && m.lastWriteAt == store[m.key].lastWriteAt
    && m.cacheValue != m.shadowValue
  }

  /** Some entry of `ms` is about `key`. */
  ghost predicate Reports(ms: seq<Mismatch>, key: string)
  {
    exists j :: 0 <= j < |ms| && ms[j].key == key
  }

  /** The mismatch entry for one record: none when it agrees with the cache. */
  function MismatchOf(cache: Cache, store: ShadowStore, k: string): (here: seq<Mismatch>)
    requires k in store
    ensures |here| <= 1
    ensures |here| == 1 <==> !InSync(cache, store, k)
    ensures |here| == 1 ==> here[0].key == k && DescribesMismatch(cache, store, here[0])
  {
    if CacheGet(cache, k) != store[k].lastValue
    then [Mismatch(k, CacheGet(cache, k), store[k].lastValue, store[k].valueHash, store[k].lastWriteAt)]
    else []
  }

  /** The position of the first occurrence of `k` in `xs`. */
  function IndexOf(xs: seq<string>, k: string): (i: nat)
    requires k in xs
    ensures i < |xs| && xs[i] == k
  {
    if xs[0] == k then 0 else 1 + IndexOf(xs[1..], k)
  }

  /** Entries in listing order: putting the entry of the first listed key (if any) in
      front of entries for later keys, already in listing order, keeps that order. */
  lemma ConsKeepsListingOrder(order: seq<string>, here: seq<Mismatch>, rest: seq<Mismatch>)
    requires |order| > 0 && order[0] !in order[1..]
    requires |here| <= 1 && (|here| == 1 ==> here[0].key == order[0])
    requires forall j :: 0 <= j < |rest| ==> rest[j].key in order[1..]
    requires forall a, b :: 0 <= a < b < |rest| ==> IndexOf(order[1..], rest[a].key) < IndexOf(order[1..], rest[b].key)
    ensures var ms := here + rest;
            forall a, b :: 0 <= a < b < |ms| ==>
              ms[a].key in order && ms[b].key in order && IndexOf(order, ms[a].key) < IndexOf(order, ms[b].key)
  {
    var ms := here + rest;
    forall a, b | 0 <= a < b < |ms|
      ensures ms[a].key in order && ms[b].key in order && IndexOf(order, ms[a].key) < IndexOf(order, ms[b].key)
    {
      assert |here| <= a + 1 <= b;
      var y := rest[b - |here|];
      assert ms[b].key == y.key && y.key in order[1..];
      if a < |here| {
        assert ms[a].key == order[0];
        LaterKeyShifts(order, y.key);
      } else {
        var x := rest[a - |here|];
        assert ms[a].key == x.key && x.key in order[1..];
        assert IndexOf(order[1..], x.key) < IndexOf(order[1..], y.key);
        LaterKeyShifts(order, x.key);
        LaterKeyShifts(order, y.key);
      }
    }
  }

  /** In a listing without repetitions, a key past the first sits one position further
      than in the rest of the listing. */
  lemma LaterKeyShifts(order: seq<string>, k: string)
    requires |order| > 0 && order[0] !in order[1..]
    requires k in order[1..]
    ensures k in order && IndexOf(order, k) == 1 + IndexOf(order[1..], k)
  {
    var tail := order[1..];
    var q :| 0 <= q < |tail| && tail[q] == k;
    assert order[q + 1] == k;
    IndexOfTail(order, k);
  }

  /** Past a different first entry, positions shift by one. */
  lemma IndexOfTail(order: seq<string>, k: string)
    requires |order| > 0 && k in order[1..] && order[0] != k
    ensures IndexOf(order, k) == 1 + IndexOf(order[1..], k)
  {
  }

  /** Putting the entry of the first listed key (if any) in front of the entries for the
      rest of the listing keeps every entry describing a mismatch, and reports exactly the
      out-of-sync keys of the whole listing. */
  lemma ConsReportsMismatches(cache: Cache, store: ShadowStore, order: seq<string>, rest: seq<Mismatch>)
    requires |order| > 0 && forall i :: 0 <= i < |order| ==> order[i] in store
    requires forall j :: 0 <= j < |rest| ==> rest[j].key in order[1..] && DescribesMismatch(cache, store, rest[j])
    requires forall k :: k in order[1..] ==> (Reports(rest, k) <==> !InSync(cache, store, k))
    ensures var ms := MismatchOf(cache, store, order[0]) + rest;
            && (forall j :: 0 <= j < |ms| ==> ms[j].key in order && DescribesMismatch(cache, store, ms[j]))
            && (forall k :: k in order ==> (Reports(ms, k) <==> !InSync(cache, store, k)))
  {
    var k := order[0];
    var here := MismatchOf(cache, store, k);
    var ms := here + rest;
    assert forall j :: 0 <= j < |rest| ==> ms[j + |here|] == rest[j];
    forall j | 0 <= j < |ms| ensures ms[j].key in order && DescribesMismatch(cache, store, ms[j]) {
      if j >= |here| {
        assert ms[j] == rest[j - |here|];
      }
    }
    forall x | x in order && !InSync(cache, store, x) ensures Reports(ms, x) {
      if x == k {
        assert ms[0].key == k;
      } else {
        assert x in order[1..];
        var j :| 0 <= j < |rest| && rest[j].key == x;
        assert ms[j + |here|].key == x;
      }
    }
  }

  /** The mismatch list built by walking the listing. */
  function Mismatches(cache: Cache, store: ShadowStore, order: seq<string>): (ms: seq<Mismatch>)
    requires forall i :: 0 <= i < |order| ==> order[i] in store
    ensures |ms| <= |order|
    ensures forall j :: 0 <= j < |ms| ==> ms[j].key in order && DescribesMismatch(cache, store, ms[j])
    ensures forall k :: k in order ==> (Reports(ms, k) <==> !InSync(cache, store, k))
    // for a listing without repetitions, the entries follow the listing order, one per key
    ensures (forall a, b :: 0 <= a < b < |order| ==> order[a] != order[b]) ==>
              forall a, b :: 0 <= a < b < |ms| ==> IndexOf(order, ms[a].key) < IndexOf(order, ms[b].key)
  {
    if |order| == 0 then []
    else
      var rest := Mismatches(cache, store, order[1..]);
      var here := MismatchOf(cache, store, order[0]);
      ConsReportsMismatches(cache, store, order, rest);
      if forall a, b :: 0 <= a < b < |order| ==> order[a] != order[b] then
        assert forall a, b :: 0 <= a < b < |order[1..]| ==> order[1..][a] != order[1..][b];
        ConsKeepsListingOrder(order, here, rest);
        here + rest
      else
        here + rest
  }

  /** The result of comparing the cache with every shadow record. */
  datatype Comparison = Comparison(allInSync: bool, checkedKeys: nat, mismatches: seq<Mismatch>)

  /** A listing without repetitions has as many entries as the set of its keys. */
  lemma {:induction false} DistinctCardinality(order: seq<string>)
    requires forall a, b :: 0 <= a < b < |order| ==> order[a] != order[b]
    ensures |(set k | k in order)| == |order|
  {
    if |order| > 0 {
      var rest := order[1..];
      DistinctCardinality(rest);
      var all := set k | k in order;
      var tail := set k | k in rest;
      assert all == tail + {order[0]};
      assert order[0] !in tail;
    }
  }

  /** A listing of the store has one entry per record. */
  lemma ListingLength(store: ShadowStore, order: seq<string>)
    requires IsListing(store, order)
    ensures |order| == |store|
  {
    DistinctCardinality(order);
    assert (set k | k in order) == store.Keys;
  }

  /** Over a listing of the store, the mismatches follow the listing order. */
  lemma MismatchesFollowListing(cache: Cache, store: ShadowStore, order: seq<string>)
    requires IsListing(store, order)
    ensures var ms := Mismatches(cache, store, order);
            forall a, b :: 0 <= a < b < |ms| ==>
              ms[a].key in order && ms[b].key in order && IndexOf(order, ms[a].key) < IndexOf(order, ms[b].key)
  {
    assert forall a, b :: 0 <= a < b < |order| ==> order[a] != order[b];
  }

  /** `compareCacheWithShadow`. */
  function CompareCacheWithShadow(cache: Cache, store: ShadowStore, order: seq<string>): (r: Comparison)
    requires IsListing(store, order)
    ensures r.checkedKeys == |store|
    ensures r.allInSync <==> |r.mismatches| == 0
    ensures r.allInSync <==> forall k :: k in store ==> InSync(cache, store, k)
    ensures forall k :: k in store ==> (Reports(r.mismatches, k) <==> !InSync(cache, store, k))
    ensures forall j :: 0 <= j < |r.mismatches| ==> DescribesMismatch(cache, store, r.mismatches[j])
    // one entry per out-of-sync record, in listing order
    ensures forall a, b :: 0 <= a < b < |r.mismatches| ==>
              r.mismatches[a].key in order && r.mismatches[b].key in order &&
              IndexOf(order, r.mismatches[a].key) < IndexOf(order, r.mismatches[b].key)
  {
    ListingLength(store, order);
    if |order| == 0 then Comparison(true, 0, [])
    else
      var ms := Mismatches(cache, store, order);
      MismatchesFollowListing(cache, store, order);
      assert |ms| > 0 ==> Reports(ms, ms[0].key);
      Comparison(|ms| == 0, |order|, ms)
  }

  /** The record was last written more than 24 hours before `now`. */
  predicate IsStale(s: Shadow, now: int)
  {
    s.lastWriteAt < now - StaleAfterSeconds
  }

  /** The stale keys of the listing, in listing order. */
  function StaleKeys(store: ShadowStore, order: seq<string>, now: int): (ks: seq<string>)
    requires forall i :: 0 <= i < |order| ==> order[i] in store
    requires forall a, b :: 0 <= a < b < |order| ==> order[a] != order[b]
    ensures |ks| <= |order|
    ensures forall k :: k in ks <==> k in order && IsStale(store[k], now)
    ensures forall a, b :: 0 <= a < b < |ks| ==> ks[a] != ks[b]
  {
    if |order| == 0 then []
    else
      var rest := StaleKeys(store, order[1..], now);
      assert order[0] !in order[1..];
      if IsStale(store[order[0]], now) then [order[0]] + rest else rest
  }

  /** The result of the staleness check. */
  datatype StaleCheck = StaleCheck(staleKeys: seq<string>, staleCount: nat, staleThreshold: int)

  /** `checkForStaleEntries`. */
  function CheckForStaleEntries(store: ShadowStore, order: seq<string>, now: int): (r: StaleCheck)
    requires IsListing(store, order)
    ensures r.staleThreshold == now - StaleAfterSeconds
    ensures r.staleCount == |r.staleKeys| <= |store|
    ensures forall k :: k in r.staleKeys <==> k in store && IsStale(store[k], now)
    ensures forall a, b :: 0 <= a < b < |r.staleKeys| ==> r.staleKeys[a] != r.staleKeys[b]
  {
    ListingLength(store, order);
    var ks := StaleKeys(store, order, now);
    StaleCheck(ks, |ks|, now - StaleAfterSeconds)
  }

  /** The full report. */
  datatype SyncReport = SyncReport(unprocessedOutboxEvents: nat, cacheVsShadowSync: Comparison,
                                   staleEntriesCheck: StaleCheck, overallSyncHealth: string, timestamp: int)

  /** `verifyCacheSync`: healthy exactly when no event waits in the outbox, every shadow
      record agrees with the cache, and none is stale. */
  function VerifyCacheSync(cache: Cache, st: Stores, order: seq<string>, now: int): (r: SyncReport)
    requires IsListing(st.shadow, order)
    ensures r.unprocessedOutboxEvents == CountUnprocessed(st.outbox)
    ensures r.overallSyncHealth == Healthy || r.overallSyncHealth == IssuesDetected
    ensures r.overallSyncHealth == Healthy <==>
              && CountUnprocessed(st.outbox) == 0
              && (forall k :: k in st.shadow ==> InSync(cache, st.shadow, k))
              && (forall k :: k in st.shadow ==> !IsStale(st.shadow[k], now))
    ensures r.cacheVsShadowSync.checkedKeys == |st.shadow|
    ensures r.staleEntriesCheck.staleCount <= |st.shadow|
    // the report embeds the full comparison and the staleness check
    ensures r.cacheVsShadowSync == CompareCacheWithShadow(cache, st.shadow, order)
    ensures r.staleEntriesCheck == CheckForStaleEntries(st.shadow, order, now)
    ensures r.timestamp == now
  {
    var unprocessed := CountUnprocessed(st.outbox);
    var comparison := CompareCacheWithShadow(cache, st.shadow, order);
    var stale := CheckForStaleEntries(st.shadow, order, now);
    var healthy := unprocessed == 0 && comparison.allInSync && |stale.staleKeys| == 0;
    assert |stale.staleKeys| > 0 ==> stale.staleKeys[0] in st.shadow;
    SyncReport(unprocessed, comparison, stale, if healthy then Healthy else IssuesDetected, now)
  }

  /** The answer of the per-key check. `shadow` holds the record when there is one. */
  datatype KeyStatus = KeyStatus(key: string, cacheValue: Option<string>, cacheExists: bool,
                                 shadow: Option<Shadow>, inSync: bool)

  /** `verifyKeySync`. */
  function VerifyKeySync(cache: Cache, store: ShadowStore, key: string): (r: KeyStatus)
    ensures r.key == key && r.cacheValue == CacheGet(cache, key)
    ensures r.cacheExists <==> key in cache
    ensures r.shadow.Some? <==> key in store
    ensures r.shadow.Some? ==> r.shadow.value == store[key]
    ensures r.inSync <==> InSync(cache, store, key)
  {
    var cacheValue := CacheGet(cache, key);
    if key in store then
      KeyStatus(key, cacheValue, cacheValue.Some?, Some(store[key]), cacheValue == store[key].lastValue)
    else
      KeyStatus(key, cacheValue, cacheValue.Some?, None, cacheValue.None?)
  }

  /** The per-key check and the full comparison agree on every key of the store. */
  lemma KeyCheckAgreesWithComparison(cache: Cache, store: ShadowStore, order: seq<string>, key: string)
    requires IsListing(store, order) && key in store
    ensures VerifyKeySync(cache, store, key).inSync <==> !Reports(CompareCacheWithShadow(cache, store, order).mismatches, key)
  {
  }

  /** The full comparison only reads the cache at the keys of the store. */
  lemma {:induction false} MismatchesIgnoreOtherKeys(cache: Cache, store: ShadowStore, order: seq<string>,
                                                     key: string, e: CacheEntry)
    requires forall i :: 0 <= i < |order| ==> order[i] in store
    requires key !in store
    ensures Mismatches(cache[key := e], store, order) == Mismatches(cache, store, order)
  {
    if |order| > 0 {
      assert order[0] != key;
      MismatchesIgnoreOtherKeys(cache, store, order[1..], key, e);
    }
  }

  /** A key present only in the cache is invisible to the full report, although the
      per-key check reports it out of sync. */
  lemma CacheOnlyKeysAreInvisible(cache: Cache, st: Stores, order: seq<string>, now: int, key: string, e: CacheEntry)
    requires IsListing(st.shadow, order) && key !in st.shadow
    ensures VerifyCacheSync(cache[key := e], st, order, now) == VerifyCacheSync(cache, st, order, now)
    ensures !VerifyKeySync(cache[key := e], st.shadow, key).inSync
  {
    MismatchesIgnoreOtherKeys(cache, st.shadow, order, key, e);
  }

  /** The staleness cut-off is strict: a record exactly 24 hours old is not stale, one a
      second older is. */
  lemma StalenessBoundary(s: Shadow, now: int)
    ensures s.lastWriteAt == now - 86400 ==> !IsStale(s, now)
    ensures s.lastWriteAt == now - 86401 ==> IsStale(s, now)
  {
  }

  /** The TTL listing: seconds to live per scanned key, -1 when the key has no expiry
      or is gone. */
  datatype TtlReport = TtlReport(ttlInfo: map<string, int>, scannedKeys: nat)

  function TtlInfo(cache: Cache, keys: seq<string>): (info: map<string, int>)
    ensures forall k :: k in info <==> k in keys
    ensures forall k :: k in info ==> info[k] >= -1
    ensures forall k :: k in info ==> (info[k] == -1 <==> CacheTtl(cache, k).None?)
    ensures forall k :: k in info && CacheTtl(cache, k).Some? ==> info[k] == CacheTtl(cache, k).value
  {
    if |keys| == 0 then map[]
    else
      var last := keys[|keys| - 1];
      var init := TtlInfo(cache, keys[..|keys| - 1]);
      assert forall k :: k in keys ==> k in keys[..|keys| - 1] || k == last;
      var t := CacheTtl(cache, last);
      init[last := if t.Some? then t.value else -1]
  }

  /** `getCacheTTLInfo` over the keys the scan returned. */
  function GetCacheTtlInfo(cache: Cache, keys: seq<string>): (r: TtlReport)
    ensures r.scannedKeys == |keys|
    ensures forall k :: k in r.ttlInfo <==> k in keys
    ensures forall k :: k in r.ttlInfo ==> (r.ttlInfo[k] == -1 <==> CacheTtl(cache, k).None?)
    ensures forall k :: k in r.ttlInfo && CacheTtl(cache, k).Some? ==> r.ttlInfo[k] == CacheTtl(cache, k).value
  {
    TtlReport(TtlInfo(cache, keys), |keys|)
  }

  /** What the repair did. */
  datatype RepairAction = CreatedShadow | RemovedShadow | UpdatedShadow | NoRepairNeeded | RepairFailed
  {
    function Name(): string
    {
      match this
      case CreatedShadow => "created_shadow"
      case RemovedShadow => "removed_shadow"
      case UpdatedShadow => "updated_shadow"
      case NoRepairNeeded => "no_repair_needed"
      case RepairFailed => "repair_failed"
    }
  }

  datatype Repair = Repair(action: RepairAction, key: string, success: bool, error: Option<string>)

  /** Whether reading or writing a store throws during the repair, and the exception's
      message (None for a null message). A throwing step leaves the store unchanged. */
  datatype RepairFault = NoRepairFault | RepairThrows(message: Option<string>)

  datatype RepairOutcome = RepairOutcome(shadow: ShadowStore, reply: Reply<Repair>)

  const RepairedMeta: map<string, MetaValue> := map["repaired" := MetaBool(true)]

  /** The repair that fits which of the two sides holds the key. */
  function RepairFor(cache: Cache, store: ShadowStore, key: string): RepairAction
  {
    if key in cache && key !in store then CreatedShadow
    else if key !in cache && key in store then RemovedShadow
    else if key in cache && key in store then UpdatedShadow
    else NoRepairNeeded
  }

  /** The record a repair writes for a cached key: the cached value and its fingerprint,
      stamped now and marked repaired; the ids of an existing record are kept. */
  function RepairedRecord(cache: Cache, store: ShadowStore, key: string, now: int): (s: Shadow)
    requires key in cache
    ensures s.key == (if key in store then store[key].key else key)
    ensures s.lastValue == Some(cache[key].value) && s.valueHash == Fp(s.lastValue)
    ensures s.lastWriteAt == now && s.metadata == RepairedMeta
    ensures key in store ==> s.sessionId == store[key].sessionId && s.interactionId == store[key].interactionId
    ensures key !in store ==> s.sessionId.None? && s.interactionId.None?
  {
    var v := cache[key].value;
    if key in store then
      store[key].(lastValue := Some(v), valueHash := Fp(Some(v)), lastWriteAt := now, metadata := RepairedMeta)
    else
      Shadow(key, Fp(Some(v)), Some(v), now, None, None, RepairedMeta)
  }

  /** The shadow store after a repair that runs to completion. */
  function RepairedStore(cache: Cache, store: ShadowStore, key: string, now: int): (r: ShadowStore)
    ensures InSync(cache, r, key)
    ensures key in cache ==> key in r && r[key] == RepairedRecord(cache, store, key, now)
    ensures key !in cache ==> key !in r
    ensures forall k :: k != key ==> (k in r <==> k in store)
    ensures forall k :: k != key && k in store ==> r[k] == store[k]
    ensures ShadowInvariant(store) ==> ShadowInvariant(r)
  {
    if key in cache then
      RepairKeepsInvariant(cache, store, key, now);
      store[key := RepairedRecord(cache, store, key, now)]
    else
      store - {key}
  }

  /** Writing the repaired record keeps the shadow-store invariant. */
  lemma RepairKeepsInvariant(cache: Cache, store: ShadowStore, key: string, now: int)
    requires key in cache
    ensures ShadowInvariant(store) ==> ShadowInvariant(store[key := RepairedRecord(cache, store, key, now)])
  {
    if ShadowInvariant(store) {
      StoreKeepsInvariant(store, key, RepairedRecord(cache, store, key, now));
    }
  }

  /** `forceSyncRepair`: makes the shadow store agree with the cache at `key`. When both
      sides hold a record it is rewritten even if the values already agree. */
  function ForceSyncRepair(cache: Cache, store: ShadowStore, key: string, fault: RepairFault, now: int): (r: RepairOutcome)
    ensures fault.NoRepairFault? ==>
              && r.reply.Returned? && r.reply.value.success && r.reply.value.key == key
              && r.reply.value.error.None?
              && InSync(cache, r.shadow, key)
    ensures fault.NoRepairFault? && key in cache ==>
              && key in r.shadow
              && r.shadow[key].lastWriteAt == now
              && r.shadow[key].metadata == RepairedMeta
              && (key in store ==> r.shadow[key].sessionId == store[key].sessionId
                                   && r.shadow[key].interactionId == store[key].interactionId)
    ensures fault.NoRepairFault? && key !in cache ==> key !in r.shadow
    ensures fault.RepairThrows? ==>
              && r.shadow == store
              && (r.reply.Threw? <==> fault.message.None?)
              && (r.reply.Returned? ==> r.reply.value == Repair(RepairFailed, key, false, fault.message))
    ensures forall k :: k != key ==> (k in r.shadow <==> k in store)
    ensures forall k :: k != key && k in store ==> r.shadow[k] == store[k]
    ensures ShadowInvariant(store) ==> ShadowInvariant(r.shadow)
  {
    if fault.RepairThrows? then
      // the failure map is built with `Map.of`, which rejects a null message
      RepairOutcome(store, if fault.message.None? then Threw else Returned(Repair(RepairFailed, key, false, fault.message)))
    else
      RepairOutcome(RepairedStore(cache, store, key, now), Returned(Repair(RepairFor(cache, store, key), key, true, None)))
  }

  /** Which repair is chosen: it follows which of the two sides holds the key, and a key
      on both sides is rewritten even when the values already agree. */
  lemma RepairActionFollowsSides(cache: Cache, store: ShadowStore, key: string, now: int)
    ensures var a := ForceSyncRepair(cache, store, key, NoRepairFault, now).reply.value.action;
            && (a == CreatedShadow <==> key in cache && key !in store)
            && (a == RemovedShadow <==> key !in cache && key in store)
            && (a == UpdatedShadow <==> key in cache && key in store)
            && (a == NoRepairNeeded <==> key !in cache && key !in store)
  {
  }

  /** After a repair the per-key check reports the key in sync. */
  lemma RepairedKeyIsInSync(cache: Cache, store: ShadowStore, key: string, now: int)
    ensures VerifyKeySync(cache, ForceSyncRepair(cache, store, key, NoRepairFault, now).shadow, key).inSync
  {
  }

  /** Repairing twice changes nothing beyond the first repair but the write time. */
  lemma {:induction false} RepairTwiceOnlyRetimes(cache: Cache, store: ShadowStore, key: string, now1: int, now2: int)
    ensures var once := ForceSyncRepair(cache, store, key, NoRepairFault, now1).shadow;
            var twice := ForceSyncRepair(cache, once, key, NoRepairFault, now2).shadow;
            && once.Keys == twice.Keys
            && (forall k :: k in once && k != key ==> twice[k] == once[k])
            && (key in once ==> twice[key] == once[key].(lastWriteAt := now2))
  {
    var once := ForceSyncRepair(cache, store, key, NoRepairFault, now1).shadow;
    var twice := ForceSyncRepair(cache, once, key, NoRepairFault, now2).shadow;
    if key in cache {
      assert key in once;
      assert twice == once[key := once[key].(lastWriteAt := now2)];
    } else {
      assert twice == once;
    }
  }
}
