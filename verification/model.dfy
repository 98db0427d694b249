/**
 The entities the synchronization engine moves between: shadow records (the
 `kvshadow` collection), outbox events (the `outbox` collection), the cache and
 the result of a synchronization attempt.

 Instants are ints (seconds); `now` is always a parameter.
 */
module Model {
  import opened Wrappers
  import opened Fingerprint

  /** A value in a shadow record's free-form metadata map. `Instant.now().toString()`
      is kept as the instant it prints. */
  datatype MetaValue = MetaInt(i: int) | MetaString(s: string) | MetaBool(b: bool) | MetaInstant(t: int)

  /** One shadow record, stored under its cache key. */
  datatype Shadow = Shadow(
    key: string,
    valueHash: string,
    lastValue: Option<string>,
    lastWriteAt: int,
    sessionId: Option<string>,
    interactionId: Option<string>,
    metadata: map<string, MetaValue>)

  /** The shadow collection, keyed by its `@Id`, the cache key. */
  type ShadowStore = map<string, Shadow>

  /** Every record is stored under its own key. */
  ghost predicate WellKeyed(store: ShadowStore)
  {
    forall k :: k in store ==> store[k].key == k
  }

  /** Every record's fingerprint is the fingerprint of its value, never a stale one. */
  ghost predicate HashConsistent(store: ShadowStore)
  {
    forall k :: k in store ==> store[k].valueHash == Fp(store[k].lastValue)
  }

  /** The invariant every writer of the shadow collection keeps. */
  ghost predicate ShadowInvariant(store: ShadowStore)
  {
    WellKeyed(store) && HashConsistent(store)
  }

  /** Storing a record under its own key, with the fingerprint of its value, keeps the
      invariant. */
  lemma StoreKeepsInvariant(store: ShadowStore, key: string, rec: Shadow)
    requires rec.key == key && rec.valueHash == Fp(rec.lastValue)
    ensures ShadowInvariant(store) ==> ShadowInvariant(store[key := rec])
  {
  }

  /** An event payload: a Java `Map<String,Object>`. `key` is always present; every
      other entry may be missing (None). */
  datatype Payload = Payload(
    key: string,
    value: Option<string>,
    ttlSec: Option<int>,
    sessionId: Option<string>,
    interactionId: Option<string>,
    fallbackReason: Option<string>)

  /** One outbox row. Its identity is its position in the outbox, which is append-only. */
  datatype Event = Event(kind: string, ts: int, payload: Payload, processed: bool)

  const KvMutated: string := "KVMutated"

  /** The two durable stores the engine writes. */
  datatype Stores = Stores(shadow: ShadowStore, outbox: seq<Event>)

  /** A cache entry: its value and, if it expires, its remaining time to live in seconds. */
  datatype CacheEntry = CacheEntry(value: string, ttl: Option<nat>)

  type Cache = map<string, CacheEntry>

  /** `kvClient.get(key)`: the cached value, or None when the key is absent. */
  function CacheGet(cache: Cache, key: string): (v: Option<string>)
    ensures v.Some? <==> key in cache
    ensures v.Some? ==> v.value == cache[key].value
  {
    if key in cache then Some(cache[key].value) else None
  }

  /** `kvClient.ttl(key)`: the remaining time to live, or None when the key is absent or
      never expires. */
  function CacheTtl(cache: Cache, key: string): (t: Option<nat>)
    ensures t.Some? <==> key in cache && cache[key].ttl.Some?
    ensures t.Some? ==> t.value == cache[key].ttl.value
  {
    if key in cache then cache[key].ttl else None
  }

  /** Every cached key under `prefix`, in the order the cursor visits them (`order`). */
  function Matching(cache: Cache, order: seq<string>, prefix: string): (ks: seq<string>)
    ensures |ks| <= |order|
    ensures forall k :: k in ks <==> k in order && k in cache && prefix <= k
  {
    if |order| == 0 then []
    else if order[0] in cache && prefix <= order[0] then [order[0]] + Matching(cache, order[1..], prefix)
    else Matching(cache, order[1..], prefix)
  }

  /** Taking n + 1 from a list that starts with x is x followed by taking n from the rest. */
  lemma TakeAfterFirst(x: string, m: seq<string>, limit: int)
    requires limit >= 1
    ensures [x] + m[..if limit - 1 < |m| then limit - 1 else |m|]
            == ([x] + m)[..if limit < |m| + 1 then limit else |m| + 1]
  {
  }

  /** `kvClient.scan(prefix, limit)`: the cursor walks `order` and stops once `limit` keys
      have been collected. */
  function Scan(cache: Cache, order: seq<string>, prefix: string, limit: int): (keys: seq<string>)
    // the first `limit` matching keys in cursor order, or all of them if fewer
    ensures var m := Matching(cache, order, prefix);
            keys == m[..if limit <= 0 then 0 else if limit < |m| then limit else |m|]
    ensures |keys| <= |order| && (limit >= 0 ==> |keys| <= limit) && (limit <= 0 ==> keys == [])
    ensures forall i :: 0 <= i < |keys| ==> keys[i] in cache && prefix <= keys[i] && keys[i] in order
    ensures |keys| < limit ==> forall k :: k in order && k in cache && prefix <= k ==> k in keys
  {
    if limit <= 0 || |order| == 0 then []
    else
      var m := Matching(cache, order[1..], prefix);
      if order[0] in cache && prefix <= order[0] then
        var rest := Scan(cache, order[1..], prefix, limit - 1);
        TakeAfterFirst(order[0], m, limit);
        [order[0]] + rest
      else Scan(cache, order[1..], prefix, limit)
  }

  /** The outcome of one synchronization attempt. */
  datatype SyncResult = SyncResult(success: bool, methodName: string, message: string, timestamp: int)
}
