/**
 The verification tools. Only `get_cache_ttl_info` does work of its own: it clamps the
 limit the same way `kv_scan` does, scans, and hands the keys to the service.
 */
module SyncVerificationTools {
  import opened Wrappers
  import opened Model
  import opened Verification
  import opened KvTools

  /** `get_cache_ttl_info`: the TTL of at most the clamped limit of keys under the prefix. */
  function GetCacheTtlInfoTool(cache: Cache, order: seq<string>, prefix: string, limit: Option<int>): (r: TtlReport)
    ensures r.scannedKeys <= ClampLimit(limit) <= MaxScanLimit
    ensures |r.ttlInfo| <= r.scannedKeys
    ensures forall k :: k in r.ttlInfo ==> k in cache && prefix <= k
    ensures forall k :: k in r.ttlInfo ==> (r.ttlInfo[k] == -1 <==> cache[k].ttl.None?)
    ensures forall k :: k in r.ttlInfo && cache[k].ttl.Some? ==> r.ttlInfo[k] == cache[k].ttl.value
    ensures r.scannedKeys < ClampLimit(limit) ==>
              forall k :: k in order && k in cache && prefix <= k ==> k in r.ttlInfo
  {
    var keys := Scan(cache, order, prefix, ClampLimit(limit));
    var r := GetCacheTtlInfo(cache, keys);
    KeysAtMostEntries(keys, r.ttlInfo.Keys);
    r
  }

  /** A set drawn from a sequence has no more elements than the sequence has entries. */
  lemma {:induction false} KeysAtMostEntries(keys: seq<string>, s: set<string>)
    requires forall k :: k in s ==> k in keys
    ensures |s| <= |keys|
  {
    if |keys| > 0 {
      var last := keys[|keys| - 1];
      var init := keys[..|keys| - 1];
      assert forall k :: k in s - {last} ==> k in init;
      KeysAtMostEntries(init, s - {last});
    }
  }

  /** The TTL tool and the scan tool agree on which keys they look at. */
  lemma TtlToolScansLikeKvScan(cache: Cache, order: seq<string>, prefix: string, limit: Option<int>)
    ensures forall k :: k in GetCacheTtlInfoTool(cache, order, prefix, limit).ttlInfo <==> k in KvScan(cache, order, prefix, limit)
  {
  }
}
