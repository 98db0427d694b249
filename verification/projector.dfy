/**
 The outbox projector: each tick it takes the batch chosen by
 `findTop50ByProcessedFalseOrderByTsAsc` and handles its events one by one.
 - An event whose type is not "KVMutated" is marked processed and nothing else happens.
 - A "KVMutated" event rebuilds the shadow record of its payload key from the payload,
   saves it, then marks the event processed.
 - Any exception leaves the event unprocessed, and the loop goes on with the next one.

 The two store saves that can throw are a parameter: a `Fault` per outbox position.
 */
module Projector {
  import opened Wrappers
  import opened Fingerprint
  import opened Model
  import opened OutboxRepo

  /** What goes wrong, if anything, while one event is handled: the shadow save throws, or
      the outbox save that records the processed flag throws. */
  datatype Fault = NoFault | ShadowSaveThrows | MarkThrows

  /** The faults of one run, by outbox position; a position without an entry runs cleanly. */
  type Faults = map<nat, Fault>

  function FaultAt(faults: Faults, i: nat): Fault
  {
    if i in faults then faults[i] else NoFault
  }

  /** The metadata map of the rebuilt record rejects a null TTL, so a payload without
      `ttlSec` throws a NullPointerException before anything is saved. */
  predicate ProjectionBuildFails(p: Payload)
  {
    p.ttlSec.None?
  }

  /** The shadow record rebuilt from a payload, stamped with the processing time. */
  function ProjectedShadow(p: Payload, now: int): (rec: Shadow)
    requires !ProjectionBuildFails(p)
    ensures rec.key == p.key && rec.lastValue == p.value && rec.valueHash == Fp(p.value)
    ensures rec.lastWriteAt == now && rec.sessionId == p.sessionId && rec.interactionId == p.interactionId
    ensures rec.metadata == map["ttlSec" := MetaInt(p.ttlSec.value)]
  {
    Shadow(p.key, Fp(p.value), p.value, now, p.sessionId, p.interactionId,
           map["ttlSec" := MetaInt(p.ttlSec.value)])
  }

  /** Handling the event ends with its shadow record saved. */
  predicate SavesShadow(e: Event, fault: Fault)
  {
    e.kind == KvMutated && !ProjectionBuildFails(e.payload) && fault != ShadowSaveThrows
  }

  /** Handling the event ends with it marked processed. */
  predicate MarksProcessed(e: Event, fault: Fault)
  {
    if e.kind != KvMutated then fault != MarkThrows
    else !ProjectionBuildFails(e.payload) && fault == NoFault
  }

  /** The shadow store after handling event e: its record is rebuilt and saved when the
      handling gets that far, and nothing else changes. */
  function ProjectShadow(shadow: ShadowStore, e: Event, fault: Fault, now: int): (r: ShadowStore)
    ensures var p := e.payload;
            SavesShadow(e, fault) ==>
              && p.key in r
              && r[p.key] == ProjectedShadow(p, now)
              && r.Keys == shadow.Keys + {p.key}
              && forall k :: k in shadow && k != p.key ==> r[k] == shadow[k]
    ensures !SavesShadow(e, fault) ==> r == shadow
    ensures ShadowInvariant(shadow) ==> ShadowInvariant(r)
  {
    if SavesShadow(e, fault) then
      var rec := ProjectedShadow(e.payload, now);
      StoreKeepsInvariant(shadow, e.payload.key, rec);
      shadow[e.payload.key := rec]
    else shadow
  }

  /** One iteration of the loop in `run()`, for the event at position i. */
  function ProjectEvent(st: Stores, i: nat, fault: Fault, now: int): (r: Stores)
    requires i < |st.outbox|
    // only this event's processed flag can change, and only from false to true
    ensures |r.outbox| == |st.outbox|
    ensures forall j :: 0 <= j < |st.outbox| && j != i ==> r.outbox[j] == st.outbox[j]
    ensures r.outbox[i].(processed := st.outbox[i].processed) == st.outbox[i]
    ensures st.outbox[i].processed ==> r.outbox[i].processed
    // an unknown type is a no-op that is marked processed
    ensures st.outbox[i].kind != KvMutated ==>
              r.shadow == st.shadow && (r.outbox[i].processed <==> st.outbox[i].processed || fault != MarkThrows)
    // a KVMutated event is marked processed only once its shadow record is saved
    ensures st.outbox[i].kind == KvMutated && !st.outbox[i].processed && r.outbox[i].processed ==>
              SavesShadow(st.outbox[i], fault)
    // a saved record replaces the payload key's record and nothing else
    ensures var p := st.outbox[i].payload;
            SavesShadow(st.outbox[i], fault) ==>
              && p.key in r.shadow
              && r.shadow[p.key].key == p.key
              && r.shadow[p.key].lastValue == p.value
              && r.shadow[p.key].valueHash == Fp(p.value)
              && r.shadow[p.key].lastWriteAt == now
              && r.shadow[p.key].sessionId == p.sessionId
              && r.shadow[p.key].interactionId == p.interactionId
              && r.shadow[p.key].metadata == map["ttlSec" := MetaInt(p.ttlSec.value)]
              && r.shadow.Keys == st.shadow.Keys + {p.key}
              && forall k :: k in st.shadow && k != p.key ==> r.shadow[k] == st.shadow[k]
    ensures !SavesShadow(st.outbox[i], fault) ==> r.shadow == st.shadow
    ensures ShadowInvariant(st.shadow) ==> ShadowInvariant(r.shadow)
  {
    var e := st.outbox[i];
    Stores(ProjectShadow(st.shadow, e, fault, now),
           if MarksProcessed(e, fault) then st.outbox[i := e.(processed := true)] else st.outbox)
  }

  /** The outbox position of the last event of `batch` that saves a record for key k. */
  function LastSaver(outbox: seq<Event>, batch: seq<nat>, faults: Faults, k: string): (r: Option<nat>)
    requires ValidIndices(outbox, batch)
    ensures r.Some? ==> r.value in batch && r.value < |outbox|
    ensures r.Some? ==> SavesShadow(outbox[r.value], FaultAt(faults, r.value)) && outbox[r.value].payload.key == k
  {
    if |batch| == 0 then None
    else
      var i := batch[|batch| - 1];
      if SavesShadow(outbox[i], FaultAt(faults, i)) && outbox[i].payload.key == k then Some(i)
      else LastSaver(outbox, batch[..|batch| - 1], faults, k)
  }

  /** The events of `batch` handled in order. */
  function ProjectAll(st: Stores, batch: seq<nat>, faults: Faults, now: int): (r: Stores)
    requires ValidIndices(st.outbox, batch)
    ensures |r.outbox| == |st.outbox|
    // outside the batch nothing changes; inside it only processed flags, false to true
    ensures forall j :: 0 <= j < |st.outbox| && j !in batch ==> r.outbox[j] == st.outbox[j]
    ensures forall j :: 0 <= j < |st.outbox| ==> r.outbox[j].(processed := st.outbox[j].processed) == st.outbox[j]
    ensures forall j :: 0 <= j < |st.outbox| && st.outbox[j].processed ==> r.outbox[j].processed
    ensures st.shadow.Keys <= r.shadow.Keys
    ensures ShadowInvariant(st.shadow) ==> ShadowInvariant(r.shadow)
    decreases |batch|
  {
    if |batch| == 0 then st
    else
      var init := batch[..|batch| - 1];
      var i := batch[|batch| - 1];
      assert forall j :: j in batch <==> j in init || j == i;
      ProjectEvent(ProjectAll(st, init, faults, now), i, FaultAt(faults, i), now)
  }

  /** Each event of a batch without repeats ends processed exactly when handling it
      marked it so. */
  lemma {:induction false} ProjectAllMarks(st: Stores, batch: seq<nat>, faults: Faults, now: int)
    requires ValidIndices(st.outbox, batch) && Distinct(batch)
    ensures var r := ProjectAll(st, batch, faults, now);
            forall j :: 0 <= j < |st.outbox| && j in batch ==>
              (r.outbox[j].processed <==> st.outbox[j].processed || MarksProcessed(st.outbox[j], FaultAt(faults, j)))
    decreases |batch|
  {
    if |batch| > 0 {
      var init := batch[..|batch| - 1];
      var i := batch[|batch| - 1];
      assert forall j :: j in batch <==> j in init || j == i;
      assert i !in init;
      ProjectAllMarks(st, init, faults, now);
      var prev := ProjectAll(st, init, faults, now);
      assert prev.outbox[i] == st.outbox[i];
    }
  }

  /** Each key ends with the record built by the last event of the batch that saved it,
      or keeps its old record when no event saved it. */
  lemma {:induction false} ProjectAllLastWriterWins(st: Stores, batch: seq<nat>, faults: Faults, now: int, k: string)
    requires ValidIndices(st.outbox, batch)
    ensures var r := ProjectAll(st, batch, faults, now);
            var last := LastSaver(st.outbox, batch, faults, k);
            && (last.Some? ==> k in r.shadow && r.shadow[k] == ProjectedShadow(st.outbox[last.value].payload, now))
            && (last.None? ==> (k in r.shadow <==> k in st.shadow) && (k in st.shadow ==> r.shadow[k] == st.shadow[k]))
    decreases |batch|
  {
    if |batch| > 0 {
      var init := batch[..|batch| - 1];
      var i := batch[|batch| - 1];
      var f := FaultAt(faults, i);
      ProjectAllLastWriterWins(st, init, faults, now, k);
      var prev := ProjectAll(st, init, faults, now);
      var r := ProjectEvent(prev, i, f, now);
      assert r == ProjectAll(st, batch, faults, now);
      assert prev.outbox[i].kind == st.outbox[i].kind && prev.outbox[i].payload == st.outbox[i].payload;
      assert SavesShadow(prev.outbox[i], f) == SavesShadow(st.outbox[i], f);
      if SavesShadow(st.outbox[i], f) && st.outbox[i].payload.key == k {
        assert LastSaver(st.outbox, batch, faults, k) == Some(i);
      } else {
        assert LastSaver(st.outbox, batch, faults, k) == LastSaver(st.outbox, init, faults, k);
        assert (k in r.shadow <==> k in prev.shadow) && (k in prev.shadow ==> r.shadow[k] == prev.shadow[k]);
      }
    }
  }

  /** `run()`: one projector tick over the stores. */
  function Run(st: Stores, faults: Faults, now: int): (r: Stores)
    ensures ShadowInvariant(st.shadow) ==> ShadowInvariant(r.shadow)
    ensures |r.outbox| == |st.outbox|
    // only events among the BatchSize oldest unprocessed ones change, and only their processed flag
    ensures forall j :: 0 <= j < |st.outbox| && !InOldestBatch(st.outbox, j) ==> r.outbox[j] == st.outbox[j]
    ensures forall j :: 0 <= j < |st.outbox| ==> r.outbox[j].(processed := st.outbox[j].processed) == st.outbox[j]
    // processed is only ever set, never cleared
    ensures forall j :: 0 <= j < |st.outbox| && st.outbox[j].processed ==> r.outbox[j].processed
    ensures forall j :: 0 <= j < |st.outbox| && InOldestBatch(st.outbox, j) ==>
              (r.outbox[j].processed <==> MarksProcessed(st.outbox[j], FaultAt(faults, j)))
    // the projector never deletes a shadow record
    ensures st.shadow.Keys <= r.shadow.Keys
    ensures CountUnprocessed(r.outbox) <= CountUnprocessed(st.outbox)
    // each key ends with the record rebuilt from the last oldest-batch event that saved it
    ensures forall i :: 0 <= i < |st.outbox| && LastOldestSaver(st.outbox, faults, st.outbox[i].payload.key, i) ==>
              var k := st.outbox[i].payload.key;
              k in r.shadow && r.shadow[k] == ProjectedShadow(st.outbox[i].payload, now)
    // a key no oldest-batch event saved keeps its record, or its absence
    ensures forall k :: NoOldestSaver(st.outbox, faults, k) ==>
              (k in r.shadow <==> k in st.shadow) && (k in st.shadow ==> r.shadow[k] == st.shadow[k])
  {
    var batch := SelectBatch(st.outbox);
    var r := ProjectAll(st, batch, faults, now);
    ProjectAllMarks(st, batch, faults, now);
    SelectBatchIsOldest(st.outbox);
    OldestBatchShadow(st, batch, faults, now);
    CountMonotone(st.outbox, r.outbox);
    r
  }

  /** Event i saves a record for key k when handled under its fault. */
  ghost predicate SavesKey(outbox: seq<Event>, faults: Faults, k: string, i: nat)
    requires i < |outbox|
  {
    SavesShadow(outbox[i], FaultAt(faults, i)) && outbox[i].payload.key == k
  }

  /** Event i is the last of the oldest-batch events that save a record for key k. */
  ghost predicate LastOldestSaver(outbox: seq<Event>, faults: Faults, k: string, i: nat)
    requires i < |outbox|
  {
    && InOldestBatch(outbox, i) && SavesKey(outbox, faults, k, i)
    && forall j :: 0 <= j < |outbox| && j != i && InOldestBatch(outbox, j) && SavesKey(outbox, faults, k, j) ==>
         Before(outbox, j, i)
  }

  /** In an ordered batch, `LastSaver` finds a saver exactly when there is one, and every
      other saver of the batch comes before it. */
  lemma {:induction false} LastSaverIsLast(outbox: seq<Event>, batch: seq<nat>, faults: Faults, k: string)
    requires ValidIndices(outbox, batch) && Ordered(outbox, batch)
    ensures var last := LastSaver(outbox, batch, faults, k);
            && (last.None? <==> forall p :: 0 <= p < |batch| ==> !SavesKey(outbox, faults, k, batch[p]))
            && (last.Some? ==> forall p :: 0 <= p < |batch| && SavesKey(outbox, faults, k, batch[p]) && batch[p] != last.value ==>
                                 Before(outbox, batch[p], last.value))
    decreases |batch|
  {
    if |batch| > 0 {
      var n := |batch| - 1;
      var init := batch[..n];
      assert forall p :: 0 <= p < n ==> init[p] == batch[p];
      LastSaverIsLast(outbox, init, faults, k);
      if SavesKey(outbox, faults, k, batch[n]) {
        forall p | 0 <= p < |batch| && SavesKey(outbox, faults, k, batch[p]) && batch[p] != batch[n]
          ensures Before(outbox, batch[p], batch[n])
        {
        }
      }
    }
  }

  /** For a batch holding exactly the oldest-batch events, `LastSaver` picks the last
      oldest-batch saver of k, and finds none exactly when no oldest-batch event saves k. */
  lemma OldestLastSaver(outbox: seq<Event>, batch: seq<nat>, faults: Faults, k: string)
    requires ValidIndices(outbox, batch) && Ordered(outbox, batch)
    requires forall j :: 0 <= j < |outbox| ==> (j in batch <==> InOldestBatch(outbox, j))
    ensures var last := LastSaver(outbox, batch, faults, k);
            && (forall i :: 0 <= i < |outbox| && LastOldestSaver(outbox, faults, k, i) ==> last == Some(i))
            && (last.Some? ==> last.value < |outbox| && LastOldestSaver(outbox, faults, k, last.value))
            && (last.None? ==> forall i :: 0 <= i < |outbox| && InOldestBatch(outbox, i) ==> !SavesKey(outbox, faults, k, i))
  {
    LastSaverIsLast(outbox, batch, faults, k);
    var last := LastSaver(outbox, batch, faults, k);
    forall i | 0 <= i < |outbox| && LastOldestSaver(outbox, faults, k, i)
      ensures last == Some(i)
    {
      var p :| 0 <= p < |batch| && batch[p] == i;
      assert last.Some?;
      if last.value != i {
        assert false;
      }
    }
    if last.Some? {
      forall j | 0 <= j < |outbox| && j != last.value && InOldestBatch(outbox, j) && SavesKey(outbox, faults, k, j)
        ensures Before(outbox, j, last.value)
      {
        var q :| 0 <= q < |batch| && batch[q] == j;
      }
    } else {
      forall i | 0 <= i < |outbox| && InOldestBatch(outbox, i)
        ensures !SavesKey(outbox, faults, k, i)
      {
        var p :| 0 <= p < |batch| && batch[p] == i;
      }
    }
  }

  /** What handling a batch of exactly the oldest events does to the shadow store. */
  lemma OldestBatchShadow(st: Stores, batch: seq<nat>, faults: Faults, now: int)
    requires ValidIndices(st.outbox, batch) && Ordered(st.outbox, batch)
    requires forall j :: 0 <= j < |st.outbox| ==> (j in batch <==> InOldestBatch(st.outbox, j))
    ensures var r := ProjectAll(st, batch, faults, now);
            && (forall i :: 0 <= i < |st.outbox| && LastOldestSaver(st.outbox, faults, st.outbox[i].payload.key, i) ==>
                  var k := st.outbox[i].payload.key;
                  k in r.shadow && r.shadow[k] == ProjectedShadow(st.outbox[i].payload, now))
            && (forall k :: NoOldestSaver(st.outbox, faults, k) ==>
                  (k in r.shadow <==> k in st.shadow) && (k in st.shadow ==> r.shadow[k] == st.shadow[k]))
  {
    var r := ProjectAll(st, batch, faults, now);
    forall i | 0 <= i < |st.outbox| && LastOldestSaver(st.outbox, faults, st.outbox[i].payload.key, i)
      ensures var k := st.outbox[i].payload.key;
              k in r.shadow && r.shadow[k] == ProjectedShadow(st.outbox[i].payload, now)
    {
      OldestLastSaver(st.outbox, batch, faults, st.outbox[i].payload.key);
      ProjectAllLastWriterWins(st, batch, faults, now, st.outbox[i].payload.key);
    }
    forall k | NoOldestSaver(st.outbox, faults, k)
      ensures (k in r.shadow <==> k in st.shadow) && (k in st.shadow ==> r.shadow[k] == st.shadow[k])
    {
      OldestLastSaver(st.outbox, batch, faults, k);
      ProjectAllLastWriterWins(st, batch, faults, now, k);
    }
  }

  /** No event among the oldest unprocessed ones saves a record for key k. */
  ghost predicate NoOldestSaver(outbox: seq<Event>, faults: Faults, k: string)
  {
    forall i :: 0 <= i < |outbox| && InOldestBatch(outbox, i) ==> !SavesKey(outbox, faults, k, i)
  }

  /** When some oldest-batch event saves a record for k, one of them is the last. */
  lemma LastOldestSaverExists(outbox: seq<Event>, faults: Faults, k: string)
    requires !NoOldestSaver(outbox, faults, k)
    ensures exists i :: 0 <= i < |outbox| && LastOldestSaver(outbox, faults, k, i)
  {
    var batch := SelectBatch(outbox);
    SelectBatchIsOldest(outbox);
    OldestLastSaver(outbox, batch, faults, k);
  }

  /** Setting processed flags never increases the unprocessed count. */
  lemma {:induction false} CountMonotone(before: seq<Event>, after: seq<Event>)
    requires |before| == |after|
    requires forall j :: 0 <= j < |before| && before[j].processed ==> after[j].processed
    ensures CountUnprocessed(after) <= CountUnprocessed(before)
  {
    if |before| > 0 {
      var n := |before| - 1;
      CountMonotone(before[..n], after[..n]);
    }
  }

  /** Projecting an event a second time gives the same records; only the write time of
      the event's own key moves to the second run's time. */
  lemma ReprojectionIsIdempotent(st: Stores, i: nat, now1: int, now2: int)
    requires i < |st.outbox|
    ensures var once := ProjectEvent(st, i, NoFault, now1);
            var twice := ProjectEvent(once, i, NoFault, now2);
            && twice.outbox == once.outbox
            && twice.shadow.Keys == once.shadow.Keys
            && forall k :: k in once.shadow ==>
                 twice.shadow[k] == once.shadow[k].(lastWriteAt := twice.shadow[k].lastWriteAt)
  {
  }

  /** A payload with a null value is not a delete: the record is kept with a null value. */
  lemma NullValueIsUpserted(st: Stores, i: nat, now: int)
    requires i < |st.outbox|
    requires st.outbox[i].kind == KvMutated && st.outbox[i].payload.value.None?
    requires st.outbox[i].payload.ttlSec.Some?
    ensures var r := ProjectEvent(st, i, NoFault, now);
            var k := st.outbox[i].payload.key;
            k in r.shadow && r.shadow[k].lastValue.None? && r.shadow[k].valueHash == FpString("")
            && r.outbox[i].processed
  {
  }
}
