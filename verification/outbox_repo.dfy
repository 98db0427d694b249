/**
 The two derived queries of the outbox repository, as pure functions over the
 outbox sequence:
 - `findTop50ByProcessedFalseOrderByTsAsc`: the oldest unprocessed events, at most 50;
 - `countByProcessedFalse`: how many events are unprocessed.

 A batch is a sequence of outbox positions. The store leaves the order of events
 with equal timestamps unspecified; the model breaks such ties by position, which
 makes `Before` a strict total order.
 */
module OutboxRepo {
  import opened Model

  const BatchSize: nat := 50

  function Min(a: int, b: int): int
  {
    if a <= b then a else b
  }

  /** Every entry of `xs` is a position in the outbox. */
  ghost predicate ValidIndices(outbox: seq<Event>, xs: seq<nat>)
  {
    forall k :: 0 <= k < |xs| ==> xs[k] < |outbox|
  }

  ghost predicate Distinct(xs: seq<nat>)
  {
    forall a, b :: 0 <= a < b < |xs| ==> xs[a] != xs[b]
  }

  /** Event i comes before event j: older, or equally old and appended earlier. */
  predicate Before(outbox: seq<Event>, i: nat, j: nat)
    requires i < |outbox| && j < |outbox|
  {
    outbox[i].ts < outbox[j].ts || (outbox[i].ts == outbox[j].ts && i < j)
  }

  /** `xs` lists events in strictly increasing `Before` order. */
  ghost predicate Ordered(outbox: seq<Event>, xs: seq<nat>)
    requires ValidIndices(outbox, xs)
  {
    forall a, b :: 0 <= a < b < |xs| ==> Before(outbox, xs[a], xs[b])
  }

  /** `countByProcessedFalse`. */
  function CountUnprocessed(outbox: seq<Event>): (n: nat)
    ensures n <= |outbox|
  {
    if |outbox| == 0 then 0
    else CountUnprocessed(outbox[..|outbox| - 1]) + (if outbox[|outbox| - 1].processed then 0 else 1)
  }

  /** The positions of the unprocessed events, in increasing position order. */
  function UnprocessedIndices(outbox: seq<Event>): (xs: seq<nat>)
    ensures ValidIndices(outbox, xs)
    ensures forall i :: 0 <= i < |outbox| ==> (i in xs <==> !outbox[i].processed)
    ensures forall a, b :: 0 <= a < b < |xs| ==> xs[a] < xs[b]
    ensures |xs| == CountUnprocessed(outbox)
  {
    if |outbox| == 0 then []
    else
      var init := outbox[..|outbox| - 1];
      var rest := UnprocessedIndices(init);
      assert forall i :: 0 <= i < |init| ==> init[i] == outbox[i];
      if outbox[|outbox| - 1].processed then rest else rest + [|outbox| - 1]
  }

  /** Inserts one event position in front of the first event it comes before. */
  function Insert(outbox: seq<Event>, x: nat, xs: seq<nat>): (r: seq<nat>)
    requires x < |outbox| && ValidIndices(outbox, xs)
    ensures ValidIndices(outbox, r)
    ensures multiset(r) == multiset(xs) + multiset{x}
  {
    if |xs| == 0 then [x]
    else if Before(outbox, x, xs[0]) then [x] + xs
    else
      assert xs == [xs[0]] + xs[1..];
      [xs[0]] + Insert(outbox, x, xs[1..])
  }

  /** Every event in `xs` comes after event `y`. */
  ghost predicate AllAfter(outbox: seq<Event>, y: nat, xs: seq<nat>)
    requires y < |outbox| && ValidIndices(outbox, xs)
  {
    forall k :: 0 <= k < |xs| ==> Before(outbox, y, xs[k])
  }

  /** Every event after `y` in `xs` is still after `y` once `x` is inserted, if `x` is too. */
  lemma {:induction false} InsertKeepsAfter(outbox: seq<Event>, y: nat, x: nat, xs: seq<nat>)
    requires y < |outbox| && x < |outbox| && ValidIndices(outbox, xs)
    requires Before(outbox, y, x) && AllAfter(outbox, y, xs)
    ensures AllAfter(outbox, y, Insert(outbox, x, xs))
  {
    var r := Insert(outbox, x, xs);
    if |xs| > 0 && !Before(outbox, x, xs[0]) {
      var tail := xs[1..];
      assert forall k :: 0 <= k < |tail| ==> tail[k] == xs[k + 1];
      InsertKeepsAfter(outbox, y, x, tail);
      var rest := Insert(outbox, x, tail);
      assert r == [xs[0]] + rest;
      forall k | 0 <= k < |r| ensures Before(outbox, y, r[k]) {
        if k == 0 {
          assert r[0] == xs[0];
        } else {
          assert r[k] == rest[k - 1];
        }
      }
    } else if |xs| > 0 {
      assert forall k :: 1 <= k < |r| ==> r[k] == xs[k - 1];
    }
  }

  /** Inserting into an ordered sequence keeps it ordered. */
  lemma {:induction false} InsertOrdered(outbox: seq<Event>, x: nat, xs: seq<nat>)
    requires x < |outbox| && ValidIndices(outbox, xs) && Ordered(outbox, xs)
    requires x !in xs
    ensures Ordered(outbox, Insert(outbox, x, xs))
  {
    var r := Insert(outbox, x, xs);
    if |xs| == 0 {
    } else if Before(outbox, x, xs[0]) {
      forall a, b | 0 <= a < b < |r| ensures Before(outbox, r[a], r[b]) {
        if a == 0 {
          if b > 1 {
            assert Before(outbox, xs[0], xs[b - 1]);
          }
        }
      }
    } else {
      var tail := xs[1..];
      var rest := Insert(outbox, x, tail);
      assert x != xs[0];
      assert Before(outbox, xs[0], x);
      assert forall k :: 0 <= k < |tail| ==> tail[k] == xs[k + 1];
      assert AllAfter(outbox, xs[0], tail);
      InsertOrdered(outbox, x, tail);
      InsertKeepsAfter(outbox, xs[0], x, tail);
      assert r == [xs[0]] + rest;
      forall a, b | 0 <= a < b < |r| ensures Before(outbox, r[a], r[b]) {
        assert r[b] == rest[b - 1];
        if a > 0 {
          assert r[a] == rest[a - 1];
        } else {
          assert r[a] == xs[0];
          assert Before(outbox, xs[0], rest[b - 1]);
        }
      }
    }
  }

  /** Dropping the first position keeps a list valid and distinct, and that position
      does not occur in the rest. */
  lemma TailKeepsDistinct(outbox: seq<Event>, xs: seq<nat>)
    requires |xs| > 0 && ValidIndices(outbox, xs) && Distinct(xs)
    ensures ValidIndices(outbox, xs[1..]) && Distinct(xs[1..])
    ensures xs == [xs[0]] + xs[1..] && xs[0] !in multiset(xs[1..])
  {
    assert xs == [xs[0]] + xs[1..];
  }

  /** Insertion sort of distinct event positions by `Before`. */
  function Sort(outbox: seq<Event>, xs: seq<nat>): (r: seq<nat>)
    requires ValidIndices(outbox, xs) && Distinct(xs)
    ensures ValidIndices(outbox, r) && Ordered(outbox, r)
    ensures multiset(r) == multiset(xs)
  {
    if |xs| == 0 then []
    else
      var tail := xs[1..];
      TailKeepsDistinct(outbox, xs);
      var rest := Sort(outbox, tail);
      assert xs[0] !in multiset(rest);
      InsertOrdered(outbox, xs[0], rest);
      Insert(outbox, xs[0], rest)
  }

  lemma OrderedIsDistinct(outbox: seq<Event>, xs: seq<nat>)
    requires ValidIndices(outbox, xs) && Ordered(outbox, xs)
    ensures Distinct(xs)
  {
    forall a, b | 0 <= a < b < |xs| ensures xs[a] != xs[b] {
      assert Before(outbox, xs[a], xs[b]);
    }
  }

  /** All unprocessed event positions, oldest first. */
  function PendingInOrder(outbox: seq<Event>): (all: seq<nat>)
    ensures ValidIndices(outbox, all) && Ordered(outbox, all)
    ensures |all| == CountUnprocessed(outbox)
    ensures forall i :: 0 <= i < |outbox| ==> (i in all <==> !outbox[i].processed)
  {
    var pending := UnprocessedIndices(outbox);
    var all := Sort(outbox, pending);
    assert |all| == |multiset(all)| == |multiset(pending)| == |pending|;
    forall i | 0 <= i < |outbox| ensures i in all <==> i in pending {
      assert i in all <==> i in multiset(all);
      assert i in pending <==> i in multiset(pending);
    }
    all
  }

  /** `findTop50ByProcessedFalseOrderByTsAsc`: the oldest unprocessed events, at most
      `BatchSize` of them, oldest first. */
  function SelectBatch(outbox: seq<Event>): (batch: seq<nat>)
    ensures ValidIndices(outbox, batch) && Distinct(batch)
    ensures forall k :: 0 <= k < |batch| ==> !outbox[batch[k]].processed
    ensures Ordered(outbox, batch)
    ensures |batch| == Min(BatchSize, CountUnprocessed(outbox))
    ensures forall i, k :: 0 <= i < |outbox| && !outbox[i].processed && i !in batch && 0 <= k < |batch|
                           ==> Before(outbox, batch[k], i)
    ensures CountUnprocessed(outbox) <= BatchSize ==>
              forall i :: 0 <= i < |outbox| ==> (i in batch <==> !outbox[i].processed)
  {
    var all := PendingInOrder(outbox);
    var batch := if |all| <= BatchSize then all else all[..BatchSize];
    OldestPrefix(outbox, all, batch);
    batch
  }

  /** A prefix of all pending positions in order is ordered, holds only pending events,
      and comes before every pending event it leaves out. */
  lemma OldestPrefix(outbox: seq<Event>, all: seq<nat>, batch: seq<nat>)
    requires ValidIndices(outbox, all) && Ordered(outbox, all)
    requires forall i :: 0 <= i < |outbox| ==> (i in all <==> !outbox[i].processed)
    requires |batch| <= |all| && batch == all[..|batch|]
    ensures ValidIndices(outbox, batch) && Distinct(batch) && Ordered(outbox, batch)
    ensures forall k :: 0 <= k < |batch| ==> !outbox[batch[k]].processed
    ensures forall i, k :: 0 <= i < |outbox| && !outbox[i].processed && i !in batch && 0 <= k < |batch|
                           ==> Before(outbox, batch[k], i)
  {
    assert forall k :: 0 <= k < |batch| ==> batch[k] == all[k];
    assert ValidIndices(outbox, batch);
    forall a, b | 0 <= a < b < |batch| ensures Before(outbox, batch[a], batch[b]) {
      assert batch[a] == all[a] && batch[b] == all[b];
    }
    OrderedIsDistinct(outbox, batch);
    forall k | 0 <= k < |batch| ensures !outbox[batch[k]].processed {
      assert batch[k] in all;
    }
    forall i, k | 0 <= i < |outbox| && !outbox[i].processed && i !in batch && 0 <= k < |batch|
      ensures Before(outbox, batch[k], i)
    {
      var p :| 0 <= p < |all| && all[p] == i;
      assert p >= |batch|;
    }
  }

  /** The batch is ordered by timestamp, and no unprocessed event left out of it is
      older than any event in it. */
  lemma BatchIsOldestFirst(outbox: seq<Event>)
    ensures var batch := SelectBatch(outbox);
            && (forall a, b :: 0 <= a < b < |batch| ==> outbox[batch[a]].ts <= outbox[batch[b]].ts)
            && (forall i, k :: 0 <= i < |outbox| && !outbox[i].processed && i !in batch && 0 <= k < |batch|
                  ==> outbox[batch[k]].ts <= outbox[i].ts)
  {
  }

  /** The unprocessed events that come before event `j`. */
  ghost function OlderPending(outbox: seq<Event>, j: nat): set<nat>
    requires j < |outbox|
  {
    set i | 0 <= i < |outbox| && !outbox[i].processed && Before(outbox, i, j)
  }

  /** Event `j` is among the `BatchSize` oldest unprocessed events: it is unprocessed
      and fewer than `BatchSize` unprocessed events come before it. */
  ghost predicate InOldestBatch(outbox: seq<Event>, j: nat)
    requires j < |outbox|
  {
    !outbox[j].processed && |OlderPending(outbox, j)| < BatchSize
  }

  /** The first `p` entries of a sequence without repetitions are `p` distinct values. */
  lemma {:induction false} DistinctPrefixCardinality(xs: seq<nat>, p: nat)
    requires Distinct(xs) && p <= |xs|
    ensures |(set k | 0 <= k < p :: xs[k])| == p
  {
    if p > 0 {
      DistinctPrefixCardinality(xs, p - 1);
      var init := set k | 0 <= k < p - 1 :: xs[k];
      assert (set k | 0 <= k < p :: xs[k]) == init + {xs[p - 1]};
      assert xs[p - 1] !in init;
    }
  }

  /** A batch of pending events in `Before` order that precedes every pending event it
      leaves out, and is either full or holds every pending event, is exactly the set of
      events among the `BatchSize` oldest unprocessed ones. `SelectBatch` meets every
      requirement, so this describes its result without mentioning sorting at all. */
  lemma OldestBatchMembership(outbox: seq<Event>, batch: seq<nat>, j: nat)
    requires ValidIndices(outbox, batch) && Distinct(batch) && Ordered(outbox, batch)
    requires forall k :: 0 <= k < |batch| ==> !outbox[batch[k]].processed
    requires forall i, k :: 0 <= i < |outbox| && !outbox[i].processed && i !in batch && 0 <= k < |batch|
                           ==> Before(outbox, batch[k], i)
    requires |batch| <= BatchSize
    requires |batch| == BatchSize || forall i :: 0 <= i < |outbox| && !outbox[i].processed ==> i in batch
    requires j < |outbox|
    ensures j in batch <==> InOldestBatch(outbox, j)
  {
    if j in batch {
      BatchMemberIsOldest(outbox, batch, j);
    } else {
      LeftOutIsNotOldest(outbox, batch, j);
    }
  }

  /** The batch the projector takes is exactly the set of oldest-batch events. */
  lemma SelectBatchIsOldest(outbox: seq<Event>)
    ensures forall j :: 0 <= j < |outbox| ==> (j in SelectBatch(outbox) <==> InOldestBatch(outbox, j))
  {
    var batch := SelectBatch(outbox);
    forall j | 0 <= j < |outbox| ensures j in batch <==> InOldestBatch(outbox, j) {
      OldestBatchMembership(outbox, batch, j);
    }
  }

  /** An event of an ordered batch of pending events that precedes every pending event
      it leaves out has fewer older pending events than the batch has entries. */
  lemma BatchMemberIsOldest(outbox: seq<Event>, batch: seq<nat>, j: nat)
    requires ValidIndices(outbox, batch) && Distinct(batch) && Ordered(outbox, batch)
    requires forall k :: 0 <= k < |batch| ==> !outbox[batch[k]].processed
    requires forall i, k :: 0 <= i < |outbox| && !outbox[i].processed && i !in batch && 0 <= k < |batch|
                           ==> Before(outbox, batch[k], i)
    requires |batch| <= BatchSize
    requires j < |outbox| && j in batch
    ensures InOldestBatch(outbox, j)
  {
    var older := OlderPending(outbox, j);
    var p :| 0 <= p < |batch| && batch[p] == j;
    var front := set k | 0 <= k < p :: batch[k];
    forall i | i in older ensures i in front {
      if i in batch {
        var q :| 0 <= q < |batch| && batch[q] == i;
        if q >= p {
          assert false;
        }
      } else {
        assert false;
      }
    }
    forall i | i in front ensures i in older {
      var k :| 0 <= k < p && batch[k] == i;
      assert Before(outbox, batch[k], batch[p]);
    }
    assert older == front;
    DistinctPrefixCardinality(batch, p);
  }

  /** A pending event left out of a batch that precedes it, where the batch is either
      full or holds every pending event, has at least `BatchSize` older pending events. */
  lemma LeftOutIsNotOldest(outbox: seq<Event>, batch: seq<nat>, j: nat)
    requires ValidIndices(outbox, batch) && Distinct(batch)
    requires forall k :: 0 <= k < |batch| ==> !outbox[batch[k]].processed
    requires forall i, k :: 0 <= i < |outbox| && !outbox[i].processed && i !in batch && 0 <= k < |batch|
                           ==> Before(outbox, batch[k], i)
    requires |batch| == BatchSize || forall i :: 0 <= i < |outbox| && !outbox[i].processed ==> i in batch
    requires j < |outbox| && j !in batch
    ensures !InOldestBatch(outbox, j)
  {
    if !outbox[j].processed {
      var older := OlderPending(outbox, j);
      var all := set k | 0 <= k < |batch| :: batch[k];
      forall i | i in all ensures i in older {
        var k :| 0 <= k < |batch| && batch[k] == i;
        assert Before(outbox, batch[k], j);
      }
      assert older == all + (older - all);
      DistinctPrefixCardinality(batch, |batch|);
    }
  }

  /** `countByProcessedFalse` is the number of unprocessed positions in the outbox. */
  lemma {:induction false} CountIsNumberOfUnprocessed(outbox: seq<Event>)
    ensures CountUnprocessed(outbox) == |set i | 0 <= i < |outbox| && !outbox[i].processed|
  {
    if |outbox| > 0 {
      var n := |outbox| - 1;
      var init := outbox[..n];
      CountIsNumberOfUnprocessed(init);
      var before := set i | 0 <= i < |init| && !init[i].processed;
      var now := set i | 0 <= i < |outbox| && !outbox[i].processed;
      if outbox[n].processed {
        assert now == before;
      } else {
        assert now == before + {n};
        assert n !in before;
      }
    }
  }
}
