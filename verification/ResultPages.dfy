/** Search results handed out page by page from the snapshot that a search leaves in its session. */
module ResultPages {

  datatype Page<T> = Page(results: seq<T>, more: bool)

  /** The first max results; max of zero or less means all. */
  function Capped<T>(results: seq<T>, max: int): (r: seq<T>)
    ensures r <= results
    ensures max > 0 && |results| > max ==> |r| == max
    ensures max <= 0 || |results| <= max ==> r == results
  {
    if max > 0 && |results| > max then results[..max] else results
  }

  function PageEnd<T>(snapshot: seq<T>, offset: nat, batch: nat): nat {
    if offset >= |snapshot| then offset
    else if offset + batch > |snapshot| then |snapshot| else offset + batch
  }

  function PageAt<T>(snapshot: seq<T>, offset: nat, batch: nat): Page<T> {
    if offset >= |snapshot| then Page([], false)
    else
      var end := PageEnd(snapshot, offset, batch);
      Page(snapshot[offset..end], end < |snapshot|)
  }

  /** The offset after n replies. */
  function OffsetAfter<T>(snapshot: seq<T>, batch: nat, n: nat): nat {
    if n == 0 then 0 else PageEnd(snapshot, OffsetAfter(snapshot, batch, n - 1), batch)
  }

  /** The reply to the search itself (n = 0) or to the n-th request for more. */
  function Reply<T>(snapshot: seq<T>, batch: nat, n: nat): Page<T> {
    PageAt(snapshot, OffsetAfter(snapshot, batch, n), batch)
  }

  /** All results of the first n replies, in order. */
  function Delivered<T>(snapshot: seq<T>, batch: nat, n: nat): seq<T> {
    if n == 0 then [] else Delivered(snapshot, batch, n - 1) + Reply(snapshot, batch, n - 1).results
  }

  function Min(a: nat, b: nat): nat { if a < b then a else b }

  /** One more page after the first `done` results. */
  lemma PageContinues<T>(snapshot: seq<T>, batch: nat, done: nat)
    requires batch >= 1
    ensures PageEnd(snapshot, Min(done, |snapshot|), batch) == Min(done + batch, |snapshot|)
    ensures snapshot[..Min(done, |snapshot|)] + PageAt(snapshot, Min(done, |snapshot|), batch).results ==
            snapshot[..Min(done + batch, |snapshot|)]
  {
  }

  lemma {:induction false} OffsetIsMultiple<T>(snapshot: seq<T>, batch: nat, n: nat)
    requires batch >= 1
    ensures OffsetAfter(snapshot, batch, n) == Min(n * batch, |snapshot|)
  {
    if n > 0 {
      OffsetIsMultiple(snapshot, batch, n - 1);
      PageContinues(snapshot, batch, (n - 1) * batch);
      assert (n - 1) * batch + batch == n * batch;
    }
  }

  /** The first n replies deliver exactly the first n batches of the snapshot, so in the end all of it. */
  lemma {:induction false} DeliveredIsPrefix<T>(snapshot: seq<T>, batch: nat, n: nat)
    requires batch >= 1
    ensures Delivered(snapshot, batch, n) == snapshot[..Min(n * batch, |snapshot|)]
    ensures n * batch >= |snapshot| ==> Delivered(snapshot, batch, n) == snapshot
  {
    if n > 0 {
      var done := (n - 1) * batch;
      assert done + batch == n * batch;
      DeliveredIsPrefix(snapshot, batch, n - 1);
      OffsetIsMultiple(snapshot, batch, n - 1);
      PageContinues(snapshot, batch, done);
    }
  }

  /** Every reply is at most one batch, announces more exactly while some remain, and is empty once all are delivered. */
  lemma ReplyShape<T>(snapshot: seq<T>, batch: nat, n: nat)
    requires batch >= 1
    ensures |Reply(snapshot, batch, n).results| <= batch
    ensures Reply(snapshot, batch, n).more <==> (n + 1) * batch < |snapshot|
    ensures Reply(snapshot, batch, n).results == [] <==> n * batch >= |snapshot|
  {
    OffsetIsMultiple(snapshot, batch, n);
    assert n * batch + batch == (n + 1) * batch;
  }

  /** How many of the results found a search may deliver: the positive maximum, or all. */
  function Deliverable(found: nat, max: int): (n: nat)
    ensures n <= found && (max > 0 ==> n <= max)
    ensures n == found || n == max
  {
    if 0 < max < found then max else found
  }

  lemma CappedIsDeliverable<T>(found: seq<T>, max: int)
    ensures Capped(found, max) == found[..Deliverable(|found|, max)]
  {
  }

  /**
   When the snapshot is the deliverable part of what was found, the first n replies deliver exactly the first n
   batches of it: in the end the first max results for a positive max below their number, and else all of them.
   */
  lemma SearchDelivers<T>(found: seq<T>, max: int, snapshot: seq<T>, batch: nat, n: nat)
    requires batch >= 1 && snapshot == found[..Deliverable(|found|, max)]
    ensures Delivered(snapshot, batch, n) == found[..Min(n * batch, Deliverable(|found|, max))]
    ensures max > 0 && |found| > max && n * batch >= max ==> Delivered(snapshot, batch, n) == found[..max]
    ensures (max <= 0 || |found| <= max) && n * batch >= |found| ==> Delivered(snapshot, batch, n) == found
  {
    DeliveredIsPrefix(snapshot, batch, n);
  }
}
