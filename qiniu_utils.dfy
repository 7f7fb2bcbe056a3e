/** `QiniuUtils`: paginated listing of a prefix and deletion of everything
    under a prefix, checking the status the service returns for every
    deleted key. */
module QiniuUtils {
  import opened Common
  import opened Remote
  import opened Batching
  import opened BulkDeletion

  /** What `deletePrefix` can throw: an `IOException`, or the
      `IndexOutOfBoundsException` of a response with more statuses than the
      batch had keys. */
  datatype Failure = IO(error: IOError) | IndexOutOfBounds(index: nat)

  /** `listPrefix`: list `prefix` page by page without a delimiter and hand
      every item of every page to the consumer, in order. The consumer is
      the caller: `delivered` is what it receives. */
  method ListPrefix(bucket: string, prefix: string, listing: seq<ListResponse>)
    returns (requests: seq<ListRequest>, delivered: seq<FileInfo>, r: Result<(), IOError>)
    requires ListingEnds(listing)
    ensures var L := LastPage(listing);
      requests == ListRequests(bucket, prefix, None, listing, L + 1)
      && delivered == PageItems(listing[..L + 1])
      && r == (if ListError(listing).Some? then Err(ListError(listing).value) else Ok(()))
  {
    ghost var L := LastPage(listing);
    var marker: Option<string> := None;
    requests, delivered := [], [];
    var j := 0;
    while true
      invariant 0 <= j <= L
      invariant marker == MarkerBefore(listing, j)
      invariant requests == ListRequests(bucket, prefix, None, listing, j)
      invariant delivered == PageItems(listing[..j])
      decreases L - j
    {
      ListRequestsSnoc(bucket, prefix, None, listing, j);
      requests := requests + [ListRequest(bucket, prefix, marker, PageSize, None)];
      var response := listing[j];
      PageItemsNext(listing, j);
      if response.ListFailed? {
        FinalIsLast(listing, j);
        return requests, delivered, Err(QiniuError(response.message));
      }
      var items := response.items;
      for k := 0 to |items|
        invariant delivered == PageItems(listing[..j]) + items[..k]
      {
        assert items[..k + 1] == items[..k] + [items[k]];
        delivered := delivered + [items[k]];
      }
      assert items[..|items|] == items;
      marker := response.marker;
      if MarkerEnds(marker) {
        FinalIsLast(listing, j);
        return requests, delivered, Ok(());
      }
      j := j + 1;
    }
  }

  /** Status 200 (deleted) and 612 (no such object) count as success. */
  predicate Accepted(status: BatchStatus)
  {
    status.code == 200 || status.code == 612
  }

  /** Index of the first status that is not accepted, or the number of
      statuses when all are. */
  function FirstRejected(statuses: seq<BatchStatus>): (m: nat)
    ensures m <= |statuses|
    ensures m < |statuses| ==> !Accepted(statuses[m])
    ensures forall i :: 0 <= i < m ==> Accepted(statuses[i])
  {
    if statuses == [] then 0
    else if !Accepted(statuses[0]) then 0
    else 1 + FirstRejected(statuses[1..])
  }

  /** How `checkBatchResponse` ends on a response (None for a null one)
      whose statuses answer the operations on `keys`, in order. */
  function CheckBatch(response: Option<seq<BatchStatus>>, keys: seq<string>): Result<(), Failure>
  {
    if response.None? then Ok(())
    else
      var statuses := response.value;
      var m := FirstRejected(statuses);
      if m == |statuses| then Ok(())
      else if m < |keys| then Err(IO(BatchDeleteError(keys[m], statuses[m].error)))
      else Err(IndexOutOfBounds(m))
  }

  /** A response passes exactly when it is null or accepts every operation;
      otherwise the first rejected operation decides the exception: its key
      and error text, or an index out of bounds when that status has no
      key. */
  lemma CheckBatchSpec(response: Option<seq<BatchStatus>>, keys: seq<string>)
    ensures var r := CheckBatch(response, keys);
      (r.Ok? <==> response.None? || forall i :: 0 <= i < |response.value| ==> Accepted(response.value[i]))
      && (forall i :: 0 <= i < |keys| && response.Some? && i < |response.value|
            && !Accepted(response.value[i]) && (forall k :: 0 <= k < i ==> Accepted(response.value[k]))
            ==> r == Err(IO(BatchDeleteError(keys[i], response.value[i].error))))
      && (r.Err? && r.error.IndexOutOfBounds? ==>
            response.Some? && |keys| <= r.error.index < |response.value|)
  {
  }

  /** `checkBatchResponse`: a null response passes; otherwise the statuses
      are scanned in order and the first one that is neither 200 nor 612
      raises an error naming the key at the same index. */
  method CheckBatchResponse(response: Option<seq<BatchStatus>>, keys: seq<string>)
    returns (r: Result<(), Failure>)
    ensures r == CheckBatch(response, keys)
  {
    if response.None? {
      return Ok(());
    }
    var statuses := response.value;
    var i := 0;
    while i < |statuses|
      invariant 0 <= i <= |statuses|
      invariant forall k :: 0 <= k < i ==> Accepted(statuses[k])
    {
      if !Accepted(statuses[i]) {
        if i < |keys| {
          return Err(IO(BatchDeleteError(keys[i], statuses[i].error)));
        }
        return Err(IndexOutOfBounds(i));
      }
      i := i + 1;
    }
    return Ok(());
  }

  /** The keys of a batch's delete operations, in order. */
  function OpKeys(batch: seq<BatchOp>): (keys: seq<string>)
    ensures |keys| == |batch|
    ensures forall i :: 0 <= i < |batch| ==> keys[i] == batch[i].key
  {
    seq(|batch|, i requires 0 <= i < |batch| => batch[i].key)
  }

  lemma OpKeysSnoc(batch: seq<BatchOp>, op: BatchOp)
    ensures OpKeys(batch + [op]) == OpKeys(batch) + [op.key]
  {
  }

  /** How the i-th batch call of `deletePrefix` ends: the call may throw;
      otherwise its response is checked against the batch's keys. */
  function CheckVerdict(replies: nat -> BatchReply): (nat, seq<BatchOp>) -> Result<(), Failure>
  {
    (i: nat, batch: seq<BatchOp>) => BatchOutcome(replies(i), OpKeys(batch))
  }

  /** The first `n` batch calls of `sent` all passed. */
  predicate AllPassed(replies: nat -> BatchReply, sent: seq<seq<BatchOp>>, n: nat)
    requires n <= |sent|
  {
    forall c :: 0 <= c < n ==> BatchOutcome(replies(c), OpKeys(sent[c])).Ok?
  }

  /** Submitting one more batch keeps the earlier ones passed, and the new
      one passes exactly when its own call does. */
  lemma AllPassedSnoc(replies: nat -> BatchReply, sent: seq<seq<BatchOp>>, b: seq<BatchOp>)
    requires AllPassed(replies, sent, |sent|)
    ensures AllPassed(replies, sent + [b], |sent|)
    ensures BatchOutcome(replies(|sent|), OpKeys(b)).Ok? ==> AllPassed(replies, sent + [b], |sent| + 1)
  {
    assert forall c :: 0 <= c < |sent| ==> (sent + [b])[c] == sent[c];
  }

  /** `checkBatchResponse(bucketManager.batch(batch), keys)`: the call may
      throw; otherwise its response is checked against the keys. */
  function BatchOutcome(reply: BatchReply, keys: seq<string>): Result<(), Failure>
  {
    match reply
    case BatchThrew(message) => Err(IO(QiniuError(message)))
    case NullResponse => CheckBatch(None, keys)
    case Statuses(statuses) => CheckBatch(Some(statuses), keys)
  }

  /** Submit a batch whose call is answered by `reply`, then check the
      response against the batch's keys. */
  method SubmitBatch(reply: BatchReply, keys: seq<string>) returns (r: Result<(), Failure>)
    ensures r == BatchOutcome(reply, keys)
  {
    if reply.BatchThrew? {
      return Err(IO(QiniuError(reply.message)));
    }
    var response := if reply.NullResponse? then None else Some(reply.statuses);
    r := CheckBatchResponse(response, keys);
  }

  /** `deletePrefix`: every key listed under the prefix is deleted in
      batches of 1000, each batch's response checked; the first batch
      that throws or is rejected ends the deletion, and so does a failed
      listing call. */
  function DeletePrefixRun(bucket: string, listing: seq<ListResponse>, replies: nat -> BatchReply)
    : BatchRun<BatchOp, Failure>
    requires ListingEnds(listing)
  {
    ListingDeletion(bucket, listing, DeletePrefixListError(listing), CheckVerdict(replies))
  }

  /** The listing's error as `deletePrefix` passes it on. */
  function DeletePrefixListError(listing: seq<ListResponse>): Option<Failure>
    requires ListingEnds(listing)
  {
    if ListError(listing).Some? then Some(IO(ListError(listing).value)) else None
  }

  /** The consumer `deletePrefix` hands to `listPrefix`, for one item: it
      adds a delete operation and the key, and submits and checks the batch
      once it holds 1000 keys. `visited` are the operations added before. */
  method Accept(bucket: string, item: FileInfo, replies: nat -> BatchReply, ghost visited: seq<BatchOp>,
                sent0: seq<seq<BatchOp>>, batch0: seq<BatchOp>, keys0: seq<string>)
    returns (sent: seq<seq<BatchOp>>, batch: seq<BatchOp>, keys: seq<string>, failure: Option<Failure>)
    requires sent0 == FullChunks(visited) && batch0 == Remainder(visited) && keys0 == OpKeys(batch0)
    requires AllPassed(replies, sent0, |sent0|)
    ensures var v := visited + [DeleteOp(bucket, item.key)];
      sent == FullChunks(v)
      && (failure.None? ==> batch == Remainder(v) && keys == OpKeys(batch) && AllPassed(replies, sent, |sent|))
      && (failure.Some? ==>
            |v| % BatchSize == 0 && AllPassed(replies, sent, |sent| - 1)
            && BatchOutcome(replies(|sent| - 1), OpKeys(sent[|sent| - 1])) == Err(failure.value))
  {
    var op := DeleteOp(bucket, item.key);
    Visit(visited, op);
    OpKeysSnoc(batch0, op);
    batch := batch0 + [op];
    keys := keys0 + [item.key];
    assert keys == OpKeys(batch);
    sent := sent0;
    if |keys| >= BatchSize {
      var checked := SubmitBatch(replies(|sent|), keys);
      AllPassedSnoc(replies, sent, batch);
      sent := sent + [batch];
      if checked.Err? {
        return sent, batch, keys, Some(checked.error);
      }
      batch, keys := [], [];
    }
    failure := None;
  }

  /** The items of one page handed to the consumer. `n` items were consumed
      when it stops; it stops early exactly when a batch fails. */
  method DeletePage(bucket: string, items: seq<FileInfo>, replies: nat -> BatchReply,
                    ghost before: seq<FileInfo>,
                    sent0: seq<seq<BatchOp>>, batch0: seq<BatchOp>, keys0: seq<string>)
    returns (sent: seq<seq<BatchOp>>, batch: seq<BatchOp>, keys: seq<string>,
             failure: Option<Failure>, ghost n: nat)
    requires sent0 == FullChunks(DeleteOps(bucket, Keys(before)))
    requires batch0 == Remainder(DeleteOps(bucket, Keys(before))) && keys0 == OpKeys(batch0)
    requires AllPassed(replies, sent0, |sent0|)
    ensures n <= |items|
    ensures sent == FullChunks(DeleteOps(bucket, Keys(before + items[..n])))
    ensures failure.None? ==>
      n == |items| && batch == Remainder(DeleteOps(bucket, Keys(before + items[..n])))
      && keys == OpKeys(batch) && AllPassed(replies, sent, |sent|)
    ensures failure.Some? ==>
      var v := DeleteOps(bucket, Keys(before + items[..n]));
      v != [] && |v| % BatchSize == 0 && AllPassed(replies, sent, |sent| - 1)
      && BatchOutcome(replies(|sent| - 1), OpKeys(sent[|sent| - 1])) == Err(failure.value)
  {
    sent, batch, keys := sent0, batch0, keys0;
    var i := 0;
    assert before + items[..0] == before;
    while i < |items|
      invariant 0 <= i <= |items|
      invariant sent == FullChunks(DeleteOps(bucket, Keys(before + items[..i])))
      invariant batch == Remainder(DeleteOps(bucket, Keys(before + items[..i]))) && keys == OpKeys(batch)
      invariant AllPassed(replies, sent, |sent|)
    {
      ghost var v := DeleteOps(bucket, Keys(before + items[..i]));
      DeleteOpsStep(bucket, before, items, i);
      sent, batch, keys, failure := Accept(bucket, items[i], replies, v, sent, batch, keys);
      if failure.Some? {
        return sent, batch, keys, failure, i + 1;
      }
      i := i + 1;
    }
    assert items[..i] == items;
    return sent, batch, keys, None, i;
  }

  /** `deletePrefix` over the listing of `prefix`, where `listing[j]` answers
      the j-th listing call and `replies(i)` the i-th batch call. */
  method DeletePrefix(bucket: string, prefix: string, listing: seq<ListResponse>, replies: nat -> BatchReply)
    returns (requests: seq<ListRequest>, sent: seq<seq<BatchOp>>, r: Result<(), Failure>)
    requires ListingEnds(listing)
    ensures BatchRun(sent, r) == DeletePrefixRun(bucket, listing, replies)
    ensures 1 <= |requests| <= LastPage(listing) + 1
    ensures requests == ListRequests(bucket, prefix, None, listing, |requests|)
    ensures r.Ok? ==> |requests| == LastPage(listing) + 1
  {
    ghost var L := LastPage(listing);
    var marker: Option<string> := None;
    var batch: seq<BatchOp> := [];
    var keys: seq<string> := [];
    requests, sent := [], [];
    var j := 0;
    while true
      invariant 0 <= j <= L
      invariant marker == MarkerBefore(listing, j)
      invariant requests == ListRequests(bucket, prefix, None, listing, j)
      invariant sent == FullChunks(DeleteOps(bucket, Keys(PageItems(listing[..j]))))
      invariant batch == Remainder(DeleteOps(bucket, Keys(PageItems(listing[..j])))) && keys == OpKeys(batch)
      invariant AllPassed(replies, sent, |sent|)
      decreases L - j
    {
      ListRequestsSnoc(bucket, prefix, None, listing, j);
      requests := requests + [ListRequest(bucket, prefix, marker, PageSize, None)];
      var response := listing[j];
      if response.ListFailed? {
        FinalIsLast(listing, j);
        assert forall c :: 0 <= c < |sent| ==> CheckVerdict(replies)(c, sent[c]).Ok?;
        ListingDeletionListFails(bucket, listing, IO(QiniuError(response.message)), CheckVerdict(replies), j, sent);
        return requests, sent, Err(IO(QiniuError(response.message)));
      }
      var failure;
      ghost var n;
      sent, batch, keys, failure, n := DeletePage(bucket, response.items, replies, PageItems(listing[..j]),
                                                  sent, batch, keys);
      if failure.Some? {
        assert forall c :: 0 <= c < |sent| - 1 ==> CheckVerdict(replies)(c, sent[c]).Ok?;
        ListingDeletionBatchFails(bucket, listing, DeletePrefixListError(listing), CheckVerdict(replies), j, n, sent);
        return requests, sent, Err(failure.value);
      }
      assert response.items[..n] == response.items;
      marker := response.marker;
      if MarkerEnds(marker) {
        FinalIsLast(listing, j);
        assert forall c :: 0 <= c < |sent| ==> CheckVerdict(replies)(c, sent[c]).Ok?;
        ListingDeletionFinishes(bucket, listing, CheckVerdict(replies), j, sent, batch);
        break;
      }
      PageItemsNext(listing, j);
      j := j + 1;
    }
    if |keys| > 0 {
      r := SubmitBatch(replies(|sent|), keys);
      sent := sent + [batch];
      return requests, sent, r;
    }
    return requests, sent, Ok(());
  }
}
