/** Deletion of everything a paginated listing delivers, as `deleteAll` and
    `deletePrefix` perform it: the listing is traversed page by page, every
    key joins the pending batch, a batch of 1000 goes out at once, and the
    remainder goes out after the last page. The lemmas say how the run
    ends at each point where the traversal can stop. */
module BulkDeletion {
  import opened Common
  import opened Remote
  import opened Batching

  /** The deletion of every key the listing delivers, where `verdict(i,
      batch)` is how the i-th batch call ends. */
  function ListingDeletion<E>(bucket: string, listing: seq<ListResponse>, listError: Option<E>,
                              verdict: (nat, seq<BatchOp>) -> Result<(), E>): BatchRun<BatchOp, E>
    requires ListingEnds(listing)
  {
    BulkRun(DeleteOps(bucket, ListedKeys(listing)), listError, verdict)
  }

  /** A listing call that fails at page `j` ends the deletion with the
      listing's error once the complete batches of the earlier pages went
      out. */
  lemma ListingDeletionListFails<E>(bucket: string, listing: seq<ListResponse>, e: E,
                                    verdict: (nat, seq<BatchOp>) -> Result<(), E>,
                                    j: nat, sent: seq<seq<BatchOp>>)
    requires ListingEnds(listing) && j <= LastPage(listing) && listing[j].ListFailed?
    requires sent == FullChunks(DeleteOps(bucket, Keys(PageItems(listing[..j]))))
    requires forall c :: 0 <= c < |sent| ==> verdict(c, sent[c]).Ok?
    ensures ListingDeletion(bucket, listing, Some(e), verdict) == BatchRun(sent, Err(e))
  {
    ListedKeysAt(listing, j);
    assert PageItems(listing[..j]) + ItemsOf(listing[j]) == PageItems(listing[..j]);
    BulkRunListFails(DeleteOps(bucket, ListedKeys(listing)), e, verdict);
  }

  /** The batch call completed by the `n`-th object of page `j` failing
      ends the deletion with that call's failure. */
  lemma ListingDeletionBatchFails<E>(bucket: string, listing: seq<ListResponse>, listError: Option<E>,
                                     verdict: (nat, seq<BatchOp>) -> Result<(), E>,
                                     j: nat, n: nat, sent: seq<seq<BatchOp>>)
    requires ListingEnds(listing) && j <= LastPage(listing) && listing[j].Listed?
    requires n <= |listing[j].items|
    requires var v := DeleteOps(bucket, Keys(PageItems(listing[..j]) + listing[j].items[..n]));
      sent == FullChunks(v) && v != [] && |v| % BatchSize == 0
    requires forall c :: 0 <= c < |sent| - 1 ==> verdict(c, sent[c]).Ok?
    requires verdict(|sent| - 1, sent[|sent| - 1]).Err?
    ensures ListingDeletion(bucket, listing, listError, verdict) ==
      BatchRun(sent, verdict(|sent| - 1, sent[|sent| - 1]))
  {
    var v := DeleteOps(bucket, Keys(PageItems(listing[..j]) + listing[j].items[..n]));
    VisitedOps(bucket, listing, j, n);
    BulkRunBatchFails(DeleteOps(bucket, ListedKeys(listing)), listError, verdict, v, sent);
  }

  /** After the final page `j` the remainder, if any, goes out in a last
      batch call, which decides the deletion. */
  lemma ListingDeletionFinishes<E>(bucket: string, listing: seq<ListResponse>,
                                   verdict: (nat, seq<BatchOp>) -> Result<(), E>,
                                   j: nat, sent: seq<seq<BatchOp>>, batch: seq<BatchOp>)
    requires ListingEnds(listing) && j <= LastPage(listing) && listing[j].Listed?
    requires MarkerEnds(listing[j].marker)
    requires var v := DeleteOps(bucket, Keys(PageItems(listing[..j]) + listing[j].items));
      sent == FullChunks(v) && batch == Remainder(v)
    requires forall c :: 0 <= c < |sent| ==> verdict(c, sent[c]).Ok?
    ensures ListingDeletion(bucket, listing, None, verdict) ==
      if batch == [] then BatchRun(sent, Ok(()))
      else BatchRun(sent + [batch], verdict(|sent|, batch))
  {
    ListedKeysAt(listing, j);
    BulkRunLastBatch(DeleteOps(bucket, ListedKeys(listing)), verdict);
  }
}
