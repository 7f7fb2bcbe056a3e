/** The Qiniu storage service as the plugin sees it: the requests it sends
    and the answers it gets back. The service itself is not modelled; every
    answer is an input to the operation that receives it. */
module Remote {
  import opened Common

  /** `FileInfo` of a listed or stat-ed object: its key, its size in bytes
      and its put time in units of 100 nanoseconds. */
  datatype FileInfo = FileInfo(key: string, fsize: int, putTime: int)

  /** The page size every listing asks for. */
  const PageSize: int := 1000

  /** One call of `BucketManager.listFiles(bucket, prefix, marker, limit,
      delimiter)`. */
  datatype ListRequest = ListRequest(
    bucket: string, prefix: string, marker: Option<string>, limit: int, delimiter: Option<string>)

  /** The answer to one listing call: a page (a null `items` or
      `commonPrefixes` array is the empty sequence) or a thrown exception. */
  datatype ListResponse =
    | Listed(items: seq<FileInfo>, commonPrefixes: seq<string>, marker: Option<string>)
    | ListFailed(message: string)

  /** `marker == null || marker.isEmpty()`: the listing has no further page. */
  predicate MarkerEnds(m: Option<string>)
  {
    m.None? || m.value == ""
  }

  /** A response after which the plugin sends no further listing call. */
  predicate IsFinal(r: ListResponse)
  {
    r.ListFailed? || MarkerEnds(r.marker)
  }

  /** The answers the service gives to successive listing calls: the j-th call
      receives `listing[j]`. Every listing the service gives has an end. */
  predicate ListingEnds(listing: seq<ListResponse>)
  {
    exists i :: 0 <= i < |listing| && IsFinal(listing[i])
  }

  /** Index of the response that ends the listing. */
  function LastPage(listing: seq<ListResponse>): (k: nat)
    requires ListingEnds(listing)
    ensures k < |listing| && IsFinal(listing[k])
    decreases |listing|
  {
    if IsFinal(listing[0]) then 0
    else
      assert ListingEnds(listing[1..]) by {
        var i :| 0 <= i < |listing| && IsFinal(listing[i]);
        assert i > 0 && IsFinal(listing[1..][i - 1]);
      }
      1 + LastPage(listing[1..])
  }

  /** No response before the last one ends the listing. */
  lemma {:induction false} FinalIsLast(listing: seq<ListResponse>, j: nat)
    requires ListingEnds(listing) && j <= LastPage(listing) && IsFinal(listing[j])
    ensures j == LastPage(listing)
    decreases j
  {
    if j > 0 && !IsFinal(listing[0]) {
      assert IsFinal(listing[1..][j - 1]);
      FinalIsLast(listing[1..], j - 1);
    }
  }

  /** The marker the j-th listing call carries: none for the first call, the
      marker of the previous page afterwards. */
  function MarkerBefore(listing: seq<ListResponse>, j: nat): Option<string>
    requires j <= |listing|
  {
    if j == 0 || listing[j - 1].ListFailed? then None else listing[j - 1].marker
  }

  /** The first `n` listing calls of a paginated listing of `prefix`. */
  function ListRequests(bucket: string, prefix: string, delimiter: Option<string>,
                        listing: seq<ListResponse>, n: nat): (rs: seq<ListRequest>)
    requires n <= |listing|
    ensures |rs| == n
    ensures forall j :: 0 <= j < n ==>
      rs[j] == ListRequest(bucket, prefix, MarkerBefore(listing, j), PageSize, delimiter)
  {
    seq(n, j requires 0 <= j < n => ListRequest(bucket, prefix, MarkerBefore(listing, j), PageSize, delimiter))
  }

  /** One more listing call. */
  lemma ListRequestsSnoc(bucket: string, prefix: string, delimiter: Option<string>,
                         listing: seq<ListResponse>, n: nat)
    requires n < |listing|
    ensures ListRequests(bucket, prefix, delimiter, listing, n + 1) ==
      ListRequests(bucket, prefix, delimiter, listing, n)
        + [ListRequest(bucket, prefix, MarkerBefore(listing, n), PageSize, delimiter)]
  {
  }

  /** The items one listing response delivers. */
  function ItemsOf(r: ListResponse): seq<FileInfo>
  {
    if r.Listed? then r.items else []
  }

  /** The items of the listed pages, page after page. */
  function PageItems(listing: seq<ListResponse>): seq<FileInfo>
  {
    if listing == [] then [] else ItemsOf(listing[0]) + PageItems(listing[1..])
  }

  /** The pages up to the last one deliver their items before the last
      one's. */
  lemma {:induction false} PageItemsSnoc(listing: seq<ListResponse>, r: ListResponse)
    ensures PageItems(listing + [r]) == PageItems(listing) + ItemsOf(r)
  {
    if listing == [] {
      assert [] + [r] == [r];
      assert [r][1..] == [];
    } else {
      calc {
        PageItems(listing + [r]);
        { assert (listing + [r])[0] == listing[0]; }
        ItemsOf(listing[0]) + PageItems((listing + [r])[1..]);
        { assert (listing + [r])[1..] == listing[1..] + [r]; }
        ItemsOf(listing[0]) + PageItems(listing[1..] + [r]);
        { PageItemsSnoc(listing[1..], r); }
        ItemsOf(listing[0]) + (PageItems(listing[1..]) + ItemsOf(r));
        PageItems(listing) + ItemsOf(r);
      }
    }
  }

  /** The first `j + 1` pages deliver the first `j` pages' items, then page
      `j`'s. */
  lemma PageItemsNext(listing: seq<ListResponse>, j: nat)
    requires j < |listing|
    ensures PageItems(listing[..j + 1]) == PageItems(listing[..j]) + ItemsOf(listing[j])
  {
    assert listing[..j + 1] == listing[..j] + [listing[j]];
    PageItemsSnoc(listing[..j], listing[j]);
  }

  function Keys(items: seq<FileInfo>): (ks: seq<string>)
    ensures |ks| == |items|
    ensures forall i :: 0 <= i < |items| ==> ks[i] == items[i].key
  {
    seq(|items|, i requires 0 <= i < |items| => items[i].key)
  }

  /** One delete operation of a `BucketManager.BatchOperations`. */
  datatype BatchOp = DeleteOp(bucket: string, key: string)

  /** `addDeleteOp(bucket, key)` for every key, in order. */
  function DeleteOps(bucket: string, keys: seq<string>): (ops: seq<BatchOp>)
    ensures |ops| == |keys|
    ensures forall i :: 0 <= i < |keys| ==> ops[i] == DeleteOp(bucket, keys[i])
  {
    seq(|keys|, i requires 0 <= i < |keys| => DeleteOp(bucket, keys[i]))
  }

  /** The keys a listing delivered, up to its final response. */
  function ListedKeys(listing: seq<ListResponse>): seq<string>
    requires ListingEnds(listing)
  {
    Keys(PageItems(listing[..LastPage(listing) + 1]))
  }

  /** The error of a listing that ended with a failed call. */
  function ListError(listing: seq<ListResponse>): (e: Option<IOError>)
    requires ListingEnds(listing)
    ensures e.Some? <==> listing[LastPage(listing)].ListFailed?
  {
    var last := listing[LastPage(listing)];
    if last.ListFailed? then Some(QiniuError(last.message)) else None
  }

  /** The pages delivered so far list a prefix of what the whole listing
      lists. */
  lemma {:induction false} PageItemsGrow(listing: seq<ListResponse>, a: nat, b: nat)
    requires a <= b <= |listing|
    ensures PageItems(listing[..a]) <= PageItems(listing[..b])
    decreases b - a
  {
    if a < b {
      PageItemsGrow(listing, a + 1, b);
      assert listing[..a + 1] == listing[..a] + [listing[a]];
      PageItemsSnoc(listing[..a], listing[a]);
    }
  }

  /** Deleting the keys of a prefix of the objects is a prefix of deleting
      the keys of all of them. */
  lemma OpsOfPrefix(bucket: string, u: seq<FileInfo>, v: seq<FileInfo>)
    requires u <= v
    ensures DeleteOps(bucket, Keys(u)) <= DeleteOps(bucket, Keys(v))
  {
    var x, y := DeleteOps(bucket, Keys(u)), DeleteOps(bucket, Keys(v));
    assert y[..|x|] == x;
  }

  /** The operations gathered after the first `i` objects of page `j` are
      the first ones of all a traversal of the listing gathers. */
  lemma VisitedOps(bucket: string, listing: seq<ListResponse>, j: nat, i: nat)
    requires ListingEnds(listing) && j <= LastPage(listing) && listing[j].Listed?
    requires i <= |listing[j].items|
    ensures DeleteOps(bucket, Keys(PageItems(listing[..j]) + listing[j].items[..i]))
         <= DeleteOps(bucket, ListedKeys(listing))
  {
    var items := listing[j].items;
    assert listing[..j + 1] == listing[..j] + [listing[j]];
    PageItemsSnoc(listing[..j], listing[j]);
    PageItemsGrow(listing, j + 1, LastPage(listing) + 1);
    assert PageItems(listing[..j]) + items[..i] <= PageItems(listing[..j]) + items;
    OpsOfPrefix(bucket, PageItems(listing[..j]) + items[..i], PageItems(listing[..LastPage(listing) + 1]));
  }

  /** A page or a failure that ends the listing adds nothing more: the keys
      delivered before it and by it are all the listing delivers. */
  lemma ListedKeysAt(listing: seq<ListResponse>, j: nat)
    requires ListingEnds(listing) && j <= LastPage(listing) && IsFinal(listing[j])
    ensures ListedKeys(listing) == Keys(PageItems(listing[..j]) + ItemsOf(listing[j]))
  {
    FinalIsLast(listing, j);
    assert listing[..j + 1] == listing[..j] + [listing[j]];
    PageItemsSnoc(listing[..j], listing[j]);
  }

  /** Visiting one more object adds its delete operation. */
  lemma DeleteOpsStep(bucket: string, before: seq<FileInfo>, items: seq<FileInfo>, i: nat)
    requires i < |items|
    ensures DeleteOps(bucket, Keys(before + items[..i + 1]))
         == DeleteOps(bucket, Keys(before + items[..i])) + [DeleteOp(bucket, items[i].key)]
  {
    assert items[..i + 1] == items[..i] + [items[i]];
    assert before + items[..i + 1] == before + items[..i] + [items[i]];
  }

  /** One entry of a batch response: the status code and the error text. */
  datatype BatchStatus = BatchStatus(code: int, error: string)

  /** The answer to one `BucketManager.batch` call. */
  datatype BatchReply =
    | BatchThrew(message: string)
    | NullResponse
    | Statuses(statuses: seq<BatchStatus>)

  /** One `BucketManager.stat` call: bucket and key. */
  datatype StatRequest = StatRequest(bucket: string, key: string)

  /** The answer to `BucketManager.stat`. */
  datatype StatReply = StatOk(info: FileInfo) | StatThrew(message: string)

  /** The answer to `UploadManager.put`. */
  datatype PutReply = Stored | PutThrew(message: string)

  /** An upload token: bucket, validity in seconds and policy parameters. */
  datatype UploadToken = UploadToken(bucket: string, expires: int, policy: map<string, int>)
}
