/** `QiniuFile`: the virtual file of one object key (a key that ends with
    the separator names a directory). Its metadata is fetched from the
    service once and cached; listing and recursive deletion go through the
    paginated listing. */
module QiniuVirtualFile {
  import opened Common
  import opened Remote
  import opened Batching

  /** Java's `long` division `a / b`, which truncates toward zero. */
  function JavaDiv(a: int, b: int): (q: int)
    requires b > 0
    ensures 0 <= a ==> q * b <= a < (q + 1) * b
    ensures a < 0 ==> (q - 1) * b < a <= q * b
  {
    if a >= 0 then a / b else -((-a) / b)
  }

  /** Put times count units of 100 nanoseconds; `lastModified` is in
      milliseconds. */
  const PutTimeUnitsPerMilli: int := 10000

  /** The path part of the download URL: the key, with a leading separator
      added when it has none. */
  function UrlPath(objectName: string): (path: string)
    ensures StartsWith(path, [Sep])
    ensures path == objectName || path == [Sep] + objectName
    ensures StartsWith(objectName, [Sep]) <==> path == objectName
  {
    if StartsWith(objectName, [Sep]) then objectName else [Sep] + objectName
  }

  /** Adding the leading separator once is enough. */
  lemma UrlPathIdempotent(objectName: string)
    ensures UrlPath(UrlPath(objectName)) == UrlPath(objectName)
  {
  }

  /** `new URL(scheme, downloadDomain, path).toString()`: the unsigned
      download URL of a key, before the private-download signature is
      appended. */
  function ExternalUrl(useHTTPs: bool, downloadDomain: string, objectName: string): (url: string)
    ensures var scheme := if useHTTPs then "https" else "http";
      StartsWith(url, scheme + "://" + downloadDomain)
      && url[|scheme + "://" + downloadDomain|..] == UrlPath(objectName)
  {
    (if useHTTPs then "https" else "http") + "://" + downloadDomain + UrlPath(objectName)
  }

  /** The keys of `xs` other than `x`, in order. */
  function Without(xs: seq<string>, x: string): (r: seq<string>)
    ensures |r| <= |xs|
  {
    if xs == [] then []
    else Without(xs[..|xs| - 1], x) + (if xs[|xs| - 1] == x then [] else [xs[|xs| - 1]])
  }

  /** `Without` drops exactly the occurrences of `x`. */
  lemma {:induction false} WithoutSpec(xs: seq<string>, x: string)
    ensures forall y :: y in Without(xs, x) <==> y in xs && y != x
  {
    if xs != [] {
      WithoutSpec(xs[..|xs| - 1], x);
      assert xs == xs[..|xs| - 1] + [xs[|xs| - 1]];
    }
  }

  /** The entries one page contributes to `list()`: its object keys, then
      its common prefixes, each but the listed prefix itself. */
  function PageChildren(prefix: string, r: ListResponse): seq<string>
  {
    if r.Listed? then Without(Keys(r.items), prefix) + Without(r.commonPrefixes, prefix) else []
  }

  /** The entries `list()` collects from the pages `pages`, page after
      page. */
  function Children(prefix: string, pages: seq<ListResponse>): seq<string>
  {
    if pages == [] then []
    else Children(prefix, pages[..|pages| - 1]) + PageChildren(prefix, pages[|pages| - 1])
  }

  /** A page that was listed holds `y` as an object key or a common
      prefix. */
  predicate OnPage(r: ListResponse, y: string)
  {
    r.Listed? && (y in Keys(r.items) || y in r.commonPrefixes)
  }

  /** One page contributes exactly its keys and prefixes other than the
      listed prefix itself. */
  lemma PageChildrenSpec(prefix: string, r: ListResponse, y: string)
    ensures y in PageChildren(prefix, r) <==> y != prefix && OnPage(r, y)
  {
    if r.Listed? {
      WithoutSpec(Keys(r.items), prefix);
      WithoutSpec(r.commonPrefixes, prefix);
    }
  }

  /** An entry is listed exactly when it is an object key or a common prefix
      of one of the pages and is not the prefix itself. */
  lemma {:induction false} ChildrenSpec(prefix: string, pages: seq<ListResponse>, y: string)
    ensures y in Children(prefix, pages) <==>
      y != prefix && exists j :: 0 <= j < |pages| && OnPage(pages[j], y)
  {
    if pages != [] {
      var n := |pages|;
      var init, last := pages[..n - 1], pages[n - 1];
      assert Children(prefix, pages) == Children(prefix, init) + PageChildren(prefix, last);
      ChildrenSpec(prefix, init, y);
      PageChildrenSpec(prefix, last, y);
      if y in Children(prefix, init) {
        var j :| 0 <= j < |init| && OnPage(init[j], y);
        assert OnPage(pages[j], y);
      } else if y in PageChildren(prefix, last) {
        assert OnPage(pages[n - 1], y);
      }
      if y != prefix && exists j :: 0 <= j < n && OnPage(pages[j], y) {
        var j :| 0 <= j < n && OnPage(pages[j], y);
        if j < n - 1 {
          assert OnPage(init[j], y);
        }
      }
    }
  }

  /** One more page. */
  lemma ChildrenSnoc(prefix: string, listing: seq<ListResponse>, j: nat)
    requires j < |listing|
    ensures Children(prefix, listing[..j + 1]) == Children(prefix, listing[..j]) + PageChildren(prefix, listing[j])
  {
    assert listing[..j + 1][..j] == listing[..j];
  }

  /** The listing prefix of `listRecursively` as written: a separator is
      appended when the key ALREADY ends with one. */
  function RecursivePrefixAsWritten(objectName: string): string
  {
    if EndsWithSep(objectName) then objectName + [Sep] else objectName
  }

  /** For a directory the prefix as written ends in two separators, so no
      object directly below the directory matches it: "a/" is listed as
      "a//", which "a/b" does not start with. */
  lemma RecursivePrefixMissesChildren()
    ensures RecursivePrefixAsWritten("a/") == "a//"
    ensures !StartsWith("a/b", RecursivePrefixAsWritten("a/"))
  {
    assert EndsWithSep("a/");
    assert "a/b"[2] != "a//"[2];
  }

  /** The key `key` lies in the directory `dir`, whether or not `dir` is
      written with its closing separator. */
  predicate InDirectory(key: string, dir: string)
  {
    StartsWith(key, dir) && (EndsWithSep(dir) || (|dir| < |key| && key[|dir|] == Sep))
  }

  /** The listing prefix of `listRecursively` evidently intended, built the
      way `list()` builds its own: a separator is appended only when it is
      missing. */
  function RecursivePrefix(objectName: string): (p: string)
    ensures EndsWithSep(p) && StartsWith(p, objectName)
    ensures EndsWithSep(objectName) ==> p == objectName
  {
    WithTrailingSep(objectName)
  }

  /** With the intended prefix a key is listed exactly when it lies in the
      directory. */
  lemma RecursivePrefixMatchesDirectory(objectName: string, key: string)
    ensures StartsWith(key, RecursivePrefix(objectName)) <==> InDirectory(key, objectName)
  {
    var n := |objectName|;
    if !EndsWithSep(objectName) {
      assert RecursivePrefix(objectName) == objectName + [Sep];
      if StartsWith(key, objectName + [Sep]) {
        assert key[..n] == (objectName + [Sep])[..n];
        assert key[n] == key[..n + 1][n];
      }
      if InDirectory(key, objectName) {
        assert key[..n + 1] == key[..n] + [key[n]];
      }
    }
  }

  /** With the prefix as written a directory key lists only what lies in its
      sub-directory with the empty name, and any other key lists every key
      it begins (its siblings with longer names among them). */
  lemma RecursivePrefixAsWrittenMatches(objectName: string, key: string)
    ensures EndsWithSep(objectName) ==>
              (StartsWith(key, RecursivePrefixAsWritten(objectName)) <==>
                 InDirectory(key, objectName) && |objectName| < |key| && key[|objectName|] == Sep)
    ensures !EndsWithSep(objectName) ==>
              (StartsWith(key, RecursivePrefixAsWritten(objectName)) <==> StartsWith(key, objectName))
  {
    var n := |objectName|;
    if EndsWithSep(objectName) {
      assert RecursivePrefixAsWritten(objectName) == objectName + [Sep];
      if StartsWith(key, objectName + [Sep]) {
        assert key[..n] == (objectName + [Sep])[..n];
        assert key[n] == key[..n + 1][n];
      }
      if InDirectory(key, objectName) && n < |key| && key[n] == Sep {
        assert key[..n + 1] == key[..n] + [key[n]];
      }
    }
  }

  /** The batches `deleteRecursively` submits for the operations `ops`, as
      written: the counter is never reset, so once 1000 operations have
      gathered every further key goes out in a batch of its own, and the
      final call submits the (then empty) batch. */
  function RecursiveBatches<T>(ops: seq<T>): (batches: seq<seq<T>>)
    requires ops != []
  {
    if |ops| < BatchSize then [ops]
    else [ops[..BatchSize]] + Singletons(ops[BatchSize..]) + [[]]
  }

  /** Every element in a batch of its own. */
  function Singletons<T>(xs: seq<T>): (r: seq<seq<T>>)
    ensures |r| == |xs|
    ensures forall i :: 0 <= i < |xs| ==> r[i] == [xs[i]]
  {
    seq(|xs|, i requires 0 <= i < |xs| => [xs[i]])
  }

  /** With 1000 operations or more, `deleteRecursively` as written makes
      `n - 998` batch calls instead of `ceil(n / 1000)`, and the last one
      is empty: for 1001 operations, three calls where two suffice. */
  lemma RecursiveBatchesExtraCalls<T>(ops: seq<T>)
    requires |ops| >= BatchSize
    ensures |RecursiveBatches(ops)| == |ops| - BatchSize + 2
    ensures RecursiveBatches(ops)[|RecursiveBatches(ops)| - 1] == []
    ensures |ops| == BatchSize + 1 ==> |RecursiveBatches(ops)| == 3 && |Chunks(ops)| == 2
  {
    if |ops| == BatchSize + 1 {
      ChunksShape(ops);
    }
  }

  /** Below 1000 operations the batches as written are the intended ones. */
  lemma RecursiveBatchesSmall<T>(ops: seq<T>)
    requires 0 < |ops| < BatchSize
    ensures RecursiveBatches(ops) == Chunks(ops)
  {
    assert |ops| / BatchSize == 0;
    assert Remainder(ops) == ops;
  }

  /** How the i-th batch call of `deleteRecursively` ends: the response is
      not inspected, only a thrown exception counts. */
  function RecursiveOuts(batches: seq<seq<BatchOp>>, replies: nat -> BatchReply)
    : (outs: seq<Result<(), IOError>>)
    ensures |outs| == |batches|
  {
    seq(|batches|, i requires 0 <= i < |batches| =>
      if replies(i).BatchThrew? then Err(QiniuError(replies(i).message)) else Ok(()))
  }

  class QiniuFile {
    const accessKey: string
    const secretKey: string
    const bucketName: string
    const objectName: string
    const downloadDomain: string
    const useHTTPs: bool
    var gotMetadata: bool
    var fsize: int
    /** In milliseconds. */
    var lastModified: int

    constructor (accessKey: string, secretKey: string, bucketName: string, objectName: string,
                 downloadDomain: string, useHTTPs: bool)
      ensures this.accessKey == accessKey && this.secretKey == secretKey
      ensures this.bucketName == bucketName && this.objectName == objectName
      ensures this.downloadDomain == downloadDomain && this.useHTTPs == useHTTPs
      ensures !gotMetadata && fsize == 0 && lastModified == 0
      ensures Valid()
    {
      this.accessKey := accessKey;
      this.secretKey := secretKey;
      this.bucketName := bucketName;
      this.objectName := objectName;
      this.downloadDomain := downloadDomain;
      this.useHTTPs := useHTTPs;
      gotMetadata := false;
      fsize := 0;
      lastModified := 0;
    }

    /** Nothing is cached before the metadata is fetched. */
    predicate Valid()
      reads this
    {
      !gotMetadata ==> fsize == 0 && lastModified == 0
    }

    /** The cache after fetching the metadata from a cache that held
        `fetched`, `size` and `modified`: a file not fetched yet whose stat
        call succeeds caches the size and the put time in milliseconds;
        otherwise the cache is as it was. */
    predicate CacheAfter(fetched: bool, size: int, modified: int, stat: StatReply)
      reads this
    {
      if !fetched && IsFile() && stat.StatOk? then
        gotMetadata && fsize == stat.info.fsize
        && lastModified == JavaDiv(stat.info.putTime, PutTimeUnitsPerMilli)
      else
        gotMetadata == fetched && fsize == size && lastModified == modified
    }

    /** `isDirectory`: the key ends with the separator. */
    predicate IsDirectory()
    {
      EndsWithSep(objectName)
    }

    /** `isFile`: not a directory. */
    predicate IsFile()
    {
      !IsDirectory()
    }

    /** The download URL before signing. */
    function Url(): (url: string)
      ensures StartsWith(url, if useHTTPs then "https://" else "http://")
    {
      ExternalUrl(useHTTPs, downloadDomain, objectName)
    }

    /** `fetchMetadata`: a file whose metadata was not fetched yet is
        stat-ed, `stat` being the service's answer, and its size and put
        time (converted to milliseconds) are cached; a directory or a file
        already fetched makes no call. Returns the stat calls made. */
    method FetchMetadata(stat: StatReply) returns (stats: seq<StatRequest>, r: Result<(), IOError>)
      requires Valid()
      modifies this
      ensures Valid() && CacheAfter(old(gotMetadata), old(fsize), old(lastModified), stat)
      ensures var calls := !old(gotMetadata) && IsFile();
        (stats == if calls then [StatRequest(bucketName, objectName)] else [])
        && (r.Err? <==> calls && stat.StatThrew?)
        && (r.Err? ==> r.error == QiniuError(stat.message) && unchanged(this))
        && (calls && stat.StatOk? ==>
              gotMetadata && fsize == stat.info.fsize
              && lastModified == JavaDiv(stat.info.putTime, PutTimeUnitsPerMilli))
        && (!calls ==> unchanged(this))
    {
      stats := [];
      if !gotMetadata && IsFile() {
        stats := [StatRequest(bucketName, objectName)];
        match stat
        case StatThrew(message) =>
          return stats, Err(QiniuError(message));
        case StatOk(info) =>
          gotMetadata := true;
          fsize := info.fsize;
          lastModified := JavaDiv(info.putTime, PutTimeUnitsPerMilli);
      }
      return stats, Ok(());
    }

    /** `exists`: true unless the stat call fails, which only a file whose
        metadata was not fetched yet makes; a directory always exists. */
    method Exists(stat: StatReply) returns (stats: seq<StatRequest>, b: bool)
      requires Valid()
      modifies this
      ensures Valid() && CacheAfter(old(gotMetadata), old(fsize), old(lastModified), stat)
      ensures stats == if !old(gotMetadata) && IsFile() then [StatRequest(bucketName, objectName)] else []
      ensures b <==> old(gotMetadata) || IsDirectory() || stat.StatOk?
      ensures IsDirectory() ==> unchanged(this)
    {
      var fetched;
      stats, fetched := FetchMetadata(stat);
      return stats, fetched.Ok?;
    }

    /** `length`: the cached size after fetching the metadata; 0 for a
        directory. */
    method Length(stat: StatReply) returns (stats: seq<StatRequest>, r: Result<int, IOError>)
      requires Valid()
      modifies this
      ensures Valid() && CacheAfter(old(gotMetadata), old(fsize), old(lastModified), stat)
      ensures stats == if !old(gotMetadata) && IsFile() then [StatRequest(bucketName, objectName)] else []
      ensures r.Err? <==> !old(gotMetadata) && IsFile() && stat.StatThrew?
      ensures r.Ok? ==> r.value == (if old(gotMetadata) then old(fsize)
                                    else if IsDirectory() then 0 else stat.info.fsize)
    {
      var fetched;
      stats, fetched := FetchMetadata(stat);
      if fetched.Err? {
        return stats, Err(fetched.error);
      }
      return stats, Ok(fsize);
    }

    /** `lastModified`: the cached put time in milliseconds after fetching
        the metadata; 0 for a directory. */
    method LastModified(stat: StatReply) returns (stats: seq<StatRequest>, r: Result<int, IOError>)
      requires Valid()
      modifies this
      ensures Valid() && CacheAfter(old(gotMetadata), old(fsize), old(lastModified), stat)
      ensures stats == if !old(gotMetadata) && IsFile() then [StatRequest(bucketName, objectName)] else []
      ensures r.Err? <==> !old(gotMetadata) && IsFile() && stat.StatThrew?
      ensures r.Ok? ==> r.value == (if old(gotMetadata) then old(lastModified)
                                    else if IsDirectory() then 0
                                    else JavaDiv(stat.info.putTime, PutTimeUnitsPerMilli))
    {
      var fetched;
      stats, fetched := FetchMetadata(stat);
      if fetched.Err? {
        return stats, Err(fetched.error);
      }
      return stats, Ok(lastModified);
    }

    /** `list`: the direct children of the directory the key names: the
        listing of the key with a trailing separator and the separator as
        delimiter, objects and common prefixes alike, except the prefix
        itself. A failed listing call throws and lists nothing. */
    method List(listing: seq<ListResponse>)
      returns (requests: seq<ListRequest>, r: Result<seq<string>, IOError>)
      requires ListingEnds(listing)
      ensures var L := LastPage(listing);
        requests == ListRequests(bucketName, WithTrailingSep(objectName), Some([Sep]), listing, L + 1)
        && r == (if ListError(listing).Some? then Err(ListError(listing).value)
                 else Ok(Children(WithTrailingSep(objectName), listing[..L + 1])))
    {
      ghost var L := LastPage(listing);
      var prefix := objectName;
      if !EndsWithSep(prefix) {
        prefix := prefix + [Sep];
      }
      assert prefix == WithTrailingSep(objectName);
      var listed: seq<string> := [];
      var marker: Option<string> := None;
      requests := [];
      var j := 0;
      while true
        invariant 0 <= j <= L
        invariant marker == MarkerBefore(listing, j)
        invariant requests == ListRequests(bucketName, prefix, Some([Sep]), listing, j)
        invariant listed == Children(prefix, listing[..j])
        decreases L - j
      {
        ListRequestsSnoc(bucketName, prefix, Some([Sep]), listing, j);
        requests := requests + [ListRequest(bucketName, prefix, marker, PageSize, Some([Sep]))];
        var response := listing[j];
        if response.ListFailed? {
          FinalIsLast(listing, j);
          return requests, Err(QiniuError(response.message));
        }
        listed := AddPage(listed, response, prefix);
        ChildrenSnoc(prefix, listing, j);
        marker := response.marker;
        assert marker == MarkerBefore(listing, j + 1);
        if MarkerEnds(marker) {
          FinalIsLast(listing, j);
          assert j == L;
          assert listed == Children(prefix, listing[..j + 1]);
          assert ListError(listing).None?;
          return requests, Ok(listed);
        }
        j := j + 1;
      }
    }

    /** The two inner loops of `list` over one page: its object keys, then
        its common prefixes. */
    static method AddPage(listed: seq<string>, response: ListResponse, prefix: string)
      returns (r: seq<string>)
      requires response.Listed?
      ensures r == listed + PageChildren(prefix, response)
    {
      ghost var objects := Without(Keys(response.items), prefix);
      ghost var prefixes := Without(response.commonPrefixes, prefix);
      assert PageChildren(prefix, response) == objects + prefixes;
      r := AddEntries(listed, Keys(response.items), prefix);
      r := AddEntries(r, response.commonPrefixes, prefix);
      assert r == listed + objects + prefixes;
    }

    /** One inner loop of `list`: every entry but the prefix itself is
        added, in order. */
    static method AddEntries(listed: seq<string>, entries: seq<string>, prefix: string)
      returns (r: seq<string>)
      ensures r == listed + Without(entries, prefix)
    {
      r := listed;
      var k := 0;
      while k < |entries|
        invariant 0 <= k <= |entries|
        invariant r == listed + Without(entries[..k], prefix)
      {
        assert entries[..k + 1][..k] == entries[..k];
        if entries[k] != prefix {
          r := r + [entries[k]];
        }
        k := k + 1;
      }
      assert entries[..k] == entries;
    }

    /** `listRecursively`: every object under the key, listed without a
        delimiter; the prefix is built as written (see
        `RecursivePrefixAsWritten`). */
    method ListRecursively(listing: seq<ListResponse>)
      returns (requests: seq<ListRequest>, r: Result<seq<string>, IOError>)
      requires ListingEnds(listing)
      ensures var L := LastPage(listing);
        requests == ListRequests(bucketName, RecursivePrefixAsWritten(objectName), None, listing, L + 1)
        && r == (if ListError(listing).Some? then Err(ListError(listing).value)
                 else Ok(ListedKeys(listing)))
    {
      ghost var L := LastPage(listing);
      var prefix := objectName;
      if EndsWithSep(prefix) {
        prefix := prefix + [Sep];
      }
      var listed: seq<string> := [];
      var marker: Option<string> := None;
      requests := [];
      var j := 0;
      while true
        invariant 0 <= j <= L
        invariant marker == MarkerBefore(listing, j)
        invariant requests == ListRequests(bucketName, prefix, None, listing, j)
        invariant listed == Keys(PageItems(listing[..j]))
        decreases L - j
      {
        ListRequestsSnoc(bucketName, prefix, None, listing, j);
        requests := requests + [ListRequest(bucketName, prefix, marker, PageSize, None)];
        var response := listing[j];
        if response.ListFailed? {
          FinalIsLast(listing, j);
          return requests, Err(QiniuError(response.message));
        }
        listed := AddKeys(listed, response.items, PageItems(listing[..j]));
        PageItemsNext(listing, j);
        marker := response.marker;
        assert marker == MarkerBefore(listing, j + 1);
        if MarkerEnds(marker) {
          FinalIsLast(listing, j);
          assert j == L;
          assert listed == Keys(PageItems(listing[..j + 1]));
          assert ListError(listing).None?;
          return requests, Ok(listed);
        }
        j := j + 1;
      }
    }

    /** The inner loop of `listRecursively`: the key of every item is
        added, in order. */
    static method AddKeys(listed: seq<string>, items: seq<FileInfo>, ghost before: seq<FileInfo>)
      returns (r: seq<string>)
      requires listed == Keys(before)
      ensures r == Keys(before + items)
    {
      r := listed;
      for i := 0 to |items|
        invariant r == Keys(before + items[..i])
      {
        assert before + items[..i + 1] == before + items[..i] + [items[i]];
        r := r + [items[i].key];
      }
      assert items[..|items|] == items;
    }

    /** `deleteRecursively`: delete every object `listRecursively` returns,
        in the batches the code as written submits (see
        `RecursiveBatches`); false when nothing was listed. A batch call
        that throws ends the deletion; responses are not inspected. Returns
        the listing calls, made under the prefix as written, and the batches
        sent. */
    method DeleteRecursively(listing: seq<ListResponse>, replies: nat -> BatchReply)
      returns (requests: seq<ListRequest>, sent: seq<seq<BatchOp>>, r: Result<bool, IOError>)
      requires ListingEnds(listing)
      ensures requests == ListRequests(bucketName, RecursivePrefixAsWritten(objectName), None, listing,
                                       LastPage(listing) + 1)
      ensures ListError(listing).Some? ==> sent == [] && r == Err(ListError(listing).value)
      ensures ListError(listing).None? && ListedKeys(listing) == [] ==> sent == [] && r == Ok(false)
      ensures ListError(listing).None? && ListedKeys(listing) != [] ==>
        var batches := RecursiveBatches(DeleteOps(bucketName, ListedKeys(listing)));
        var run := RunBatches(batches, RecursiveOuts(batches, replies), Ok(()));
        sent == run.sent && r == (if run.result.Ok? then Ok(true) else Err(run.result.error))
    {
      var files;
      requests, files := ListRecursively(listing);
      sent := [];
      if files.Err? {
        return requests, sent, Err(files.error);
      }
      var keys := files.value;
      if |keys| == 0 {
        return requests, sent, Ok(false);
      }
      ghost var ops := DeleteOps(bucketName, keys);
      ghost var batches := RecursiveBatches(ops);
      ghost var outs := RecursiveOuts(batches, replies);
      var batch: seq<BatchOp> := [];
      var counter := 0;
      var i := 0;
      while i < |keys|
        invariant 0 <= i <= |keys| && counter == i
        invariant i < BatchSize ==> sent == [] && batch == ops[..i]
        invariant i >= BatchSize ==>
          sent == [ops[..BatchSize]] + Singletons(ops[BatchSize..i]) && batch == []
        invariant forall c :: 0 <= c < |sent| ==> !replies(c).BatchThrew?
      {
        batch := batch + [DeleteOp(bucketName, keys[i])];
        assert i < BatchSize ==> batch == ops[..i + 1];
        counter := counter + 1;
        if counter >= BatchSize {
          var reply := replies(|sent|);
          SubmittedAfter(ops, i, sent, batch);
          sent := sent + [batch];
          if reply.BatchThrew? {
            RecursiveRunStops(ops, replies, i, sent);
            return requests, sent, Err(QiniuError(reply.message));
          }
          batch := [];
        }
        i := i + 1;
      }
      RecursiveRunCompletes(ops, replies, sent, batch);
      // counter > 0 here: the last call submits whatever the batch holds
      var reply := replies(|sent|);
      sent := sent + [batch];
      if reply.BatchThrew? {
        return requests, sent, Err(QiniuError(reply.message));
      }
      return requests, sent, Ok(true);
    }
  }

  /** The batch calls of `deleteRecursively` once operation `i` has been
      added: the first 1000 operations together, then one call for each
      further operation. */
  lemma SubmittedAfter(ops: seq<BatchOp>, i: nat, sent: seq<seq<BatchOp>>, batch: seq<BatchOp>)
    requires BatchSize - 1 <= i < |ops|
    requires i < BatchSize ==> sent == [] && batch == ops[..i + 1]
    requires i >= BatchSize ==> sent == [ops[..BatchSize]] + Singletons(ops[BatchSize..i]) && batch == [ops[i]]
    ensures sent + [batch] == [ops[..BatchSize]] + Singletons(ops[BatchSize..i + 1])
  {
    if i >= BatchSize {
      assert Singletons(ops[BatchSize..i + 1]) == Singletons(ops[BatchSize..i]) + [[ops[i]]];
    } else {
      assert Singletons(ops[BatchSize..i + 1]) == [];
    }
  }

  /** A batch call of `deleteRecursively` that throws after the operation
      `i` ends the run with its error. */
  lemma RecursiveRunStops(ops: seq<BatchOp>, replies: nat -> BatchReply, i: nat, sent: seq<seq<BatchOp>>)
    requires BatchSize - 1 <= i < |ops|
    requires sent == [ops[..BatchSize]] + Singletons(ops[BatchSize..i + 1])
    requires forall c :: 0 <= c < |sent| - 1 ==> !replies(c).BatchThrew?
    requires replies(|sent| - 1).BatchThrew?
    ensures var batches := RecursiveBatches(ops);
      RunBatches(batches, RecursiveOuts(batches, replies), Ok(())) ==
        BatchRun(sent, Err(QiniuError(replies(|sent| - 1).message)))
  {
    var batches := RecursiveBatches(ops);
    var outs := RecursiveOuts(batches, replies);
    var c := |sent| - 1;
    assert batches[..c + 1] == sent by {
      assert Singletons(ops[BatchSize..]) [..i + 1 - BatchSize] == Singletons(ops[BatchSize..i + 1]);
    }
    FirstFailureAt(outs, c);
  }

  /** After the last operation, the final call of `deleteRecursively`
      submits the batch still held and decides the run. */
  lemma RecursiveRunCompletes(ops: seq<BatchOp>, replies: nat -> BatchReply,
                              sent: seq<seq<BatchOp>>, batch: seq<BatchOp>)
    requires ops != []
    requires |ops| < BatchSize ==> sent == [] && batch == ops
    requires |ops| >= BatchSize ==> sent == [ops[..BatchSize]] + Singletons(ops[BatchSize..]) && batch == []
    requires forall c :: 0 <= c < |sent| ==> !replies(c).BatchThrew?
    ensures var batches := RecursiveBatches(ops);
      RunBatches(batches, RecursiveOuts(batches, replies), Ok(())) ==
        if replies(|sent|).BatchThrew? then BatchRun(sent + [batch], Err(QiniuError(replies(|sent|).message)))
        else BatchRun(sent + [batch], Ok(()))
  {
    var batches := RecursiveBatches(ops);
    var outs := RecursiveOuts(batches, replies);
    assert batches == sent + [batch];
    var c := |sent|;
    if replies(c).BatchThrew? {
      FirstFailureAt(outs, c);
      assert batches[..c + 1] == batches;
    } else {
      assert forall k :: 0 <= k < |outs| ==> outs[k].Ok?;
    }
  }
}
