/** `QiniuFileSystem`: the in-memory mirror of the objects stored under a
    prefix of a bucket. The directory tree is a value held in `rootNode`;
    each method updates it as the Java methods update their nodes, and is
    proved to leave exactly the tree and the result the functions of
    `FileSystemSpec` describe. */
module QiniuFileSystem {
  import opened Common
  import opened Paths
  import opened Remote
  import opened DirectoryTree
  import opened Batching
  import opened BulkDeletion
  import opened FileSystemSpec

  class FileSystem {
    const accessKey: string
    const secretKey: string
    const bucketName: string
    const downloadDomain: string
    const useHTTPs: bool
    /** None in a file system created after the prefix was rejected. */
    const objectNamePrefix: Option<Path>
    var rootNode: Tree
    /** The error `initNodes` caught, or the one the prefix was rejected
        with. */
    var ioException: Option<IOError>

    predicate Valid()
      reads this
    {
      rootNode.Dir?
    }

    /** The constructor that lists the objects under the prefix and mirrors
        them; `listing[j]` is the service's answer to the j-th listing
        call. */
    constructor (accessKey: string, secretKey: string, bucketName: string,
                 objectNamePrefix: Path, downloadDomain: string, useHTTPs: bool,
                 listing: seq<ListResponse>)
      requires ListingEnds(listing)
      ensures Valid()
      ensures this.accessKey == accessKey && this.secretKey == secretKey
      ensures this.bucketName == bucketName && this.downloadDomain == downloadDomain
      ensures this.useHTTPs == useHTTPs && this.objectNamePrefix == Some(objectNamePrefix)
      ensures var r := Populate(EmptyDir, objectNamePrefix, listing, 0).0;
        rootNode == r.tree && ioException == (if r.result.Err? then Some(r.result.error) else None)
    {
      this.accessKey := accessKey;
      this.secretKey := secretKey;
      this.bucketName := bucketName;
      this.objectNamePrefix := Some(objectNamePrefix);
      this.downloadDomain := downloadDomain;
      this.useHTTPs := useHTTPs;
      this.rootNode := EmptyDir;
      this.ioException := None;
      new;
      var _ := InitNodes(listing);
    }

    /** The field assignments of the listing constructor, before it calls
        `initNodes`: an empty root and no error yet. */
    constructor Unpopulated(accessKey: string, secretKey: string, bucketName: string,
                            objectNamePrefix: Path, downloadDomain: string, useHTTPs: bool)
      ensures Valid()
      ensures this.accessKey == accessKey && this.secretKey == secretKey
      ensures this.bucketName == bucketName && this.downloadDomain == downloadDomain
      ensures this.useHTTPs == useHTTPs && this.objectNamePrefix == Some(objectNamePrefix)
      ensures rootNode == EmptyDir && ioException == None
    {
      this.accessKey := accessKey;
      this.secretKey := secretKey;
      this.bucketName := bucketName;
      this.objectNamePrefix := Some(objectNamePrefix);
      this.downloadDomain := downloadDomain;
      this.useHTTPs := useHTTPs;
      this.rootNode := EmptyDir;
      this.ioException := None;
    }

    /** The constructor for a file system whose prefix was rejected: empty,
        and holding the error. */
    constructor Failed(accessKey: string, secretKey: string, bucketName: string,
                       downloadDomain: string, useHTTPs: bool, ioException: IOError)
      ensures Valid()
      ensures this.accessKey == accessKey && this.secretKey == secretKey
      ensures this.bucketName == bucketName && this.downloadDomain == downloadDomain
      ensures this.useHTTPs == useHTTPs && this.objectNamePrefix == None
      ensures rootNode == EmptyDir && this.ioException == Some(ioException)
    {
      this.accessKey := accessKey;
      this.secretKey := secretKey;
      this.bucketName := bucketName;
      this.objectNamePrefix := None;
      this.downloadDomain := downloadDomain;
      this.useHTTPs := useHTTPs;
      this.rootNode := EmptyDir;
      this.ioException := Some(ioException);
    }

    /** `initNodes`: list the prefix page by page and file every object
        under its key relative to the prefix; the first error ends the
        listing and is kept in `ioException`. Returns the listing calls
        made. */
    method InitNodes(listing: seq<ListResponse>) returns (requests: seq<ListRequest>)
      requires Valid() && objectNamePrefix.Some? && ListingEnds(listing)
      modifies this
      ensures Valid()
      ensures var r := Populate(old(rootNode), objectNamePrefix.value, listing, 0);
        rootNode == r.0.tree
        && ioException == (if r.0.result.Err? then Some(r.0.result.error) else old(ioException))
        && requests == ListRequests(bucketName, ListingPrefix(objectNamePrefix), None, listing, r.1)
    {
      var base := objectNamePrefix.value;
      var prefix := Join(base);
      if !EndsWithSep(prefix) {
        prefix := prefix + [Sep];
      }
      assert prefix == ListingPrefix(objectNamePrefix);
      ghost var goal := Populate(rootNode, base, listing, 0);
      ghost var L := LastPage(listing);
      var marker: Option<string> := None;
      requests := [];
      var j := 0;
      while true
        invariant Valid() && ioException == old(ioException)
        invariant 0 <= j <= L
        invariant marker == MarkerBefore(listing, j)
        invariant requests == ListRequests(bucketName, prefix, None, listing, j)
        invariant goal.0 == Populate(rootNode, base, listing, j).0
        invariant goal.1 == Populate(rootNode, base, listing, j).1 + j
        decreases L - j
      {
        ListRequestsSnoc(bucketName, prefix, None, listing, j);
        var request := ListRequest(bucketName, prefix, marker, PageSize, None);
        requests := requests + [request];
        var response := listing[j];
        if response.ListFailed? {
          ioException := Some(QiniuError(response.message));
          assert Populate(rootNode, base, listing, j) == (Outcome(rootNode, Err(QiniuError(response.message))), 1);
          return;
        }
        ghost var pageStart := rootNode;
        var filed := FilePage(base, response.items);
        if filed.Err? {
          ioException := Some(filed.error);
          PopulateStep(pageStart, base, listing, j);
          assert Populate(pageStart, base, listing, j) == (Outcome(rootNode, Err(filed.error)), 1);
          return;
        }
        assert filed == Ok(()) by {
          assert filed.value == ();
        }
        marker := response.marker;
        if MarkerEnds(marker) {
          PopulateStep(pageStart, base, listing, j);
          assert Populate(pageStart, base, listing, j) == (Outcome(rootNode, Ok(())), 1);
          return;
        }
        PopulateAdvance(goal, pageStart, rootNode, base, listing, j, L);
        assert marker == MarkerBefore(listing, j + 1);
        j := j + 1;
      }
    }

    /** The inner loop of `initNodes` over one page: file every object
        under its key relative to `base`, stopping at the first key that is
        not a path or cannot be filed. */
    method FilePage(base: Path, items: seq<FileInfo>) returns (r: Result<(), IOError>)
      requires Valid()
      modifies this
      ensures Valid() && ioException == old(ioException)
      ensures Outcome(rootNode, r) == Replay(old(rootNode), base, items)
    {
      ghost var pageStart := rootNode;
      var i := 0;
      while i < |items|
        invariant Valid() && ioException == old(ioException)
        invariant 0 <= i <= |items|
        invariant Replay(pageStart, base, items) == Replay(rootNode, base, items[i..])
      {
        assert items[i..][0] == items[i] && items[i..][1..] == items[i + 1..];
        ghost var before := rootNode;
        var key := ToPath(items[i].key);
        if key.Err? {
          return Err(key.error);
        }
        var created := CreateFileNodeByPath(Relativize(base, key.value), items[i]);
        if created.Err? {
          return Err(created.error);
        }
        assert Replay(before, base, items[i..]) == Replay(rootNode, base, items[i + 1..]);
        i := i + 1;
      }
      assert items[i..] == [];
      return Ok(());
    }

    /** `getNodeByPath`: walk the names from the root, entering directories
        and, as asked, creating the missing ones. */
    method GetNodeByPath(path: Path, createDirectory: bool, createNodeAsDirectory: bool)
      returns (r: Result<Option<Tree>, IOError>)
      requires Valid()
      modifies this
      ensures Valid() && ioException == old(ioException)
      ensures Outcome(rootNode, r) == GetNode(old(rootNode), path, createDirectory, createNodeAsDirectory)
    {
      ghost var t := rootNode;
      var i := 0;
      while i < |path|
        invariant Valid() && ioException == old(ioException)
        invariant i < |path| || path == []
        invariant WalkGoesOn(t, path, createDirectory, i)
        invariant rootNode == WalkTree(t, path, i)
        decreases |path| - i
      {
        WalkCurrent(t, path, createDirectory, i);
        var current := Lookup(rootNode, path[..i]).value;
        var next := GetByName(current, path[i]);
        if i < |path| - 1 {
          WalkInner(t, path, createDirectory, i);
          if next.Some? && next.value.Dir? {
          } else if createDirectory && next.None? {
            rootNode := Put(rootNode, path[..i + 1], EmptyDir);
          } else {
            NotDirectoryOutcome(t, path, i, createDirectory, createNodeAsDirectory);
            return Err(NotDirectoryError(path, i));
          }
        } else {
          WalkLast(t, path, createDirectory, createNodeAsDirectory);
          if createNodeAsDirectory && next.None? {
            rootNode := Put(rootNode, path, EmptyDir);
            return Ok(Some(EmptyDir));
          } else {
            return Ok(next);
          }
        }
        i := i + 1;
      }
      return Ok(Some(rootNode));
    }

    /** `getFileNodeByPath`: the metadata of the file node at the path. */
    method GetFileNodeByPath(path: Path, createDirectory: bool) returns (r: Result<FileInfo, IOError>)
      requires Valid()
      modifies this
      ensures Valid() && ioException == old(ioException)
      ensures Outcome(rootNode, r) == GetFileNode(old(rootNode), path, createDirectory)
    {
      var node := GetNodeByPath(path, createDirectory, false);
      if node.Err? {
        return Err(node.error);
      }
      if node.value.Some? && node.value.value.File? {
        return Ok(node.value.value.metadata);
      }
      return Err(InvalidPathError(
        "Path " + Join(path) + " is invalid, file " + FileNameText(path) + " is not a file"));
    }

    /** `getDirectoryNodeByPath`: the directory node at the path. */
    method GetDirectoryNodeByPath(path: Path, createDirectory: bool) returns (r: Result<Tree, IOError>)
      requires Valid()
      modifies this
      ensures Valid() && ioException == old(ioException)
      ensures Outcome(rootNode, r) == GetDirectoryNode(old(rootNode), path, createDirectory)
    {
      var node := GetNodeByPath(path, createDirectory, createDirectory);
      if node.Err? {
        return Err(node.error);
      }
      if node.value.Some? && node.value.value.Dir? {
        return Ok(node.value.value);
      }
      return Err(InvalidPathError(
        "Path " + Join(path) + " is invalid, file " + FileNameText(path) + " is not a directory"));
    }

    /** `getParentNodeByPath`: the directory holding the last name. */
    method GetParentNodeByPath(path: Path, createDirectory: bool) returns (r: Result<Tree, IOError>)
      requires Valid()
      modifies this
      ensures Valid() && ioException == old(ioException)
      ensures Outcome(rootNode, r) == GetParentNode(old(rootNode), path, createDirectory)
    {
      var parentPath := Parent(path);
      if parentPath.Some? {
        r := GetDirectoryNodeByPath(parentPath.value, createDirectory);
      } else {
        r := Ok(rootNode);
      }
    }

    /** `createFileNodeByPath`: file the metadata under the path. */
    method CreateFileNodeByPath(path: Path, metadata: FileInfo) returns (r: Result<(), IOError>)
      requires Valid()
      modifies this
      ensures Valid() && ioException == old(ioException)
      ensures Outcome(rootNode, r) == CreateFileNode(old(rootNode), path, metadata)
    {
      var childPath := FileName(path);
      if childPath.Some? {
        var parentNode := GetParentNodeByPath(path, true);
        if parentNode.Err? {
          return Err(parentNode.error);
        }
        rootNode := Put(rootNode, path, File(metadata));
        return Ok(());
      } else {
        return Err(InvalidPathError("path must not be empty"));
      }
    }

    /** `deleteFileNodeByPath`: remove the file node at the path, then every
        directory the removal left empty, up to but not including the
        root. */
    method DeleteFileNodeByPath(path: Path) returns (r: Result<(), IOError>)
      requires Valid()
      modifies this
      ensures Valid() && ioException == old(ioException)
      ensures Outcome(rootNode, r) == DeleteFileNode(old(rootNode), path)
    {
      ghost var t := rootNode;
      var parentNode := GetParentNodeByPath(path, false);
      DeleteParent(t, path);
      if parentNode.Err? {
        return Err(parentNode.error);
      }
      var childPath := FileName(path);
      if childPath.None? {
        return Err(InvalidPathError("path must not be empty"));
      }
      var n := |path|;
      var subNode := GetByName(parentNode.value, childPath.value);
      if !(subNode.Some? && subNode.value.File?) {
        return Err(DeleteDirectoryError("Path " + Join(path) + " is not a file"));
      }
      FoundFile(t, path);
      DeleteFileNodeCases(t, path);
      RemoveFileNode(path);
      return Ok(());
    }

    /** The success branch of `deleteFileNodeByPath`: remove the file at the
        path, then walk up while the parent is empty, removing it from its
        own parent, and stop below the root. */
    method RemoveFileNode(path: Path)
      requires Valid() && path != [] && IsFileAt(rootNode, path)
      modifies this
      ensures Valid() && ioException == old(ioException)
      ensures rootNode == Remove(old(rootNode), path[..PruneDepth(old(rootNode), path, |path|)])
    {
      ghost var t := rootNode;
      var n := |path|;
      rootNode := Remove(rootNode, path);
      // the parent node of the loop is the directory at path[..m]
      var m := n - 1;
      assert path[..m + 1] == path;
      PruneStep(t, path, m);
      var parent := Lookup(rootNode, path[..m]).value;
      while IsEmpty(parent)
        invariant Valid() && ioException == old(ioException)
        invariant 0 <= m < n
        invariant Lookup(t, path[..m + 1]).Some?
        invariant rootNode == Remove(t, path[..m + 1])
        invariant PruneDepth(t, path, n) == PruneDepth(t, path, m + 1)
        invariant Lookup(rootNode, path[..m]) == Some(parent) && parent.Dir?
        invariant IsEmpty(parent) <==> OnlyChild(t, path[..m], path[m])
        decreases m
      {
        if m == 0 {
          return;
        }
        PruneNext(t, path, m);
        rootNode := Remove(rootNode, path[..m]);
        m := m - 1;
        parent := Lookup(rootNode, path[..m]).value;
      }
    }

    /** `deleteAll`: delete every object under the prefix in batches of 1000
        (`replies(i)` answers the i-th batch call), then empty the tree.
        The objects are listed under the prefix closed by a separator (the
        bare separator when there is no prefix), without a delimiter, page
        after page. Returns the listing requests and the batches submitted. */
    method DeleteAll(listing: seq<ListResponse>, replies: nat -> BatchReply)
      returns (requests: seq<ListRequest>, sent: seq<seq<BatchOp>>, r: Result<(), IOError>)
      requires Valid() && ListingEnds(listing)
      modifies this
      ensures Valid() && ioException == old(ioException)
      ensures BatchRun(sent, r) == DeleteAllRun(bucketName, listing, replies)
      ensures rootNode == if r.Ok? then EmptyDir else old(rootNode)
      ensures 1 <= |requests| <= LastPage(listing) + 1
      ensures requests == ListRequests(bucketName, ListingPrefix(objectNamePrefix), None, listing, |requests|)
      ensures r.Ok? ==> |requests| == LastPage(listing) + 1
    {
      var prefix: string := "";
      if objectNamePrefix.Some? {
        prefix := Join(objectNamePrefix.value);
      }
      if !EndsWithSep(prefix) {
        prefix := prefix + [Sep];
      }
      assert prefix == ListingPrefix(objectNamePrefix);
      requests, sent, r := DeleteListed(prefix, listing, replies);
      if r.Ok? {
        rootNode := EmptyDir;
      }
    }

    /** The loops of `deleteAll` over the listing of `prefix`: every listed
        key joins the pending batch, which goes out at 1000 keys; the
        remainder goes out after the last page. Stops at a listing failure
        or at the first batch call that throws. */
    method DeleteListed(prefix: string, listing: seq<ListResponse>, replies: nat -> BatchReply)
      returns (requests: seq<ListRequest>, sent: seq<seq<BatchOp>>, r: Result<(), IOError>)
      requires ListingEnds(listing)
      ensures BatchRun(sent, r) == DeleteAllRun(bucketName, listing, replies)
      ensures 1 <= |requests| <= LastPage(listing) + 1
      ensures requests == ListRequests(bucketName, prefix, None, listing, |requests|)
      ensures r.Ok? ==> |requests| == LastPage(listing) + 1
    {
      ghost var L := LastPage(listing);
      var marker: Option<string> := None;
      var batch: seq<BatchOp> := [];
      requests, sent := [], [];
      var j := 0;
      while true
        invariant 0 <= j <= L
        invariant marker == MarkerBefore(listing, j)
        invariant requests == ListRequests(bucketName, prefix, None, listing, j)
        invariant sent == FullChunks(DeleteOps(bucketName, Keys(PageItems(listing[..j]))))
        invariant batch == Remainder(DeleteOps(bucketName, Keys(PageItems(listing[..j]))))
        invariant forall c :: 0 <= c < |sent| ==> !replies(c).BatchThrew?
        decreases L - j
      {
        ListRequestsSnoc(bucketName, prefix, None, listing, j);
        requests := requests + [ListRequest(bucketName, prefix, marker, PageSize, None)];
        var response := listing[j];
        if response.ListFailed? {
          FinalIsLast(listing, j);
          assert forall c :: 0 <= c < |sent| ==> ThrowVerdict(replies)(c, sent[c]).Ok?;
          ListingDeletionListFails(bucketName, listing, QiniuError(response.message), ThrowVerdict(replies), j, sent);
          // the remainder is never submitted
          return requests, sent, Err(QiniuError(response.message));
        }
        var failure;
        ghost var n;
        sent, batch, failure, n := SubmitPage(response.items, replies, PageItems(listing[..j]), sent, batch);
        if failure.Some? {
          assert forall c :: 0 <= c < |sent| - 1 ==> ThrowVerdict(replies)(c, sent[c]).Ok?;
          ListingDeletionBatchFails(bucketName, listing, ListError(listing), ThrowVerdict(replies), j, n, sent);
          return requests, sent, Err(QiniuError(failure.value));
        }
        assert response.items[..n] == response.items;
        marker := response.marker;
        if MarkerEnds(marker) {
          FinalIsLast(listing, j);
          assert forall c :: 0 <= c < |sent| ==> ThrowVerdict(replies)(c, sent[c]).Ok?;
          ListingDeletionFinishes(bucketName, listing, ThrowVerdict(replies), j, sent, batch);
          break;
        }
        assert j < L;
        PageItemsNext(listing, j);
        j := j + 1;
      }
      if |batch| > 0 {
        var reply := replies(|sent|);
        sent := sent + [batch];
        if reply.BatchThrew? {
          return requests, sent, Err(QiniuError(reply.message));
        }
      }
      return requests, sent, Ok(());
    }

    /** The inner loop of `deleteAll` over one page: each listed key joins
        the pending batch, which is submitted once it holds 1000 keys. `n`
        keys were visited when it stops; it stops early exactly when a
        batch call throws, with that call's message. */
    method SubmitPage(items: seq<FileInfo>, replies: nat -> BatchReply, ghost before: seq<FileInfo>,
                      sent0: seq<seq<BatchOp>>, batch0: seq<BatchOp>)
      returns (sent: seq<seq<BatchOp>>, batch: seq<BatchOp>, failure: Option<string>, ghost n: nat)
      requires sent0 == FullChunks(DeleteOps(bucketName, Keys(before)))
      requires batch0 == Remainder(DeleteOps(bucketName, Keys(before)))
      requires forall c :: 0 <= c < |sent0| ==> !replies(c).BatchThrew?
      ensures n <= |items|
      ensures sent == FullChunks(DeleteOps(bucketName, Keys(before + items[..n])))
      ensures failure.None? ==>
        n == |items| && batch == Remainder(DeleteOps(bucketName, Keys(before + items[..n])))
        && forall c :: 0 <= c < |sent| ==> !replies(c).BatchThrew?
      ensures failure.Some? ==>
        var v := DeleteOps(bucketName, Keys(before + items[..n]));
        v != [] && |v| % BatchSize == 0 && sent != []
        && (forall c :: 0 <= c < |sent| - 1 ==> !replies(c).BatchThrew?)
        && replies(|sent| - 1).BatchThrew? && failure.value == replies(|sent| - 1).message
    {
      ghost var visited := DeleteOps(bucketName, Keys(before));
      sent, batch := sent0, batch0;
      var i := 0;
      while i < |items|
        invariant 0 <= i <= |items|
        invariant visited == DeleteOps(bucketName, Keys(before + items[..i]))
        invariant sent == FullChunks(visited) && batch == Remainder(visited)
        invariant forall c :: 0 <= c < |sent| ==> !replies(c).BatchThrew?
      {
        var op := DeleteOp(bucketName, items[i].key);
        Visit(visited, op);
        DeleteOpsStep(bucketName, before, items, i);
        visited := visited + [op];
        batch := batch + [op];
        if |batch| >= BatchSize {
          var reply := replies(|sent|);
          sent := sent + [batch];
          if reply.BatchThrew? {
            return sent, batch, Some(reply.message), i + 1;
          }
          batch := [];
        }
        i := i + 1;
      }
      assert items[..i] == items;
      return sent, batch, None, i;
    }

    /** `mayThrowIOException`: rethrow the error the file system was created
        with, if any. */
    method MayThrowIOException() returns (r: Result<(), IOError>)
      ensures r.Err? <==> ioException.Some?
      ensures r.Err? ==> r.error == ioException.value
    {
      if ioException.Some? {
        return Err(ioException.value);
      }
      return Ok(());
    }
  }

  /** `create`: a file system over the objects under the prefix, or, when
      the prefix is not a valid path, an empty one holding the error.
      Returns the listing calls made, none for a rejected prefix. */
  method Create(accessKey: string, secretKey: string, bucketName: string,
                objectNamePrefix: string, downloadDomain: string, useHTTPs: bool,
                listing: seq<ListResponse>)
    returns (fs: FileSystem, requests: seq<ListRequest>)
    requires ListingEnds(listing)
    ensures fresh(fs) && fs.Valid()
    ensures fs.bucketName == bucketName
    ensures match ToPath(objectNamePrefix)
      case Ok(p) =>
        var r := Populate(EmptyDir, p, listing, 0);
        fs.objectNamePrefix == Some(p) && fs.rootNode == r.0.tree
        && fs.ioException == (if r.0.result.Err? then Some(r.0.result.error) else None)
        && requests == ListRequests(bucketName, ListingPrefix(Some(p)), None, listing, r.1)
      case Err(e) =>
        fs.objectNamePrefix == None && fs.rootNode == EmptyDir && fs.ioException == Some(e)
        && requests == []
  {
    var prefix := ToPath(objectNamePrefix);
    if prefix.Ok? {
      // The listing constructor's steps, taken one by one so that the
      // listing calls of `initNodes` are returned.
      fs := new FileSystem.Unpopulated(accessKey, secretKey, bucketName, prefix.value, downloadDomain, useHTTPs);
      requests := fs.InitNodes(listing);
    } else {
      fs := new FileSystem.Failed(accessKey, secretKey, bucketName, downloadDomain, useHTTPs, prefix.error);
      requests := [];
    }
  }
}
