# Qiniu artifact storage for Jenkins, modelled in Dafny

This project models the core of the Jenkins Qiniu plugin. The plugin stores build artifacts in a Qiniu
object-storage bucket. A bucket is flat: it holds keys such as `job/42/dist/app.jar`. The plugin
lays a directory view over those keys, deletes objects in batches of at most 1000, names the
objects of each build under a per-build prefix, and uploads a build's files one after the other.

The model has one module per source file, plus a few shared modules:

- `Common`, `Settings`: the separator `/`, the `Option`/`Result` wrappers, the I/O error kinds
  and the plugin configuration record.
- `Paths`: `java.nio.file.Path` as a sequence of names. `toPath` follows Java's
  `String.split`, which drops trailing empty fields. The empty path is the single empty name.
- `Remote`: the storage service as an oracle.
  - A listing is the finite sequence of responses the service gives to successive calls:
    a page of items and a marker, or a failure.
  - Batch, stat and upload calls take their reply from a function of the call's index.
  - Most methods return the trace of the requests they make (list requests, stat requests,
    submitted batches, uploads and calls) as an ordinary out-parameter. The one exception is
    listed under "Left out".
- `DirectoryTree`, `FileSystemSpec`, `QiniuFileSystem`: the directory tree of
  `QiniuFileSystem.java`.
  - The tree is a value, `Tree = Dir(children) | File(metadata)`, held in the `rootNode` field of
    the class `FileSystem`. Its methods update that field in place.
  - Each method is proved equal to a specification function of the old tree: `GetNode`,
    `CreateFileNode`, `DeleteFileNode`, `Populate`, `DeleteAllRun`.
  - The lemmas about those functions state, path by path, what changes and what stays.
- `Batching`, `BulkDeletion`, `QiniuUtils`: the paginated listing loop, cutting deletes into
  batches of 1000, fail-fast batch submission and the per-item status check (200 and 612 pass).
- `QiniuVirtualFile`: the key-string virtual file of `QiniuFile.java`.
- `ArtifactManager`: the per-build prefix, the marker object, and the archive, delete and root
  decisions of `QiniuArtifactManager.java`.
- `Uploader`: the token, the sequential upload loop, the region rule and the process-wide
  host reset of `QiniuUploader.java`.
- `PathSerialization`: the count-then-segments path encoding of `SerializeUtils.java`, proved
  to round-trip.

Some behaviour of the code worth stating plainly:

- `QiniuUploader.invoke` does not delete earlier objects under the prefix before uploading.
- `deleteFileNodeByPath` reports a target that is not a file as `DeleteDirectoryError`, and a
  missing parent as `InvalidPathError`. The empty path `""` names the root's child called `""`,
  so it too gets `DeleteDirectoryError` unless such a file exists. Only a path with no names
  would get "path must not be empty", and no key gives such a path.
- `QiniuFileSystem.deleteAll` does not look at the per-item status codes of its batches. Only a
  batch call that throws stops it. `QiniuUtils.deletePrefix` does check them.
- `QiniuFile` lists, stats and deletes against the service directly. It does not read the
  cached tree.

## Model

| member | source | states |
|---|---|---|
| Common.WithTrailingSep | src/main/java/io/jenkins/plugins/QiniuFileSystem.java:65-68 | The listing prefix ends with the separator and starts with the given string. It equals the given string exactly when that string already ended with a separator; otherwise exactly one character is added. |
| Paths.ToPath | src/main/java/io/jenkins/plugins/QiniuFileSystem.java:362-372 | Parsing a key fails with `InvalidPathError` exactly when splitting it yields no segments, that is when it is a non-empty run of separators. Otherwise the result is a well-formed path. |
| Paths.SplitEmptyIff | src/main/java/io/jenkins/plugins/QiniuFileSystem.java:363-366 | Java's split on the separator returns no segment exactly for a non-empty string made only of separators. |
| Paths.ToPathOfJoin | src/main/java/io/jenkins/plugins/QiniuFileSystem.java:362-372 | Parsing the string form of a well-formed path gives the same path back. |
| Paths.PathsGetOfSegments | src/main/java/io/jenkins/plugins/QiniuFileSystem.java:367-370 | Building a path from split segments keeps exactly the non-empty segments, in order. It gives the empty path when none is left. |
| Paths.Parent | src/main/java/io/jenkins/plugins/QiniuFileSystem.java:140-145 | A path has a parent exactly when it has two or more names. The parent extended by the last name is the path again. |
| Paths.FileName | src/main/java/io/jenkins/plugins/QiniuFileSystem.java:162-165 | Only the empty name sequence has no file name. Otherwise the file name is the last name. |
| Paths.RelativizePrefix | src/main/java/io/jenkins/plugins/QiniuFileSystem.java:76 | Relativizing a key's path against the prefix it lies under drops exactly the prefix's names. |
| DirectoryTree.GetByName | src/main/java/io/jenkins/plugins/QiniuFileSystem.java:298-301 | A lookup finds a child exactly when the name is present, and returns the child stored under it. |
| DirectoryTree.AddChild | src/main/java/io/jenkins/plugins/QiniuFileSystem.java:280-292 | After adding, the name holds the new child, replacing any earlier one. Every other name is unchanged. |
| DirectoryTree.RemoveChild | src/main/java/io/jenkins/plugins/QiniuFileSystem.java:294-296 | After removal the name is absent. Every other name is unchanged. |
| DirectoryTree.IsEmpty | src/main/java/io/jenkins/plugins/QiniuFileSystem.java:303-305 | True exactly when no name finds a child. |
| DirectoryTree.ChildrenNodes | src/main/java/io/jenkins/plugins/QiniuFileSystem.java:307-310 | A node is among the children exactly when some name leads to it. |
| DirectoryTree.ChildrenCount | src/main/java/io/jenkins/plugins/QiniuFileSystem.java:312-315 | The count is the number of names. It is zero exactly when the directory is empty. |
| DirectoryTree.RemoveChildEmpty | src/main/java/io/jenkins/plugins/QiniuFileSystem.java:169-170 | Removing a child leaves its directory empty exactly when that child was the only one. This is the condition the prune loop tests. |
| DirectoryTree.GetPathStep | src/main/java/io/jenkins/plugins/QiniuFileSystem.java:262-269 | The root's path is the empty name. A child's path is its parent's path extended by the child's own name. |
| DirectoryTree.GetPathOfName | src/main/java/io/jenkins/plugins/QiniuFileSystem.java:262-269 | A node directly below the root has the one-name path of its own name. |
| DirectoryTree.GetPathOfRef | src/main/java/io/jenkins/plugins/QiniuFileSystem.java:262-269 | Every well-formed path is the computed path of the node reached by following its names from the root. |
| FileSystemSpec.GetNodeFails | src/main/java/io/jenkins/plugins/QiniuFileSystem.java:97-108 | The walk fails exactly when some proper prefix of the path is a file, or is absent while `createDirectory` is off. A failed walk has changed nothing. |
| FileSystemSpec.GetNodeFound | src/main/java/io/jenkins/plugins/QiniuFileSystem.java:109-115 | A successful walk returns the node now at the path, or nothing when it is absent. With `createNodeAsDirectory`, an absent last name becomes a new empty directory and that directory is returned. |
| FileSystemSpec.GetNodeChanges | src/main/java/io/jenkins/plugins/QiniuFileSystem.java:95-116 | The only change a walk makes is new directories where nothing was, along the path. Inner ones appear only with `createDirectory`, the last one only with `createNodeAsDirectory`. Existing nodes are reused, never replaced. |
| FileSystemSpec.GetFileNodeSpec | src/main/java/io/jenkins/plugins/QiniuFileSystem.java:119-126 | The lookup succeeds exactly when a file sits at the path, and returns that file's metadata. A successful lookup, or any lookup without `createDirectory`, leaves the tree unchanged. Any other change is a new inner directory. |
| FileSystemSpec.GetDirectoryNodeSpec | src/main/java/io/jenkins/plugins/QiniuFileSystem.java:129-136 | Without creation, the lookup succeeds exactly when a directory is at the path, and the tree is untouched. With creation, it succeeds exactly when no prefix of the path, the path included, is a file. Only missing directories along the path are added. |
| FileSystemSpec.DeleteParent | src/main/java/io/jenkins/plugins/QiniuFileSystem.java:139-146 | Resolving the parent without creation never changes the tree. It succeeds exactly when the parent directory exists, which is always the case for the root of a one-name path. |
| FileSystemSpec.CreateFileNodeSpec | src/main/java/io/jenkins/plugins/QiniuFileSystem.java:148-157 | Insertion succeeds exactly when the path is non-empty and no proper prefix is a file. On success, the missing ancestors become directories and the path holds a file with the given metadata, replacing whatever was there. Everything else is unchanged. On failure nothing changes. |
| FileSystemSpec.DeleteFileNodeSpec | src/main/java/io/jenkins/plugins/QiniuFileSystem.java:159-181 | Deletion succeeds exactly when a file is at the path. On failure the tree is unchanged, and the error is `DeleteDirectoryError` exactly when the parent exists. On success, exactly the subtree under the highest ancestor left empty disappears. |
| FileSystemSpec.DeleteEmptyPath | src/main/java/io/jenkins/plugins/QiniuFileSystem.java:159-181 | Deleting the empty path `""` succeeds exactly when the root holds a file named `""`. Otherwise the tree is unchanged and the error is `DeleteDirectoryError`. |
| FileSystemSpec.DeleteFileNodeCases | src/main/java/io/jenkins/plugins/QiniuFileSystem.java:159-181 | A successful deletion removes the subtree at prune depth, and nothing else. |
| FileSystemSpec.PruneDepthSpec | src/main/java/io/jenkins/plugins/QiniuFileSystem.java:170-177 | The removed ancestors are exactly the run of only-children above the file. The run stops below the first ancestor that has another child, and never includes the root. |
| FileSystemSpec.DeleteLeavesNoEmptyAncestor | src/main/java/io/jenkins/plugins/QiniuFileSystem.java:168-177 | After a deletion, every surviving ancestor of the deleted file still has at least one child. |
| FileSystemSpec.ListingPrefix | src/main/java/io/jenkins/plugins/QiniuFileSystem.java:189-196 | The prefix used by `deleteAll` always ends with the separator. A filesystem without a prefix lists under the bare separator. Otherwise the prefix starts with the joined object-name prefix and is at most one character longer. |
| FileSystemSpec.ReplayAppend | src/main/java/io/jenkins/plugins/QiniuFileSystem.java:74-81 | Filing the items of two pages in turn is the same as filing them all in order, stopping at the first key that cannot be filed. |
| FileSystemSpec.PopulateAsReplay | src/main/java/io/jenkins/plugins/QiniuFileSystem.java:61-92 | The populated tree is the tree after filing, in order, every item of every page up to the last one or up to the failed call. |
| FileSystemSpec.PopulateCalls | src/main/java/io/jenkins/plugins/QiniuFileSystem.java:70-86 | A successful population requests exactly the pages up to the first one whose marker is null or empty. |
| QiniuFileSystem.FileSystem.constructor | src/main/java/io/jenkins/plugins/QiniuFileSystem.java:28-38 | The fields are set from the arguments. The root is the tree populated from the listing. A listing or key error is stored in `ioException` rather than thrown. |
| QiniuFileSystem.FileSystem.Unpopulated | src/main/java/io/jenkins/plugins/QiniuFileSystem.java:28-36 | The listing constructor's field assignments before `initNodes`: the fields are the arguments, the root is empty and no error is stored. |
| QiniuFileSystem.FileSystem.Failed | src/main/java/io/jenkins/plugins/QiniuFileSystem.java:40-50 | The fallback instance has no prefix, an empty root and the given error stored. |
| QiniuFileSystem.FileSystem.InitNodes | src/main/java/io/jenkins/plugins/QiniuFileSystem.java:61-92 | The new root equals `Populate` of the old root. A failure is stored in `ioException`. The requests are the pages of 1000 under the separator-terminated prefix, each with the previous page's marker. |
| QiniuFileSystem.FileSystem.FilePage | src/main/java/io/jenkins/plugins/QiniuFileSystem.java:74-81 | Filing one page's items leaves the tree that `Replay` gives, and returns the first key error. |
| QiniuFileSystem.FileSystem.GetNodeByPath | src/main/java/io/jenkins/plugins/QiniuFileSystem.java:95-116 | The result and the new tree are those of `GetNode` on the old tree. The stored error is unchanged. |
| FileSystemSpec.NotDirectoryOutcome | src/main/java/io/jenkins/plugins/QiniuFileSystem.java:99-108 | When the walk stops at a non-final name that is a file, or is missing without `createDirectory`, `GetNode` throws `NotDirectoryError` for that name and leaves the tree unchanged. |
| QiniuFileSystem.FileSystem.GetFileNodeByPath | src/main/java/io/jenkins/plugins/QiniuFileSystem.java:119-126 | The result and the new tree are those of `GetFileNode` on the old tree. |
| QiniuFileSystem.FileSystem.GetDirectoryNodeByPath | src/main/java/io/jenkins/plugins/QiniuFileSystem.java:129-136 | The result and the new tree are those of `GetDirectoryNode` on the old tree. |
| QiniuFileSystem.FileSystem.GetParentNodeByPath | src/main/java/io/jenkins/plugins/QiniuFileSystem.java:139-146 | The result and the new tree are those of `GetParentNode` on the old tree. |
| QiniuFileSystem.FileSystem.CreateFileNodeByPath | src/main/java/io/jenkins/plugins/QiniuFileSystem.java:148-157 | The result and the new tree are those of `CreateFileNode` on the old tree. |
| QiniuFileSystem.FileSystem.DeleteFileNodeByPath | src/main/java/io/jenkins/plugins/QiniuFileSystem.java:159-181 | The result and the new tree after the in-place prune loop are those of `DeleteFileNode` on the old tree. |
| QiniuFileSystem.FileSystem.RemoveFileNode | src/main/java/io/jenkins/plugins/QiniuFileSystem.java:168-177 | Removing a file and then every parent left empty, stopping below the root, removes from the old tree exactly the subtree at the path's first `PruneDepth` names. |
| QiniuFileSystem.FileSystem.DeleteAll | src/main/java/io/jenkins/plugins/QiniuFileSystem.java:183-220 | The batches sent and the outcome are `DeleteAllRun`: ops cut into batches of 1000, the remainder sent last, stopping at the first batch call that throws or at a listing failure. The root's children are cleared only when every call has returned. The list requests are those of `ListRequests` under `ListingPrefix`, one per page read, every page when it succeeds. |
| QiniuFileSystem.FileSystem.DeleteListed | src/main/java/io/jenkins/plugins/QiniuFileSystem.java:198-217 | The listing loop of `deleteAll` on a given prefix: the batches sent and the outcome are `DeleteAllRun`, and the list requests are one per page read under that prefix, every page when it succeeds. |
| QiniuFileSystem.FileSystem.SubmitPage | src/main/java/io/jenkins/plugins/QiniuFileSystem.java:198-210 | After a page, the batches sent are the full batches of every op so far and the pending batch is the remainder. On a throwing batch call, the page stops right after the op that filled the batch. |
| QiniuFileSystem.FileSystem.MayThrowIOException | src/main/java/io/jenkins/plugins/QiniuFileSystem.java:222-226 | Raises an error exactly when one was stored, and raises that stored error. |
| QiniuFileSystem.Create | src/main/java/io/jenkins/plugins/QiniuFileSystem.java:52-59 | A valid prefix gives a populated instance. An invalid prefix gives the fallback instance carrying the parse error. The listing calls returned are those of `InitNodes` under `ListingPrefix`, one per page read, and none for an invalid prefix. |
| Remote.ListRequests | src/main/java/io/jenkins/plugins/QiniuUtils.java:25-38 | The j-th listing call carries the bucket, the prefix, page size 1000, the delimiter and the marker returned by the previous page (none for the first). |
| Remote.LastPage | src/main/java/io/jenkins/plugins/QiniuUtils.java:35-38 | Paging stops at the first response whose marker is null or empty, or whose call failed, and at no earlier one. |
| Batching.Visit | src/main/java/io/jenkins/plugins/QiniuUtils.java:53-61 | Appending one op flushes exactly when the pending batch reaches 1000. The flushed batch is the pending ops plus the new one, and the pending batch is then empty. |
| Batching.ChunksFlatten | src/main/java/io/jenkins/plugins/QiniuUtils.java:47-68 | The batches, concatenated, are exactly the listed delete ops, in order. |
| Batching.ChunksShape | src/main/java/io/jenkins/plugins/QiniuFileSystem.java:198-218 | n ops give ceil(n/1000) batches, each of 1 to 1000 ops and all but the last full. No batch is made when nothing was listed. |
| Batching.RunBatchesSpec | src/main/java/io/jenkins/plugins/QiniuUtils.java:53-67 | Submission sends a prefix of the batches. It succeeds exactly when every batch and the closing step pass. A failure is the verdict of the last batch sent; no later batch goes out. |
| Batching.BulkRunSpec | src/main/java/io/jenkins/plugins/QiniuUtils.java:47-68 | The batches sent are always a prefix of the batches of the ops. A successful run sent all the ops, in batches of 1 to 1000, and saw no listing failure. |
| Batching.BulkRunListFails | src/main/java/io/jenkins/plugins/QiniuUtils.java:26-39 | When the listing fails, the full batches already flushed have been sent and the listing error is the outcome. |
| Batching.BulkRunBatchFails | src/main/java/io/jenkins/plugins/QiniuUtils.java:57-61 | A batch that fails its check ends the run at that batch, with its error. |
| Batching.BulkRunLastBatch | src/main/java/io/jenkins/plugins/QiniuUtils.java:63-67 | Once every full batch has passed, a non-empty remainder is sent last and decides the outcome. With no remainder, the run succeeds without another call. |
| BulkDeletion.ListingDeletionListFails | src/main/java/io/jenkins/plugins/QiniuUtils.java:26-39 | A listing failure on page j ends the deletion. The batches sent are those filled by the keys of earlier pages. |
| BulkDeletion.ListingDeletionBatchFails | src/main/java/io/jenkins/plugins/QiniuUtils.java:53-62 | A failing batch in the middle of a page ends the deletion with that batch's error. |
| BulkDeletion.ListingDeletionFinishes | src/main/java/io/jenkins/plugins/QiniuUtils.java:63-67 | After the last page, the remainder is sent only when it is non-empty. |
| QiniuUtils.ListPrefix | src/main/java/io/jenkins/plugins/QiniuUtils.java:20-40 | The consumer receives every listed item exactly once, in page order. The requests use page size 1000, no delimiter and the chained markers. A failed call is the outcome. |
| QiniuUtils.FirstRejected | src/main/java/io/jenkins/plugins/QiniuUtils.java:76-80 | Gives the first status code other than 200 or 612. Every earlier one is 200 or 612. |
| QiniuUtils.CheckBatchSpec | src/main/java/io/jenkins/plugins/QiniuUtils.java:70-83 | The check passes exactly when there is no response or every code is 200 or 612. Otherwise it raises an error naming `keys[i]` and the server's text for the first rejected index i. Where the keys run out, the error is the list's index-out-of-bounds failure. |
| QiniuUtils.CheckBatchResponse | src/main/java/io/jenkins/plugins/QiniuUtils.java:70-83 | The index loop computes `CheckBatch`. |
| QiniuUtils.OpKeys | src/main/java/io/jenkins/plugins/QiniuUtils.java:53-55 | The keys list is index-aligned with the batch's ops. |
| QiniuUtils.SubmitBatch | src/main/java/io/jenkins/plugins/QiniuUtils.java:57-60 | Submitting one batch gives the thrown error of the batch call, or else the verdict of checking its response against its keys. |
| QiniuUtils.Accept | src/main/java/io/jenkins/plugins/QiniuUtils.java:53-62 | The callback appends the op and its key together. It flushes and clears both exactly at 1000, and reports the flushed batch's failure. |
| QiniuUtils.DeletePage | src/main/java/io/jenkins/plugins/QiniuUtils.java:30-34 | Feeding one page's items to the callback leaves the full batches and the index-aligned remainder. It stops at the item whose flush failed. |
| QiniuUtils.DeletePrefix | src/main/java/io/jenkins/plugins/QiniuUtils.java:47-68 | The batches sent and the outcome are `DeletePrefixRun`: fail-fast batches of 1000 over all listed keys, with the remainder last. The listing requests are chained and stop early only on failure. |
| QiniuVirtualFile.JavaDiv | src/main/java/io/jenkins/plugins/QiniuFile.java:266 | Java's `long` division truncates toward zero, for negative dividends as well. |
| QiniuVirtualFile.UrlPath | src/main/java/io/jenkins/plugins/QiniuFile.java:97-100 | The URL path always starts with `/`. It is the object name unchanged exactly when the name already starts with `/`, and otherwise adds one `/` in front. |
| QiniuVirtualFile.UrlPathIdempotent | src/main/java/io/jenkins/plugins/QiniuFile.java:97-100 | Normalising an already normalised path changes nothing. |
| QiniuVirtualFile.ExternalUrl | src/main/java/io/jenkins/plugins/QiniuFile.java:92-102 | The URL is the scheme (`https` exactly when `useHTTPs` is set), then the download domain, then the normalised object path. |
| QiniuVirtualFile.QiniuFile.Url | src/main/java/io/jenkins/plugins/QiniuFile.java:90-102 | The file's URL uses the `https` scheme exactly when the file was made with `useHTTPs`. |
| QiniuVirtualFile.WithoutSpec | src/main/java/io/jenkins/plugins/QiniuFile.java:150-161 | Filtering keeps exactly the entries different from the listing prefix. |
| QiniuVirtualFile.PageChildrenSpec | src/main/java/io/jenkins/plugins/QiniuFile.java:149-162 | One page contributes a name exactly when the page was listed, holds the name as an item key or a common prefix, and the name differs from the prefix. |
| QiniuVirtualFile.ChildrenSpec | src/main/java/io/jenkins/plugins/QiniuFile.java:147-167 | A name is listed exactly when some listed page holds it as an item key or a common prefix, and it differs from the prefix itself. |
| QiniuVirtualFile.QiniuFile.List | src/main/java/io/jenkins/plugins/QiniuFile.java:138-171 | The file lists under its name with a trailing separator added when missing, using `/` as delimiter and chained markers. The result is `Children` of the pages up to the one with an empty marker, or the failed call's error. |
| QiniuVirtualFile.RecursivePrefixMissesChildren | src/main/java/io/jenkins/plugins/QiniuFile.java:179-182 | For the directory key `a/` the recursive prefix is `a//`, which its child `a/b` does not start with. |
| QiniuVirtualFile.RecursivePrefix | src/main/java/io/jenkins/plugins/QiniuFile.java:143-146 | The corrected recursive prefix, built as `list` builds its own, ends with the separator, starts with the key, and is the key itself for a directory key. |
| QiniuVirtualFile.RecursivePrefixMatchesDirectory | src/main/java/io/jenkins/plugins/QiniuFile.java:143-146 | With the corrected prefix a key is listed exactly when it lies in the directory, for every object name, with or without its closing separator. |
| QiniuVirtualFile.RecursivePrefixAsWrittenMatches | src/main/java/io/jenkins/plugins/QiniuFile.java:179-182 | With the prefix as written, a directory key lists exactly the keys in its sub-directory with the empty name. Any other key lists every key it begins, siblings with longer names among them. |
| QiniuVirtualFile.QiniuFile.ListRecursively | src/main/java/io/jenkins/plugins/QiniuFile.java:174-198 | The listing prefix follows the code as written. There is no delimiter. The result is every key of every page, in order, or the failed call's error. |
| QiniuVirtualFile.RecursiveBatchesExtraCalls | src/main/java/io/jenkins/plugins/QiniuFile.java:210-222 | With n ≥ 1000 keys, the never-reset counter makes n − 1000 + 2 batch calls, the last of them empty; 1001 keys make three calls where two suffice. |
| QiniuVirtualFile.RecursiveBatchesSmall | src/main/java/io/jenkins/plugins/QiniuFile.java:210-222 | Fewer than 1000 keys go out in one batch, as with correct batching. |
| QiniuVirtualFile.QiniuFile.DeleteRecursively | src/main/java/io/jenkins/plugins/QiniuFile.java:200-225 | An empty listing gives false with no batch call. A listing failure is raised. Otherwise the calls follow the counter as written, stopping at the first call that throws, and the result is true without any look at the responses. The listing calls returned are one per page, under the prefix as written with no delimiter, so a directory key is listed under its doubled separator. |
| QiniuVirtualFile.RecursiveRunStops | src/main/java/io/jenkins/plugins/QiniuFile.java:211-219 | A batch call that throws inside the loop ends the deletion with its error. |
| QiniuVirtualFile.RecursiveRunCompletes | src/main/java/io/jenkins/plugins/QiniuFile.java:220-222 | After the loop, the trailing batch is always sent and decides the outcome. |
| QiniuVirtualFile.QiniuFile.FetchMetadata | src/main/java/io/jenkins/plugins/QiniuFile.java:261-268 | The store is contacted only for a file key that was not yet fetched: the stat calls returned are one stat of the bucket and key then, and none otherwise. On success the size and `putTime / 10000` are cached. A failure or a skipped call changes nothing. The cache stays valid: size and time are 0 until fetched. |
| QiniuVirtualFile.QiniuFile.Exists | src/main/java/io/jenkins/plugins/QiniuFile.java:126-134 | True for a directory key without any remote call and without any change. The stat calls returned are those of `FetchMetadata`. For a file key not yet fetched, true exactly when the stat call succeeds. The cache afterwards is the one `FetchMetadata` leaves. |
| QiniuVirtualFile.QiniuFile.Length | src/main/java/io/jenkins/plugins/QiniuFile.java:235-239 | Gives the cached size, or the size fetched now. The stat calls returned are those of `FetchMetadata`. It is 0 for a directory key, and fails only when a needed stat call throws. The cache afterwards is the one `FetchMetadata` leaves, so a second call gives the same size without a new stat. |
| QiniuVirtualFile.QiniuFile.LastModified | src/main/java/io/jenkins/plugins/QiniuFile.java:242-246 | Gives the cached time, or `putTime / 10000` fetched now. The stat calls returned are those of `FetchMetadata`. It is 0 for a directory key, and fails only when a needed stat call throws. The cache afterwards is the one `FetchMetadata` leaves. |
| QiniuVirtualFile.QiniuFile.constructor | src/main/java/io/jenkins/plugins/QiniuFile.java:29-37 | The fields are set from the arguments, and nothing is cached yet: the cache starts valid. |
| ArtifactManager.BuildPrefix | src/main/java/io/jenkins/plugins/QiniuArtifactManager.java:58-68 | The per-build prefix starts with the configured prefix and ends with the separator. A non-empty configured prefix is followed by a separator. The prefix ends with the run id followed by the separator. It is exactly the configured prefix closed by a separator (nothing when empty), then the job's full name, a separator, the id and a separator. |
| ArtifactManager.BuildPrefixIgnoresClosingSep | src/main/java/io/jenkins/plugins/QiniuArtifactManager.java:60-62 | A configured prefix with or without its closing separator gives the same per-build prefix. |
| ArtifactManager.BuildPrefixInjective | src/main/java/io/jenkins/plugins/QiniuArtifactManager.java:63-67 | Two runs of one job with different ids get different prefixes. |
| ArtifactManager.StripTrailingSeps | src/main/java/io/jenkins/plugins/QiniuArtifactManager.java:164-167 | The stripped name is a prefix of the input that does not end with the separator. Everything removed was separators. |
| ArtifactManager.GetMarkObjectName | src/main/java/io/jenkins/plugins/QiniuArtifactManager.java:163-169 | The strip loop computes `MarkName`. |
| ArtifactManager.MarkNameIsFile | src/main/java/io/jenkins/plugins/QiniuArtifactManager.java:163-169 | The marker name never ends with the separator, so it is a file key. |
| ArtifactManager.MarkNameIgnoresClosingSep | src/main/java/io/jenkins/plugins/QiniuArtifactManager.java:165-167 | `p` and `p + "/"` give the same marker name. |
| ArtifactManager.MarkNameOutsidePrefix | src/main/java/io/jenkins/plugins/QiniuArtifactManager.java:163-169 | The marker of a separator-terminated prefix does not lie under that prefix, so deleting the build's objects does not delete it. |
| ArtifactManager.BuildMarkName | src/main/java/io/jenkins/plugins/QiniuArtifactManager.java:163-169 | The marker of a build prefix is that prefix without its closing separator, followed by `.qiniu-artifact-archiver`. |
| ArtifactManager.MarkerToken | src/main/java/io/jenkins/plugins/QiniuArtifactManager.java:152-153 | The marker's upload token is for the bucket, valid for 24*3600 seconds, with exactly `fileType=1` and `insertOnly=0`. |
| ArtifactManager.Marker.constructor | src/main/java/io/jenkins/plugins/QiniuArtifactManager.java:133-136 | A marker's object name is `MarkName` of the prefix. |
| ArtifactManager.Marker.DidUse | src/main/java/io/jenkins/plugins/QiniuArtifactManager.java:138-147 | Stats the marker object, and reports use exactly when the stat succeeds. |
| ArtifactManager.Marker.Use | src/main/java/io/jenkins/plugins/QiniuArtifactManager.java:149-156 | Puts the body `{}` under the marker name with the marker token. Succeeds exactly when the put is stored, and passes a put error on. |
| ArtifactManager.Marker.DeleteMark | src/main/java/io/jenkins/plugins/QiniuArtifactManager.java:158-160 | Deletes the marker object, and passes a delete error on. |
| ArtifactManager.CopyEntries | src/main/java/io/jenkins/plugins/QiniuArtifactManager.java:82-87 | The uploader receives an entry-for-entry copy of the path map. |
| ArtifactManager.QiniuArtifactManager.constructor | src/main/java/io/jenkins/plugins/QiniuArtifactManager.java:40-47 | The build prefix is `BuildPrefix` of the configured prefix and the run. The marker sits at its `MarkName`. |
| ArtifactManager.QiniuArtifactManager.OnLoad | src/main/java/io/jenkins/plugins/QiniuArtifactManager.java:50-55 | Reloading recomputes the prefix for the loaded run and makes a new marker for it. |
| ArtifactManager.QiniuArtifactManager.Archive | src/main/java/io/jenkins/plugins/QiniuArtifactManager.java:71-90 | Without `applyForAllJobs` and without a marker, it stats, delegates to the standard manager and uploads nothing. With `applyForAllJobs`, it writes the marker first and never stats, and a failed marker write stops it. Any upload carries the path map and the build prefix, right after the marker write or the successful stat. Without `applyForAllJobs` the first call is always the stat of the marker. |
| ArtifactManager.QiniuArtifactManager.Root | src/main/java/io/jenkins/plugins/QiniuArtifactManager.java:110-119 | Gives the standard root exactly when the marker is absent. Otherwise it opens the Qiniu view of the build prefix. |
| ArtifactManager.QiniuArtifactManager.Delete | src/main/java/io/jenkins/plugins/QiniuArtifactManager.java:93-107 | False with no remote call when deletion is disabled. Without a marker, it delegates to the standard manager and returns its answer or throws its exception. Otherwise it deletes recursively, then removes the marker only when that deletion returned, and gives the recursive result. |
| Uploader.FixEmptyAndTrim | src/main/java/io/jenkins/plugins/QiniuUploader.java:80-84 | A domain is absent exactly when it was missing or all whitespace. Otherwise it is a slice of the string that starts and ends with a non-blank character, with only blanks outside it. |
| Uploader.FixEmptyAndTrimKeeps | src/main/java/io/jenkins/plugins/QiniuUploader.java:80-84 | An already trimmed, non-empty domain is kept as it is. |
| Uploader.FixEmptyAndTrimIdempotent | src/main/java/io/jenkins/plugins/QiniuUploader.java:80-84 | Trimming twice is the same as trimming once. |
| Uploader.SdkHosts.constructor | src/main/java/io/jenkins/plugins/QiniuUploader.java:27-29 | The defaults captured at class load are the hosts in force at that moment. |
| Uploader.MayCreateRegion | src/main/java/io/jenkins/plugins/QiniuUploader.java:110-133 | No region is built exactly when all four domains are absent. A present up domain sets both the accelerated and the source upload host. The rs, rsf and api hosts are the given domains. |
| Uploader.ObjectName | src/main/java/io/jenkins/plugins/QiniuUploader.java:65 | An object name is the prefix followed by the artifact's key. |
| Uploader.ObjectNameInjective | src/main/java/io/jenkins/plugins/QiniuUploader.java:65 | Distinct keys under one prefix never share an object name. |
| Uploader.CollapseSepsEnds | src/main/java/io/jenkins/plugins/QiniuUploader.java:66 | Collapsing separator runs never lengthens a path, empties only the empty path and keeps the last character. |
| Uploader.CollapseSepsNoRepeats | src/main/java/io/jenkins/plugins/QiniuUploader.java:66 | After collapsing, no two separators follow each other. |
| Uploader.CollapseSepsNames | src/main/java/io/jenkins/plugins/QiniuUploader.java:66 | Collapsing keeps every character that is not a separator, in order. |
| Uploader.CollapseSepsKeeps | src/main/java/io/jenkins/plugins/QiniuUploader.java:66 | A path without repeated separators is left unchanged. |
| Uploader.NonSepsAppend | src/main/java/io/jenkins/plugins/QiniuUploader.java:66 | The names of two joined paths are those of the first followed by those of the second. |
| Uploader.NormalizeProperties | src/main/java/io/jenkins/plugins/QiniuUploader.java:66 | `new File` normalises the child: the result has no repeated and no closing separator (except the bare root), keeps the child's names, is empty only for the empty child, and leaves a normal child unchanged. |
| Uploader.NormalizeIdempotent | src/main/java/io/jenkins/plugins/QiniuUploader.java:66 | Normalising twice is normalising once. |
| Uploader.ResolveEnds | src/main/java/io/jenkins/plugins/QiniuUploader.java:66 | Resolving a child against a parent gives a path that starts with the parent and ends with the child. |
| Uploader.ResolveNames | src/main/java/io/jenkins/plugins/QiniuUploader.java:66 | The names of the resolved path are the parent's followed by the child's, whichever of the separator cases applies. |
| Uploader.FileUnderPlacement | src/main/java/io/jenkins/plugins/QiniuUploader.java:66 | The uploaded file lies under the workspace root and ends with the normalised relative path, which is the path itself when already normal. Its names are the root's followed by the path's. |
| Uploader.QiniuUploader.constructor | src/main/java/io/jenkins/plugins/QiniuUploader.java:37-45 | The configuration, artifact map and prefix are kept as given. |
| Uploader.QiniuUploader.GetConfiguration | src/main/java/io/jenkins/plugins/QiniuUploader.java:79-108 | Afterwards each process-wide rs, uc and api host is the trimmed configured domain, or the class-load default when that domain is absent. `useHttpsDomains` is the configured flag. No region is built exactly when the up, rs, rsf and api domains are all absent. Otherwise the region's hosts are those trimmed domains, the up domain serving as both upload hosts. |
| Uploader.SdkHosts.PointAt | src/main/java/io/jenkins/plugins/QiniuUploader.java:86-102 | Each default host becomes its domain when one is given, and its class-load value when none is. |
| Uploader.QiniuUploader.Token | src/main/java/io/jenkins/plugins/QiniuUploader.java:55-59 | The token is for the bucket and valid for 86400 seconds. It always carries `insertOnly=1`, and carries `fileType=1` exactly when infrequent storage is on. |
| Uploader.QiniuUploader.Invoke | src/main/java/io/jenkins/plugins/QiniuUploader.java:48-75 | An empty map returns with no token, no upload and no host change. Otherwise each entry is uploaded in turn to prefix + key with the one token. The first failed upload ends the loop with its error, and success means every entry was stored. For a non-empty map the rs, uc and api default hosts follow the configuration. |
| Uploader.QiniuUploader.UploadAll | src/main/java/io/jenkins/plugins/QiniuUploader.java:63-72 | Uploads go out sequentially, each entry's file under its object name, in the given order. Every upload before the last one sent was stored. It succeeds exactly when every entry went out and the last was stored; otherwise it fails with the error of the last upload sent and the remaining entries are not sent. |
| PathSerialization.Encoding | src/main/java/io/jenkins/plugins/SerializeUtils.java:13-22 | A null path encodes as the single count 0. A path encodes as its name count followed by exactly that many names, in order. |
| PathSerialization.ReadStrings | src/main/java/io/jenkins/plugins/SerializeUtils.java:30-34 | Reading k strings succeeds exactly when the next k values are all strings, and returns them in order. |
| PathSerialization.RoundTrip | src/main/java/io/jenkins/plugins/SerializeUtils.java:13-37 | Decoding what serialising a path (or null) wrote gives that path (or null) back, whatever follows in the stream. |
| PathSerialization.PathsGetOfPath | src/main/java/io/jenkins/plugins/SerializeUtils.java:35 | Rebuilding a path from its own names gives the same path. |
| PathSerialization.SerializePath | src/main/java/io/jenkins/plugins/SerializeUtils.java:13-22 | The stream grows by exactly `Encoding(path)`. |
| PathSerialization.ReadSegments | src/main/java/io/jenkins/plugins/SerializeUtils.java:31-34 | Filling the array of the remaining names succeeds exactly when `ReadStrings` does, with the array holding the names read in order; otherwise it fails with the error `ReadStrings` gives. |
| PathSerialization.DeserializePath | src/main/java/io/jenkins/plugins/SerializeUtils.java:25-37 | The result is `Decode` of the values ahead in the stream. A count of 0 gives null; otherwise exactly that many strings are read, the first as head and the rest in order. |

## Left out

- QiniuUtils.CheckBatch: a rejected status whose `data` is null makes the Java code throw a `NullPointerException` at `status.data.error`. The model's `BatchStatus` always carries an error text, so it always raises the "Delete error" `IOException` naming the key.
- The service calls (`listFiles`, `batch`, `stat`, `put`, `delete`) are oracles. The service's own behaviour is not modelled.
- Building the bucket manager, the `Auth` object and the SDK `Configuration` in `QiniuFileSystem` and `QiniuFile` is left out.
- `privateDownloadUrl` signing is left out. `ExternalUrl` is the URL before signing.
- `Initializer.setAppName` is not part of this model.
- Logging, listener flushing, `open` and other byte streams are left out. They carry no decision.
- The `QiniuFile` members `toURI`, `getName`, `getParent`, `child`, `canRead` and the accessors are left out. They are not part of the modelled core.
- `QiniuFileSystem.writeObject`/`readObject` and the Java object-stream format are left out. Only the path encoding is modelled, with a stream of tagged values.
- Nodes have no parent back-references or node names stored in them. A node is identified by its path, and `getParentNode` becomes the path without its last name.
- The standard Jenkins artifact manager is an abstract call in the trace. Its result is a parameter.
- `root()` calls `QiniuFileSystem.create(config, prefix)` and `new QiniuFile(fs, null)`, which come from another revision of the sources. They are an abstract `OpenFileSystem` call and root value.
- The process-wide SDK host fields are the fields of `SdkHosts`. Other threads touching them at the same time are not modelled.
- Integers are unbounded: `long` sizes and times, and the `int` counters, do not wrap.
- HashMap iteration order is a parameter: any enumeration of the map's keys, each once.
- QiniuFileSystem.FileSystem.constructor: requires a listing that ends. On a service that never returns an empty marker, the Java loop runs forever.
- QiniuFileSystem.FileSystem.constructor: returns no listing calls, because a Dafny constructor has no out-parameters. `QiniuFileSystem.Create` takes the same steps, `Unpopulated` then `InitNodes`, and returns them.
- QiniuFileSystem.FileSystem.InitNodes: requires a listing that ends, for the same reason.
- QiniuFileSystem.FileSystem.DeleteAll: requires a listing that ends, for the same reason.
- QiniuFileSystem.Create: requires a listing that ends, for the same reason.
- QiniuUtils.ListPrefix: requires a listing that ends, for the same reason.
- QiniuUtils.DeletePrefix: requires a listing that ends, for the same reason.
- QiniuVirtualFile.QiniuFile.List: requires a listing that ends, for the same reason.
- QiniuVirtualFile.QiniuFile.ListRecursively: requires a listing that ends, for the same reason.
- QiniuVirtualFile.QiniuFile.DeleteRecursively: requires a listing that ends, for the same reason.
- QiniuVirtualFile.QiniuFile.FetchMetadata: requires `Valid()`, a cached size and time of 0 until fetched. The Java field initialisers guarantee it, the constructor establishes it and every method keeps it.
- QiniuVirtualFile.QiniuFile.Exists: requires `Valid()`, for the same reason.
- QiniuVirtualFile.QiniuFile.Length: requires `Valid()`, for the same reason.
- QiniuVirtualFile.QiniuFile.LastModified: requires `Valid()`, for the same reason.
- Uploader.FileUnder: models `java.io.File` on a Unix file system only. Windows separators and drive prefixes are not modelled.
- DirectoryTree.ChildrenNodes: gives a set, so two names holding equal subtrees count once. Java's `values()` keeps both.
- ArtifactManager.QiniuArtifactManager.Delete: when `root()` yields the standard root, the Java cast throws a `ClassCastException`. The model reports this as the error `NotQiniuFile`.

## Findings

| source | as written | input that shows it | evidently intended | confidence | as-written member | corrected member |
|---|---|---|---|---|---|---|
| src/main/java/io/jenkins/plugins/QiniuFile.java:180-182 | `listRecursively` appends a separator when the object name already ends with one | directory key `a/`: the prefix becomes `a//`, which the child `a/b` does not match, so nothing below `a/` is listed or deleted | append the separator only when it is missing, as `list` does at lines 144-146 | medium, not executed | QiniuVirtualFile.RecursivePrefixAsWrittenMatches | QiniuVirtualFile.RecursivePrefixMatchesDirectory |
| src/main/java/io/jenkins/plugins/QiniuFile.java:210-222 | `deleteRecursively` never resets its counter after a flush | 1001 keys: three batch calls (1000 keys, 1 key, then an empty batch) where two suffice | reset the counter on each flush, giving ceil(n/1000) batches as `deletePrefix` and `deleteAll` do | high, not executed | QiniuVirtualFile.RecursiveBatchesExtraCalls | Batching.ChunksShape |

The `QiniuFile` methods keep both defects, because they model the code as written. `QiniuFile.List`
and the bulk deletions of `QiniuUtils` and `QiniuFileSystem` use the corrected definitions
(`Common.WithTrailingSep`, which the corrected `QiniuVirtualFile.RecursivePrefix` applies, and
`Batching.Chunks`).
