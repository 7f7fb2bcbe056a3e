/** The per-build artifact manager (`QiniuArtifactManager`): the object key
    prefix of a build, the marker object that records that a build's
    artifacts went to the bucket, and the archive, delete and root decisions
    taken on the marker's existence. */
module ArtifactManager {
  import opened Common
  import opened Remote
  import opened Settings
  import opened Uploader

  /** A build as the manager sees it: its job's full name and its id. */
  datatype Run = Run(jobFullName: string, id: string)

  // ---------------------------------------------------------------------
  // Key naming

  /** `generateObjectNamePrefixWithBuildNumber`: the configured prefix,
      followed by a separator unless it is empty or already ends with one,
      then the job's full name and the build id, each closed by a
      separator. */
  function BuildPrefix(configured: string, run: Run): (r: string)
    ensures EndsWithSep(r)
    ensures StartsWith(r, configured)
    ensures configured != [] ==> StartsWith(r, WithTrailingSep(configured))
    ensures |r| >= |run.id| + 1 && r[|r| - |run.id| - 1..] == run.id + [Sep]
    ensures r == (if configured == [] then [] else WithTrailingSep(configured))
                 + run.jobFullName + [Sep] + run.id + [Sep]
  {
    var n := if configured != [] && !EndsWithSep(configured) then configured + [Sep] else configured;
    n + run.jobFullName + [Sep] + run.id + [Sep]
  }

  /** A configured prefix that lacks its closing separator leads to the
      same build prefix as with it. */
  lemma BuildPrefixIgnoresClosingSep(configured: string, run: Run)
    requires configured != [] && !EndsWithSep(configured)
    ensures BuildPrefix(configured + [Sep], run) == BuildPrefix(configured, run)
  {
    var c := configured + [Sep];
    assert EndsWithSep(c);
  }

  /** Two builds of one job never share a prefix. */
  lemma BuildPrefixInjective(configured: string, job: string, id1: string, id2: string)
    requires BuildPrefix(configured, Run(job, id1)) == BuildPrefix(configured, Run(job, id2))
    ensures id1 == id2
  {
    var n := if configured != [] && !EndsWithSep(configured) then configured + [Sep] else configured;
    var base := n + job + [Sep];
    assert BuildPrefix(configured, Run(job, id1)) == base + id1 + [Sep];
    assert BuildPrefix(configured, Run(job, id2)) == base + id2 + [Sep];
    assert id1 == (base + id1 + [Sep])[|base|..|base| + |id1|];
  }

  /** The suffix that turns a prefix into the marker's object name. */
  const MarkSuffix: string := ".qiniu-artifact-archiver"

  /** `s` without all its trailing separators. */
  function StripTrailingSeps(s: string): (r: string)
    ensures StartsWith(s, r)
    ensures !EndsWithSep(r)
    ensures forall i :: |r| <= i < |s| ==> s[i] == Sep
  {
    if EndsWithSep(s) then StripTrailingSeps(s[..|s| - 1]) else s
  }

  /** The name of the marker object of a prefix. */
  function MarkName(prefix: string): (name: string)
  {
    StripTrailingSeps(prefix) + MarkSuffix
  }

  /** `getMarkObjectName`: strips the trailing separators one at a time and
      appends the marker suffix. */
  method GetMarkObjectName(objectNamePrefix: string) returns (name: string)
    ensures name == MarkName(objectNamePrefix)
  {
    var stripped := objectNamePrefix;
    while EndsWithSep(stripped)
      invariant StartsWith(objectNamePrefix, stripped)
      invariant StripTrailingSeps(stripped) == StripTrailingSeps(objectNamePrefix)
      decreases |stripped|
    {
      stripped := stripped[..|stripped| - 1];
    }
    return stripped + MarkSuffix;
  }

  /** The marker name never ends with a separator, so it names a file. */
  lemma MarkNameIsFile(prefix: string)
    ensures !EndsWithSep(MarkName(prefix))
  {
    var name := MarkName(prefix);
    assert name[|name| - 1] == MarkSuffix[|MarkSuffix| - 1];
  }

  /** A closing separator does not change the marker name. */
  lemma MarkNameIgnoresClosingSep(prefix: string)
    ensures MarkName(prefix + [Sep]) == MarkName(prefix)
  {
    var p := prefix + [Sep];
    assert EndsWithSep(p) && p[..|p| - 1] == prefix;
  }

  /** The marker of a prefix closed by a separator lies outside it: removing
      everything under the prefix leaves the marker in place. */
  lemma MarkNameOutsidePrefix(prefix: string)
    requires EndsWithSep(prefix)
    ensures !StartsWith(MarkName(prefix), prefix)
  {
    var stripped := StripTrailingSeps(prefix);
    var name := MarkName(prefix);
    assert |stripped| < |prefix| && prefix[|stripped|] == Sep;
    assert name[|stripped|] == '.';
  }

  /** The marker of a build sits beside the build's prefix: the prefix
      without its closing separator, then the suffix. */
  lemma BuildMarkName(configured: string, run: Run)
    requires run.id != [] && !EndsWithSep(run.id)
    ensures var p := BuildPrefix(configured, run);
      MarkName(p) == p[..|p| - 1] + MarkSuffix
  {
    var p := BuildPrefix(configured, run);
    assert EndsWithSep(p);
    assert p[|p| - 2] == run.id[|run.id| - 1];
    assert !EndsWithSep(p[..|p| - 1]);
  }

  // ---------------------------------------------------------------------
  // Remote calls

  /** The remote and delegated calls the manager makes, in order. */
  datatype Call =
    /** `BucketManager.stat` of the marker. */
    | StatMarker(bucket: string, key: string)
    /** `UploadManager.put` of the marker's body. */
    | PutMarker(key: string, body: string, token: UploadToken)
    /** `BucketManager.delete` of the marker. */
    | DeleteMarker(bucket: string, key: string)
    /** The standard manager's `archive`, `delete` or `root`. */
    | StandardArchive(pathMap: map<string, string>)
    | StandardDelete
    | StandardRoot
    /** `QiniuFileSystem.create` over the build prefix. */
    | OpenFileSystem(prefix: string)
    /** `deleteRecursively` on the root the manager opened. */
    | DeleteRecursively
    /** `workspace.act` of an uploader for these artifacts and prefix. */
    | ActUpload(artifacts: map<string, string>, prefix: string)

  /** The answer to `BucketManager.delete`. */
  datatype DeleteReply = Deleted | DeleteThrew(message: string)

  /** The marker's contents. */
  const MarkerBody: string := "{}"

  /** The token the marker is uploaded with: standard storage, overwriting
      allowed, valid for a day. */
  function MarkerToken(bucket: string): (t: UploadToken)
    ensures t.bucket == bucket && t.expires == TokenValidity
    ensures t.policy.Keys == {"fileType", "insertOnly"}
    ensures t.policy["fileType"] == 1 && t.policy["insertOnly"] == 0
  {
    UploadToken(bucket, 24 * 3600, map["fileType" := 1, "insertOnly" := 0])
  }

  /** `Marker`: the marker object of one build. */
  class Marker {
    const objectName: string
    const config: QiniuConfig

    constructor (objectNamePrefix: string, config: QiniuConfig)
      ensures objectName == MarkName(objectNamePrefix) && this.config == config
    {
      var name := GetMarkObjectName(objectNamePrefix);
      objectName := name;
      this.config := config;
    }

    /** `didUseQiniuArtifactArchiver`: the marker is stat-ed, and it is
        taken to exist exactly when the call succeeds. */
    method DidUse(stat: StatReply) returns (call: Call, used: bool)
      ensures call == StatMarker(config.bucketName, objectName)
      ensures used <==> stat.StatOk?
    {
      call := StatMarker(config.bucketName, objectName);
      match stat
      case StatOk(_) =>
        used := true;
      case StatThrew(_) =>
        used := false;
    }

    /** `useQiniuArtifactArchiver`: the marker's body is uploaded under its
        name with the marker token; a failed upload throws. */
    method Use(put: PutReply) returns (call: Call, r: Result<(), IOError>)
      ensures call == PutMarker(objectName, MarkerBody, MarkerToken(config.bucketName))
      ensures r.Ok? <==> put.Stored?
      ensures put.PutThrew? ==> r == Err(QiniuError(put.message))
    {
      call := PutMarker(objectName, MarkerBody, MarkerToken(config.bucketName));
      match put
      case Stored =>
        r := Ok(());
      case PutThrew(message) =>
        r := Err(QiniuError(message));
    }

    /** `deleteQiniuArtifactArchiverMark`: the marker is deleted; a failed
        deletion throws. */
    method DeleteMark(reply: DeleteReply) returns (call: Call, r: Result<(), IOError>)
      ensures call == DeleteMarker(config.bucketName, objectName)
      ensures r.Ok? <==> reply.Deleted?
      ensures reply.DeleteThrew? ==> r == Err(QiniuError(reply.message))
    {
      call := DeleteMarker(config.bucketName, objectName);
      match reply
      case Deleted =>
        r := Ok(());
      case DeleteThrew(message) =>
        r := Err(QiniuError(message));
    }
  }

  /** The root `root` hands out: the standard manager's, or a Qiniu file
      over a file system opened on the build prefix. */
  datatype ArtifactRoot = StandardRootDir | QiniuRootDir(prefix: string)

  /** Why `delete` fails: an `IOException`, or the root turned out not to
      be a Qiniu file (the cast in `delete` throws). */
  datatype DeleteFailure = Io(error: IOError) | NotQiniuFile

  /** `artifacts.put` of every entry of `pathMap`, one at a time. */
  method CopyEntries(pathMap: map<string, string>) returns (artifacts: map<string, string>)
    ensures artifacts == pathMap
  {
    artifacts := map[];
    var rest := pathMap.Keys;
    while rest != {}
      invariant rest <= pathMap.Keys
      invariant artifacts.Keys == pathMap.Keys - rest
      invariant forall k :: k in artifacts ==> artifacts[k] == pathMap[k]
      decreases |rest|
    {
      var key :| key in rest;
      artifacts := artifacts[key := pathMap[key]];
      rest := rest - {key};
    }
  }

  /** `QiniuArtifactManager`: the configuration, the build prefix, the
      marker and the run the standard manager works on. */
  class QiniuArtifactManager {
    const config: QiniuConfig
    var objectNamePrefixWithBuildNumber: string
    var marker: Marker
    var standardRun: Run

    /** The marker belongs to this manager's configuration and build
        prefix. */
    predicate Valid()
      reads this, marker
    {
      marker.config == config && marker.objectName == MarkName(objectNamePrefixWithBuildNumber)
    }

    /** The prefix and the marker of the run, with a standard manager for
        the same run. */
    constructor (run: Run, config: QiniuConfig)
      ensures Valid() && this.config == config && standardRun == run
      ensures objectNamePrefixWithBuildNumber == BuildPrefix(config.objectNamePrefix, run)
    {
      this.config := config;
      objectNamePrefixWithBuildNumber := BuildPrefix(config.objectNamePrefix, run);
      standardRun := run;
      marker := new Marker(BuildPrefix(config.objectNamePrefix, run), config);
    }

    /** `onLoad`: prefix, standard manager and marker are derived again from
        the loaded run. */
    method OnLoad(run: Run)
      modifies this
      ensures objectNamePrefixWithBuildNumber == BuildPrefix(config.objectNamePrefix, run)
      ensures Valid() && standardRun == run && fresh(marker)
    {
      objectNamePrefixWithBuildNumber := BuildPrefix(config.objectNamePrefix, run);
      standardRun := run;
      marker := new Marker(objectNamePrefixWithBuildNumber, config);
    }

    /** `archive`: without `applyForAllJobs` and without a marker the
        standard manager archives and nothing goes to the bucket. With
        `applyForAllJobs` the marker is written first (the stat is skipped)
        and a failed write aborts. Otherwise the artifacts, copied entry for
        entry, are handed to an uploader on the agent together with the
        build prefix, and its outcome `delegated` is the result; the
        standard manager's outcome is `delegated` too. */
    method Archive(pathMap: map<string, string>, stat: StatReply, put: PutReply,
                   delegated: Result<(), IOError>)
      returns (calls: seq<Call>, r: Result<(), IOError>)
      requires Valid()
      ensures 1 <= |calls| <= 2
      ensures !config.applyForAllJobs ==> calls[0] == StatMarker(config.bucketName, marker.objectName)
      ensures var standard := !config.applyForAllJobs && !stat.StatOk?;
        standard ==> calls == [StatMarker(config.bucketName, marker.objectName), StandardArchive(pathMap)]
                     && r == delegated
      ensures config.applyForAllJobs ==>
                calls[0] == PutMarker(marker.objectName, MarkerBody, MarkerToken(config.bucketName))
                && forall i :: 0 <= i < |calls| ==> !calls[i].StatMarker?
      ensures config.applyForAllJobs && put.PutThrew? ==>
                |calls| == 1 && r == Err(QiniuError(put.message))
      ensures var uploads := if config.applyForAllJobs then put.Stored? else stat.StatOk?;
        uploads ==> calls[|calls| - 1] == ActUpload(pathMap, objectNamePrefixWithBuildNumber)
                    && |calls| == 2 && r == delegated
      ensures forall i :: 0 <= i < |calls| && calls[i].ActUpload? ==>
                i > 0 && (calls[i - 1].PutMarker? || (calls[i - 1].StatMarker? && stat.StatOk?))
    {
      var used := false;
      var probe: Call;
      if !config.applyForAllJobs {
        probe, used := marker.DidUse(stat);
        if !used {
          return [probe, StandardArchive(pathMap)], delegated;
        }
      } else {
        var written;
        probe, written := marker.Use(put);
        if written.Err? {
          return [probe], Err(written.error);
        }
      }
      var artifacts := CopyEntries(pathMap);
      return [probe, ActUpload(artifacts, objectNamePrefixWithBuildNumber)], delegated;
    }

    /** `root`: the standard root when no marker exists, otherwise a Qiniu
        file over a file system opened on the build prefix. */
    method Root(stat: StatReply) returns (calls: seq<Call>, root: ArtifactRoot)
      requires Valid()
      ensures root == StandardRootDir <==> !stat.StatOk?
      ensures root.QiniuRootDir? ==> root.prefix == objectNamePrefixWithBuildNumber
      ensures |calls| == 2 && calls[0] == StatMarker(config.bucketName, marker.objectName)
      ensures calls[1] == (if stat.StatOk? then OpenFileSystem(objectNamePrefixWithBuildNumber)
                           else StandardRoot)
    {
      var probe, used := marker.DidUse(stat);
      if !used {
        return [probe, StandardRoot], StandardRootDir;
      }
      return [probe, OpenFileSystem(objectNamePrefixWithBuildNumber)],
             QiniuRootDir(objectNamePrefixWithBuildNumber);
    }

    /** `delete`: false without any call when deletion is disabled; the
        standard manager's answer or exception `standard` when there is no
        marker;
        otherwise the root is fetched (a second stat, `rootStat`), its
        contents deleted recursively (outcome `recursive`) and then the
        marker deleted, the recursive deletion's answer being the result.
        A failure of any step ends the operation. */
    method Delete(stat: StatReply, rootStat: StatReply, standard: Result<bool, IOError>,
                  recursive: Result<bool, IOError>, unmark: DeleteReply)
      returns (calls: seq<Call>, r: Result<bool, DeleteFailure>)
      requires Valid()
      ensures !config.deleteArtifacts ==> calls == [] && r == Ok(false)
      ensures config.deleteArtifacts ==> |calls| >= 2 && calls[0] == StatMarker(config.bucketName, marker.objectName)
      ensures config.deleteArtifacts && !stat.StatOk? ==> |calls| == 2 && calls[1] == StandardDelete
                                                          && r == (match standard
                                                                   case Ok(b) => Ok(b)
                                                                   case Err(e) => Err(Io(e)))
      ensures config.deleteArtifacts && stat.StatOk? && !rootStat.StatOk? ==>
                calls[1..] == [StatMarker(config.bucketName, marker.objectName), StandardRoot]
                && r == Err(NotQiniuFile)
      ensures var reached := config.deleteArtifacts && stat.StatOk? && rootStat.StatOk?;
        reached ==> |calls| >= 4 && calls[1..4] == [StatMarker(config.bucketName, marker.objectName),
                                   OpenFileSystem(objectNamePrefixWithBuildNumber), DeleteRecursively]
      ensures forall i :: 0 <= i < |calls| && calls[i].DeleteMarker? ==>
                i == 4 == |calls| - 1 && calls[3] == DeleteRecursively && recursive.Ok?
      ensures var reached := config.deleteArtifacts && stat.StatOk? && rootStat.StatOk?;
        reached && recursive.Err? ==> |calls| == 4 && r == Err(Io(recursive.error))
      ensures var reached := config.deleteArtifacts && stat.StatOk? && rootStat.StatOk?;
        reached && recursive.Ok? ==>
          calls[|calls| - 1] == DeleteMarker(config.bucketName, marker.objectName)
          && r == (if unmark.Deleted? then Ok(recursive.value) else Err(Io(QiniuError(unmark.message))))
    {
      if !config.deleteArtifacts {
        return [], Ok(false);
      }
      var probe, used := marker.DidUse(stat);
      if !used {
        match standard
        case Ok(b) =>
          return [probe, StandardDelete], Ok(b);
        case Err(e) =>
          return [probe, StandardDelete], Err(Io(e));
      }
      var rootCalls, root := Root(rootStat);
      calls := [probe] + rootCalls;
      if root.StandardRootDir? {
        return calls, Err(NotQiniuFile);
      }
      calls := calls + [DeleteRecursively];
      if recursive.Err? {
        return calls, Err(Io(recursive.error));
      }
      var unmarkCall, unmarked := marker.DeleteMark(unmark);
      calls := calls + [unmarkCall];
      if unmarked.Err? {
        return calls, Err(Io(unmarked.error));
      }
      return calls, Ok(recursive.value);
    }
  }
}
