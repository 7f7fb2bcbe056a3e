/** The upload job that runs on the build agent (`QiniuUploader`): the SDK
    settings it derives from the job's configuration, the upload token and
    the sequential upload of every archived file. */
module Uploader {
  import opened Common
  import opened Remote
  import opened Settings

  // ---------------------------------------------------------------------
  // Util.fixEmptyAndTrim

  /** The characters `String.trim` removes at both ends: codes up to U+0020. */
  predicate IsTrimmed(c: char)
  {
    c <= ' '
  }

  /** `s` without its leading trimmable characters. */
  function TrimStart(s: string): (r: string)
    ensures |r| <= |s| && r == s[|s| - |r|..]
    ensures r == [] || !IsTrimmed(r[0])
    ensures forall i :: 0 <= i < |s| - |r| ==> IsTrimmed(s[i])
  {
    if s != [] && IsTrimmed(s[0]) then TrimStart(s[1..]) else s
  }

  /** `s` without its trailing trimmable characters. */
  function TrimEnd(s: string): (r: string)
    ensures |r| <= |s| && r == s[..|r|]
    ensures r == [] || !IsTrimmed(r[|r| - 1])
    ensures forall i :: |r| <= i < |s| ==> IsTrimmed(s[i])
  {
    if s != [] && IsTrimmed(s[|s| - 1]) then TrimEnd(s[..|s| - 1]) else s
  }

  /** `Util.fixEmptyAndTrim`: null stays null; a string loses its leading
      and trailing blanks, and null replaces what is then empty. */
  function FixEmptyAndTrim(s: Option<string>): (r: Option<string>)
    ensures r.None? <==> s.None? || forall i :: 0 <= i < |s.value| ==> IsTrimmed(s.value[i])
    ensures r.Some? ==> r.value != [] && !IsTrimmed(r.value[0]) && !IsTrimmed(r.value[|r.value| - 1])
    ensures r.Some? ==> exists a, b :: 0 <= a <= b <= |s.value| && r.value == s.value[a..b]
                          && forall i :: 0 <= i < a || b <= i < |s.value| ==> IsTrimmed(s.value[i])
  {
    if s.None? then None
    else
      var u := TrimStart(s.value);
      var t := TrimEnd(u);
      InnerSlice(s.value, u, t, |s.value| - |u|);
      if t == [] then None else Some(t)
  }

  /** A prefix `t` of the suffix `u` of `s` starting at `a`, with only blanks
      before `a` and after the prefix, is the slice of `s` from `a` with only
      blanks outside it; when `t` starts with a non-blank, `s` is blank
      exactly when `t` is empty. */
  lemma InnerSlice(s: string, u: string, t: string, a: nat)
    requires a <= |s| && u == s[a..] && |t| <= |u| && t == u[..|t|]
    requires forall i :: 0 <= i < a ==> IsTrimmed(s[i])
    requires forall i :: |t| <= i < |u| ==> IsTrimmed(u[i])
    requires t == [] || !IsTrimmed(t[0])
    ensures a + |t| <= |s| && t == s[a..a + |t|]
    ensures forall i :: 0 <= i < a || a + |t| <= i < |s| ==> IsTrimmed(s[i])
    ensures t == [] <==> forall i :: 0 <= i < |s| ==> IsTrimmed(s[i])
  {
    forall i | a + |t| <= i < |s| ensures IsTrimmed(s[i]) {
      assert s[i] == u[i - a];
    }
    if t != [] {
      assert s[a] == t[0];
    }
  }

  /** A domain without surrounding blanks is kept as it is. */
  lemma FixEmptyAndTrimKeeps(s: string)
    requires s != [] && !IsTrimmed(s[0]) && !IsTrimmed(s[|s| - 1])
    ensures FixEmptyAndTrim(Some(s)) == Some(s)
  {
    assert TrimStart(s) == s;
    assert TrimEnd(s) == s;
  }

  /** Fixing a fixed domain changes nothing. */
  lemma FixEmptyAndTrimIdempotent(s: Option<string>)
    ensures FixEmptyAndTrim(FixEmptyAndTrim(s)) == FixEmptyAndTrim(s)
  {
    var r := FixEmptyAndTrim(s);
    if r.Some? {
      FixEmptyAndTrimKeeps(r.value);
    }
  }

  // ---------------------------------------------------------------------
  // The SDK configuration

  /** The SDK's process-wide default hosts (`Configuration.defaultRsHost`,
      `defaultUcHost`, `defaultApiHost`) together with the values they held
      when `QiniuUploader` was loaded (`DEFAULT_RS_HOST`, `DEFAULT_UC_HOST`,
      `DEFAULT_API_HOST`). */
  class SdkHosts {
    var rsHost: string
    var ucHost: string
    var apiHost: string
    const initialRsHost: string
    const initialUcHost: string
    const initialApiHost: string

    /** The hosts as the SDK starts, captured as the class-load defaults. */
    constructor (rsHost: string, ucHost: string, apiHost: string)
      ensures this.rsHost == initialRsHost == rsHost
      ensures this.ucHost == initialUcHost == ucHost
      ensures this.apiHost == initialApiHost == apiHost
    {
      this.rsHost := rsHost;
      this.ucHost := ucHost;
      this.apiHost := apiHost;
      initialRsHost := rsHost;
      initialUcHost := ucHost;
      initialApiHost := apiHost;
    }

    /** The host settings of `getConfiguration`: each default host is set
        to its domain when one is given and differs, and back to its
        class-load value when none is given. */
    method PointAt(rs: Option<string>, uc: Option<string>, api: Option<string>)
      modifies this
      ensures rsHost == (if rs.Some? then rs.value else initialRsHost)
      ensures ucHost == (if uc.Some? then uc.value else initialUcHost)
      ensures apiHost == (if api.Some? then api.value else initialApiHost)
    {
      if rs.Some? && rsHost != rs.value {
        rsHost := rs.value;
      } else if rs.None? {
        rsHost := initialRsHost;
      }
      if uc.Some? && ucHost != uc.value {
        ucHost := uc.value;
      } else if uc.None? {
        ucHost := initialUcHost;
      }
      if api.Some? && apiHost != api.value {
        apiHost := api.value;
      } else if api.None? {
        apiHost := initialApiHost;
      }
    }
  }

  /** `Region`: the hosts a `Region.Builder` was given; `None` leaves the
      builder's own default in place. */
  datatype Region = Region(
    accUpHost: Option<string>,
    srcUpHost: Option<string>,
    rsHost: Option<string>,
    rsfHost: Option<string>,
    apiHost: Option<string>)

  /** `Configuration`: HTTPS use and the region, null when not built. */
  datatype Configuration = Configuration(useHttpsDomains: bool, region: Option<Region>)

  /** `mayCreateRegion`: a region is built when at least one domain is
      configured; the upload domain serves both as accelerated and as source
      upload host, and each other domain sets its own host. */
  method MayCreateRegion(upDomain: Option<string>, rsDomain: Option<string>,
                         rsfDomain: Option<string>, apiDomain: Option<string>)
    returns (r: Option<Region>)
    ensures r.None? <==> upDomain.None? && rsDomain.None? && rsfDomain.None? && apiDomain.None?
    ensures r.Some? ==> r.value.accUpHost == r.value.srcUpHost == upDomain
    ensures r.Some? ==> r.value.rsHost == rsDomain && r.value.rsfHost == rsfDomain
    ensures r.Some? ==> r.value.apiHost == apiDomain
  {
    var returnsNull := true;
    var builder := Region(None, None, None, None, None);
    if upDomain.Some? {
      builder := builder.(accUpHost := upDomain, srcUpHost := upDomain);
      returnsNull := false;
    }
    if rsDomain.Some? {
      builder := builder.(rsHost := rsDomain);
      returnsNull := false;
    }
    if rsfDomain.Some? {
      builder := builder.(rsfHost := rsfDomain);
      returnsNull := false;
    }
    if apiDomain.Some? {
      builder := builder.(apiHost := apiDomain);
      returnsNull := false;
    }
    if returnsNull {
      return None;
    }
    return Some(builder);
  }

  // ---------------------------------------------------------------------
  // Uploads

  /** Validity of the upload token in seconds: one day. */
  const TokenValidity: int := 24 * 3600

  /** One `UploadManager.put` of a local file under an object key. */
  datatype Upload = Upload(file: string, key: string, token: UploadToken)

  /** The object key of an archived file: the build prefix followed by the
      artifact's relative name. */
  function ObjectName(prefix: string, key: string): (name: string)
    ensures StartsWith(name, prefix)
    ensures name[|prefix|..] == key
  {
    prefix + key
  }

  /** Different artifacts of one build go to different objects. */
  lemma ObjectNameInjective(prefix: string, a: string, b: string)
    requires ObjectName(prefix, a) == ObjectName(prefix, b)
    ensures a == b
  {
    assert a == ObjectName(prefix, a)[|prefix|..];
  }

  /** A path as `java.io.File` keeps it on a Unix file system: no two
      separators in a row, and no closing separator unless the path is the
      bare root. */
  predicate IsNormalPath(p: string)
  {
    NoRepeatedSeps(p) && (|p| > 1 ==> p[|p| - 1] != Sep)
  }

  /** The characters of a path that are not separators, in order: its
      names, run together. */
  function NonSeps(p: string): (r: string)
    ensures |r| <= |p|
    decreases |p|
  {
    if p == [] then []
    else NonSeps(p[..|p| - 1]) + (if p[|p| - 1] == Sep then [] else [p[|p| - 1]])
  }

  /** The names of two paths joined are those of one, then the other. */
  lemma {:induction false} NonSepsAppend(p: string, q: string)
    ensures NonSeps(p + q) == NonSeps(p) + NonSeps(q)
    decreases |q|
  {
    if q != [] {
      var q' := q[..|q| - 1];
      assert (p + q)[..|p + q| - 1] == p + q';
      NonSepsAppend(p, q');
    } else {
      assert p + q == p;
    }
  }

  /** `p` with every run of separators collapsed to one. */
  function CollapseSeps(p: string): string
    decreases |p|
  {
    if p == [] then []
    else
      var c := CollapseSeps(p[..|p| - 1]);
      if p[|p| - 1] == Sep && c != [] && c[|c| - 1] == Sep then c else c + [p[|p| - 1]]
  }

  /** No two separators in a row. */
  predicate NoRepeatedSeps(p: string)
  {
    forall i :: 0 < i < |p| ==> !(p[i - 1] == Sep && p[i] == Sep)
  }

  /** Collapsing never lengthens a path, empties only the empty path and
      keeps its last character. */
  lemma {:induction false} CollapseSepsEnds(p: string)
    ensures var c := CollapseSeps(p);
      && |c| <= |p| && (p == [] <==> c == [])
      && (p != [] ==> c[|c| - 1] == p[|p| - 1])
    decreases |p|
  {
    if p != [] {
      CollapseSepsEnds(p[..|p| - 1]);
    }
  }

  /** Collapsing leaves no two separators in a row. */
  lemma {:induction false} CollapseSepsNoRepeats(p: string)
    ensures NoRepeatedSeps(CollapseSeps(p))
    decreases |p|
  {
    if p != [] {
      var c := CollapseSeps(p[..|p| - 1]);
      CollapseSepsNoRepeats(p[..|p| - 1]);
      var x := p[|p| - 1];
      if !(x == Sep && c != [] && c[|c| - 1] == Sep) {
        var d := c + [x];
        forall i | 0 < i < |d| ensures !(d[i - 1] == Sep && d[i] == Sep) {
          if i < |c| {
            assert d[i - 1] == c[i - 1] && d[i] == c[i];
          }
        }
      }
    }
  }

  /** Collapsing keeps the names of a path. */
  lemma {:induction false} CollapseSepsNames(p: string)
    ensures NonSeps(CollapseSeps(p)) == NonSeps(p)
    decreases |p|
  {
    if p != [] {
      var c := CollapseSeps(p[..|p| - 1]);
      CollapseSepsNames(p[..|p| - 1]);
      var x := p[|p| - 1];
      if !(x == Sep && c != [] && c[|c| - 1] == Sep) {
        assert (c + [x])[..|c|] == c;
      }
    }
  }

  /** A path without repeated separators is left as it is. */
  lemma {:induction false} CollapseSepsKeeps(p: string)
    requires NoRepeatedSeps(p)
    ensures CollapseSeps(p) == p
    decreases |p|
  {
    if p != [] {
      var init := p[..|p| - 1];
      assert NoRepeatedSeps(init) by {
        forall i | 0 < i < |init| ensures !(init[i - 1] == Sep && init[i] == Sep) {
          assert init[i - 1] == p[i - 1] && init[i] == p[i];
        }
      }
      CollapseSepsKeeps(init);
      if init != [] {
        assert init[|init| - 1] == p[|p| - 2];
      }
      assert init + [p[|p| - 1]] == p;
    }
  }

  /** `UnixFileSystem.normalize`: runs of separators collapse to one and a
      closing separator is dropped, except from the bare root. */
  function Normalize(p: string): string
  {
    var c := CollapseSeps(p);
    if |c| > 1 && c[|c| - 1] == Sep then c[..|c| - 1] else c
  }

  /** A normalised path is normal and keeps the names of the path; the empty
      path stays empty and a normal path is left as it is. */
  lemma NormalizeProperties(p: string)
    ensures var n := Normalize(p);
      && IsNormalPath(n)
      && NonSeps(n) == NonSeps(p)
      && (p == [] <==> n == [])
      && (IsNormalPath(p) ==> n == p)
  {
    CollapseSepsEnds(p);
    CollapseSepsNoRepeats(p);
    CollapseSepsNames(p);
    var c := CollapseSeps(p);
    if |c| > 1 && c[|c| - 1] == Sep {
      assert NonSeps(c) == NonSeps(c[..|c| - 1]);
      var n := c[..|c| - 1];
      forall i | 0 < i < |n| ensures !(n[i - 1] == Sep && n[i] == Sep) {
        assert n[i - 1] == c[i - 1] && n[i] == c[i];
      }
      assert c[|c| - 2] != Sep;
    }
    if IsNormalPath(p) {
      CollapseSepsKeeps(p);
    }
  }

  /** Normalising twice is normalising once. */
  lemma NormalizeIdempotent(p: string)
    ensures Normalize(Normalize(p)) == Normalize(p)
  {
    NormalizeProperties(p);
    NormalizeProperties(Normalize(p));
  }

  /** `UnixFileSystem.resolve` of a normal child against a parent: an empty
      child names the parent itself, and otherwise one separator joins the
      two unless the child starts with one or the parent is the bare
      root. */
  function Resolve(parent: string, child: string): string
  {
    if child == [] then parent
    else if child[0] == Sep then (if parent == [Sep] then child else parent + child)
    else if parent == [Sep] then parent + child
    else parent + [Sep] + child
  }

  /** The resolved path starts with the parent and ends with the child. */
  lemma ResolveEnds(parent: string, child: string)
    ensures var f := Resolve(parent, child);
      StartsWith(f, parent) && |child| <= |f| && f[|f| - |child|..] == child
  {
    if child == [] {
      assert parent + [] == parent;
    }
  }

  /** The names of the resolved path are the parent's followed by the
      child's. */
  lemma ResolveNames(parent: string, child: string)
    ensures NonSeps(Resolve(parent, child)) == NonSeps(parent) + NonSeps(child)
  {
    var f := Resolve(parent, child);
    assert NonSeps([Sep]) == [] by { assert [Sep][..0] == []; }
    if child == [] {
      assert parent + [] == parent;
    } else if child[0] == Sep && parent == [Sep] {
      assert f == child;
    } else if child[0] == Sep || parent == [Sep] {
      assert f == parent + child;
      NonSepsAppend(parent, child);
    } else {
      assert f == parent + [Sep] + child;
      NonSepsAppend(parent + [Sep], child);
      NonSepsAppend(parent, [Sep]);
    }
  }

  /** `new File(root, child)` on a Unix file system: the child is
      normalised, then resolved against the root. */
  function FileUnder(root: string, child: string): string
  {
    Resolve(root, Normalize(child))
  }

  /** The file of `new File(root, child)` lies under the root, ends with the
      normalised child (the child itself when it is already normal), and
      its names are the root's followed by the child's. */
  lemma FileUnderPlacement(root: string, child: string)
    ensures var f := FileUnder(root, child);
      && StartsWith(f, root)
      && (var n := Normalize(child); |n| <= |f| && f[|f| - |n|..] == n)
      && (IsNormalPath(child) ==> |child| <= |f| && f[|f| - |child|..] == child)
      && NonSeps(f) == NonSeps(root) + NonSeps(child)
  {
    NormalizeProperties(child);
    ResolveEnds(root, Normalize(child));
    ResolveNames(root, Normalize(child));
  }

  /** `order` lists every key of `m` exactly once: the entry order of the
      Java map, which the model takes as given. */
  predicate IsEntryOrder<V>(order: seq<string>, m: map<string, V>)
  {
    |order| == |m.Keys|
    && (forall k :: k in m ==> k in order)
    && (forall i, j :: 0 <= i < j < |order| ==> order[i] != order[j])
  }

  /** `QiniuUploader`: the configuration, the artifacts (relative object
      name to workspace-relative file) and the build prefix. The marker it
      also receives is never used by `invoke`. */
  class QiniuUploader {
    const config: QiniuConfig
    const artifactURLs: map<string, string>
    const objectNamePrefix: string

    constructor (config: QiniuConfig, artifactURLs: map<string, string>, objectNamePrefix: string)
      ensures this.config == config && this.artifactURLs == artifactURLs
      ensures this.objectNamePrefix == objectNamePrefix
    {
      this.config := config;
      this.artifactURLs := artifactURLs;
      this.objectNamePrefix := objectNamePrefix;
    }

    /** Each process-wide rs/uc/api default host holds the configured
        domain, or its class-load value when the domain is absent or
        blank. */
    predicate HostsFollowConfig(hosts: SdkHosts)
      reads this, hosts
    {
      var rs := FixEmptyAndTrim(config.rsDomain);
      var uc := FixEmptyAndTrim(config.ucDomain);
      var api := FixEmptyAndTrim(config.apiDomain);
      && hosts.rsHost == (if rs.Some? then rs.value else hosts.initialRsHost)
      && hosts.ucHost == (if uc.Some? then uc.value else hosts.initialUcHost)
      && hosts.apiHost == (if api.Some? then api.value else hosts.initialApiHost)
    }

    /** `getConfiguration`: the default hosts follow the configuration; a
        region is built from the up, rs, rsf and api domains, with the up
        domain as both upload hosts, unless all four are absent or blank;
        HTTPS use follows the configuration. */
    method GetConfiguration(hosts: SdkHosts) returns (c: Configuration)
      modifies hosts
      ensures HostsFollowConfig(hosts)
      ensures c.useHttpsDomains == config.useHTTPs
      ensures c.region.None? <==>
                FixEmptyAndTrim(config.upDomain).None? && FixEmptyAndTrim(config.rsDomain).None?
                && FixEmptyAndTrim(config.rsfDomain).None? && FixEmptyAndTrim(config.apiDomain).None?
      ensures var up := FixEmptyAndTrim(config.upDomain);
        c.region.Some? ==> c.region.value == Region(up, up, FixEmptyAndTrim(config.rsDomain),
                                                    FixEmptyAndTrim(config.rsfDomain),
                                                    FixEmptyAndTrim(config.apiDomain))
      ensures c.region.Some? && c.region.value.rsHost.Some? ==> c.region.value.rsHost.value == hosts.rsHost
      ensures c.region.Some? && c.region.value.apiHost.Some? ==> c.region.value.apiHost.value == hosts.apiHost
    {
      var rsDomain := FixEmptyAndTrim(config.rsDomain);
      var ucDomain := FixEmptyAndTrim(config.ucDomain);
      var apiDomain := FixEmptyAndTrim(config.apiDomain);
      var upDomain := FixEmptyAndTrim(config.upDomain);
      var rsfDomain := FixEmptyAndTrim(config.rsfDomain);

      hosts.PointAt(rsDomain, ucDomain, apiDomain);
      var region := MayCreateRegion(upDomain, rsDomain, rsfDomain, apiDomain);
      c := Configuration(config.useHTTPs, region);
    }

    /** The upload token `invoke` signs: insert-only, infrequent-access
        storage when configured, valid for a day. */
    function Token(): (t: UploadToken)
      reads this
      ensures t.bucket == config.bucketName && t.expires == TokenValidity
      ensures "insertOnly" in t.policy && t.policy["insertOnly"] == 1
      ensures "fileType" in t.policy <==> config.infrequentStorage
      ensures "fileType" in t.policy ==> t.policy["fileType"] == 1
      ensures t.policy.Keys <= {"insertOnly", "fileType"}
    {
      var params := map["insertOnly" := 1];
      var params := if config.infrequentStorage then params["fileType" := 1] else params;
      UploadToken(config.bucketName, TokenValidity, params)
    }

    /** `invoke`: nothing happens for an empty artifact map; otherwise the
        SDK is configured, a token is signed and the artifacts are uploaded
        one after the other, in the map's entry order `order`, each file
        under `root` to the build prefix plus its relative name. The i-th
        upload is answered by `replies(i)`; the first failure aborts the
        rest. */
    method Invoke(root: string, order: seq<string>, hosts: SdkHosts, replies: nat -> PutReply)
      returns (token: Option<UploadToken>, uploads: seq<Upload>, r: Result<(), IOError>)
      requires IsEntryOrder(order, artifactURLs)
      modifies hosts
      ensures |artifactURLs| == 0 ==> token.None? && uploads == [] && r.Ok? && unchanged(hosts)
      ensures |artifactURLs| != 0 ==> token == Some(Token()) && UploadsInOrder(root, order, Token(), replies, uploads, r)
      ensures |artifactURLs| != 0 ==> HostsFollowConfig(hosts)
    {
      if |artifactURLs| == 0 {
        assert order == [];
        return None, [], Ok(());
      }
      var configuration := GetConfiguration(hosts);
      var t := Token();
      token := Some(t);
      EntryOrderKeys(order, artifactURLs);
      uploads, r := UploadAll(root, order, t, replies);
    }

    /** The upload loop of `invoke`: the artifacts in the entry order
        `order`, each file under `root` to the build prefix plus its
        relative name, with token `t`; the i-th upload is answered by
        `replies(i)` and the first failure aborts the rest. */
    method UploadAll(root: string, order: seq<string>, t: UploadToken, replies: nat -> PutReply)
      returns (uploads: seq<Upload>, r: Result<(), IOError>)
      requires forall i :: 0 <= i < |order| ==> order[i] in artifactURLs
      ensures UploadsInOrder(root, order, t, replies, uploads, r)
    {
      uploads := [];
      var i := 0;
      while i < |order|
        invariant 0 <= i <= |order| && |uploads| == i
        invariant forall j :: 0 <= j < i ==> uploads[j] == UploadOf(root, order[j], t)
        invariant forall j :: 0 <= j < i ==> replies(j).Stored?
      {
        UploadsSnoc(root, order, t, uploads, i);
        uploads := uploads + [UploadOf(root, order[i], t)];
        if replies(i).PutThrew? {
          return uploads, Err(QiniuError(replies(i).message));
        }
        i := i + 1;
      }
      return uploads, Ok(());
    }

    /** Sending the next artifact keeps the uploads sent those of `order`,
        in order. */
    lemma UploadsSnoc(root: string, order: seq<string>, t: UploadToken, uploads: seq<Upload>, i: nat)
      requires i < |order| && |uploads| == i
      requires forall j :: 0 <= j < |order| ==> order[j] in artifactURLs
      requires forall j :: 0 <= j < i ==> uploads[j] == UploadOf(root, order[j], t)
      ensures forall j :: 0 <= j < i + 1 ==>
        (uploads + [UploadOf(root, order[i], t)])[j] == UploadOf(root, order[j], t)
    {
    }

    /** How the upload loop of `invoke` went: the uploads sent are the
        artifacts of `order` in that order, each with token `t`; every upload
        but the last one sent was stored; it ended well exactly when every
        artifact went out and the last one was stored, and otherwise with
        the failure of the last one sent. */
    predicate UploadsInOrder(root: string, order: seq<string>, t: UploadToken, replies: nat -> PutReply,
                             uploads: seq<Upload>, r: Result<(), IOError>)
      reads this
    {
      |uploads| <= |order|
      && (forall i :: 0 <= i < |uploads| ==> order[i] in artifactURLs && uploads[i] == UploadOf(root, order[i], t))
      && (forall i :: 0 <= i < |uploads| - 1 ==> replies(i).Stored?)
      && (r.Ok? <==> |uploads| == |order| && (uploads == [] || replies(|uploads| - 1).Stored?))
      && (r.Err? ==> uploads != [] && replies(|uploads| - 1).PutThrew?
                     && r.error == QiniuError(replies(|uploads| - 1).message))
    }

    /** The upload of the artifact `key`: its file under `root`, stored
        under the build prefix plus its relative name. */
    function UploadOf(root: string, key: string, t: UploadToken): Upload
      reads this
      requires key in artifactURLs
    {
      Upload(FileUnder(root, artifactURLs[key]), ObjectName(objectNamePrefix, key), t)
    }
  }

  /** Every key of an entry order is a key of the map. */
  lemma EntryOrderKeys<V>(order: seq<string>, m: map<string, V>)
    requires IsEntryOrder(order, m)
    ensures forall i :: 0 <= i < |order| ==> order[i] in m
  {
    forall i | 0 <= i < |order| ensures order[i] in m {
      EntryOrderKey(order, m, i);
    }
  }

  lemma EntryOrderKey<V>(order: seq<string>, m: map<string, V>, i: nat)
    requires IsEntryOrder(order, m) && i < |order|
    ensures order[i] in m
  {
    var listed := set j | 0 <= j < |order| :: order[j];
    assert m.Keys <= listed;
    if order[i] !in m {
      assert m.Keys <= listed - {order[i]};
      DistinctCount(order);
      assert |listed - {order[i]}| == |order| - 1;
      SubsetCard(m.Keys, listed - {order[i]});
      assert false;
    }
  }

  /** A sequence without repetitions has as many elements as it is long. */
  lemma {:induction false} DistinctCount(s: seq<string>)
    requires forall i, j :: 0 <= i < j < |s| ==> s[i] != s[j]
    ensures |set j | 0 <= j < |s| :: s[j]| == |s|
    decreases |s|
  {
    if s != [] {
      var init := s[..|s| - 1];
      DistinctCount(init);
      var a := set j | 0 <= j < |init| :: init[j];
      var b := set j | 0 <= j < |s| :: s[j];
      assert b == a + {s[|s| - 1]};
      assert s[|s| - 1] !in a;
    }
  }

  /** A subset is no larger than its superset. */
  lemma {:induction false} SubsetCard(a: set<string>, b: set<string>)
    requires a <= b
    ensures |a| <= |b|
    decreases |b|
  {
    if a != {} {
      var x :| x in a;
      SubsetCard(a - {x}, b - {x});
    }
  }
}
