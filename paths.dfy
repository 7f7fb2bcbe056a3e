/** Object keys and the `java.nio.file.Path` values the plugin derives from
    them (QiniuFileSystem.toPath, Path.getParent/getFileName/relativize and
    Path.toString), with paths written as their sequence of names. */
module Paths {
  import opened Common

  /** The names of a path, root first. Java's empty path `""` has exactly one
      name, the empty string; a path never has zero names. */
  type Path = seq<string>

  const EmptyPath: Path := [""]

  /** A name the tree can hold: non-empty and free of separators. */
  predicate IsName(s: string)
  {
    s != "" && Sep !in s
  }

  /** The paths `Paths.get` can produce: the empty path, or non-empty names. */
  predicate IsPath(p: Path)
  {
    p == EmptyPath || (p != [] && forall i :: 0 <= i < |p| ==> IsName(p[i]))
  }

  // ---------------------------------------------------------------------
  // Fields and String.split

  /** Index of the first separator in `s`, or `|s|` when there is none. */
  function IndexOfSep(s: string): (i: nat)
    ensures i <= |s|
    ensures i < |s| ==> s[i] == Sep
    ensures forall j :: 0 <= j < i ==> s[j] != Sep
  {
    if s == [] || s[0] == Sep then 0 else 1 + IndexOfSep(s[1..])
  }

  /** The pieces of `s` between separators, empty pieces included: one more
      piece than `s` has separators. */
  function Fields(s: string): (r: seq<string>)
    ensures |r| >= 1
    ensures forall k :: 0 <= k < |r| ==> Sep !in r[k]
    decreases |s|
  {
    var i := IndexOfSep(s);
    if i == |s| then [s] else [s[..i]] + Fields(s[i + 1..])
  }

  /** `Fields` of a concatenation around one separator is the concatenation of
      the `Fields`. */
  lemma {:induction false} FieldsAppend(a: string, b: string)
    ensures Fields(a + [Sep] + b) == Fields(a) + Fields(b)
    decreases |a|
  {
    var i := IndexOfSep(a);
    if i == |a| {
      FieldsAppendNoSep(a, b);
    } else {
      calc {
        Fields(a + [Sep] + b);
        { FieldsAppendSep(a, b, i); }
        [a[..i]] + Fields(a[i + 1..] + [Sep] + b);
        { FieldsAppend(a[i + 1..], b); }
        [a[..i]] + (Fields(a[i + 1..]) + Fields(b));
        [a[..i]] + Fields(a[i + 1..]) + Fields(b);
        { FieldsAppendSep(a, b, i); }
        Fields(a) + Fields(b);
      }
    }
  }

  lemma FieldsAppendNoSep(a: string, b: string)
    requires IndexOfSep(a) == |a|
    ensures Fields(a + [Sep] + b) == Fields(a) + Fields(b)
  {
    var s := a + [Sep] + b;
    IndexOfSepFirst(s, |a|);
    assert s[..|a|] == a;
    assert s[|a| + 1..] == b;
  }

  lemma FieldsAppendSep(a: string, b: string, i: nat)
    requires i == IndexOfSep(a) && i < |a|
    ensures Fields(a + [Sep] + b) == [a[..i]] + Fields(a[i + 1..] + [Sep] + b)
    ensures Fields(a) == [a[..i]] + Fields(a[i + 1..])
  {
    var s := a + [Sep] + b;
    IndexOfSepFirst(s, i);
    assert s[..i] == a[..i];
    assert s[i + 1..] == a[i + 1..] + [Sep] + b;
  }

  /** `IndexOfSep` is the first separator. */
  lemma {:induction false} IndexOfSepFirst(s: string, i: nat)
    requires i < |s| && s[i] == Sep
    requires forall j :: 0 <= j < i ==> s[j] != Sep
    ensures IndexOfSep(s) == i
    decreases i
  {
    if i > 0 {
      IndexOfSepFirst(s[1..], i - 1);
    }
  }

  predicate AllEmpty(f: seq<string>)
  {
    forall k :: 0 <= k < |f| ==> f[k] == ""
  }

  predicate AllSep(s: string)
  {
    forall j :: 0 <= j < |s| ==> s[j] == Sep
  }

  /** Every field is empty exactly when the string is made of separators only. */
  lemma {:induction false} FieldsAllEmpty(s: string)
    ensures AllEmpty(Fields(s)) <==> AllSep(s)
    decreases |s|
  {
    var i := IndexOfSep(s);
    if i == |s| {
      assert Fields(s) == [s];
      if s != [] {
        assert s[0] != Sep;
        assert !AllSep(s);
        assert Fields(s)[0] != "";
      }
    } else if i == 0 {
      var t := s[1..];
      FieldsAllEmpty(t);
      var fs, ft := Fields(s), Fields(t);
      assert fs == [""] + ft;
      assert AllEmpty(fs) <==> AllEmpty(ft) by {
        assert forall k :: 0 <= k < |ft| ==> fs[k + 1] == ft[k];
        if AllEmpty(ft) {
          forall k | 0 <= k < |fs| ensures fs[k] == "" {
            if k > 0 { assert fs[k] == ft[k - 1]; }
          }
        }
      }
      assert AllSep(t) <==> AllSep(s) by {
        assert forall j :: 0 <= j < |t| ==> s[j + 1] == t[j];
        if AllSep(t) {
          forall j | 0 <= j < |s| ensures s[j] == Sep {
            if j > 0 { assert s[j] == t[j - 1]; }
          }
        }
      }
    } else {
      assert Fields(s)[0] == s[..i];
      assert s[0] != Sep;
    }
  }

  /** Java's `String.split` with a limit of zero drops the trailing empty
      strings of the result. */
  function StripTrailingEmpty(f: seq<string>): (r: seq<string>)
    ensures |r| <= |f| && r == f[..|r|]
    ensures forall k :: |r| <= k < |f| ==> f[k] == ""
    ensures r != [] ==> r[|r| - 1] != ""
  {
    if f != [] && f[|f| - 1] == "" then StripTrailingEmpty(f[..|f| - 1]) else f
  }

  /** `objectName.split(Pattern.quote(File.separator))`: when the separator
      does not occur (in particular for `""`) the result is the string
      itself; otherwise the fields with the trailing empty ones removed. */
  function Split(s: string): seq<string>
  {
    if s == "" then [""] else StripTrailingEmpty(Fields(s))
  }

  /** Splitting gives no segment at all exactly when the key is a non-empty
      run of separators. */
  lemma SplitEmptyIff(s: string)
    ensures |Split(s)| == 0 <==> (s != "" && AllSep(s))
  {
    if s != "" {
      FieldsAllEmpty(s);
    }
  }

  // ---------------------------------------------------------------------
  // Paths.get and Path.toString

  /** The non-empty strings of `f`, in order. */
  function NonEmpty(f: seq<string>): (r: seq<string>)
    ensures |r| <= |f|
    ensures forall k :: 0 <= k < |r| ==> r[k] != "" && r[k] in f
  {
    if f == [] then []
    else if f[|f| - 1] == "" then NonEmpty(f[..|f| - 1])
    else NonEmpty(f[..|f| - 1]) + [f[|f| - 1]]
  }

  lemma {:induction false} NonEmptyAppend(a: seq<string>, b: seq<string>)
    ensures NonEmpty(a + b) == NonEmpty(a) + NonEmpty(b)
    decreases |b|
  {
    if b != [] {
      assert (a + b)[..|a + b| - 1] == a + b[..|b| - 1];
      NonEmptyAppend(a, b[..|b| - 1]);
    } else {
      assert a + b == a;
    }
  }

  lemma {:induction false} NonEmptyOfNames(f: seq<string>)
    requires forall k :: 0 <= k < |f| ==> f[k] != ""
    ensures NonEmpty(f) == f
    decreases |f|
  {
    if f != [] {
      NonEmptyOfNames(f[..|f| - 1]);
    }
  }

  /** The string `FileSystems.getDefault().getPath(first, more...)` parses:
      `first`, then each non-empty further segment, with a separator only
      when something precedes it. */
  function JoinForGet(segs: seq<string>): string
    requires |segs| >= 1
    decreases |segs|
  {
    if |segs| == 1 then segs[0]
    else
      var s := JoinForGet(segs[..|segs| - 1]);
      var seg := segs[|segs| - 1];
      if seg == "" then s else if s == "" then seg else s + [Sep] + seg
  }

  /** The names of the path a string denotes: redundant and trailing
      separators vanish, and the empty string is the empty path. */
  function NamesOf(s: string): (p: Path)
    ensures p != []
  {
    var ns := NonEmpty(Fields(s));
    if ns == [] then EmptyPath else ns
  }

  /** `FileSystems.getDefault().getPath(segs[0], segs[1..])`. */
  function PathsGet(segs: seq<string>): (p: Path)
    requires |segs| >= 1
  {
    NamesOf(JoinForGet(segs))
  }

  lemma {:induction false} JoinForGetNames(segs: seq<string>)
    requires |segs| >= 1
    requires forall k :: 0 <= k < |segs| ==> Sep !in segs[k]
    ensures NonEmpty(Fields(JoinForGet(segs))) == NonEmpty(segs)
    decreases |segs|
  {
    if |segs| > 1 {
      var init := segs[..|segs| - 1];
      var seg := segs[|segs| - 1];
      var s := JoinForGet(init);
      JoinForGetNames(init);
      assert segs == init + [seg];
      NonEmptyAppend(init, [seg]);
      if seg == "" {
      } else if s == "" {
        assert Fields(seg) == [seg];
      } else {
        FieldsAppend(s, seg);
        assert Fields(seg) == [seg];
        NonEmptyAppend(Fields(s), [seg]);
      }
    } else {
      assert Fields(segs[0]) == [segs[0]];
    }
  }

  /** For separator-free segments `Paths.get` keeps exactly the non-empty
      segments, in order, and yields the empty path when there are none. */
  lemma PathsGetOfSegments(segs: seq<string>)
    requires |segs| >= 1
    requires forall k :: 0 <= k < |segs| ==> Sep !in segs[k]
    ensures PathsGet(segs) == (if NonEmpty(segs) == [] then EmptyPath else NonEmpty(segs))
  {
    JoinForGetNames(segs);
  }

  /** `Path.toString()`: the names joined by the separator. */
  function Join(p: seq<string>): string
    decreases |p|
  {
    if p == [] then "" else if |p| == 1 then p[0] else p[0] + [Sep] + Join(p[1..])
  }

  lemma {:induction false} FieldsOfJoin(p: seq<string>)
    requires p != []
    requires forall k :: 0 <= k < |p| ==> Sep !in p[k]
    ensures Fields(Join(p)) == p
    decreases |p|
  {
    if |p| == 1 {
      assert Fields(p[0]) == [p[0]];
    } else {
      FieldsAppend(p[0], Join(p[1..]));
      FieldsOfJoin(p[1..]);
      assert Fields(p[0]) == [p[0]];
    }
  }

  // ---------------------------------------------------------------------
  // QiniuFileSystem.toPath

  /** `QiniuFileSystem.toPath`: split the key on the separator, fail when no
      segment is left, and build a path from the segments. */
  function ToPath(objectName: string): (r: Result<Path, IOError>)
    ensures r.Err? <==> |Split(objectName)| == 0
    ensures r.Err? <==> (objectName != "" && AllSep(objectName))
    ensures r.Ok? ==> IsPath(r.value)
  {
    SplitEmptyIff(objectName);
    var segments := Split(objectName);
    if |segments| == 0 then Err(InvalidPathError("Path is empty"))
    else
      var p := PathsGet(segments);
      assert forall k :: 0 <= k < |segments| ==> Sep !in segments[k] by {
        if objectName != "" {
          assert forall k :: 0 <= k < |segments| ==> segments[k] == Fields(objectName)[k];
        }
      }
      PathsGetOfSegments(segments);
      Ok(p)
  }

  /** A path printed with `toString` and read back with `toPath` is the same
      path. */
  lemma ToPathOfJoin(p: Path)
    requires IsPath(p)
    ensures ToPath(Join(p)) == Ok(p)
  {
    if p == EmptyPath {
      assert Join(p) == "";
      assert Split("") == [""];
      assert NonEmpty([""]) == [];
      PathsGetOfSegments([""]);
    } else {
      FieldsOfJoin(p);
      assert Join(p) != "" by {
        assert |Join(p)| >= |p[0]|;
      }
      assert Split(Join(p)) == p;
      NonEmptyOfNames(p);
      PathsGetOfSegments(p);
    }
  }

  // ---------------------------------------------------------------------
  // Path.getParent, Path.getFileName, Path.relativize

  /** `Path.getParent()` of a relative path: null for a single name. */
  function Parent(p: Path): (r: Option<Path>)
    ensures r.Some? <==> |p| >= 2
    ensures r.Some? ==> r.value + [p[|p| - 1]] == p
  {
    if |p| <= 1 then None else Some(p[..|p| - 1])
  }

  /** `Path.getFileName()`: the last name; only a path without names has none. */
  function FileName(p: Path): (r: Option<string>)
    ensures r.Some? <==> p != []
    ensures r.Some? ==> r.value == p[|p| - 1]
  {
    if p == [] then None else Some(p[|p| - 1])
  }

  /** Number of leading names two paths share. */
  function CommonPrefixLength(a: Path, b: Path): (n: nat)
    ensures n <= |a| && n <= |b|
    ensures a[..n] == b[..n]
    ensures n < |a| && n < |b| ==> a[n] != b[n]
  {
    if a == [] || b == [] || a[0] != b[0] then 0
    else 1 + CommonPrefixLength(a[1..], b[1..])
  }

  function Dots(n: nat): (r: Path)
    ensures |r| == n
    ensures forall k :: 0 <= k < n ==> r[k] == ".."
  {
    if n == 0 then [] else Dots(n - 1) + [".."]
  }

  /** `base.relativize(child)` for relative paths whose names are neither
      `.` nor `..`: the empty path for equal paths, `child` itself for an empty
      base, otherwise one `..` per unmatched name of `base` followed by the
      unmatched names of `child`. */
  function Relativize(base: Path, child: Path): Path
  {
    if child == base then EmptyPath
    else if base == EmptyPath then child
    else
      var i := CommonPrefixLength(base, child);
      var rest := if i == |child| || child[i..] == EmptyPath then [] else child[i..];
      if i == |base| then (if rest == [] then EmptyPath else rest)
      else Dots(|base| - i) + rest
  }

  /** Relativising against a proper prefix strips that prefix. */
  lemma RelativizePrefix(base: Path, child: Path)
    requires IsPath(base) && IsPath(child) && base != EmptyPath
    requires |base| < |child| && child[..|base|] == base
    ensures Relativize(base, child) == child[|base|..]
  {
    var i := CommonPrefixLength(base, child);
    assert i == |base|;
    assert child[i..] != EmptyPath by {
      assert child[i] != "";
    }
  }
}
