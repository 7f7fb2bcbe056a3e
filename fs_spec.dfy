/** What the path operations of `QiniuFileSystem` do to the directory tree,
    stated as functions of the tree before the call: the tree after the
    call and what the call returned or threw. The class in
    `QiniuFileSystem` is proved to follow these functions, and the lemmas
    here state what they guarantee. */
module FileSystemSpec {
  import opened Common
  import opened Paths
  import opened Remote
  import opened DirectoryTree
  import opened Batching
  import opened BulkDeletion

  /** The tree after an operation, and what the operation returned or threw. */
  datatype Outcome<T> = Outcome(tree: Tree, result: Result<T, IOError>)

  // ---------------------------------------------------------------------
  // getNodeByPath

  /** The number of leading names of `p` that lead to directories. */
  function DirDepth(t: Tree, p: Path): (k: nat)
    ensures k <= |p|
    decreases |p|
  {
    if p != [] && t.Dir? && p[0] in t.children && t.children[p[0]].Dir? then
      1 + DirDepth(t.children[p[0]], p[1..])
    else 0
  }

  lemma {:induction false} DirDepthSpec(t: Tree, p: Path)
    requires t.Dir?
    ensures forall j :: 0 <= j <= DirDepth(t, p) ==> IsDirAt(t, p[..j])
    ensures DirDepth(t, p) < |p| ==> !IsDirAt(t, p[..DirDepth(t, p) + 1])
    decreases |p|
  {
    var k := DirDepth(t, p);
    if k > 0 {
      var c := t.children[p[0]];
      DirDepthSpec(c, p[1..]);
      forall j | 0 <= j <= k ensures IsDirAt(t, p[..j]) {
        if j > 0 {
          assert p[..j] == [p[0]] + p[1..][..j - 1];
          LookupCons(t, p[0], p[1..][..j - 1]);
        }
      }
      if k < |p| {
        assert p[..k + 1] == [p[0]] + p[1..][..k - 1 + 1];
        LookupCons(t, p[0], p[1..][..k - 1 + 1]);
      }
    } else if p != [] {
      assert p[..1] == [p[0]] + [];
      LookupCons(t, p[0], []);
    }
  }

  /** The deepest name the walk passes leads to a directory. */
  lemma DirDepthTop(t: Tree, p: Path)
    requires t.Dir?
    ensures IsDirAt(t, p[..DirDepth(t, p)])
  {
    DirDepthSpec(t, p);
  }

  lemma DirDepthAt(t: Tree, p: Path, j: nat)
    requires t.Dir? && j <= DirDepth(t, p)
    ensures IsDirAt(t, p[..j])
  {
    DirDepthSpec(t, p);
  }

  /** The name after the deepest one the walk passes is not a directory. */
  lemma DirDepthNext(t: Tree, p: Path)
    requires t.Dir? && DirDepth(t, p) < |p|
    ensures !IsDirAt(t, p[..DirDepth(t, p) + 1])
  {
    DirDepthSpec(t, p);
  }

  /** The walk passes every name of a path that leads to a directory. */
  lemma {:induction false} DirDepthOfDir(t: Tree, q: Path)
    requires t.Dir? && IsDirAt(t, q)
    ensures DirDepth(t, q) == |q|
    decreases |q|
  {
    if q != [] {
      assert q == [q[0]] + q[1..];
      LookupCons(t, q[0], q[1..]);
      var c := t.children[q[0]];
      DirDepthOfDir(c, q[1..]);
    }
  }

  /** `getNodeByPath(path, createDirectory, createNodeAsDirectory)`: walk the
      names from the root; a non-final name must lead to a directory, and a
      missing one is created when `createDirectory` is set; the final name
      is created as a directory when it is missing and
      `createNodeAsDirectory` is set, and otherwise whatever it leads to (or
      null) is returned. Every directory created on the way is a fresh chain
      hanging below the first missing name. */
  function GetNode(t: Tree, p: Path, createDirectory: bool, createNodeAsDirectory: bool)
    : (o: Outcome<Option<Tree>>)
    requires t.Dir?
    ensures o.tree.Dir?
    ensures o.result.Err? ==> o.result.error.InvalidPathError?
  {
    if p == [] then Outcome(t, Ok(Some(t)))
    else
      var n := |p|;
      var k := DirDepth(t, p[..n - 1]);
      if k < n - 1 then
        if Lookup(t, p[..k + 1]).Some? || !createDirectory then
          Outcome(t, Err(NotDirectoryError(p, k)))
        else if createNodeAsDirectory then
          Outcome(Put(t, p[..k + 1], Chain(p[k + 1..])), Ok(Some(EmptyDir)))
        else
          Outcome(Put(t, p[..k + 1], Chain(p[k + 1..n - 1])), Ok(None))
      else if createNodeAsDirectory && Lookup(t, p).None? then
        Outcome(Put(t, p, EmptyDir), Ok(Some(EmptyDir)))
      else
        Outcome(t, Ok(Lookup(t, p)))
  }

  /** How many names before the last one the walk finds as existing
      directories. */
  function WalkDepth(t: Tree, p: Path): (k: nat)
    ensures p != [] ==> k < |p|
  {
    if p == [] then 0 else DirDepth(t, p[..|p| - 1])
  }

  /** The tree once the walk has passed `i` names: unchanged while it
      passes existing directories, then with a chain of created directories
      below the first missing name. */
  function WalkTree(t: Tree, p: Path, i: nat): Tree
    requires i <= |p|
  {
    var k := WalkDepth(t, p);
    if i <= k then t else Put(t, p[..k + 1], Chain(p[k + 1..i]))
  }

  /** The walk reaches name `i`: it has passed existing directories only,
      or it is creating the missing ones. */
  predicate WalkGoesOn(t: Tree, p: Path, createDirectory: bool, i: nat)
  {
    var k := WalkDepth(t, p);
    i <= k || (k < |p| && Lookup(t, p[..k + 1]).None? && createDirectory)
  }

  /** The names the walk finds lead to directories. */
  lemma WalkDepthAt(t: Tree, p: Path, j: nat)
    requires t.Dir? && p != [] && j <= WalkDepth(t, p)
    ensures IsDirAt(t, p[..j])
  {
    DirDepthAt(t, p[..|p| - 1], j);
    assert p[..|p| - 1][..j] == p[..j];
  }

  /** Below the first missing name the walk stands in the fresh chain: a
      directory without children. */
  lemma WalkInChain(t: Tree, p: Path, i: nat)
    requires t.Dir? && p != [] && WalkDepth(t, p) < i < |p|
    ensures Lookup(WalkTree(t, p, i), p[..i]) == Some(EmptyDir)
    ensures Lookup(WalkTree(t, p, i), p[..i + 1]) == None
  {
    var k := WalkDepth(t, p);
    var a := p[..k + 1];
    var s := p[k + 1..i];
    assert IsDirAt(t, a[..|a| - 1]) by {
      WalkDepthAt(t, p, k);
      assert a[..|a| - 1] == p[..k];
    }
    assert p[..i] == a + s;
    assert p[..i + 1] == a + (s + [p[i]]);
    PutLookupBelow(t, a, Chain(s), s);
    PutLookupBelow(t, a, Chain(s), s + [p[i]]);
    ChainLookup(s, s);
    ChainLookup(s, s + [p[i]]);
    assert s[|s|..] == [];
  }

  /** Where the walk stands before name `i`: a directory, whose child of
      that name is the original one while no directory was created, and
      none once the walk is creating. */
  lemma WalkCurrent(t: Tree, p: Path, cd: bool, i: nat)
    requires t.Dir? && i < |p| && WalkGoesOn(t, p, cd, i)
    ensures IsDirAt(WalkTree(t, p, i), p[..i])
    ensures Lookup(WalkTree(t, p, i), p[..i + 1]) ==
      if i <= WalkDepth(t, p) then Lookup(t, p[..i + 1]) else None
  {
    if i <= WalkDepth(t, p) {
      WalkDepthAt(t, p, i);
    } else {
      WalkInChain(t, p, i);
    }
  }

  /** Extending a slice by the next name: the step that adds one more
      directory to the chain in `WalkCreates` and `ChainToEnd`. */
  lemma SliceJoin(p: Path, j: nat, i: nat)
    requires j <= i < |p|
    ensures p[..j] + p[j..i] + [p[i]] == p[..i + 1]
    ensures p[j..i] + [p[i]] == p[j..i + 1]
  {
  }

  /** The error `getNodeByPath` throws at a non-final name that is not a
      directory. */
  function NotDirectoryError(p: Path, i: nat): IOError
    requires i < |p|
  {
    InvalidPathError("Path " + Join(p) + " is invalid, file " + p[i] + " is not directory")
  }

  /** One step of the walk at a non-final name: a directory is entered, a
      missing name becomes a created directory when `createDirectory` is
      set, and anything else is the first name that does not lead to a
      directory, met with the tree as it was, where the walk ends with
      `NotDirectoryError` (`NotDirectoryOutcome`). */
  predicate WalkStep(t: Tree, p: Path, cd: bool, i: nat)
    requires i < |p|
  {
    var T := WalkTree(t, p, i);
    IsDirAt(T, p[..i])
    && var next := GetByName(Lookup(T, p[..i]).value, p[i]);
      (next.Some? && next.value.Dir? ==> WalkGoesOn(t, p, cd, i + 1) && WalkTree(t, p, i + 1) == T)
      && (next.None? && cd ==>
            WalkGoesOn(t, p, cd, i + 1) && WalkTree(t, p, i + 1) == Put(T, p[..i + 1], EmptyDir))
      && (!(next.Some? && next.value.Dir?) && !(next.None? && cd) ==>
            i == WalkDepth(t, p) && T == t && (Lookup(t, p[..i + 1]).Some? || !cd))
  }

  /** Every step of the walk at a non-final name is a `WalkStep`. */
  lemma WalkInner(t: Tree, p: Path, cd: bool, i: nat)
    requires t.Dir? && i < |p| - 1 && WalkGoesOn(t, p, cd, i)
    ensures WalkStep(t, p, cd, i)
  {
    var k := WalkDepth(t, p);
    if i < k {
      WalkEnters(t, p, cd, i);
    } else if i == k {
      WalkMeetsDepth(t, p, cd, i);
    } else {
      WalkCreates(t, p, cd, i);
    }
  }

  /** Before the first name that is not a directory, the walk enters it. */
  lemma WalkEnters(t: Tree, p: Path, cd: bool, i: nat)
    requires t.Dir? && i < |p| - 1 && i < WalkDepth(t, p)
    ensures WalkStep(t, p, cd, i)
  {
    WalkCurrent(t, p, cd, i);
    assert p[..i] + [p[i]] == p[..i + 1];
    LookupSnoc(t, p[..i], p[i]);
    WalkDepthAt(t, p, i + 1);
  }

  /** At the first name that is not a directory, the walk creates it or
      stops there. */
  lemma WalkMeetsDepth(t: Tree, p: Path, cd: bool, i: nat)
    requires t.Dir? && i < |p| - 1 && i == WalkDepth(t, p)
    ensures WalkStep(t, p, cd, i)
  {
    var n := |p|;
    WalkCurrent(t, p, cd, i);
    assert p[..i] + [p[i]] == p[..i + 1];
    LookupSnoc(t, p[..i], p[i]);
    DirDepthNext(t, p[..n - 1]);
    assert p[..n - 1][..i + 1] == p[..i + 1];
    assert Chain(p[i + 1..i + 1]) == EmptyDir;
  }

  /** Below the first missing name the walk extends the created chain. */
  lemma WalkCreates(t: Tree, p: Path, cd: bool, i: nat)
    requires t.Dir? && i < |p| - 1 && WalkDepth(t, p) < i && WalkGoesOn(t, p, cd, i)
    ensures WalkStep(t, p, cd, i)
  {
    var k := WalkDepth(t, p);
    var T := WalkTree(t, p, i);
    assert cd && Lookup(t, p[..k + 1]).None?;
    assert IsDirAt(T, p[..i]) && GetByName(Lookup(T, p[..i]).value, p[i]).None? by {
      WalkInChain(t, p, i);
    }
    assert WalkTree(t, p, i + 1) == Put(T, p[..i + 1], EmptyDir) by {
      var a := p[..k + 1];
      var s := p[k + 1..i];
      WalkDepthAt(t, p, k);
      assert a[..|a| - 1] == p[..k];
      ExtendChain(t, a, s, p[i]);
      SliceJoin(p, k + 1, i);
    }
  }


  /** A walk that stops at a non-final name that is neither a directory nor
      missing with `createDirectory` set throws `NotDirectoryError` and
      leaves the tree as it was. `GetNodeByPath` uses it in the error branch
      of its loop. */
  lemma NotDirectoryOutcome(t: Tree, p: Path, k: nat, cd: bool, cnd: bool)
    requires t.Dir? && p != [] && k == DirDepth(t, p[..|p| - 1]) && k < |p| - 1
    requires Lookup(t, p[..k + 1]).Some? || !cd
    ensures GetNode(t, p, cd, cnd) == Outcome(t, Err(NotDirectoryError(p, k)))
  {
  }

  /** The last step of a walk that created no directory, as the final
      iteration of `GetNodeByPath`'s loop meets it (through `WalkLast`). */
  lemma WalkLastFound(t: Tree, p: Path, cnd: bool, cd: bool)
    requires t.Dir? && p != [] && WalkDepth(t, p) == |p| - 1
    ensures GetNode(t, p, cd, cnd) ==
      if cnd && Lookup(t, p).None? then Outcome(Put(t, p, EmptyDir), Ok(Some(EmptyDir)))
      else Outcome(t, Ok(Lookup(t, p)))
  {
    assert p[..|p|] == p;
  }

  /** The last step of a walk that is creating directories: the chain ends
      in the final name when `createNodeAsDirectory` is set, and above it
      otherwise. */
  lemma WalkLastCreating(t: Tree, p: Path, cd: bool, cnd: bool)
    requires t.Dir? && p != [] && WalkDepth(t, p) < |p| - 1
    requires Lookup(t, p[..WalkDepth(t, p) + 1]).None? && cd
    ensures var T := WalkTree(t, p, |p| - 1);
      GetNode(t, p, cd, cnd) ==
        if cnd then Outcome(Put(T, p, EmptyDir), Ok(Some(EmptyDir))) else Outcome(T, Ok(None))
  {
    var k := WalkDepth(t, p);
    CreatingOutcome(t, p, k, cd, cnd);
    CreatingWalkTree(t, p, cd);
    if cnd {
      WalkDepthAt(t, p, k);
      ChainToEnd(t, p, k);
    }
  }

  /** A walk that creates directories from `p[..k + 1]` on, `k` being the
      number of names it finds as directories, hangs a chain there, reaching
      the final name only with `createNodeAsDirectory`. It gives the result
      of the loop's last step in `WalkLastCreating`. */
  lemma CreatingOutcome(t: Tree, p: Path, k: nat, cd: bool, cnd: bool)
    requires t.Dir? && p != [] && k == DirDepth(t, p[..|p| - 1]) && k < |p| - 1
    requires Lookup(t, p[..k + 1]).None? && cd
    ensures GetNode(t, p, cd, cnd) ==
      if cnd then Outcome(Put(t, p[..k + 1], Chain(p[k + 1..])), Ok(Some(EmptyDir)))
      else Outcome(Put(t, p[..k + 1], Chain(p[k + 1..|p| - 1])), Ok(None))
  {
  }

  /** The same walk stopped before the final name leaves the chain without
      that name. */
  lemma CreatingWalkTree(t: Tree, p: Path, cd: bool)
    requires t.Dir? && p != [] && WalkDepth(t, p) < |p| - 1
    requires Lookup(t, p[..WalkDepth(t, p) + 1]).None? && cd
    ensures var k := WalkDepth(t, p);
      WalkTree(t, p, |p| - 1) == Put(t, p[..k + 1], Chain(p[k + 1..|p| - 1]))
  {
  }

  /** Creating the final name as a directory below a fresh chain extends the
      chain by that name. */
  lemma ChainToEnd(t: Tree, p: Path, k: nat)
    requires k < |p| - 1 && IsDirAt(t, p[..k])
    ensures Put(Put(t, p[..k + 1], Chain(p[k + 1..|p| - 1])), p, EmptyDir)
         == Put(t, p[..k + 1], Chain(p[k + 1..]))
  {
    var n := |p|;
    var a, s, x := p[..k + 1], p[k + 1..n - 1], p[n - 1];
    assert a[..|a| - 1] == p[..k];
    SliceJoin(p, k + 1, n - 1);
    assert p[..n] == p && p[k + 1..n] == p[k + 1..];
    calc {
      Put(Put(t, a, Chain(s)), p, EmptyDir);
      { assert a + s + [x] == p; }
      Put(Put(t, a, Chain(s)), a + s + [x], EmptyDir);
      { ExtendChain(t, a, s, x); }
      Put(t, a, Chain(s + [x]));
      { assert s + [x] == p[k + 1..]; }
      Put(t, a, Chain(p[k + 1..]));
    }
  }

  /** The last step of the walk: the final name is created as a directory
      when it is missing and `createNodeAsDirectory` is set, and is
      returned as found otherwise. */
  lemma WalkLast(t: Tree, p: Path, cd: bool, cnd: bool)
    requires t.Dir? && p != [] && WalkGoesOn(t, p, cd, |p| - 1)
    ensures IsDirAt(WalkTree(t, p, |p| - 1), p[..|p| - 1])
    ensures var T := WalkTree(t, p, |p| - 1);
      var next := GetByName(Lookup(T, p[..|p| - 1]).value, p[|p| - 1]);
      GetNode(t, p, cd, cnd) ==
        if cnd && next.None? then Outcome(Put(T, p, EmptyDir), Ok(Some(EmptyDir)))
        else Outcome(T, Ok(next))
  {
    var n := |p|;
    var T := WalkTree(t, p, n - 1);
    WalkCurrent(t, p, cd, n - 1);
    assert p[..n] == p;
    LookupByName(T, p);
    if WalkDepth(t, p) < n - 1 {
      WalkLastCreating(t, p, cd, cnd);
    } else {
      assert T == t;
      WalkLastFound(t, p, cnd, cd);
    }
  }

  /** A non-final name stops the walk: it leads to a file, or to nothing
      while missing directories are not to be created. */
  predicate Blocks(t: Tree, q: Path, createDirectory: bool)
  {
    IsFileAt(t, q) || (!createDirectory && Lookup(t, q).None?)
  }

  /** The walk fails exactly when a non-final name blocks it, and a failed
      walk leaves the tree as it was. */
  lemma GetNodeFails(t: Tree, p: Path, cd: bool, cnd: bool)
    requires t.Dir?
    ensures GetNode(t, p, cd, cnd).result.Err?
        <==> exists j :: 1 <= j < |p| && Blocks(t, p[..j], cd)
    ensures GetNode(t, p, cd, cnd).result.Err? ==> GetNode(t, p, cd, cnd).tree == t
  {
    if p != [] {
      var n := |p|;
      var k := DirDepth(t, p[..n - 1]);
      if k < n - 1 {
        DirDepthNext(t, p[..n - 1]);
        assert p[..n - 1][..k + 1] == p[..k + 1];
      }
      if GetNode(t, p, cd, cnd).result.Err? {
        assert Blocks(t, p[..k + 1], cd);
      }
      if exists j :: 1 <= j < n && Blocks(t, p[..j], cd) {
        var j :| 1 <= j < n && Blocks(t, p[..j], cd);
        if j <= k {
          NotBlockedBelow(t, p, cd, j);
        }
        assert k < j;
        if k + 1 < j && Lookup(t, p[..j]).Some? {
          AncestorIsDir(t, p[..j], k + 1);
          assert p[..j][..k + 1] == p[..k + 1];
        }
      }
    }
  }

  /** No name up to the deepest directory the walk passes blocks it. */
  lemma NotBlockedBelow(t: Tree, p: Path, cd: bool, j: nat)
    requires t.Dir? && 1 <= j < |p| && j <= DirDepth(t, p[..|p| - 1])
    ensures !Blocks(t, p[..j], cd)
  {
    DirDepthAt(t, p[..|p| - 1], j);
    assert p[..|p| - 1][..j] == p[..j];
  }

  /** What a successful walk returns is the node the tree holds at the
      path afterwards; with `createNodeAsDirectory` that node always exists
      and is a fresh directory when the path was missing. */
  lemma GetNodeFound(t: Tree, p: Path, cd: bool, cnd: bool)
    requires t.Dir?
    ensures var o := GetNode(t, p, cd, cnd);
      o.result.Ok? ==>
        o.result.value == Lookup(o.tree, p)
        && (cnd ==> o.result.value.Some?)
        && (cnd && Lookup(t, p).None? ==> o.result.value == Some(EmptyDir))
  {
    if p != [] {
      var n := |p|;
      var k := DirDepth(t, p[..n - 1]);
      DirDepthTop(t, p[..n - 1]);
      assert p[..n - 1][..k] == p[..k];
      if k < n - 1 && Lookup(t, p[..k + 1]).None? && cd {
        CreatedLookup(t, p, k, cnd);
      } else if k == n - 1 && cnd && Lookup(t, p).None? {
        assert p[..n - 1][..k] == p[..n - 1];
        PutLookupHere(t, p, EmptyDir);
      }
    }
  }

  /** A node put at a path is found there. */
  lemma PutLookupHere(t: Tree, p: Path, n: Tree)
    requires p != [] && IsDirAt(t, p[..|p| - 1])
    ensures Lookup(Put(t, p, n), p) == Some(n)
  {
    PutLookupBelow(t, p, n, []);
    assert p + [] == p;
  }

  /** The chain of directories a walk creates below its last existing
      directory holds the path's own node exactly when the walk creates
      that node too. */
  lemma CreatedLookup(t: Tree, p: Path, k: nat, cnd: bool)
    requires k < |p| - 1 && IsDirAt(t, p[..k])
    ensures var s := if cnd then p[k + 1..] else p[k + 1..|p| - 1];
      Lookup(Put(t, p[..k + 1], Chain(s)), p) == (if cnd then Some(EmptyDir) else None)
  {
    var a := p[..k + 1];
    assert a[..|a| - 1] == p[..k];
    var s := if cnd then p[k + 1..] else p[k + 1..|p| - 1];
    assert p == a + p[k + 1..];
    PutLookupBelow(t, a, Chain(s), p[k + 1..]);
    ChainLookup(s, p[k + 1..]);
    if cnd {
      assert s[|p[k + 1..]|..] == [];
    }
  }

  lemma PrefixOfJoin(a: Path, r: Path, s: Path)
    requires IsPrefix(r, s)
    ensures IsPrefix(a + r, a + s)
  {
    assert (a + s)[..|a + r|] == a + s[..|r|];
  }

  /** The walk changes the tree only by adding directories where nothing
      was: on proper ancestors of the path only when `createDirectory` is
      set, and at the path itself only when `createNodeAsDirectory` is set.
      Every node that existed keeps its kind. */
  lemma GetNodeChanges(t: Tree, p: Path, cd: bool, cnd: bool)
    requires t.Dir?
    ensures var o := GetNode(t, p, cd, cnd);
      forall q :: At(o.tree, q) != At(t, q) ==>
        At(t, q).None? && At(o.tree, q) == Some(DirEntry) && IsPrefix(q, p)
        && (|q| == |p| ==> cnd) && (|q| < |p| ==> cd)
  {
    if p != [] {
      var n := |p|;
      var k := DirDepth(t, p[..n - 1]);
      DirDepthTop(t, p[..n - 1]);
      assert p[..n - 1][..k] == p[..k];
      if k < n - 1 && Lookup(t, p[..k + 1]).None? && cd {
        var s := if cnd then p[k + 1..] else p[k + 1..n - 1];
        assert GetNode(t, p, cd, cnd).tree == Put(t, p[..k + 1], Chain(s));
        ChainChanges(t, p, k, s, cnd);
      } else if k == n - 1 && cnd && Lookup(t, p).None? {
        assert GetNode(t, p, cd, cnd).tree == Put(t, p, Chain([]));
        LastChanges(t, p);
      }
    }
  }

  /** The chain a walk hangs below its last existing directory `p[..k]`
      adds directories along the path only, reaching the path itself only
      with `createNodeAsDirectory`. */
  lemma ChainChanges(t: Tree, p: Path, k: nat, s: Path, cnd: bool)
    requires k < |p| - 1 && IsDirAt(t, p[..k]) && Lookup(t, p[..k + 1]).None?
    requires s == if cnd then p[k + 1..] else p[k + 1..|p| - 1]
    ensures forall q :: At(Put(t, p[..k + 1], Chain(s)), q) != At(t, q) ==>
        At(t, q).None? && At(Put(t, p[..k + 1], Chain(s)), q) == Some(DirEntry)
        && IsPrefix(q, p) && (|q| == |p| ==> cnd)
  {
    var n := |p|;
    var a := p[..k + 1];
    assert a[..|a| - 1] == p[..k];
    assert a + s == if cnd then p else p[..n - 1];
    forall q | At(Put(t, a, Chain(s)), q) != At(t, q)
      ensures At(t, q).None? && At(Put(t, a, Chain(s)), q) == Some(DirEntry)
              && IsPrefix(q, p) && (|q| == |p| ==> cnd)
    {
      PutChainChanges(t, a, s, q);
      if !cnd {
        assert p[..n - 1][..|q|] == p[..|q|];
      }
    }
  }

  /** Creating the missing last node of a path adds that one directory. */
  lemma LastChanges(t: Tree, p: Path)
    requires p != [] && IsDirAt(t, p[..|p| - 1]) && Lookup(t, p).None?
    ensures forall q :: At(Put(t, p, Chain([])), q) != At(t, q) ==>
      At(t, q).None? && At(Put(t, p, Chain([])), q) == Some(DirEntry) && IsPrefix(q, p) && |q| == |p|
  {
    assert p + [] == p;
    forall q | At(Put(t, p, Chain([])), q) != At(t, q)
      ensures At(t, q).None? && At(Put(t, p, Chain([])), q) == Some(DirEntry) && IsPrefix(q, p) && |q| == |p|
    {
      PutChainChanges(t, p, [], q);
    }
  }

  /** Hanging a fresh chain of directories at a missing name changes the
      tree only by new directories along that chain. */
  lemma PutChainChanges(t: Tree, a: Path, s: Path, q: Path)
    requires a != [] && IsDirAt(t, a[..|a| - 1]) && Lookup(t, a).None?
    ensures At(Put(t, a, Chain(s)), q) != At(t, q) ==>
      At(t, q).None? && At(Put(t, a, Chain(s)), q) == Some(DirEntry)
      && IsPrefix(q, a + s) && |a| <= |q|
  {
    PutAt(t, a, Chain(s), q);
    if IsPrefix(a, q) {
      BelowMissing(t, a, q);
      ChainAt(s, q[|a|..]);
      assert q == a + q[|a|..];
      if IsPrefix(q[|a|..], s) {
        PrefixOfJoin(a, q[|a|..], s);
      }
    }
  }

  /** A tree whose entries did not change is the same tree. */
  lemma Unchanged(t: Tree, t': Tree)
    requires forall q :: At(t', q) == At(t, q)
    ensures t' == t
  {
    Extensionality(t', t);
  }

  // ---------------------------------------------------------------------
  // getFileNodeByPath, getDirectoryNodeByPath, getParentNodeByPath

  /** `getFileNodeByPath`: walk without creating the final name and insist
      on a file. */
  function GetFileNode(t: Tree, p: Path, createDirectory: bool): (o: Outcome<FileInfo>)
    requires t.Dir?
    ensures o.tree.Dir?
  {
    var w := GetNode(t, p, createDirectory, false);
    match w.result
    case Err(e) => Outcome(w.tree, Err(e))
    case Ok(r) =>
      if r.Some? && r.value.File? then Outcome(w.tree, Ok(r.value.metadata))
      else Outcome(w.tree, Err(InvalidPathError(
        "Path " + Join(p) + " is invalid, file " + FileNameText(p) + " is not a file")))
  }

  /** `path.getFileName()` as string concatenation prints it. */
  function FileNameText(p: Path): string
  {
    match FileName(p)
    case None => "null"
    case Some(name) => name
  }

  /** The file lookup succeeds exactly on a file and returns its metadata;
      it can add directories only where nothing was, and only when
      `createDirectory` is set. */
  lemma GetFileNodeSpec(t: Tree, p: Path, cd: bool)
    requires t.Dir?
    ensures var o := GetFileNode(t, p, cd);
      (o.result.Ok? <==> IsFileAt(t, p))
      && (o.result.Ok? ==> o.tree == t && o.result.value == Lookup(t, p).value.metadata)
      && (!cd ==> o.tree == t)
      && (forall q :: At(o.tree, q) != At(t, q) ==>
            At(t, q).None? && At(o.tree, q) == Some(DirEntry) && IsPrefix(q, p) && |q| < |p|)
  {
    var w := GetNode(t, p, cd, false);
    GetNodeFails(t, p, cd, false);
    GetNodeFound(t, p, cd, false);
    GetNodeChanges(t, p, cd, false);
    if !cd {
      Unchanged(t, w.tree);
    }
    if IsFileAt(t, p) {
      forall j | 1 <= j < |p| ensures !Blocks(t, p[..j], cd) {
        AncestorIsDir(t, p, j);
      }
      forall q ensures At(w.tree, q) == At(t, q) {
        if At(w.tree, q) != At(t, q) {
          assert IsPrefix(q, p) && |q| < |p|;
          assert q == p[..|q|];
          AncestorIsDir(t, p, |q|);
        }
      }
      Unchanged(t, w.tree);
    }
    if w.result.Ok? && w.result.value.Some? && w.result.value.value.File? {
      assert At(w.tree, p) != At(t, p) ==> |p| < |p|;
    }
  }

  /** `getDirectoryNodeByPath`: walk, creating the final name as well when
      `createDirectory` is set, and insist on a directory. */
  function GetDirectoryNode(t: Tree, p: Path, createDirectory: bool): (o: Outcome<Tree>)
    requires t.Dir?
    ensures o.tree.Dir?
    ensures o.result.Ok? ==> o.result.value.Dir?
    ensures o.result.Err? ==> o.result.error.InvalidPathError?
  {
    var w := GetNode(t, p, createDirectory, createDirectory);
    match w.result
    case Err(e) => Outcome(w.tree, Err(e))
    case Ok(r) =>
      if r.Some? && r.value.Dir? then Outcome(w.tree, Ok(r.value))
      else Outcome(w.tree, Err(InvalidPathError(
        "Path " + Join(p) + " is invalid, file " + FileNameText(p) + " is not a directory")))
  }

  /** Without creation the directory lookup changes nothing and succeeds
      exactly on an existing directory. */
  lemma GetDirectoryNodeNoCreate(t: Tree, p: Path)
    requires t.Dir? && p != []
    ensures var o := GetDirectoryNode(t, p, false);
      o.tree == t && (o.result.Ok? <==> IsDirAt(t, p))
      && (o.result.Ok? ==> Lookup(t, p) == Some(o.result.value))
  {
    var w := GetNode(t, p, false, false);
    GetNodeFails(t, p, false, false);
    GetNodeFound(t, p, false, false);
    GetNodeChanges(t, p, false, false);
    Unchanged(t, w.tree);
    if IsDirAt(t, p) {
      forall j | 1 <= j < |p| ensures !Blocks(t, p[..j], false) {
        AncestorIsDir(t, p, j);
      }
    }
  }

  /** With creation the directory lookup succeeds unless a file sits on the
      path (the path itself included), and then the path is a directory. */
  lemma GetDirectoryNodeCreate(t: Tree, p: Path)
    requires t.Dir? && p != []
    ensures var o := GetDirectoryNode(t, p, true);
      (o.result.Ok? <==> forall j :: 1 <= j <= |p| ==> !IsFileAt(t, p[..j]))
      && (o.result.Ok? ==> Lookup(o.tree, p) == Some(o.result.value))
  {
    var w := GetNode(t, p, true, true);
    var n := |p|;
    GetNodeFails(t, p, true, true);
    GetNodeFound(t, p, true, true);
    GetNodeChanges(t, p, true, true);
    assert p[..n] == p;
    if w.result.Ok? {
      assert At(w.tree, p).Some?;
      assert At(w.tree, p) == Some(DirEntry) <==> !IsFileAt(t, p);
    }
  }

  /** A failed directory lookup with creation changed nothing: the only
      failure after a successful walk is a file at the path itself, and
      then every ancestor already existed. */
  lemma GetDirectoryNodeCreateFails(t: Tree, p: Path)
    requires t.Dir? && p != []
    ensures var o := GetDirectoryNode(t, p, true);
      o.result.Err? ==> o.tree == t
  {
    var o := GetDirectoryNode(t, p, true);
    var w := GetNode(t, p, true, true);
    GetNodeFails(t, p, true, true);
    if o.result.Err? && w.result.Ok? {
      GetNodeFound(t, p, true, true);
      GetNodeChanges(t, p, true, true);
      assert IsFileAt(t, p) by {
        assert At(w.tree, p) != Some(DirEntry);
      }
      forall q | IsPrefix(q, p) ensures At(t, q).Some? {
        if |q| < |p| {
          assert q == p[..|q|];
          AncestorIsDir(t, p, |q|);
        } else {
          assert q == p;
        }
      }
      Unchanged(t, w.tree);
    }
  }

  /** The directory lookup: without creation it succeeds exactly on an
      existing directory; with creation it succeeds unless a file sits on
      the path (the path itself included), and then the whole path is a
      directory afterwards. It only ever adds directories on the path where
      nothing was, and a failed lookup leaves the tree as it was. */
  lemma GetDirectoryNodeSpec(t: Tree, p: Path, cd: bool)
    requires t.Dir? && p != []
    ensures var o := GetDirectoryNode(t, p, cd);
      (o.result.Ok? <==>
        if cd then forall j :: 1 <= j <= |p| ==> !IsFileAt(t, p[..j]) else IsDirAt(t, p))
      && (o.result.Ok? ==> Lookup(o.tree, p) == Some(o.result.value))
      && (o.result.Err? || !cd ==> o.tree == t)
      && (forall q :: At(o.tree, q) != At(t, q) ==>
            At(t, q).None? && At(o.tree, q) == Some(DirEntry) && IsPrefix(q, p) && cd)
  {
    GetNodeChanges(t, p, cd, cd);
    if cd {
      GetDirectoryNodeCreate(t, p);
      GetDirectoryNodeCreateFails(t, p);
    } else {
      GetDirectoryNodeNoCreate(t, p);
    }
  }

  /** `getParentNodeByPath`: the directory holding the last name; the root
      for a single name. */
  function GetParentNode(t: Tree, p: Path, createDirectory: bool): (o: Outcome<Tree>)
    requires t.Dir?
    ensures o.tree.Dir?
    ensures o.result.Ok? ==> o.result.value.Dir?
    ensures o.result.Err? ==> o.result.error.InvalidPathError?
  {
    match Parent(p)
    case None => Outcome(t, Ok(t))
    case Some(q) => GetDirectoryNode(t, q, createDirectory)
  }

  // ---------------------------------------------------------------------
  // createFileNodeByPath

  /** `createFileNodeByPath`: find or create the parent directory and put a
      file node under the last name, replacing whatever was there. */
  function CreateFileNode(t: Tree, p: Path, metadata: FileInfo): (o: Outcome<()>)
    requires t.Dir?
    ensures o.tree.Dir?
  {
    if FileName(p).None? then Outcome(t, Err(InvalidPathError("path must not be empty")))
    else
      var w := GetParentNode(t, p, true);
      match w.result
      case Err(e) => Outcome(w.tree, Err(e))
      case Ok(_) => Outcome(Put(w.tree, p, File(metadata)), Ok(()))
  }

  /** The entries of the tree after `metadata` was filed at `p`: the file at
      `p` and nothing below it, every other existing entry unchanged, a
      directory at every missing ancestor of `p`, and nothing else. */
  function AfterCreate(t: Tree, p: Path, metadata: FileInfo, q: Path): Option<Entry>
  {
    if IsPrefix(p, q) then (if q == p then Some(FileEntry(metadata)) else None)
    else if At(t, q).Some? then At(t, q)
    else if IsPrefix(q, p) then Some(DirEntry)
    else None
  }

  /** Filing succeeds exactly when the path is non-empty and no proper
      ancestor of it is a file; it then leaves the tree `AfterCreate`
      describes, and on failure the tree is unchanged. */
  lemma CreateFileNodeSpec(t: Tree, p: Path, metadata: FileInfo)
    requires t.Dir?
    ensures var o := CreateFileNode(t, p, metadata);
      (o.result.Ok? <==> p != [] && forall j :: 1 <= j < |p| ==> !IsFileAt(t, p[..j]))
      && (o.result.Err? ==> o.tree == t)
      && (o.result.Ok? ==> forall q :: At(o.tree, q) == AfterCreate(t, p, metadata, q))
  {
    var o := CreateFileNode(t, p, metadata);
    if p != [] {
      var n := |p|;
      var w := GetParentNode(t, p, true);
      var q0 := p[..n - 1];
      if n >= 2 {
        GetDirectoryNodeSpec(t, q0, true);
        forall j | 1 <= j <= n - 1 ensures q0[..j] == p[..j] { }
      }
      if w.result.Ok? {
        assert IsDirAt(w.tree, q0) by {
          if n == 1 {
            assert q0 == [];
          }
        }
        forall q ensures At(o.tree, q) == AfterCreate(t, p, metadata, q) {
          PutAt(w.tree, p, File(metadata), q);
          if IsPrefix(p, q) {
            assert q == p + q[n..];
            assert q[n..] == [] <==> q == p;
          } else if IsPrefix(q, p) {
            assert |q| < n;
            assert IsPrefix(q, q0);
            if |q| < n - 1 {
              AncestorIsDir(w.tree, q0, |q|);
              assert q0[..|q|] == q;
            }
            if n == 1 {
              assert q == [];
            }
          } else if n >= 2 {
            assert IsPrefix(q, q0) ==> IsPrefix(q, p);
          }
        }
      }
    }
  }

  // ---------------------------------------------------------------------
  // deleteFileNodeByPath

  /** The directory at `q` holds exactly one child, named `x`. */
  predicate OnlyChild(t: Tree, q: Path, x: string)
  {
    IsDirAt(t, q) && Lookup(t, q).value.children.Keys == {x}
  }

  /** How far up the deletion of `p[..m]` reaches: it removes `p[..d]`,
      going one level up for as long as the parent would be left empty, and
      never past the children of the root. */
  function PruneDepth(t: Tree, p: Path, m: nat): (d: nat)
    requires 1 <= m <= |p|
    ensures 1 <= d <= m
    decreases m
  {
    if m > 1 && OnlyChild(t, p[..m - 1], p[m - 1]) then PruneDepth(t, p, m - 1) else m
  }

  /** Every directory the pruning removes held nothing but the way to the
      deleted file, and the pruning stops at the root or at an ancestor that
      has another child. */
  lemma {:induction false} PruneDepthSpec(t: Tree, p: Path, m: nat)
    requires 1 <= m <= |p|
    ensures forall i :: PruneDepth(t, p, m) <= i < m ==> OnlyChild(t, p[..i], p[i])
    ensures PruneDepth(t, p, m) > 1 ==>
      !OnlyChild(t, p[..PruneDepth(t, p, m) - 1], p[PruneDepth(t, p, m) - 1])
    decreases m
  {
    if m > 1 && OnlyChild(t, p[..m - 1], p[m - 1]) {
      PruneDepthSpec(t, p, m - 1);
    }
  }

  /** One step of the pruning: once `p[..m + 1]` is removed, the directory
      at `p[..m]` has lost that child, and it is left empty exactly when the
      child was its only one. */
  lemma PruneStep(t: Tree, p: Path, m: nat)
    requires m < |p| && Lookup(t, p[..m + 1]).Some?
    ensures IsDirAt(t, p[..m])
    ensures var parent := Lookup(Remove(t, p[..m + 1]), p[..m]);
      parent.Some? && parent.value.Dir? && (IsEmpty(parent.value) <==> OnlyChild(t, p[..m], p[m]))
    ensures m > 0 ==> Remove(Remove(t, p[..m + 1]), p[..m]) == Remove(t, p[..m])
  {
    AncestorIsDir(t, p[..m + 1], m);
    assert p[..m + 1][..m] == p[..m];
    assert p[..m] + [p[m]] == p[..m + 1];
    LookupRemoveParent(t, p[..m], p[m]);
    LookupSnoc(t, p[..m], p[m]);
    RemoveChildEmpty(Lookup(t, p[..m]).value, p[m]);
    if m > 0 {
      RemoveParentAfterChild(t, p[..m], p[m]);
    }
  }

  /** When the parent directory holds a file under the last name, that
      file is the node at the path. */
  lemma FoundFile(t: Tree, p: Path)
    requires p != [] && IsDirAt(t, p[..|p| - 1])
    requires var child := GetByName(Lookup(t, p[..|p| - 1]).value, p[|p| - 1]);
      child.Some? && child.value.File?
    ensures IsFileAt(t, p)
  {
    LookupByName(t, p);
  }

  /** Going one level up the pruning: when the directory at `p[..m]` held
      only the removed child, removing it too takes the pruning to its own
      parent `p[..m - 1]`, which in turn is left empty exactly when the
      directory was its only child. */
  lemma PruneNext(t: Tree, p: Path, m: nat)
    requires 0 < m < |p| && Lookup(t, p[..m + 1]).Some? && OnlyChild(t, p[..m], p[m])
    ensures Lookup(t, p[..m]).Some?
    ensures Remove(Remove(t, p[..m + 1]), p[..m]) == Remove(t, p[..m])
    ensures PruneDepth(t, p, m + 1) == PruneDepth(t, p, m)
    ensures var parent := Lookup(Remove(t, p[..m]), p[..m - 1]);
      parent.Some? && parent.value.Dir? && (IsEmpty(parent.value) <==> OnlyChild(t, p[..m - 1], p[m - 1]))
  {
    PruneStep(t, p, m);
    assert p[..m] == p[..(m - 1) + 1];
    PruneStep(t, p, m - 1);
  }

  /** `deleteFileNodeByPath`: find the parent without creating anything,
      insist that the last name is a file, remove it and then every
      ancestor that became empty, stopping below the root. */
  function DeleteFileNode(t: Tree, p: Path): (o: Outcome<()>)
    requires t.Dir?
    ensures o.tree.Dir?
  {
    var w := GetParentNode(t, p, false);
    match w.result
    case Err(e) => Outcome(w.tree, Err(e))
    case Ok(parent) =>
      if FileName(p).None? then Outcome(w.tree, Err(InvalidPathError("path must not be empty")))
      else
        var child := GetByName(parent, p[|p| - 1]);
        if child.Some? && child.value.File? then
          Outcome(Remove(w.tree, p[..PruneDepth(w.tree, p, |p|)]), Ok(()))
        else
          Outcome(w.tree, Err(DeleteDirectoryError("Path " + Join(p) + " is not a file")))
  }

  /** The empty path `""` names the root's child called `""`: deleting it
      succeeds only when such a file exists, and otherwise reports
      `DeleteDirectoryError`, never the "path must not be empty" error. */
  lemma DeleteEmptyPath(t: Tree)
    requires t.Dir?
    ensures var o := DeleteFileNode(t, EmptyPath);
      var child := GetByName(t, "");
      (o.result.Ok? <==> child.Some? && child.value.File?)
      && (o.result.Err? ==> o.tree == t && o.result.error.DeleteDirectoryError?)
  {
    assert FileName(EmptyPath) == Some("");
    assert GetParentNode(t, EmptyPath, false) == Outcome(t, Ok(t));
  }

  /** The parent lookup of a deletion creates nothing, and succeeds exactly
      when the path is empty or its parent is a directory. */
  lemma DeleteParent(t: Tree, p: Path)
    requires t.Dir?
    ensures var w := GetParentNode(t, p, false);
      w.tree == t
      && (w.result.Ok? <==> p == [] || IsDirAt(t, p[..|p| - 1]))
      && (w.result.Ok? && p != [] ==> Some(w.result.value) == Lookup(t, p[..|p| - 1]))
  {
    if |p| >= 2 {
      GetDirectoryNodeSpec(t, p[..|p| - 1], false);
    } else if |p| == 1 {
      assert p[..0] == [];
    }
  }

  /** Deletion removes the file and the ancestors the pruning reaches when
      the path names a file, and otherwise fails without a change. */
  lemma DeleteFileNodeCases(t: Tree, p: Path)
    requires t.Dir?
    ensures var o := DeleteFileNode(t, p);
      if IsFileAt(t, p) then
        p != [] && o == Outcome(Remove(t, p[..PruneDepth(t, p, |p|)]), Ok(()))
      else
        o.tree == t && o.result.Err?
        && (o.result.error.DeleteDirectoryError? <==> p != [] && IsDirAt(t, p[..|p| - 1]))
  {
    DeleteParent(t, p);
    if p != [] {
      var n := |p|;
      var w := GetParentNode(t, p, false);
      if w.result.Ok? {
        assert p[..n - 1] + [p[n - 1]] == p;
        LookupSnoc(t, p[..n - 1], p[n - 1]);
        assert GetByName(w.result.value, p[n - 1]) == Lookup(t, p);
      } else if IsFileAt(t, p) {
        AncestorIsDir(t, p, n - 1);
      } else {
        assert DeleteFileNode(t, p) == Outcome(t, Err(w.result.error));
      }
    }
  }

  /** Deletion succeeds exactly on a file. It then removes the file and the
      ancestors the pruning reaches, and nothing else; it fails with
      `DeleteDirectoryError` when the parent exists but the name is not a
      file, with `InvalidPathError` otherwise, and a failed deletion leaves
      the tree as it was. */
  lemma DeleteFileNodeSpec(t: Tree, p: Path)
    requires t.Dir?
    ensures var o := DeleteFileNode(t, p);
      (o.result.Ok? <==> IsFileAt(t, p))
      && (o.result.Err? ==> o.tree == t)
      && (o.result.Err? ==>
            (o.result.error.DeleteDirectoryError? <==> p != [] && IsDirAt(t, p[..|p| - 1])))
      && (o.result.Ok? ==>
            forall q :: At(o.tree, q) == if IsPrefix(p[..PruneDepth(t, p, |p|)], q) then None else At(t, q))
  {
    DeleteFileNodeCases(t, p);
    if IsFileAt(t, p) {
      var r := p[..PruneDepth(t, p, |p|)];
      forall q ensures At(Remove(t, r), q) == if IsPrefix(r, q) then None else At(t, q) {
        RemoveAt(t, r, q);
      }
    }
  }

  /** An ancestor strictly between the root and the last pruned level
      keeps the next name of the path. */
  lemma PrunedAncestorKeepsPath(t: Tree, p: Path, m: nat)
    requires t.Dir? && IsFileAt(t, p) && 1 <= m < PruneDepth(t, p, |p|) - 1
    ensures At(Remove(t, p[..PruneDepth(t, p, |p|)]), p[..m] + [p[m]]).Some?
  {
    var r := p[..PruneDepth(t, p, |p|)];
    assert p[..m] + [p[m]] == p[..m + 1];
    AncestorIsDir(t, p, m + 1);
    assert !IsPrefix(r, p[..m + 1]);
    RemoveAt(t, r, p[..m + 1]);
  }

  /** The deepest surviving ancestor keeps a child other than the pruned
      one: that is why the pruning stopped there. */
  lemma PrunedAncestorKeepsSibling(t: Tree, p: Path)
    requires t.Dir? && IsFileAt(t, p) && 1 < PruneDepth(t, p, |p|)
    ensures exists y :: At(Remove(t, p[..PruneDepth(t, p, |p|)]), p[..PruneDepth(t, p, |p|) - 1] + [y]).Some?
  {
    var d := PruneDepth(t, p, |p|);
    var r := p[..d];
    var a := p[..d - 1];
    var y := SiblingAtStop(t, p);
    assert !IsPrefix(r, a + [y]) by {
      assert (a + [y])[d - 1] == y;
    }
    RemoveAt(t, r, a + [y]);
  }

  /** The directory where the pruning stops holds a name other than the
      one on the way to the deleted file. */
  lemma SiblingAtStop(t: Tree, p: Path) returns (y: string)
    requires t.Dir? && IsFileAt(t, p) && 1 < PruneDepth(t, p, |p|)
    ensures var d := PruneDepth(t, p, |p|);
      y != p[d - 1] && Lookup(t, p[..d - 1] + [y]).Some?
  {
    var n := |p|;
    var d := PruneDepth(t, p, n);
    var r := p[..d];
    var a := p[..d - 1];
    PruneDepthSpec(t, p, n);
    AncestorIsDir(t, p, d - 1);
    var dir := Lookup(t, a).value;
    assert r == a + [p[d - 1]];
    LookupSnoc(t, a, p[d - 1]);
    if d < n {
      AncestorIsDir(t, p, d);
    } else {
      assert r == p;
    }
    assert p[d - 1] in dir.children;
    assert dir.children.Keys != {p[d - 1]};
    y :| y in dir.children && y != p[d - 1];
    LookupSnoc(t, a, y);
  }

  /** After a deletion every surviving ancestor of the deleted file other
      than the root still holds a child: pruning leaves no empty directory
      behind on the way to the root. */
  lemma DeleteLeavesNoEmptyAncestor(t: Tree, p: Path)
    requires t.Dir? && IsFileAt(t, p)
    ensures var o := DeleteFileNode(t, p);
      forall m :: 1 <= m < PruneDepth(t, p, |p|) ==> exists y :: At(o.tree, p[..m] + [y]).Some?
  {
    DeleteFileNodeCases(t, p);
    forall m | 1 <= m < PruneDepth(t, p, |p|)
      ensures exists y :: At(Remove(t, p[..PruneDepth(t, p, |p|)]), p[..m] + [y]).Some?
    {
      if m < PruneDepth(t, p, |p|) - 1 {
        PrunedAncestorKeepsPath(t, p, m);
      } else {
        PrunedAncestorKeepsSibling(t, p);
      }
    }
  }

  // ---------------------------------------------------------------------
  // initNodes

  /** The listing prefix of `initNodes` and `deleteAll`: the prefix path as
      text (the empty text when there is none) with a trailing separator. */
  function ListingPrefix(prefix: Option<Path>): (s: string)
    ensures EndsWithSep(s)
    ensures prefix.None? ==> s == [Sep]
    ensures prefix.Some? ==> StartsWith(s, Join(prefix.value)) && |s| <= |Join(prefix.value)| + 1
  {
    WithTrailingSep(if prefix.None? then "" else Join(prefix.value))
  }

  /** One listed object: its key as a path, relative to the prefix, filed
      as a file node. */
  function IngestItem(t: Tree, prefix: Path, item: FileInfo): (o: Outcome<()>)
    requires t.Dir?
    ensures o.tree.Dir?
  {
    match ToPath(item.key)
    case Err(e) => Outcome(t, Err(e))
    case Ok(k) => CreateFileNode(t, Relativize(prefix, k), item)
  }

  /** Filing the listed objects one after the other; the first failure ends
      the replay. */
  function Replay(t: Tree, prefix: Path, items: seq<FileInfo>): (o: Outcome<()>)
    requires t.Dir?
    ensures o.tree.Dir?
    decreases |items|
  {
    if items == [] then Outcome(t, Ok(()))
    else
      var o := IngestItem(t, prefix, items[0]);
      if o.result.Err? then o else Replay(o.tree, prefix, items[1..])
  }

  /** Replaying two runs of objects is replaying the first and, when it
      succeeded, the second from where the first left the tree. */
  lemma {:induction false} ReplayAppend(t: Tree, prefix: Path, a: seq<FileInfo>, b: seq<FileInfo>)
    requires t.Dir?
    ensures Replay(t, prefix, a + b) ==
      var o := Replay(t, prefix, a);
      if o.result.Err? then o else Replay(o.tree, prefix, b)
    decreases |a|
  {
    if a == [] {
      assert a + b == b;
    } else {
      assert (a + b)[0] == a[0] && (a + b)[1..] == a[1..] + b;
      var o := IngestItem(t, prefix, a[0]);
      if o.result.Ok? {
        ReplayAppend(o.tree, prefix, a[1..], b);
      }
    }
  }

  /** `initNodes` from the `j`-th listing call on: each page's objects are
      filed in turn; a failed call, a failed filing or a final marker ends
      the walk. The second component counts the listing calls made. */
  function Populate(t: Tree, prefix: Path, listing: seq<ListResponse>, j: nat)
    : (r: (Outcome<()>, nat))
    requires t.Dir? && ListingEnds(listing) && j <= LastPage(listing)
    ensures r.0.tree.Dir?
    ensures 1 <= r.1 && j + r.1 <= LastPage(listing) + 1
    decreases LastPage(listing) - j
  {
    match listing[j]
    case ListFailed(message) => (Outcome(t, Err(QiniuError(message))), 1)
    case Listed(items, _, marker) =>
      var o := Replay(t, prefix, items);
      if o.result.Err? || MarkerEnds(marker) then (o, 1)
      else
        assert j < LastPage(listing) by {
          assert !IsFinal(listing[j]);
        }
        var rest := Populate(o.tree, prefix, listing, j + 1);
        (rest.0, rest.1 + 1)
  }

  /** How a replay that filed every listed object ends when the final
      listing response was a failure. */
  function Settle(o: Outcome<()>, last: ListResponse): Outcome<()>
  {
    if o.result.Ok? && last.ListFailed? then Outcome(o.tree, Err(QiniuError(last.message)))
    else o
  }

  /** The items of the pages from `j` to the last: page `j`'s, then the
      rest's. */
  lemma PagesFrom(listing: seq<ListResponse>, j: nat, L: nat)
    requires j <= L < |listing|
    ensures PageItems(listing[j..L + 1]) == ItemsOf(listing[j]) + PageItems(listing[j + 1..L + 1])
    ensures listing[j].Listed? ==>
      PageItems(listing[j..L + 1]) == listing[j].items + PageItems(listing[j + 1..L + 1])
    ensures j == L ==> PageItems(listing[j + 1..L + 1]) == []
  {
    assert listing[j..L + 1] == [listing[j]] + listing[j + 1..L + 1];
    assert ([listing[j]] + listing[j + 1..L + 1])[1..] == listing[j + 1..L + 1];
    if j == L {
      assert listing[j + 1..L + 1] == [];
    }
  }

  /** There is one way to succeed without a value. */
  lemma SuccessIsCanonical(o: Outcome<()>)
    requires o.result.Ok?
    ensures o == Outcome(o.tree, Ok(()))
  {
    assert o.result.value == ();
  }

  /** One delivered page: its objects are filed, and the walk goes on
      unless that failed or the page was the last. */
  lemma PopulateStep(t: Tree, prefix: Path, listing: seq<ListResponse>, j: nat)
    requires t.Dir? && ListingEnds(listing) && j <= LastPage(listing)
    requires listing[j].Listed?
    ensures Populate(t, prefix, listing, j) ==
      var o := Replay(t, prefix, listing[j].items);
      if o.result.Err? || MarkerEnds(listing[j].marker) then (o, 1)
      else (Populate(o.tree, prefix, listing, j + 1).0, Populate(o.tree, prefix, listing, j + 1).1 + 1)
  {
  }

  /** A page whose objects were all filed and whose marker goes on hands
      what is left of `initNodes` to the next page. */
  lemma PopulateAdvance(goal: (Outcome<()>, nat), t: Tree, next: Tree, prefix: Path,
                        listing: seq<ListResponse>, j: nat, L: nat)
    requires t.Dir? && ListingEnds(listing) && L == LastPage(listing) && j <= L
    requires listing[j].Listed? && !MarkerEnds(listing[j].marker)
    requires Replay(t, prefix, listing[j].items) == Outcome(next, Ok(()))
    requires goal.0 == Populate(t, prefix, listing, j).0 && goal.1 == Populate(t, prefix, listing, j).1 + j
    ensures j < L && next.Dir?
    ensures goal.0 == Populate(next, prefix, listing, j + 1).0
    ensures goal.1 == Populate(next, prefix, listing, j + 1).1 + j + 1
  {
    assert !IsFinal(listing[j]);
    PopulateStep(t, prefix, listing, j);
  }

  /** `initNodes` from page `j` on is the replay of the remaining pages'
      objects, settled by the final response `L`. */
  lemma {:induction false} PopulateFrom(t: Tree, prefix: Path, listing: seq<ListResponse>, j: nat, L: nat)
    requires t.Dir? && ListingEnds(listing) && L == LastPage(listing) && j <= L
    ensures Populate(t, prefix, listing, j).0 ==
      Settle(Replay(t, prefix, PageItems(listing[j..L + 1])), listing[L])
    decreases L - j
  {
    if listing[j].ListFailed? {
      FinalIsLast(listing, j);
      PagesFrom(listing, j, L);
    } else if Replay(t, prefix, listing[j].items).result.Ok? && !MarkerEnds(listing[j].marker) {
      PopulateFrom(Replay(t, prefix, listing[j].items).tree, prefix, listing, j + 1, L);
      PopulateGoesOn(t, prefix, listing, j, L);
    } else {
      PopulateStops(t, prefix, listing, j, L);
    }
  }

  /** Replaying the objects of the pages from a listed page `j` on is
      replaying page `j`'s and then, when that succeeded, the rest's. */
  lemma ReplayPages(t: Tree, prefix: Path, listing: seq<ListResponse>, j: nat, L: nat)
    requires t.Dir? && j <= L < |listing| && listing[j].Listed?
    ensures var o := Replay(t, prefix, listing[j].items);
      Replay(t, prefix, PageItems(listing[j..L + 1])) ==
        if o.result.Err? then o else Replay(o.tree, prefix, PageItems(listing[j + 1..L + 1]))
  {
    PagesFrom(listing, j, L);
    ReplayAppend(t, prefix, listing[j].items, PageItems(listing[j + 1..L + 1]));
  }

  /** A page whose filing failed, or the final page `L`, ends `initNodes`. */
  lemma PopulateStops(t: Tree, prefix: Path, listing: seq<ListResponse>, j: nat, L: nat)
    requires t.Dir? && ListingEnds(listing) && L == LastPage(listing) && j <= L
    requires listing[j].Listed?
    requires Replay(t, prefix, listing[j].items).result.Err? || MarkerEnds(listing[j].marker)
    ensures Populate(t, prefix, listing, j).0 ==
      Settle(Replay(t, prefix, PageItems(listing[j..L + 1])), listing[L])
  {
    PopulateStep(t, prefix, listing, j);
    ReplayPages(t, prefix, listing, j, L);
    if Replay(t, prefix, listing[j].items).result.Ok? {
      FinalIsLast(listing, j);
      PagesFrom(listing, j, j);
      SuccessIsCanonical(Replay(t, prefix, listing[j].items));
    }
  }

  /** A page filed in full whose marker asks for more: `initNodes` goes on
      from the next page with the tree the filing left. */
  lemma PopulateGoesOn(t: Tree, prefix: Path, listing: seq<ListResponse>, j: nat, L: nat)
    requires t.Dir? && ListingEnds(listing) && L == LastPage(listing) && j <= L
    requires listing[j].Listed? && !MarkerEnds(listing[j].marker)
    requires Replay(t, prefix, listing[j].items).result.Ok?
    requires var o := Replay(t, prefix, listing[j].items);
      Populate(o.tree, prefix, listing, j + 1).0 ==
        Settle(Replay(o.tree, prefix, PageItems(listing[j + 1..L + 1])), listing[L])
    ensures Populate(t, prefix, listing, j).0 ==
      Settle(Replay(t, prefix, PageItems(listing[j..L + 1])), listing[L])
  {
    PopulateStep(t, prefix, listing, j);
    ReplayPages(t, prefix, listing, j, L);
  }

  /** Pagination is invisible: `initNodes` files exactly the objects of the
      pages the service delivered, in order, as if they came in one page,
      and a listing that ends in a failure reports that failure after
      filing them. */
  lemma PopulateAsReplay(t: Tree, prefix: Path, listing: seq<ListResponse>)
    requires t.Dir? && ListingEnds(listing)
    ensures var L := LastPage(listing);
      Populate(t, prefix, listing, 0).0 ==
        Settle(Replay(t, prefix, PageItems(listing[..L + 1])), listing[L])
  {
    var L := LastPage(listing);
    calc {
      Populate(t, prefix, listing, 0).0;
      { PopulateFrom(t, prefix, listing, 0, L); }
      Settle(Replay(t, prefix, PageItems(listing[0..L + 1])), listing[L]);
      { assert listing[0..L + 1] == listing[..L + 1]; }
      Settle(Replay(t, prefix, PageItems(listing[..L + 1])), listing[L]);
    }
  }

  /** A walk that ends well made every listing call up to the final page,
      and the final page was delivered. */
  lemma {:induction false} PopulateCalls(t: Tree, prefix: Path, listing: seq<ListResponse>, j: nat)
    requires t.Dir? && ListingEnds(listing) && j <= LastPage(listing)
    ensures var r := Populate(t, prefix, listing, j);
      r.0.result.Ok? ==> j + r.1 == LastPage(listing) + 1 && listing[LastPage(listing)].Listed?
    decreases LastPage(listing) - j
  {
    if listing[j].Listed? {
      var o := Replay(t, prefix, listing[j].items);
      if o.result.Ok? && !MarkerEnds(listing[j].marker) {
        PopulateCalls(o.tree, prefix, listing, j + 1);
      } else if o.result.Ok? {
        FinalIsLast(listing, j);
      }
    }
  }

  // ---------------------------------------------------------------------
  // deleteAll

  /** How a batch call of `deleteAll` ends: the batch response is not
      inspected, only a thrown exception counts. `replies(i)` is the answer
      to the i-th batch call. */
  function ThrowVerdict(replies: nat -> BatchReply): (nat, seq<BatchOp>) -> Result<(), IOError>
  {
    (i: nat, batch: seq<BatchOp>) =>
      if replies(i).BatchThrew? then Err(QiniuError(replies(i).message)) else Ok(())
  }

  /** `deleteAll`: every listed key is deleted in batches of 1000; a batch
      call that throws ends the deletion, and so does a failed listing
      call, which leaves the remainder of less than 1000 keys
      unsubmitted. */
  function DeleteAllRun(bucket: string, listing: seq<ListResponse>, replies: nat -> BatchReply)
    : BatchRun<BatchOp, IOError>
    requires ListingEnds(listing)
  {
    ListingDeletion(bucket, listing, ListError(listing), ThrowVerdict(replies))
  }
}
