/** The in-memory directory tree of `QiniuFileSystem`: `DirectoryNode`s that
    map child names to nodes and `FileNode`s that carry the listed metadata.
    A node is identified by the names leading to it from the root, so the
    tree is a value and every update of a node is an update at a path. */
module DirectoryTree {
  import opened Common
  import opened Paths
  import opened Remote

  /** `DirectoryNode` (its `childrenNodes` map) or `FileNode` (its metadata). */
  datatype Tree = Dir(children: map<string, Tree>) | File(metadata: FileInfo)

  /** A freshly created `DirectoryNode`. */
  const EmptyDir: Tree := Dir(map[])

  // ---------------------------------------------------------------------
  // DirectoryNode's child map

  /** `getByName`: the child of that name, or null. */
  function GetByName(d: Tree, name: string): (r: Option<Tree>)
    requires d.Dir?
    ensures r.Some? <==> name in d.children
    ensures r.Some? ==> r.value == d.children[name]
  {
    if name in d.children then Some(d.children[name]) else None
  }

  /** `childrenNodes.put(name, child)`, the core of `addChildDirectoryNode`
      and `addChildFileNode`: the name now leads to the new child, whatever
      it led to before, and every other name is untouched. */
  function AddChild(d: Tree, name: string, child: Tree): (r: Tree)
    requires d.Dir?
    ensures r.Dir? && r.children.Keys == d.children.Keys + {name}
    ensures GetByName(r, name) == Some(child)
    ensures forall other :: other != name ==> GetByName(r, other) == GetByName(d, other)
  {
    Dir(d.children[name := child])
  }

  /** `removeChildNode`: the name no longer leads anywhere; every other name
      is untouched. */
  function RemoveChild(d: Tree, name: string): (r: Tree)
    requires d.Dir?
    ensures r.Dir? && r.children.Keys == d.children.Keys - {name}
    ensures GetByName(r, name) == None
    ensures forall other :: other != name ==> GetByName(r, other) == GetByName(d, other)
  {
    Dir(d.children - {name})
  }

  /** `isEmpty`: no name leads to a child. */
  function IsEmpty(d: Tree): (b: bool)
    requires d.Dir?
    ensures b <==> forall name :: GetByName(d, name) == None
  {
    assert forall name :: GetByName(d, name) == None <==> name !in d.children;
    d.children == map[]
  }

  /** `getChildrenCount`: the number of names that lead to a child. */
  function ChildrenCount(d: Tree): (n: nat)
    requires d.Dir?
    ensures n == |d.children.Keys|
    ensures n == 0 <==> IsEmpty(d)
  {
    assert d.children.Keys == {} <==> d.children == map[];
    |d.children.Keys|
  }

  /** `getChildrenNodes`: the nodes the names lead to. */
  function ChildrenNodes(d: Tree): (r: set<Tree>)
    requires d.Dir?
    ensures forall c :: c in r <==> exists name :: GetByName(d, name) == Some(c)
  {
    assert forall name :: name in d.children ==> GetByName(d, name) == Some(d.children[name]);
    d.children.Values
  }

  /** After removing one of its children a directory is empty exactly when
      that child was its only one. */
  lemma RemoveChildEmpty(d: Tree, name: string)
    requires d.Dir? && name in d.children
    ensures IsEmpty(RemoveChild(d, name)) <==> d.children.Keys == {name}
  {
    var r := RemoveChild(d, name);
    if IsEmpty(r) {
      assert r.children.Keys == {};
    }
  }

  // ---------------------------------------------------------------------
  // Nodes at paths

  /** The node the names of `p` lead to from `t`, or none. */
  function Lookup(t: Tree, p: Path): Option<Tree>
    decreases |p|
  {
    if p == [] then Some(t)
    else if t.File? then None
    else match GetByName(t, p[0])
      case None => None
      case Some(c) => Lookup(c, p[1..])
  }

  /** What a node is, without its descendants. */
  datatype Entry = DirEntry | FileEntry(metadata: FileInfo)

  function KindOf(t: Tree): Entry
  {
    if t.Dir? then DirEntry else FileEntry(t.metadata)
  }

  /** The kind of node at `p`, or none: the tree seen as a map from paths to
      entries. */
  function At(t: Tree, p: Path): Option<Entry>
  {
    match Lookup(t, p)
    case None => None
    case Some(s) => Some(KindOf(s))
  }

  predicate IsDirAt(t: Tree, p: Path)
  {
    Lookup(t, p).Some? && Lookup(t, p).value.Dir?
  }

  predicate IsFileAt(t: Tree, p: Path)
  {
    Lookup(t, p).Some? && Lookup(t, p).value.File?
  }

  /** `a` names an ancestor of (or the same node as) `b`. */
  predicate IsPrefix(a: Path, b: Path)
  {
    |a| <= |b| && b[..|a|] == a
  }

  /** Walking `p + q` is walking `p`, then `q` from where `p` led. */
  lemma {:induction false} LookupAppend(t: Tree, p: Path, q: Path)
    ensures Lookup(t, p + q) == match Lookup(t, p) case None => None case Some(s) => Lookup(s, q)
    decreases |p|
  {
    if p == [] {
      assert p + q == q;
    } else {
      assert (p + q)[0] == p[0] && (p + q)[1..] == p[1..] + q;
      if t.Dir? && p[0] in t.children {
        LookupAppend(t.children[p[0]], p[1..], q);
      }
    }
  }

  /** Every proper ancestor of an existing node is a directory. */
  lemma AncestorIsDir(t: Tree, p: Path, i: nat)
    requires Lookup(t, p).Some? && i < |p|
    ensures IsDirAt(t, p[..i])
  {
    assert p == p[..i] + p[i..];
    LookupAppend(t, p[..i], p[i..]);
  }

  /** Nothing exists below a missing node. */
  lemma BelowMissing(t: Tree, p: Path, q: Path)
    requires Lookup(t, p).None? && IsPrefix(p, q)
    ensures Lookup(t, q).None?
  {
    assert q == p + q[|p|..];
    LookupAppend(t, p, q[|p|..]);
  }

  lemma LookupCons(t: Tree, x: string, q: Path)
    ensures Lookup(t, [x] + q) == if t.Dir? && x in t.children then Lookup(t.children[x], q) else None
  {
    assert ([x] + q)[0] == x && ([x] + q)[1..] == q;
  }

  /** One more name below an existing directory leads to its child of that
      name. */
  lemma LookupSnoc(t: Tree, a: Path, x: string)
    ensures Lookup(t, a + [x]) ==
      if IsDirAt(t, a) && x in Lookup(t, a).value.children
      then Some(Lookup(t, a).value.children[x]) else None
  {
    LookupAppend(t, a, [x]);
    if Lookup(t, a).Some? {
      LookupCons(Lookup(t, a).value, x, []);
      assert [x] + [] == [x];
    }
  }

  /** The child a directory holds under a path's last name is the node at
      the path. */
  lemma LookupByName(t: Tree, p: Path)
    requires p != [] && IsDirAt(t, p[..|p| - 1])
    ensures GetByName(Lookup(t, p[..|p| - 1]).value, p[|p| - 1]) == Lookup(t, p)
  {
    assert p[..|p| - 1] + [p[|p| - 1]] == p;
    LookupSnoc(t, p[..|p| - 1], p[|p| - 1]);
  }

  /** Two trees with the same entry at every path are the same tree. */
  lemma {:induction false} Extensionality(a: Tree, b: Tree)
    requires forall q :: At(a, q) == At(b, q)
    ensures a == b
    decreases a
  {
    assert At(a, []) == At(b, []);
    if a.Dir? {
      forall x | x in a.children
        ensures x in b.children && a.children[x] == b.children[x]
      {
        LookupCons(a, x, []);
        LookupCons(b, x, []);
        assert [x] + [] == [x];
        assert At(a, [x]) == At(b, [x]);
        assert x in b.children;
        forall q ensures At(a.children[x], q) == At(b.children[x], q) {
          LookupCons(a, x, q);
          LookupCons(b, x, q);
          assert At(a, [x] + q) == At(b, [x] + q);
        }
        Extensionality(a.children[x], b.children[x]);
      }
      forall x | x in b.children ensures x in a.children {
        LookupCons(a, x, []);
        LookupCons(b, x, []);
        assert [x] + [] == [x];
        assert At(a, [x]) == At(b, [x]);
      }
    }
  }

  // ---------------------------------------------------------------------
  // Updates at paths

  /** Make the last name of `p` lead to `n` in the directory its parent
      names (a `put` into that directory's child map). */
  function Put(t: Tree, p: Path, n: Tree): Tree
    decreases |p|
  {
    if p == [] then n
    else if t.File? then t
    else if |p| == 1 then AddChild(t, p[0], n)
    else match GetByName(t, p[0])
      case None => t
      case Some(c) => AddChild(t, p[0], Put(c, p[1..], n))
  }

  /** Remove the node at `p` from its parent's child map. */
  function Remove(t: Tree, p: Path): Tree
    decreases |p|
  {
    if p == [] || t.File? then t
    else if |p| == 1 then RemoveChild(t, p[0])
    else match GetByName(t, p[0])
      case None => t
      case Some(c) => AddChild(t, p[0], Remove(c, p[1..]))
  }

  /** A chain of fresh directories, one per name of `s`, each holding the
      next. */
  function Chain(s: Path): (r: Tree)
    ensures r.Dir?
    decreases |s|
  {
    if s == [] then EmptyDir else AddChild(EmptyDir, s[0], Chain(s[1..]))
  }

  /** After a put at `p`, the paths through `p` see the new node and every
      other path keeps its entry. */
  lemma {:induction false} PutAt(t: Tree, p: Path, n: Tree, q: Path)
    requires p != [] && IsDirAt(t, p[..|p| - 1])
    ensures At(Put(t, p, n), q) == if IsPrefix(p, q) then At(n, q[|p|..]) else At(t, q)
    decreases |p|
  {
    assert t.Dir? by {
      if |p| > 1 {
        assert p[..|p| - 1] == [p[0]] + p[1..|p| - 1];
        LookupCons(t, p[0], p[1..|p| - 1]);
      }
    }
    var r := Put(t, p, n);
    if q != [] {
      var x, q' := q[0], q[1..];
      assert q == [x] + q';
      LookupCons(r, x, q');
      LookupCons(t, x, q');
      if |p| == 1 {
        assert IsPrefix(p, q) <==> x == p[0];
      } else {
        assert p[..|p| - 1] == [p[0]] + p[1..][..|p[1..]| - 1];
        LookupCons(t, p[0], p[1..][..|p[1..]| - 1]);
        if x == p[0] {
          PutAt(t.children[p[0]], p[1..], n, q');
          assert IsPrefix(p, q) <==> IsPrefix(p[1..], q');
          if IsPrefix(p, q) {
            assert q[|p|..] == q'[|p[1..]|..];
          }
        }
      }
    }
  }

  /** Below `p`, a put at `p` shows exactly the node put there. */
  lemma {:induction false} PutLookupBelow(t: Tree, p: Path, n: Tree, r: Path)
    requires p != [] && IsDirAt(t, p[..|p| - 1])
    ensures Lookup(Put(t, p, n), p + r) == Lookup(n, r)
    decreases |p|
  {
    assert p + r == [p[0]] + (p[1..] + r);
    LookupCons(Put(t, p, n), p[0], p[1..] + r);
    if |p| == 1 {
      assert p[1..] + r == r;
    } else {
      assert p[..|p| - 1] == [p[0]] + p[1..][..|p[1..]| - 1];
      LookupCons(t, p[0], p[1..][..|p[1..]| - 1]);
      PutLookupBelow(t.children[p[0]], p[1..], n, r);
    }
  }

  /** A put keeps a directory at the root. */
  lemma PutKeepsRootDir(t: Tree, p: Path, n: Tree)
    requires t.Dir? && p != []
    ensures Put(t, p, n).Dir?
  {
  }

  /** After removing `p`, nothing is left below `p` and every other path
      keeps its entry. */
  lemma {:induction false} RemoveAt(t: Tree, p: Path, q: Path)
    requires p != []
    ensures At(Remove(t, p), q) == if IsPrefix(p, q) then None else At(t, q)
    decreases |p|
  {
    var r := Remove(t, p);
    if q != [] {
      var x, q' := q[0], q[1..];
      assert q == [x] + q';
      LookupCons(r, x, q');
      LookupCons(t, x, q');
      if t.Dir? && |p| > 1 && x == p[0] && x in t.children {
        RemoveAt(t.children[x], p[1..], q');
        assert IsPrefix(p, q) <==> IsPrefix(p[1..], q');
      }
    }
  }

  /** Removing `a + [x]` from a directory at `a` leaves that directory
      without its child `x`. */
  lemma {:induction false} LookupRemoveParent(t: Tree, a: Path, x: string)
    requires IsDirAt(t, a)
    ensures Lookup(Remove(t, a + [x]), a) == Some(RemoveChild(Lookup(t, a).value, x))
    decreases |a|
  {
    if a != [] {
      LookupCons(t, a[0], a[1..]);
      assert a == [a[0]] + a[1..];
      assert (a + [x])[1..] == a[1..] + [x];
      LookupCons(Remove(t, a + [x]), a[0], a[1..]);
      LookupRemoveParent(t.children[a[0]], a[1..], x);
    }
  }

  /** Removing a node and then its parent is removing the parent. */
  lemma RemoveParentAfterChild(t: Tree, a: Path, x: string)
    requires a != []
    ensures Remove(Remove(t, a + [x]), a) == Remove(t, a)
  {
    forall q ensures At(Remove(Remove(t, a + [x]), a), q) == At(Remove(t, a), q) {
      RemoveAt(Remove(t, a + [x]), a, q);
      RemoveAt(t, a + [x], q);
      RemoveAt(t, a, q);
      if IsPrefix(a + [x], q) {
        assert q[..|a|] == (a + [x])[..|a|];
      }
    }
    Extensionality(Remove(Remove(t, a + [x]), a), Remove(t, a));
  }

  /** A chain holds a directory at every prefix of its names and nothing
      else. */
  lemma {:induction false} ChainLookup(s: Path, q: Path)
    ensures Lookup(Chain(s), q) == if IsPrefix(q, s) then Some(Chain(s[|q|..])) else None
    decreases |s|
  {
    if q != [] {
      LookupCons(Chain(s), q[0], q[1..]);
      assert q == [q[0]] + q[1..];
      if s != [] && q[0] == s[0] {
        ChainLookup(s[1..], q[1..]);
        assert IsPrefix(q, s) <==> IsPrefix(q[1..], s[1..]);
        if IsPrefix(q, s) {
          assert s[|q|..] == s[1..][|q[1..]|..];
        }
      }
    }
  }

  lemma ChainAt(s: Path, q: Path)
    ensures At(Chain(s), q) == if IsPrefix(q, s) then Some(DirEntry) else None
  {
    ChainLookup(s, q);
  }

  /** A fresh directory holds nothing below itself. */
  lemma EmptyDirAt(q: Path)
    ensures At(EmptyDir, q) == if q == [] then Some(DirEntry) else None
  {
  }

  /** How a path relates to `s` once `s` is extended by one name. */
  lemma PrefixOfExtended(s: Path, x: string, r: Path)
    ensures IsPrefix(s + [x], r) ==> (r == s + [x] <==> r[|s| + 1..] == [])
    ensures IsPrefix(s + [x], r) ==> (IsPrefix(r, s + [x]) <==> r == s + [x])
    ensures !IsPrefix(s + [x], r) ==> (IsPrefix(r, s + [x]) <==> IsPrefix(r, s))
  {
    if IsPrefix(s + [x], r) {
      assert r == s + [x] + r[|s| + 1..];
    } else {
      if IsPrefix(r, s + [x]) {
        assert r != s + [x];
        assert |r| <= |s|;
        assert s[..|r|] == (s + [x])[..|r|];
      }
      if IsPrefix(r, s) {
        assert (s + [x])[..|r|] == s[..|r|];
      }
    }
  }

  /** Inside a chain, adding one directory at its end changes only the
      entry at the new end. */
  lemma ChainExtendAt(s: Path, x: string, r: Path)
    ensures At(Chain(s + [x]), r)
         == if IsPrefix(s + [x], r) then At(EmptyDir, r[|s| + 1..]) else At(Chain(s), r)
  {
    ChainAt(s, r);
    ChainAt(s + [x], r);
    PrefixOfExtended(s, x, r);
    if IsPrefix(s + [x], r) {
      EmptyDirAt(r[|s| + 1..]);
    }
  }

  /** `a + s + [x]` extends `q` exactly when `s + [x]` extends what follows
      `a` in `q`. */
  lemma PrefixAfter(a: Path, u: Path, q: Path)
    ensures IsPrefix(a + u, q) <==> IsPrefix(a, q) && IsPrefix(u, q[|a|..])
    ensures IsPrefix(a + u, q) ==> q[|a + u|..] == q[|a|..][|u|..]
  {
    if IsPrefix(a + u, q) {
      assert q[..|a|] == (a + u)[..|a|];
      assert q[|a|..][..|u|] == q[..|a + u|][|a|..];
    }
    if IsPrefix(a, q) && IsPrefix(u, q[|a|..]) {
      assert q[..|a + u|] == q[..|a|] + q[|a|..][..|u|];
    }
  }

  /** Extending a chain that was put at `a` by one more directory is putting
      the longer chain at `a`: the step of a walk that creates every missing
      directory along a path. */
  lemma ExtendChain(t: Tree, a: Path, s: Path, x: string)
    requires a != [] && IsDirAt(t, a[..|a| - 1])
    ensures IsDirAt(Put(t, a, Chain(s)), (a + s + [x])[..|a + s + [x]| - 1])
    ensures Put(Put(t, a, Chain(s)), a + s + [x], EmptyDir) == Put(t, a, Chain(s + [x]))
  {
    var t1 := Put(t, a, Chain(s));
    assert (a + s + [x])[..|a + s + [x]| - 1] == a + s;
    PutLookupBelow(t, a, Chain(s), s);
    ChainLookup(s, s);
    assert s[|s|..] == [];
    var lhs := Put(t1, a + s + [x], EmptyDir);
    var rhs := Put(t, a, Chain(s + [x]));
    forall q ensures At(lhs, q) == At(rhs, q) {
      PutAt(t1, a + s + [x], EmptyDir, q);
      PutAt(t, a, Chain(s), q);
      PutAt(t, a, Chain(s + [x]), q);
      assert a + s + [x] == a + (s + [x]);
      PrefixAfter(a, s + [x], q);
      if IsPrefix(a, q) {
        ChainExtendAt(s, x, q[|a|..]);
      }
    }
    Extensionality(lhs, rhs);
  }

  // ---------------------------------------------------------------------
  // Node.getPath

  /** A node as it records its place: the root, which has no parent, or a
      named child of a parent node. */
  datatype NodeRef = Root | Child(parent: NodeRef, name: string)

  /** Every name on the way is free of separators, as names taken from a
      `Path` are. */
  predicate WellNamed(n: NodeRef)
  {
    match n
    case Root => true
    case Child(parent, name) => Sep !in name && WellNamed(parent)
  }

  /** `Path.resolve(other)` for relative paths: an empty `other` leaves the
      path as it is, an empty path is replaced by `other`, otherwise the
      names are appended. */
  function Resolve(base: Path, other: Path): Path
  {
    if other == EmptyPath then base
    else if base == EmptyPath then other
    else base + other
  }

  /** `Node.getPath`: the root's name (the empty name) as a path, or the
      parent's path resolved against the node's own name. */
  function GetPath(n: NodeRef): (p: Path)
    requires WellNamed(n)
  {
    match n
    case Root => PathsGet([""])
    case Child(parent, name) => Resolve(GetPath(parent), PathsGet([name]))
  }

  /** The node reached from the root by following the names of `p`. */
  function RefOf(p: Path): NodeRef
    decreases |p|
  {
    if p == [] then Root else Child(RefOf(p[..|p| - 1]), p[|p| - 1])
  }

  /** The root's path is the empty path, and a child's path is its parent's
      path extended by its own name. */
  lemma GetPathStep(n: NodeRef, name: string)
    requires WellNamed(n) && IsName(name)
    ensures GetPath(Root) == EmptyPath
    ensures GetPath(Child(n, name)) == if GetPath(n) == EmptyPath then [name] else GetPath(n) + [name]
  {
    PathsGetEmptyName();
    PathsGetName(name);
  }

  /** `Paths.get("")` is the empty path. */
  lemma PathsGetEmptyName()
    ensures PathsGet([""]) == EmptyPath
  {
    PathsGetOfSegments([""]);
    assert NonEmpty([""]) == [];
  }

  /** `Paths.get(name)` of one name is the path of that name. */
  lemma PathsGetName(name: string)
    requires IsName(name)
    ensures PathsGet([name]) == [name]
  {
    PathsGetOfSegments([name]);
    assert NonEmpty([name]) == [name] by {
      NonEmptyOfNames([name]);
    }
  }

  /** A name directly below the root has the one-name path. */
  lemma GetPathOfName(name: string)
    requires IsName(name)
    ensures GetPath(Child(Root, name)) == [name]
  {
    GetPathStep(Root, name);
  }

  /** The node found by walking a path reports that path as its own. */
  lemma {:induction false} GetPathOfRef(p: Path)
    requires IsPath(p) && p != EmptyPath
    ensures WellNamed(RefOf(p))
    ensures GetPath(RefOf(p)) == p
    decreases |p|
  {
    var q := p[..|p| - 1];
    var name := p[|p| - 1];
    assert IsName(name);
    assert p == q + [name];
    assert RefOf(p) == Child(RefOf(q), name);
    if q == [] {
      GetPathOfName(name);
    } else {
      assert IsPath(q) && q != EmptyPath by {
        assert q[0] != "";
      }
      GetPathOfRef(q);
      GetPathStep(RefOf(q), name);
    }
  }
}
