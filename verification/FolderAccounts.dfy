/** After a scan every listed folder is in the tree exactly once, below its parent. */
module FolderAccounts {
  import opened Bytes
  import opened FolderPaths
  import opened FolderTree

  predicate Listed(list: seq<Folder>, p: Path)
  {
    exists f :: f in list && f.path == p
  }

  /** p is listed, and so are all folders between it and q. */
  predicate Reaches(list: seq<Folder>, q: Option<Path>, p: Path)
    decreases |p|
  {
    Listed(list, p) && (Parent(p) == q || (Parent(p).Some? && Reaches(list, q, Parent(p).value)))
  }

  /** The folder right below q on the way to p. */
  function Top(list: seq<Folder>, q: Option<Path>, p: Path): Path
    requires Reaches(list, q, p)
    decreases |p|
  {
    if Parent(p) == q then p else Top(list, q, Parent(p).value)
  }

  /** How often a real folder with this path occurs below the node. */
  function Count(n: Node, p: Path): nat
    decreases n
  {
    CountIn(n.children, p)
  }

  function CountIn(ns: seq<Node>, p: Path): nat
    decreases ns
  {
    if ns == [] then 0
    else (if ns[0].virtual then 0 else (if ns[0].path == Some(p) then 1 else 0) + Count(ns[0], p)) + CountIn(ns[1..], p)
  }

  lemma {:induction false} ReachesIsLonger(list: seq<Folder>, q: Path, p: Path)
    requires Reaches(list, Some(q), p)
    ensures |q| < |p|
    decreases |p|
  {
    if Parent(p) != Some(q) {
      ReachesIsLonger(list, q, Parent(p).value);
    }
  }

  /** A folder right below q is, or leads to, p exactly when it is the one on the way. */
  lemma {:induction false} OnTheWay(list: seq<Folder>, q: Option<Path>, a: Path, p: Path)
    requires Listed(list, a) && Listed(list, p) && Parent(a) == q
    ensures (a == p || Reaches(list, Some(a), p)) <==> (Reaches(list, q, p) && Top(list, q, p) == a)
    decreases |p|
  {
    hide Listed;
    if a == p {
    } else if Parent(p) == Some(a) {
    } else if Parent(p) == q {
      if Reaches(list, Some(a), p) {
        ReachesIsLonger(list, a, Parent(p).value);
      }
    } else if Parent(p).Some? && Listed(list, Parent(p).value) {
      OnTheWay(list, q, a, Parent(p).value);
    } else if Parent(p).Some? {
      NotReached(list, q, Parent(p).value);
      NotReached(list, Some(a), Parent(p).value);
    }
  }

  lemma NotReached(list: seq<Folder>, q: Option<Path>, p: Path)
    requires !Listed(list, p)
    ensures !Reaches(list, q, p)
  {
  }

  /** One child on the way, or none. */
  lemma {:induction false} CountsOne(ns: seq<Node>, p: Path, a: Path, list: seq<Folder>)
    requires DistinctPaths(ns)
    requires forall c :: c in ns && !c.virtual ==>
      (if c.path == Some(p) then 1 else 0) + Count(c, p) == if c.path == Some(a) then 1 else 0
    ensures CountIn(ns, p) == if exists c :: c in ns && !c.virtual && c.path == Some(a) then 1 else 0
    decreases |ns|
  {
    hide Count;
    if ns != [] {
      var rest := ns[1..];
      assert forall c :: c in rest ==> c in ns;
      CountsOne(rest, p, a, list);
      assert forall c :: c in ns <==> c == ns[0] || c in rest;
      if !ns[0].virtual && ns[0].path == Some(a) {
        forall c | c in rest ensures c.path != Some(a) {
          var k :| 0 <= k < |rest| && rest[k] == c;
          assert ns[k + 1] == c;
        }
      }
    }
  }

  lemma {:induction false} CountsNone(ns: seq<Node>, p: Path)
    requires forall c :: c in ns && !c.virtual ==> c.path != Some(p) && Count(c, p) == 0
    ensures CountIn(ns, p) == 0
    decreases |ns|
  {
    hide Count;
    if ns != [] {
      CountsNone(ns[1..], p);
    }
  }

  predicate AllOpen(list: seq<Folder>)
  {
    forall f :: f in list ==> !f.noSub
  }

  /** What a child of a matching node adds to the count. */
  lemma ChildCounts(n: Node, c: Node, list: seq<Folder>, p: Path)
    requires Matches(n, list) && !n.noSub && AllOpen(list) && Listed(list, p) && c in n.children && !c.virtual
    requires c.path.Some? ==> Count(c, p) == if Reaches(list, c.path, p) then 1 else 0
    ensures c.path.Some? && Parent(c.path.value) == n.path && Listed(list, c.path.value) && !c.noSub && Matches(c, list)
    ensures (if c.path == Some(p) then 1 else 0) + Count(c, p)
         == if Reaches(list, n.path, p) && c.path == Some(Top(list, n.path, p)) then 1 else 0
  {
    PartsMembers(list, n.path);
    var f :| f in Parts(list, n.path) && Agrees(c, f);
    hide Count, Matches;
    OnTheWay(list, n.path, f.path, p);
    if f.path == p && Reaches(list, Some(f.path), p) {
      ReachesIsLonger(list, f.path, p);
    }
  }

  /** Each path that can be reached is counted once. */
  lemma {:induction false} EachOnce(n: Node, list: seq<Folder>, p: Path)
    requires Matches(n, list) && !n.noSub && AllOpen(list) && Listed(list, p)
    ensures Count(n, p) == if Reaches(list, n.path, p) then 1 else 0
    decreases n
  {
    forall c | c in n.children && !c.virtual ensures (if c.path == Some(p) then 1 else 0) + Count(c, p)
      == (if Reaches(list, n.path, p) && c.path == Some(Top(list, n.path, p)) then 1 else 0)
    {
      ChildOpen(n, c, list);
      EachOnce(c, list, p);
      ChildCounts(n, c, list, p);
    }
    hide Matches;
    if Reaches(list, n.path, p) {
      var a := Top(list, n.path, p);
      TopIsChild(n, list, p);
      CountsOne(n.children, p, a, list);
    } else {
      CountsNone(n.children, p);
    }
  }

  lemma ChildOpen(n: Node, c: Node, list: seq<Folder>)
    requires Matches(n, list) && !n.noSub && AllOpen(list) && c in n.children && !c.virtual
    ensures Matches(c, list) && !c.noSub
  {
    PartsMembers(list, n.path);
    var f :| f in Parts(list, n.path) && Agrees(c, f);
  }

  lemma {:induction false} TopListed(list: seq<Folder>, q: Option<Path>, p: Path)
    requires Reaches(list, q, p)
    ensures Listed(list, Top(list, q, p)) && Parent(Top(list, q, p)) == q
    decreases |p|
  {
    if Parent(p) != q {
      TopListed(list, q, Parent(p).value);
    }
  }

  lemma TopIsChild(n: Node, list: seq<Folder>, p: Path)
    requires Matches(n, list) && !n.noSub && Reaches(list, n.path, p)
    ensures DistinctPaths(n.children)
    ensures exists c :: c in n.children && !c.virtual && c.path == Some(Top(list, n.path, p))
  {
    TopListed(list, n.path, p);
    PartsMembers(list, n.path);
    var f :| f in list && f.path == Top(list, n.path, p);
    assert f in Parts(list, n.path);
    var c :| c in n.children && !c.virtual && Agrees(c, f);
  }

  /** Nothing that is not listed is in the tree. */
  lemma {:induction false} NothingElse(n: Node, list: seq<Folder>, p: Path)
    requires Matches(n, list) && !Listed(list, p)
    ensures Count(n, p) == 0
    decreases n
  {
    forall c | c in n.children && !c.virtual ensures c.path != Some(p) && Count(c, p) == 0 {
      if !n.noSub {
        PartsMembers(list, n.path);
        var f :| f in Parts(list, n.path) && Agrees(c, f);
        NothingElse(c, list, p);
      }
    }
    CountsNone(n.children, p);
  }

  // ---- With the intermediate folders ----

  function RootPath(root: Path): Option<Path>
  {
    if root == [] then None else Some(root)
  }

  /** The list as it is scanned: below the root, and closed under parents. */
  ghost predicate ClosedBelow(list: seq<Folder>, root: Path)
  {
    (forall f :: f in list ==> Rel(root, f.path).Some?) && ParentClosed(Rels(list, root))
  }

  lemma {:induction false} ClosedReaches(list: seq<Folder>, root: Path, p: Path)
    requires ClosedBelow(list, root) && Listed(list, p)
    ensures Reaches(list, RootPath(root), p)
    decreases |p|
  {
    var f :| f in list && f.path == p;
    var r := Rel(root, p).value;
    RelsHas(list, root, f);
    FullRel(root, p);
    hide Rel, Parent;
    ParentOfFull(root, r);
    if Parent(r).Some? {
      RelsFrom(list, root, Parent(r).value);
      var g :| g in list && Rel(root, g.path) == Some(Parent(r).value);
      FullRel(root, g.path);
      assert Parent(p) == Some(g.path) && Listed(list, g.path);
      ClosedReaches(list, root, g.path);
    }
  }

  /**
   The whole scan, for folders the server lists below the root, none of which forbids
   subfolders: the tree holds exactly the listed folders and their parents below the
   root, each once, and nothing else.
   */
  method ScanTree(item: Node, listed: seq<Folder>, root: Path) returns (r: Node, ghost list: seq<Folder>)
    requires Sound(item) && !item.noSub && item.path == RootPath(root)
    requires DistinctFolders(listed) && AllOpen(listed)
    requires forall f :: f in listed ==> Proper(f.path) && Rel(root, f.path).Some?
    ensures ClosedBelow(list, root) && Rels(list, root) == Closure(Rels(listed, root)) && Matches(r, list)
    ensures Retains(item, r, list)
    ensures forall p ::
      Count(r, p) == if Rel(root, p).Some? && Rel(root, p).value in Closure(Rels(listed, root)) then 1 else 0
  {
    hide *;
    var all, add := AddInterFolders(listed, root);
    list := all;
    AddedFits(listed, add, root);
    AllBelow(list, root);
    r := ScanTreeRecursive(item, all);
    forall p
      ensures Count(r, p) == if Rel(root, p).Some? && Rel(root, p).value in Closure(Rels(listed, root)) then 1 else 0
    {
      ListedBelow(list, root, p);
      if Listed(list, p) {
        ClosedReaches(list, root, p);
        EachOnce(r, list, p);
      } else {
        NothingElse(r, list, p);
      }
    }
  }

  /** The paths of a list below the root are those whose part below the root it has. */
  lemma ListedBelow(list: seq<Folder>, root: Path, p: Path)
    requires forall f :: f in list ==> Rel(root, f.path).Some?
    ensures Listed(list, p) <==> Rel(root, p).Some? && Rel(root, p).value in Rels(list, root)
  {
    hide Rel, Rels, Full;
    if Listed(list, p) {
      var f :| f in list && f.path == p;
      RelsHas(list, root, f);
    }
    if Rel(root, p).Some? && Rel(root, p).value in Rels(list, root) {
      RelsFrom(list, root, Rel(root, p).value);
      var f :| f in list && Rel(root, f.path) == Rel(root, p);
      FullRel(root, f.path);
      FullRel(root, p);
    }
  }

  lemma AllBelow(list: seq<Folder>, root: Path)
    requires ClosedBelow(list, root)
    ensures forall f :: f in list ==> Rel(root, f.path).Some?
  {
  }

  /** The completed list is again free of duplicates and open. */
  lemma AddedFits(listed: seq<Folder>, add: seq<Folder>, root: Path)
    requires DistinctFolders(listed) && AllOpen(listed)
    requires forall f :: f in listed ==> Rel(root, f.path).Some?
    requires IsAdded(add, root, Closure(Rels(listed, root)) - Rels(listed, root))
    requires Rels(listed + add, root) == Closure(Rels(listed, root))
    ensures DistinctFolders(listed + add) && AllOpen(listed + add) && ClosedBelow(listed + add, root)
  {
    var missing := Closure(Rels(listed, root)) - Rels(listed, root);
    ClosureIsLeast(Rels(listed, root));
    hide Rel, Closure;
    forall f, g | f in listed && g in add ensures f.path != g.path {
      RelsHas(listed, root, f);
      RelsHas(add, root, g);
    }
    NoClash(listed, add);
  }

  lemma NoClash(a: seq<Folder>, b: seq<Folder>)
    requires DistinctFolders(a) && (forall i, j :: 0 <= i < j < |b| ==> b[i].path != b[j].path)
    requires forall f, g :: f in a && g in b ==> f.path != g.path
    ensures DistinctFolders(a + b)
  {
    var c := a + b;
    forall i, j | 0 <= i < j < |c| ensures c[i].path != c[j].path {
      if i < |a| <= j {
        assert c[i] in a && b[j - |a|] in b;
      }
    }
  }
}
