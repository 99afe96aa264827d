/** Folder paths of imap.c: the intermediate folders the server does not list, and the selection of direct children. */
module FolderPaths {
  import opened Bytes

  type Path = seq<byte>
  const SLASH: byte := 47

  datatype Folder = Folder(path: Path, noSub: bool, noSelect: bool)

  /** Where the last slash is, or |p|. */
  function LastSlash(p: Path): (k: nat)
    ensures k <= |p| && (k < |p| ==> p[k] == SLASH)
    ensures forall j :: 0 <= j < |p| && p[j] == SLASH ==> j <= k < |p|
  {
    if p == [] then 0
    else if p[|p| - 1] == SLASH then |p| - 1
    else
      var k := LastSlash(p[..|p| - 1]);
      if k == |p| - 1 then |p| else k
  }

  function Parent(p: Path): (q: Option<Path>)
    ensures q.Some? ==> |q.value| < |p| && q.value <= p
  {
    var k := LastSlash(p);
    if k == |p| then None else Some(p[..k])
  }

  /** No component is empty. */
  predicate Proper(p: Path)
  {
    p != [] && p[0] != SLASH && p[|p| - 1] != SLASH
    && forall i :: 0 <= i < |p| - 1 ==> p[i] != SLASH || p[i + 1] != SLASH
  }

  lemma ParentIs(p: Path, k: nat)
    requires k < |p| && p[k] == SLASH && forall j :: k < j < |p| ==> p[j] != SLASH
    ensures Parent(p) == Some(p[..k])
  {
  }

  // ---- Selecting the direct children ----

  /** The test of imap_get_part_folder_list: strncmp, the next character, strchr. */
  predicate IsPart(path: Path, item: Option<Path>)
  {
    match item
    case None => SLASH !in path
    case Some(q) => q <= path && |path| > |q| && path[|q|] == SLASH && SLASH !in path[|q| + 1..]
  }

  /** It selects exactly the folders whose parent is the item; so every folder is selected for exactly one item. */
  lemma PartIsParent(path: Path, item: Option<Path>)
    ensures IsPart(path, item) <==> Parent(path) == item
  {
    if item.Some? {
      var q := item.value;
      if IsPart(path, item) {
        assert forall j :: |q| < j < |path| ==> path[j] == path[|q| + 1..][j - |q| - 1] && path[|q| + 1..][j - |q| - 1] in path[|q| + 1..];
        ParentIs(path, |q|);
        assert path[..|q|] == q;
      }
    }
  }

  function Parts(list: seq<Folder>, item: Option<Path>): seq<Folder>
  {
    if list == [] then []
    else (if Parent(list[0].path) == item then [list[0]] else []) + Parts(list[1..], item)
  }

  /** imap_get_part_folder_list */
  method GetPartFolderList(list: seq<Folder>, item: Option<Path>) returns (part: seq<Folder>)
    ensures part == Parts(list, item)
  {
    part := [];
    var cur := list;
    while cur != []
      invariant part + Parts(cur, item) == Parts(list, item)
      decreases |cur|
    {
      PartIsParent(cur[0].path, item);
      PartsStep(cur, item, part, Parts(list, item));
      if IsPart(cur[0].path, item) {
        part := part + [cur[0]];
      }
      cur := cur[1..];
    }
  }

  lemma PartsStep(cur: seq<Folder>, item: Option<Path>, part: seq<Folder>, whole: seq<Folder>)
    requires cur != [] && part + Parts(cur, item) == whole
    ensures (if Parent(cur[0].path) == item then part + [cur[0]] else part) + Parts(cur[1..], item) == whole
  {
    hide Parent;
  }

  lemma {:induction false} PartsMembers(list: seq<Folder>, item: Option<Path>)
    ensures forall f :: f in Parts(list, item) <==> f in list && Parent(f.path) == item
    decreases |list|
  {
    hide Parent;
    if list != [] {
      PartsMembers(list[1..], item);
    }
  }

  // ---- The closure ----

  /** The path below the root folder; None for the root itself and for what lies elsewhere. */
  function Rel(root: Path, path: Path): (r: Option<Path>)
  {
    if root == [] then (if path == [] then None else Some(path))
    else if |path| > |root| + 1 && root <= path && path[|root|] == SLASH then Some(path[|root| + 1..])
    else None
  }

  function Full(root: Path, r: Path): Path
  {
    if root == [] then r else root + [SLASH] + r
  }

  lemma RelFull(root: Path, r: Path)
    requires r != []
    ensures Rel(root, Full(root, r)) == Some(r)
  {
    assert root != [] ==> Full(root, r)[|root| + 1..] == r;
  }

  lemma FullRel(root: Path, path: Path)
    requires Rel(root, path).Some?
    ensures Full(root, Rel(root, path).value) == path
  {
  }

  lemma RelProper(root: Path, path: Path)
    requires Proper(path) && Rel(root, path).Some?
    ensures Proper(Rel(root, path).value)
  {
    var r := Rel(root, path).value;
    if root != [] {
      assert forall i :: 0 <= i < |r| ==> r[i] == path[|root| + 1 + i];
    }
  }

  /** The parent of a folder below the root: the root, or below it. */
  lemma ParentOfFull(root: Path, r: Path)
    requires r != []
    ensures Parent(Full(root, r)) == if Parent(r).Some? then Some(Full(root, Parent(r).value)) else if root == [] then None else Some(root)
  {
    if root != [] {
      var p, k := Full(root, r), LastSlash(r);
      assert forall j :: 0 <= j < |r| ==> p[|root| + 1 + j] == r[j];
      var at := if k < |r| then |root| + 1 + k else |root|;
      ParentIs(p, at);
      assert p[..at] == if k < |r| then Full(root, r[..k]) else root;
    }
  }

  function Rels(list: seq<Folder>, root: Path): set<Path>
  {
    if list == [] then {}
    else (match Rel(root, list[0].path) case Some(r) => {r} case None => {}) + Rels(list[1..], root)
  }

  ghost predicate ParentClosed(s: set<Path>)
  {
    forall r :: r in s && Parent(r).Some? ==> Parent(r).value in s
  }

  /** Where a path can be cut: at its end and before each slash. */
  function Cuts(r: Path): set<Path>
  {
    set k | 0 <= k <= |r| && (k == |r| || r[k] == SLASH) :: r[..k]
  }

  ghost predicate IsCut(q: Path, r: Path)
  {
    q <= r && (|q| == |r| || r[|q|] == SLASH)
  }

  lemma CutsAre(r: Path, q: Path)
    ensures q in Cuts(r) <==> IsCut(q, r)
  {
    if IsCut(q, r) {
      assert r[..|q|] == q;
    }
  }

  function Closure(s: set<Path>): set<Path>
  {
    set r, q | r in s && q in Cuts(r) :: q
  }

  /** The closure is the least set with the given paths in which every parent is present. */
  lemma ClosureIsLeast(s: set<Path>)
    ensures s <= Closure(s) && ParentClosed(Closure(s))
    ensures forall t: set<Path> :: s <= t && ParentClosed(t) ==> Closure(s) <= t
  {
    forall r | r in s ensures r in Closure(s) {
      CutsAre(r, r);
    }
    forall q | q in Closure(s) && Parent(q).Some? ensures Parent(q).value in Closure(s) {
      var r :| r in s && q in Cuts(r);
      CutsAre(r, q);
      CutsAre(r, Parent(q).value);
    }
    forall t: set<Path>, q | s <= t && ParentClosed(t) && q in Closure(s) ensures q in t {
      var r :| r in s && q in Cuts(r);
      CutsAre(r, q);
      CutsBelow(r, q, t);
    }
  }

  lemma {:induction false} CutsBelow(r: Path, q: Path, t: set<Path>)
    requires r in t && ParentClosed(t) && IsCut(q, r)
    ensures q in t
    decreases |r|
  {
    if q == r {
    } else {
      var p := Parent(r).value;
      assert |q| <= |p| && q <= p;
      assert |q| < |p| ==> p[|q|] == r[|q|];
      CutsBelow(p, q, t);
    }
  }

  // ---- Adding the intermediate folders ----

  /** The new folders: selectable by nobody, one for each missing path. */
  ghost predicate IsAdded(add: seq<Folder>, root: Path, missing: set<Path>)
  {
    && (forall f :: f in add ==> f.noSelect && !f.noSub && Rel(root, f.path).Some?)
    && (forall i, j :: 0 <= i < j < |add| ==> add[i].path != add[j].path)
    && Rels(add, root) == missing
  }

  lemma {:induction false} RelsAdd(a: seq<Folder>, b: seq<Folder>, root: Path)
    ensures Rels(a + b, root) == Rels(a, root) + Rels(b, root)
    decreases |a|
  {
    hide Rel;
    if a == [] {
      assert a + b == b;
    } else {
      assert (a + b)[1..] == a[1..] + b;
      RelsAdd(a[1..], b, root);
    }
  }

  lemma {:induction false} RelsHas(list: seq<Folder>, root: Path, f: Folder)
    requires f in list && Rel(root, f.path).Some?
    ensures Rel(root, f.path).value in Rels(list, root)
    decreases |list|
  {
    if f != list[0] {
      RelsHas(list[1..], root, f);
    }
  }

  lemma {:induction false} RelsFrom(list: seq<Folder>, root: Path, r: Path)
    requires r in Rels(list, root)
    ensures exists f :: f in list && Rel(root, f.path) == Some(r)
    decreases |list|
  {
    if Rel(root, list[0].path) == Some(r) {
      assert list[0] in list;
    } else {
      RelsFrom(list[1..], root, r);
      var f :| f in list[1..] && Rel(root, f.path) == Some(r);
      assert f in list;
    }
  }

  /** One parent that does not exist yet. */
  method AddFolder(parent: Path, root: Path, add: seq<Folder>, ghost missing: set<Path>) returns (add': seq<Folder>)
    requires parent != [] && parent !in missing && IsAdded(add, root, missing)
    ensures IsAdded(add', root, missing + {parent})
  {
    var f := Folder(Full(root, parent), false, true);
    add' := add + [f];
    RelFull(root, parent);
    RelsAdd(add, [f], root);
    hide Full, Rel;
    assert [f][1..] == [] && Rels([f], root) == {parent};
    forall g | g in add ensures g.path != f.path {
      if g.path == f.path {
        RelsHas(add, root, g);
      }
    }
  }

  /** The cuts of r at slashes before place k. */
  function CutsBefore(r: Path, k: nat): set<Path>
  {
    set j | 0 <= j < k && j < |r| && r[j] == SLASH :: r[..j]
  }

  /** The inner loop: every parent of one folder, from the top down. */
  method AddParents(p: Path, root: Path, exist: set<Path>, add: seq<Folder>, ghost listed: set<Path>)
    returns (exist': set<Path>, add': seq<Folder>)
    requires Proper(p) && p in exist
    requires IsAdded(add, root, exist - listed) && listed <= exist
    ensures exist' == exist + Cuts(p) && IsAdded(add', root, exist' - listed)
  {
    hide IsAdded;
    exist', add' := exist, add;
    var q := NextSlash(p, 0);
    assert CutsBefore(p, q) == {} && exist + {} == exist;
    while q < |p|
      invariant q <= |p| && (q < |p| ==> p[q] == SLASH)
      invariant exist' == exist + CutsBefore(p, q)
      invariant listed <= exist' && IsAdded(add', root, exist' - listed)
    {
      var parent := p[..q];
      ghost var before := exist';
      if parent !in exist' {
        add' := AddFolder(parent, root, add', exist' - listed);
        exist' := exist' + {parent};
        assert exist' - listed == (before - listed) + {parent};
      }
      ghost var at := q;
      q := NextSlash(p, q + 1);
      assert CutsBefore(p, q) == CutsBefore(p, at) + {parent};
      assert exist' == before + {parent};
    }
    assert Cuts(p) == CutsBefore(p, |p|) + {p} by {
      assert p[..|p|] == p;
    }
  }

  /** strchr */
  method NextSlash(p: Path, i: nat) returns (k: nat)
    requires i <= |p|
    ensures i <= k <= |p| && (k < |p| ==> p[k] == SLASH)
    ensures forall j :: i <= j < k ==> p[j] != SLASH
  {
    k := i;
    while k < |p| && p[k] != SLASH
      invariant i <= k <= |p| && forall j :: i <= j < k ==> p[j] != SLASH
    {
      k := k + 1;
    }
  }

  /**
   imap_add_inter_folders: the listed folders, and after them those parents below the
   root that are missing, each once.  Together they are the least set closed under parents.
   */
  method AddInterFolders(list: seq<Folder>, root: Path) returns (result: seq<Folder>, ghost add: seq<Folder>)
    requires forall f :: f in list ==> Proper(f.path)
    ensures result == list + add && IsAdded(add, root, Closure(Rels(list, root)) - Rels(list, root))
    ensures Rels(result, root) == Closure(Rels(list, root))
  {
    hide IsAdded, Rel, Proper, Cuts;
    var exist := CollectExisting(list, root);
    ghost var listed := exist;
    add := [];
    NothingAdded(root, listed);
    var addList, cur := [], list;
    ghost var done := {};
    while cur != []
      invariant forall f :: f in cur ==> Proper(f.path)
      invariant add == addList && listed <= exist && exist == listed + Closure(done)
      invariant IsAdded(addList, root, exist - listed) && listed == done + Rels(cur, root)
      decreases |cur|
    {
      var p := Rel(root, cur[0].path);
      if p.Some? {
        RelProper(root, cur[0].path);
        ClosureAdds(done, p.value);
        exist, addList := AddParents(p.value, root, exist, addList, listed);
        done := done + {p.value};
        add := addList;
      }
      cur := cur[1..];
    }
    ClosureIsLeast(listed);
    assert done == listed && exist == Closure(listed);
    result := list + addList;
    RelsAdd(list, add, root);
    AddedRels(add, root, exist - listed);
  }

  lemma NothingAdded(root: Path, listed: set<Path>)
    ensures IsAdded([], root, listed - listed) && Closure({}) == {} && listed + {} == listed
  {
  }

  lemma AddedRels(add: seq<Folder>, root: Path, missing: set<Path>)
    requires IsAdded(add, root, missing)
    ensures Rels(add, root) == missing
  {
  }

  lemma ClosureAdds(s: set<Path>, r: Path)
    ensures Closure(s + {r}) == Closure(s) + Cuts(r)
  {
    hide Cuts;
  }

  /** The first loop: the paths below the root go into the table. */
  method CollectExisting(list: seq<Folder>, root: Path) returns (exist: set<Path>)
    ensures exist == Rels(list, root)
  {
    hide Rel;
    exist := {};
    var cur := list;
    while cur != []
      invariant exist + Rels(cur, root) == Rels(list, root)
      decreases |cur|
    {
      var p := Rel(root, cur[0].path);
      if p.Some? {
        exist := exist + {p.value};
      }
      cur := cur[1..];
    }
  }
}
