/**
 The folder tree of imap.c, brought into line with the list of folders of the server.  The
 tree is a value here: a scan takes the old subtree of a folder and returns the new one.
 */
module FolderTree {
  import opened Bytes
  import opened FolderPaths

  datatype Node = Node(path: Option<Path>, noSub: bool, noSelect: bool, virtual: bool, children: seq<Node>)

  ghost predicate DistinctPaths(ns: seq<Node>)
  {
    forall i, j :: 0 <= i < j < |ns| ==> ns[i].path != ns[j].path
  }

  ghost predicate DistinctFolders(list: seq<Folder>)
  {
    forall i, j :: 0 <= i < j < |list| ==> list[i].path != list[j].path
  }

  /** A tree as the program builds it: no two children of a node have the same path. */
  ghost predicate Sound(n: Node)
    decreases n
  {
    DistinctPaths(n.children) && forall c :: c in n.children ==> c.path.Some? && Sound(c)
  }

  predicate Agrees(c: Node, f: Folder)
  {
    c.path == Some(f.path) && c.noSub == f.noSub && c.noSelect == f.noSelect
  }

  /** The children of a node are the folders listed below it, and virtual folders elsewhere. */
  ghost predicate ChildrenMatch(children: seq<Node>, part: seq<Folder>)
  {
    && (forall f :: f in part ==> exists c :: c in children && !c.virtual && Agrees(c, f))
    && (forall c :: c in children && !c.virtual ==> exists f :: f in part && Agrees(c, f))
    && (forall c, f :: c in children && c.virtual && f in part ==> c.path != Some(f.path))
  }

  /** The subtree is that of the list; a folder that admits no subfolders has none. */
  ghost predicate Matches(n: Node, list: seq<Folder>)
    decreases n
  {
    if n.noSub then n.children == []
    else
      && DistinctPaths(n.children) && ChildrenMatch(n.children, Parts(list, n.path))
      && forall c :: c in n.children && !c.virtual ==> Matches(c, list)
  }

  // ---- The scan ----

  function MaxLength(list: seq<Folder>): (m: nat)
    ensures forall f :: f in list ==> |f.path| <= m
  {
    if list == [] then 0 else
      var m := MaxLength(list[1..]);
      if |list[0].path| > m then |list[0].path| else m
  }

  /** How many levels can still follow. */
  function Depth(list: seq<Folder>, path: Option<Path>): nat
  {
    match path
    case None => MaxLength(list) + 1
    case Some(p) => if |p| <= MaxLength(list) then MaxLength(list) - |p| else 0
  }

  lemma DeeperParts(list: seq<Folder>, path: Option<Path>, f: Folder)
    requires f in Parts(list, path)
    ensures f in list && Depth(list, Some(f.path)) < Depth(list, path)
  {
    PartsMembers(list, path);
  }

  /** The listed folder with this path. */
  function ListedAs(part: seq<Folder>, path: Option<Path>): (f: Option<Folder>)
    ensures f.Some? ==> f.value in part && path == Some(f.value.path)
    ensures f == None ==> forall g :: g in part ==> path != Some(g.path)
  {
    if part == [] then None else if path == Some(part[0].path) then Some(part[0]) else ListedAs(part[1..], path)
  }

  /** What becomes of one child: gone when it is not listed, unless it is virtual; a listed folder takes the place of a virtual one. */
  function PrunedOne(c: Node, part: seq<Folder>): seq<Node>
  {
    match ListedAs(part, c.path)
    case None => if c.virtual then [c] else []
    case Some(f) => if c.virtual then [] else [WithFlags(c, f)]
  }

  function WithFlags(c: Node, f: Folder): Node
  {
    c.(noSub := f.noSub, noSelect := f.noSelect, children := if f.noSub then [] else c.children)
  }

  function Pruned(children: seq<Node>, part: seq<Folder>): seq<Node>
  {
    if children == [] then [] else PrunedOne(children[0], part) + Pruned(children[1..], part)
  }

  /** A real child stays exactly when it is listed, a virtual one exactly when it is not, and nothing comes in. */
  lemma {:induction false} PrunedExactly(children: seq<Node>, part: seq<Folder>)
    ensures forall c :: c in children && c.virtual && ListedAs(part, c.path) == None ==> c in Pruned(children, part)
    ensures forall c :: c in children && !c.virtual && ListedAs(part, c.path).Some? ==>
      WithFlags(c, ListedAs(part, c.path).value) in Pruned(children, part)
    ensures forall k :: k in Pruned(children, part) ==>
      exists c :: c in children && c.virtual == k.virtual && c.path == k.path && PrunedOne(c, part) == [k]
    decreases |children|
  {
    hide ListedAs, WithFlags;
    if children != [] {
      PrunedExactly(children[1..], part);
      assert forall c :: c in children <==> c == children[0] || c in children[1..];
      assert forall k :: k in Pruned(children, part) <==> k in PrunedOne(children[0], part) || k in Pruned(children[1..], part);
      OneKeepsPath(children[0], part);
    }
  }

  lemma OneKeepsPath(c: Node, part: seq<Folder>)
    ensures forall k :: k in PrunedOne(c, part) ==> c.virtual == k.virtual && c.path == k.path && PrunedOne(c, part) == [k]
  {
  }

  method FindFolder(part: seq<Folder>, path: Option<Path>) returns (found: Option<Folder>)
    ensures found == ListedAs(part, path)
  {
    var cur := part;
    while cur != []
      invariant ListedAs(cur, path) == ListedAs(part, path)
      decreases |cur|
    {
      if path == Some(cur[0].path) {
        return Some(cur[0]);
      }
      cur := cur[1..];
    }
    return None;
  }

  /** What holds of a level between the two loops. */
  ghost predicate Cleared(kept: seq<Node>, part: seq<Folder>)
  {
    && DistinctPaths(kept)
    && (forall c :: c in kept ==> c.path.Some? && Sound(c) && (c.noSub && !c.virtual ==> c.children == []))
    && (forall c :: c in kept && c.virtual ==> forall f :: f in part ==> c.path != Some(f.path))
    && (forall c :: c in kept && !c.virtual ==> exists f :: f in part && Agrees(c, f))
  }

  /** The first loop: children that are gone or give way to a real folder are removed, the others take over the flags. */
  method Prune(children: seq<Node>, part: seq<Folder>) returns (kept: seq<Node>)
    requires DistinctPaths(children) && forall c :: c in children ==> c.path.Some? && Sound(c)
    ensures kept == Pruned(children, part) && Cleared(kept, part)
  {
    hide ListedAs, Pruned, Cleared, DistinctPaths, Sound;
    kept := [];
    var cur := children;
    while cur != []
      invariant kept + Pruned(cur, part) == Pruned(children, part)
      decreases |cur|
    {
      PrunedFirst(cur, part);
      var oldItem := cur[0];
      var newItem := FindFolder(part, oldItem.path);
      ghost var before, more := kept, Pruned(cur[1..], part);
      assert before + (PrunedOne(oldItem, part) + more) == (before + PrunedOne(oldItem, part)) + more;
      if newItem == None {
        if oldItem.virtual {
          kept := kept + [oldItem];
        }
      } else if !oldItem.virtual {
        var f := newItem.value;
        kept := kept + [oldItem.(noSub := f.noSub, noSelect := f.noSelect, children := if f.noSub then [] else oldItem.children)];
      }
      assert kept == before + PrunedOne(oldItem, part);
      cur := cur[1..];
    }
    NonePruned(part);
    assert kept + [] == kept;
    PrunedCleared(children, part);
  }

  lemma {:induction false} PrunedCleared(children: seq<Node>, part: seq<Folder>)
    requires DistinctPaths(children) && forall c :: c in children ==> c.path.Some? && Sound(c)
    ensures Cleared(Pruned(children, part), part)
    decreases |children|
  {
    if children != [] {
      var rest := Pruned(children[1..], part);
      PrunedCleared(children[1..], part);
      OneCleared(children[0], part);
      PrunedExactly(children[1..], part);
      hide Pruned, PrunedOne, ListedAs, Sound;
      forall k | k in rest ensures k.path != children[0].path {
        var c :| c in children[1..] && c.path == k.path;
        var j :| 0 <= j < |children[1..]| && children[1..][j] == c;
        assert children[j + 1] == c;
      }
      ClearedAdds(children[0], rest, part);
      PrunedFirst(children, part);
    }
  }

  lemma NonePruned(part: seq<Folder>)
    ensures Pruned([], part) == []
  {
  }

  lemma PrunedFirst(children: seq<Node>, part: seq<Folder>)
    requires children != []
    ensures Pruned(children, part) == PrunedOne(children[0], part) + Pruned(children[1..], part)
  {
  }

  lemma OneCleared(c: Node, part: seq<Folder>)
    requires c.path.Some? && Sound(c)
    ensures Cleared(PrunedOne(c, part), part)
  {
    var f := ListedAs(part, c.path);
    if f.Some? && !c.virtual {
      var k := WithFlags(c, f.value);
      assert Agrees(k, f.value) && Sound(k);
    }
  }

  lemma ClearedAdds(c: Node, rest: seq<Node>, part: seq<Folder>)
    requires Cleared(PrunedOne(c, part), part) && Cleared(rest, part)
    requires forall k :: k in rest ==> k.path != c.path
    ensures Cleared(PrunedOne(c, part) + rest, part)
  {
    OneKeepsPath(c, part);
    hide PrunedOne, Sound;
    var one := PrunedOne(c, part);
    forall i, j | 0 <= i < j < |one + rest| ensures (one + rest)[i].path != (one + rest)[j].path {
      if i < |one| <= j {
        assert one[i] in one && rest[j - |one|] in rest;
      }
    }
  }

  /** The second loop: a folder that is not there yet is appended. */
  method FindOrAppend(children: seq<Node>, f: Folder) returns (children': seq<Node>, at: nat)
    requires DistinctPaths(children)
    ensures at < |children'| && children'[at].path == Some(f.path) && DistinctPaths(children')
    ensures if at < |children| then children' == children
            else at == |children| && children' == children + [Node(Some(f.path), f.noSub, f.noSelect, false, [])]
  {
    children', at := children, 0;
    while at < |children|
      invariant 0 <= at <= |children| && forall j :: 0 <= j < at ==> children[j].path != Some(f.path)
    {
      if children[at].path == Some(f.path) {
        return;
      }
      at := at + 1;
    }
    children' := children + [Node(Some(f.path), f.noSub, f.noSelect, false, [])];
  }

  /** The child for a folder is there and its subtree is scanned. */
  ghost predicate Done(children: seq<Node>, f: Folder, list: seq<Folder>)
  {
    exists k :: 0 <= k < |children| && !children[k].virtual && Agrees(children[k], f) && Matches(children[k], list)
  }

  /** What holds of the children between the rounds of the second loop. */
  ghost predicate Halfway(children: seq<Node>, part: seq<Folder>, i: nat, list: seq<Folder>)
  {
    && i <= |part| && Cleared(children, part)
    && (forall j :: 0 <= j < i ==> Done(children, part[j], list))
  }

  /**
   What a scan leaves in place: the listed folders stay where they were and keep their
   subtrees as far as these are listed, virtual folders stay as they are unless a folder
   is listed in their place, and only new folders are appended.
   */
  ghost predicate Retains(before: Node, after: Node, list: seq<Folder>)
    decreases after
  {
    if before.noSub then after == before
    else
      var kept := Pruned(before.children, Parts(list, before.path));
      && after == before.(children := after.children) && |kept| <= |after.children|
      && forall k :: 0 <= k < |after.children| ==>
           if k < |kept| && kept[k].virtual then after.children[k] == kept[k]
           else Retains(if k < |kept| then kept[k] else after.children[k].(children := []), after.children[k], list)
  }

  predicate InFront(part: seq<Folder>, i: nat, path: Option<Path>)
    requires i <= |part|
  {
    exists j :: 0 <= j < i && path == Some(part[j].path)
  }

  /** One child after i rounds: scanned if its folder was in them, and otherwise as the first loop left it. */
  ghost predicate Stays(was: Node, c: Node, part: seq<Folder>, i: nat, list: seq<Folder>)
    requires i <= |part|
  {
    was.path == c.path && if InFront(part, i, was.path) then Retains(was, c, list) else c == was
  }

  ghost predicate Rescanned(kept: seq<Node>, children: seq<Node>, part: seq<Folder>, i: nat, list: seq<Folder>)
  {
    && i <= |part| && |kept| <= |children|
    && (forall k :: 0 <= k < |kept| ==> Stays(kept[k], children[k], part, i, list))
    && (forall k :: |kept| <= k < |children| ==>
          InFront(part, i, children[k].path) && Retains(children[k].(children := []), children[k], list))
  }

  /** imap_scan_tree_recursive */
  method ScanTreeRecursive(item: Node, list: seq<Folder>) returns (r: Node)
    requires Sound(item) && !item.noSub && DistinctFolders(list)
    ensures r == item.(children := r.children) && Sound(r) && Matches(r, list) && Retains(item, r, list)
    decreases Depth(list, item.path), 1
  {
    var part := GetPartFolderList(list, item.path);
    PartsMembers(list, item.path);
    PartsDistinct(list, item.path);
    var children := Prune(item.children, part);
    ghost var kept := children;
    hide *;
    NothingDone(kept, part, list);
    var i := 0;
    while i < |part|
      invariant i <= |part| && Halfway(children, part, i, list) && Rescanned(kept, children, part, i, list)
    {
      children := ScanOne(kept, children, part, i, list, item.path);
      i := i + 1;
    }
    AllDone(children, part, list);
    r := item.(children := children);
    IntoMatches(r, part, list);
    IntoRetains(item, r, part, list);
  }

  lemma NothingDone(kept: seq<Node>, part: seq<Folder>, list: seq<Folder>)
    requires Cleared(kept, part)
    ensures Halfway(kept, part, 0, list) && Rescanned(kept, kept, part, 0, list)
  {
    hide Cleared, Retains;
  }

  /** One round: the folder is found or appended, and scanned. */
  method ScanOne(ghost kept: seq<Node>, children: seq<Node>, part: seq<Folder>, i: nat, list: seq<Folder>, path: Option<Path>)
    returns (r: seq<Node>)
    requires i < |part| && part == Parts(list, path) && DistinctFolders(list) && DistinctFolders(part)
    requires Halfway(children, part, i, list) && Rescanned(kept, children, part, i, list)
    ensures Halfway(r, part, i + 1, list) && Rescanned(kept, r, part, i + 1, list)
    decreases Depth(list, path), 0
  {
    hide *;
    var f := part[i];
    DeeperParts(list, path, f);
    HalfwayDistinct(children, part, i, list);
    var at;
    r, at := FindOrAppend(children, f);
    TakenUp(children, part, i, list, r, at);
    var c := r[at];
    if !c.noSub {
      c := ScanTreeRecursive(c, list);
    } else {
      NoSubMatches(c, list);
    }
    Settled(r, part, i, list, at, c);
    RescannedNext(kept, children, part, i, list, r, at, c);
    r := r[at := c];
  }

  lemma HalfwayDistinct(children: seq<Node>, part: seq<Folder>, i: nat, list: seq<Folder>)
    requires Halfway(children, part, i, list)
    ensures DistinctPaths(children)
  {
    hide DistinctPaths, Sound;
  }

  lemma RescannedNext(kept: seq<Node>, children: seq<Node>, part: seq<Folder>, i: nat, list: seq<Folder>, r: seq<Node>, at: nat, c: Node)
    requires i < |part| && DistinctFolders(part) && Rescanned(kept, children, part, i, list)
    requires at < |r| && r[at].path == Some(part[i].path) && DistinctPaths(r)
    requires if at < |children| then r == children
             else at == |children| && r == children + [Node(Some(part[i].path), part[i].noSub, part[i].noSelect, false, [])]
    requires c == r[at].(children := c.children) && Retains(r[at], c, list)
    ensures Rescanned(kept, r[at := c], part, i + 1, list)
  {
    hide Retains;
    var r' := r[at := c];
    NotBefore(part, i);
    assert forall path :: InFront(part, i + 1, path) <==> InFront(part, i, path) || path == Some(part[i].path);
    hide InFront;
    forall k | 0 <= k < |kept| ensures Stays(kept[k], r'[k], part, i + 1, list) {
      assert Stays(kept[k], children[k], part, i, list);
      assert k != at ==> r[k].path != r[at].path;
    }
    forall k | |kept| <= k < |r'|
      ensures InFront(part, i + 1, r'[k].path) && Retains(r'[k].(children := []), r'[k], list)
    {
      if k == at {
        assert r[at].(children := []) == c.(children := []);
      }
    }
  }

  lemma NotBefore(part: seq<Folder>, i: nat)
    requires i < |part| && DistinctFolders(part)
    ensures !InFront(part, i, Some(part[i].path))
  {
  }

  lemma IntoRetains(item: Node, r: Node, part: seq<Folder>, list: seq<Folder>)
    requires !item.noSub && part == Parts(list, item.path) && r == item.(children := r.children)
    requires var kept := Pruned(item.children, part); Cleared(kept, part) && Rescanned(kept, r.children, part, |part|, list)
    ensures Retains(item, r, list)
  {
    var kept := Pruned(item.children, part);
    hide Sound, Pruned, Parts, DistinctPaths;
    forall k | 0 <= k < |r.children|
      ensures if k < |kept| && kept[k].virtual then r.children[k] == kept[k]
        else Retains(if k < |kept| then kept[k] else r.children[k].(children := []), r.children[k], list)
    {
      if k < |kept| {
        assert kept[k] in kept && Stays(kept[k], r.children[k], part, |part|, list);
        if kept[k].virtual {
          assert !InFront(part, |part|, kept[k].path);
        } else {
          var f :| f in part && Agrees(kept[k], f);
          var j :| 0 <= j < |part| && part[j] == f;
          assert InFront(part, |part|, kept[k].path);
        }
      }
    }
  }

  /** After FindOrAppend the child for the folder agrees with it. */
  lemma TakenUp(children: seq<Node>, part: seq<Folder>, i: nat, list: seq<Folder>, r: seq<Node>, at: nat)
    requires i < |part| && DistinctFolders(part) && Halfway(children, part, i, list)
    requires at < |r| && r[at].path == Some(part[i].path) && DistinctPaths(r)
    requires if at < |children| then r == children
             else at == |children| && r == children + [Node(Some(part[i].path), part[i].noSub, part[i].noSelect, false, [])]
    ensures Halfway(r, part, i, list) && !r[at].virtual && Agrees(r[at], part[i]) && Sound(r[at]) && r[at].path.Some?
    ensures r[at].noSub ==> r[at].children == []
  {
    hide Matches;
    var f := part[i];
    assert f in part && r[at] in r;
    if at < |children| {
      assert !r[at].virtual;
      var f' :| f' in part && Agrees(r[at], f');
      var j :| 0 <= j < |part| && part[j] == f';
      assert j == i;
    } else {
      forall j | 0 <= j < i ensures Done(r, part[j], list) {
        assert Done(children, part[j], list);
        var k :| 0 <= k < |children| && !children[k].virtual && Agrees(children[k], part[j]) && Matches(children[k], list);
        assert r[k] == children[k];
      }
      assert Agrees(r[at], f);
    }
  }

  lemma NoSubMatches(c: Node, list: seq<Folder>)
    requires c.noSub && c.children == []
    ensures Matches(c, list) && Retains(c, c, list)
  {
  }

  /** A scanned child takes the place of the old one. */
  lemma Settled(r: seq<Node>, part: seq<Folder>, i: nat, list: seq<Folder>, at: nat, c: Node)
    requires i < |part| && at < |r| && Halfway(r, part, i, list)
    requires !r[at].virtual && Agrees(r[at], part[i])
    requires c == r[at].(children := c.children) && Sound(c) && Matches(c, list) && (c.noSub ==> c.children == [])
    ensures Halfway(r[at := c], part, i + 1, list)
  {
    hide Matches, Sound;
    var r' := r[at := c];
    assert forall d :: d in r' ==> d == c || d in r;
    assert r[at] in r;
    forall j | 0 <= j < i + 1 ensures Done(r', part[j], list) {
      if j < i {
        assert Done(r, part[j], list);
        var k :| 0 <= k < |r| && !r[k].virtual && Agrees(r[k], part[j]) && Matches(r[k], list);
        assert Agrees(r'[k], part[j]) && Matches(r'[k], list);
      } else {
        assert Agrees(r'[at], part[i]);
      }
    }
  }

  /** After the last round every child that is a folder has been scanned. */
  lemma AllDone(children: seq<Node>, part: seq<Folder>, list: seq<Folder>)
    requires Halfway(children, part, |part|, list)
    ensures ChildrenMatch(children, part)
    ensures forall c :: c in children && !c.virtual ==> Matches(c, list)
  {
    hide Matches, Sound, Done, Agrees, DistinctPaths;
    forall f | f in part ensures exists c :: c in children && !c.virtual && Agrees(c, f) {
      var j :| 0 <= j < |part| && part[j] == f;
      DoneChild(children, f, list);
    }
    forall c | c in children && !c.virtual ensures Matches(c, list) {
      var f :| f in part && Agrees(c, f);
      var j :| 0 <= j < |part| && part[j] == f;
      ScannedChild(children, f, list, c);
    }
  }

  lemma DoneChild(children: seq<Node>, f: Folder, list: seq<Folder>)
    requires Done(children, f, list)
    ensures exists c :: c in children && !c.virtual && Agrees(c, f)
  {
    hide Matches, Agrees;
    var k :| 0 <= k < |children| && !children[k].virtual && Agrees(children[k], f) && Matches(children[k], list);
    assert children[k] in children;
  }

  lemma ScannedChild(children: seq<Node>, f: Folder, list: seq<Folder>, c: Node)
    requires Done(children, f, list) && DistinctPaths(children) && c in children && Agrees(c, f)
    ensures Matches(c, list)
  {
    hide Matches;
    var k :| 0 <= k < |children| && !children[k].virtual && Agrees(children[k], f) && Matches(children[k], list);
    var m :| 0 <= m < |children| && children[m] == c;
    assert children[k].path == children[m].path;
  }

  lemma IntoMatches(r: Node, part: seq<Folder>, list: seq<Folder>)
    requires !r.noSub && part == Parts(list, r.path) && Halfway(r.children, part, |part|, list) && ChildrenMatch(r.children, part)
    requires forall c :: c in r.children && !c.virtual ==> Matches(c, list)
    ensures Matches(r, list) && Sound(r)
  {
    hide ChildrenMatch;
  }

  lemma {:induction false} PartsDistinct(list: seq<Folder>, item: Option<Path>)
    requires DistinctFolders(list)
    ensures DistinctFolders(Parts(list, item))
    decreases |list|
  {
    hide Parent;
    if list != [] {
      PartsDistinct(list[1..], item);
      PartsMembers(list[1..], item);
    }
  }
}
