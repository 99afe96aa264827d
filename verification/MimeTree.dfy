/**
 The tree of MIME parts of procmime.c and the walk over it that needs no stack.  A
 multipart lists its parts through `children` and `next`; a message/rfc822 part reaches
 the message inside it through `sub`, which points back through `main` and shares the
 parent of the part that holds it.
 */
module MimeTree {
  import opened Bytes

  /** The structure of a message; a message part whose inner header cannot be read has no body. */
  datatype Part = Leaf | Multipart(parts: seq<Part>) | Message(body: Option<Part>)

  class MimeInfo {
    var main: MimeInfo?
    var sub: MimeInfo?
    var next: MimeInfo?
    var parent: MimeInfo?
    var children: MimeInfo?
    var level: nat

    constructor ()
      ensures main == null && sub == null && next == null && parent == null && children == null && level == 0
    {
      main, sub, next, parent, children, level := null, null, null, null, null, 0;
    }
  }

  function Size(t: Part): (n: nat)
    ensures n > 0
  {
    match t
    case Leaf => 1
    case Multipart(parts) => 1 + SizeAll(parts)
    case Message(body) => if body == None then 1 else 1 + Size(body.value)
  }

  function SizeAll(parts: seq<Part>): nat
  {
    if parts == [] then 0 else Size(parts[0]) + SizeAll(parts[1..])
  }

  // ---- The links ----

  ghost predicate LinkIn(n: MimeInfo?, ns: seq<MimeInfo>)
  {
    n == null || n in ns
  }

  /** Links stay among the nodes, and the level falls on the way up. */
  ghost predicate Closed(ns: seq<MimeInfo>)
    reads ns
  {
    forall i :: 0 <= i < |ns| ==>
      && LinkIn(ns[i].parent, ns) && LinkIn(ns[i].main, ns) && LinkIn(ns[i].next, ns)
      && LinkIn(ns[i].children, ns) && LinkIn(ns[i].sub, ns)
      && (ns[i].parent != null ==> ns[i].parent.level < ns[i].level)
      && (ns[i].main != null ==> ns[i].main.level < ns[i].level)
  }

  /** The links of a node at one moment. */
  datatype Links = Links(main: MimeInfo?, sub: MimeInfo?, next: MimeInfo?, parent: MimeInfo?, children: MimeInfo?, level: nat)

  ghost function LinksOf(n: MimeInfo): Links
    reads n
  {
    Links(n.main, n.sub, n.next, n.parent, n.children, n.level)
  }

  ghost function Snapshot(ns: seq<MimeInfo>): (ls: seq<Links>)
    reads ns
    ensures |ls| == |ns| && forall i :: 0 <= i < |ns| ==> ls[i] == LinksOf(ns[i])
  {
    seq(|ns|, i requires 0 <= i < |ns| reads ns => LinksOf(ns[i]))
  }

  /** The nodes ns, with links ls, are the part t in pre-order, with the given links at its root. */
  ghost predicate Laid(t: Part, ns: seq<MimeInfo>, ls: seq<Links>,
                       parent: MimeInfo?, main: MimeInfo?, next: MimeInfo?, level: nat)
    requires |ns| == |ls| == Size(t)
    decreases t
  {
    var n := ls[0];
    && n.parent == parent && n.main == main && n.next == next && n.level == level
    && match t
       case Leaf => n.children == null && n.sub == null
       case Multipart(parts) =>
         && n.sub == null && n.children == (if parts == [] then null else ns[1])
         && LaidAll(parts, ns[1..], ls[1..], ns[0], null, level + 1)
       case Message(body) =>
         && n.children == null
         && if body == None then n.sub == null
            else n.sub == ns[1] && Laid(body.value, ns[1..], ls[1..], parent, ns[0], null, level + 1)
  }

  /** The parts of a multipart, one after another, each linked to the next and the last one to `end`. */
  ghost predicate LaidAll(parts: seq<Part>, ns: seq<MimeInfo>, ls: seq<Links>, parent: MimeInfo, end: MimeInfo?, level: nat)
    requires |ns| == |ls| == SizeAll(parts)
    decreases parts
  {
    parts == [] ||
    (var m := Size(parts[0]);
     && Laid(parts[0], ns[..m], ls[..m], parent, null, if m == |ns| then end else ns[m], level)
     && LaidAll(parts[1..], ns[m..], ls[m..], parent, end, level))
  }

  // ---- The walk ----

  /** Where the walk goes from a node with nothing below it: its next, that of the part it is inside, or on up. */
  ghost function Up(n: MimeInfo?, ns: seq<MimeInfo>): (r: MimeInfo?)
    requires Closed(ns) && LinkIn(n, ns)
    reads ns
    ensures LinkIn(r, ns)
    decreases if n == null then 0 else n.level + 1
  {
    if n == null then null
    else if n.next != null then n.next
    else if n.main != null then
      (if n.main.next != null then n.main.next else Up(n.main.parent, ns))
    else Up(n.parent, ns)
  }

  ghost function NextOf(n: MimeInfo, ns: seq<MimeInfo>): (r: MimeInfo?)
    requires Closed(ns) && n in ns
    reads ns
    ensures LinkIn(r, ns)
  {
    if n.children != null then n.children
    else if n.sub != null then n.sub
    else Up(n, ns)
  }

  /** procmime_mimeinfo_next */
  method Next(mimeinfo: MimeInfo, ghost ns: seq<MimeInfo>) returns (r: MimeInfo?)
    requires Closed(ns) && mimeinfo in ns
    ensures r == NextOf(mimeinfo, ns)
  {
    if mimeinfo.children != null {
      return mimeinfo.children;
    }
    if mimeinfo.sub != null {
      return mimeinfo.sub;
    }
    if mimeinfo.next != null {
      return mimeinfo.next;
    }
    var cur := mimeinfo;
    if cur.main != null {
      cur := cur.main;
      if cur.next != null {
        return cur.next;
      }
    }
    var up := cur.parent;
    while up != null
      invariant LinkIn(up, ns) && Up(up, ns) == NextOf(mimeinfo, ns)
      decreases if up == null then 0 else up.level + 1
    {
      if up.next != null {
        return up.next;
      }
      var inner := up;
      if up.main != null {
        inner := up.main;
        if inner.next != null {
          return inner.next;
        }
      }
      up := inner.parent;
    }
    return null;
  }

  // ---- What the walk visits ----

  /** A message directly inside a message directly inside this message part. */
  predicate NestedTwice(t: Part)
  {
    t.Message? && t.body.Some? && t.body.value.Message? && t.body.value.body.Some?
  }

  /** The nodes the walk visits: pre-order, but from a twice nested message it climbs past its siblings. */
  ghost function Visit(t: Part, ns: seq<MimeInfo>): seq<MimeInfo>
    requires |ns| == Size(t)
    decreases t
  {
    [ns[0]] + match t
              case Leaf => []
              case Multipart(parts) => VisitAll(parts, ns[1..])
              case Message(body) => if body == None then [] else Visit(body.value, ns[1..])
  }

  ghost function VisitAll(parts: seq<Part>, ns: seq<MimeInfo>): seq<MimeInfo>
    requires |ns| == SizeAll(parts)
    decreases parts
  {
    if parts == [] then [] else
      var m := Size(parts[0]);
      Visit(parts[0], ns[..m]) + if NestedTwice(parts[0]) then [] else VisitAll(parts[1..], ns[m..])
  }

  /** Starting at a, the walk visits these nodes and comes to b. */
  ghost predicate Walks(a: MimeInfo?, path: seq<MimeInfo>, b: MimeInfo?, all: seq<MimeInfo>)
    requires Closed(all)
    reads all
  {
    if path == [] then a == b
    else path[0] in all && a == path[0] && Walks(NextOf(path[0], all), path[1..], b, all)
  }

  lemma {:induction false} WalksOn(a: MimeInfo?, p: seq<MimeInfo>, b: MimeInfo?, q: seq<MimeInfo>, c: MimeInfo?, all: seq<MimeInfo>)
    requires Closed(all) && Walks(a, p, b, all) && Walks(b, q, c, all)
    ensures Walks(a, p + q, c, all)
    decreases |p|
  {
    if p == [] {
      assert p + q == q;
    } else {
      assert (p + q)[1..] == p[1..] + q;
      WalksOn(NextOf(p[0], all), p[1..], b, q, c, all);
    }
  }

  /** Where the walk goes when it has finished the part at node n. */
  ghost function Exit(t: Part, n: MimeInfo, all: seq<MimeInfo>): MimeInfo?
    requires Closed(all) && n in all
    reads all
  {
    if t.Message? && t.body.Some? then
      (if NestedTwice(t) || n.next == null then Up(n.parent, all) else n.next)
    else Up(n, all)
  }

  /** A stretch of the nodes of the whole tree, with their links. */
  ghost predicate Within(ns: seq<MimeInfo>, ls: seq<Links>, all: seq<MimeInfo>)
    reads ns
  {
    |ns| == |ls| && forall k :: 0 <= k < |ns| ==> ns[k] in all && ls[k] == LinksOf(ns[k])
  }

  lemma {:induction false} WalkPart(t: Part, ns: seq<MimeInfo>, ls: seq<Links>, all: seq<MimeInfo>,
                                    parent: MimeInfo?, main: MimeInfo?, next: MimeInfo?, level: nat)
    requires Closed(all) && |ns| == |ls| == Size(t) && Within(ns, ls, all)
    requires Laid(t, ns, ls, parent, main, next, level)
    requires main != null ==> next == null
    ensures Walks(ns[0], Visit(t, ns), Exit(t, ns[0], all), all)
    decreases t
  {
    var n := ns[0];
    match t {
      case Leaf =>
        assert Visit(t, ns) == [n] && [n][1..] == [];
      case Multipart(parts) =>
        var rest := VisitAll(parts, ns[1..]);
        assert ([n] + rest)[1..] == rest;
        if parts != [] {
          WalkParts(parts, ns[1..], ls[1..], all, n, level + 1);
        }
      case Message(body) =>
        if body == None {
          assert Visit(t, ns) == [n] && [n][1..] == [];
        } else {
          var rest := Visit(body.value, ns[1..]);
          assert ([n] + rest)[1..] == rest;
          WalkPart(body.value, ns[1..], ls[1..], all, parent, n, null, level + 1);
        }
    }
  }

  lemma {:induction false} WalkParts(parts: seq<Part>, ns: seq<MimeInfo>, ls: seq<Links>, all: seq<MimeInfo>, parent: MimeInfo, level: nat)
    requires Closed(all) && parts != [] && |ns| == |ls| == SizeAll(parts) && Within(ns, ls, all)
    requires LaidAll(parts, ns, ls, parent, null, level) && parent in all
    ensures Walks(ns[0], VisitAll(parts, ns), Up(parent, all), all)
    decreases parts
  {
    var t, m := parts[0], Size(parts[0]);
    WalkPart(t, ns[..m], ls[..m], all, parent, null, if m == |ns| then null else ns[m], level);
    if NestedTwice(t) {
      assert VisitAll(parts, ns) == Visit(t, ns[..m]);
    } else if |parts| == 1 {
      assert VisitAll(parts[1..], ns[m..]) == [];
      assert VisitAll(parts, ns) == Visit(t, ns[..m]);
    } else {
      WalkParts(parts[1..], ns[m..], ls[m..], all, parent, level);
      WalksOn(ns[0], Visit(t, ns[..m]), ns[m], VisitAll(parts[1..], ns[m..]), Up(parent, all), all);
    }
  }

  // ---- The whole tree ----

  ghost predicate LinksOk(n: Links, all: seq<MimeInfo>)
    reads all
  {
    && LinkIn(n.parent, all) && LinkIn(n.main, all) && LinkIn(n.next, all) && LinkIn(n.children, all) && LinkIn(n.sub, all)
    && (n.parent != null ==> n.parent.level < n.level)
    && (n.main != null ==> n.main.level < n.level)
  }

  lemma {:induction false} LaidLinks(t: Part, ns: seq<MimeInfo>, ls: seq<Links>, all: seq<MimeInfo>,
                                     parent: MimeInfo?, main: MimeInfo?, next: MimeInfo?, level: nat)
    requires |ns| == |ls| == Size(t) && Within(ns, ls, all) && Laid(t, ns, ls, parent, main, next, level)
    requires LinkIn(parent, all) && LinkIn(main, all) && LinkIn(next, all)
    requires (parent != null ==> parent.level < level) && (main != null ==> main.level < level)
    ensures forall k :: 0 <= k < |ls| ==> LinksOk(ls[k], all)
    decreases t
  {
    match t {
      case Leaf =>
      case Multipart(parts) =>
        LaidAllLinks(parts, ns[1..], ls[1..], all, ns[0], level + 1);
        assert forall k :: 0 < k < |ls| ==> ls[k] == ls[1..][k - 1];
      case Message(body) =>
        if body.Some? {
          LaidLinks(body.value, ns[1..], ls[1..], all, parent, ns[0], null, level + 1);
          assert forall k :: 0 < k < |ls| ==> ls[k] == ls[1..][k - 1];
        }
    }
  }

  lemma {:induction false} LaidAllLinks(parts: seq<Part>, ns: seq<MimeInfo>, ls: seq<Links>, all: seq<MimeInfo>, parent: MimeInfo, level: nat)
    requires |ns| == |ls| == SizeAll(parts) && Within(ns, ls, all) && LaidAll(parts, ns, ls, parent, null, level)
    requires parent in all && parent.level < level
    ensures forall k :: 0 <= k < |ls| ==> LinksOk(ls[k], all)
    decreases parts
  {
    if parts != [] {
      var m := Size(parts[0]);
      LaidLinks(parts[0], ns[..m], ls[..m], all, parent, null, if m == |ns| then null else ns[m], level);
      LaidAllLinks(parts[1..], ns[m..], ls[m..], all, parent, level);
      forall k | 0 <= k < |ls| ensures LinksOk(ls[k], all) {
        if k < m {
          assert ls[k] == ls[..m][k];
        } else {
          assert ls[k] == ls[m..][k - m];
        }
      }
    }
  }

  /** A whole message: a root without parent, and its parts. */
  ghost predicate IsTree(t: Part, ns: seq<MimeInfo>)
    reads ns
  {
    |ns| == Size(t) && Laid(t, ns, Snapshot(ns), null, null, null, 0)
  }

  /** The walk from the root visits exactly these nodes and ends. */
  lemma WalkTree(t: Part, ns: seq<MimeInfo>)
    requires IsTree(t, ns)
    ensures Closed(ns) && Walks(ns[0], Visit(t, ns), null, ns)
  {
    var ls := Snapshot(ns);
    LaidLinks(t, ns, ls, ns, null, null, null, 0);
    forall i | 0 <= i < |ns| ensures LinksOk(LinksOf(ns[i]), ns) {
      assert ls[i] == LinksOf(ns[i]);
    }
    WalkPart(t, ns, ls, ns, null, null, null, 0);
    assert Up(null, ns) == null && Up(ns[0], ns) == null;
  }

  /** The iteration every user of the tree runs: start at the root, go on with procmime_mimeinfo_next until null. */
  method Traverse(ghost t: Part, root: MimeInfo, ghost ns: seq<MimeInfo>) returns (visited: seq<MimeInfo>)
    requires IsTree(t, ns) && root == ns[0]
    ensures visited == Visit(t, ns)
    ensures NothingSkipped(t) <==> visited == ns
  {
    WalkTree(t, ns);
    visited := [];
    ghost var left := Visit(t, ns);
    var cur: MimeInfo? := root;
    while cur != null
      invariant Walks(cur, left, null, ns) && LinkIn(cur, ns)
      invariant visited + left == Visit(t, ns)
      decreases |left|
    {
      OneOn(visited, left);
      visited := visited + [cur];
      cur := Next(cur, ns);
      left := left[1..];
    }
    WalkIsCompleteExactly(t, ns);
  }

  lemma OneOn(a: seq<MimeInfo>, b: seq<MimeInfo>)
    requires b != []
    ensures a + b == (a + [b[0]]) + b[1..]
  {
  }

  // ---- When the walk is complete ----

  /** No twice nested message has a later sibling. */
  predicate NothingSkipped(t: Part)
    decreases t
  {
    match t
    case Leaf => true
    case Multipart(parts) => NothingSkippedIn(parts)
    case Message(body) => body == None || NothingSkipped(body.value)
  }

  predicate NothingSkippedIn(parts: seq<Part>)
    decreases parts
  {
    parts == [] ||
    (NothingSkipped(parts[0]) && (NestedTwice(parts[0]) ==> |parts| == 1) && NothingSkippedIn(parts[1..]))
  }

  lemma {:induction false} VisitCounts(t: Part, ns: seq<MimeInfo>)
    requires |ns| == Size(t)
    ensures |Visit(t, ns)| <= |ns|
    ensures |Visit(t, ns)| == |ns| <==> NothingSkipped(t)
    ensures NothingSkipped(t) ==> Visit(t, ns) == ns
    decreases t
  {
    assert ns == [ns[0]] + ns[1..];
    match t {
      case Leaf =>
      case Multipart(parts) => VisitAllCounts(parts, ns[1..]);
      case Message(body) =>
        if body.Some? {
          VisitCounts(body.value, ns[1..]);
        }
    }
  }

  lemma {:induction false} VisitAllCounts(parts: seq<Part>, ns: seq<MimeInfo>)
    requires |ns| == SizeAll(parts)
    ensures |VisitAll(parts, ns)| <= |ns|
    ensures |VisitAll(parts, ns)| == |ns| <==> NothingSkippedIn(parts)
    ensures NothingSkippedIn(parts) ==> VisitAll(parts, ns) == ns
    decreases parts
  {
    if parts != [] {
      var m := Size(parts[0]);
      assert ns == ns[..m] + ns[m..];
      VisitCounts(parts[0], ns[..m]);
      VisitAllCounts(parts[1..], ns[m..]);
    }
  }

  /** The walk visits every part once, in pre-order, if and only if no twice nested message has a later sibling. */
  lemma WalkIsCompleteExactly(t: Part, ns: seq<MimeInfo>)
    requires |ns| == Size(t)
    ensures Visit(t, ns) == ns <==> NothingSkipped(t)
  {
    VisitCounts(t, ns);
  }

  /** The smallest tree whose last part is never visited. */
  lemma NestedMessagesHideASibling(ns: seq<MimeInfo>)
    requires |ns| == 5
    ensures var t := Multipart([Message(Some(Message(Some(Leaf)))), Leaf]);
      Size(t) == 5 && Visit(t, ns) == ns[..4]
  {
    var inner := Message(Some(Leaf));
    var outer := Message(Some(inner));
    var parts := [outer, Leaf];
    assert Size(inner) == 2 && Size(outer) == 3 && parts[1..] == [Leaf] && [Leaf][1..] == [];
    assert SizeAll([Leaf]) == 1 && SizeAll(parts) == 4;
    var four := ns[1..];
    assert Visit(outer, four[..3]) == four[..3] by {
      VisitCounts(outer, four[..3]);
    }
    assert VisitAll(parts, four) == four[..3];
  }

  // ---- Building the tree ----

  ghost predicate DistinctNodes(ns: seq<MimeInfo>)
  {
    forall i, j :: 0 <= i < j < |ns| ==> ns[i] != ns[j]
  }

  /** The last of several parts got a new next; nothing else changed. */
  lemma {:induction false} LastGotNext(parts: seq<Part>, ns: seq<MimeInfo>, ls: seq<Links>, ls': seq<Links>,
                                       parent: MimeInfo, end: MimeInfo?, end': MimeInfo?, level: nat)
    requires parts != [] && |ns| == |ls| == |ls'| == SizeAll(parts)
    requires LaidAll(parts, ns, ls, parent, end, level)
    requires var k := LastRoot(parts); ls' == ls[k := ls[k].(next := end')]
    ensures LaidAll(parts, ns, ls', parent, end', level)
    decreases parts
  {
    var m := Size(parts[0]);
    if |parts| == 1 {
      assert ls[..m] == ls && ls'[..m] == ls' && ns[..m] == ns;
      assert SizeAll(parts[1..]) == 0 && m == |ns|;
      RootGotNext(parts[0], ns, ls, ls', parent, null, end, end', level);
    } else {
      assert ls'[..m] == ls[..m] && ls'[m..] == ls[m..][LastRoot(parts[1..]) := ls'[LastRoot(parts)]];
      assert m < |ns|;
      LastGotNext(parts[1..], ns[m..], ls[m..], ls'[m..], parent, end, end', level);
    }
  }

  lemma RootGotNext(t: Part, ns: seq<MimeInfo>, ls: seq<Links>, ls': seq<Links>,
                    parent: MimeInfo?, main: MimeInfo?, next: MimeInfo?, next': MimeInfo?, level: nat)
    requires |ns| == |ls| == |ls'| == Size(t) && Laid(t, ns, ls, parent, main, next, level)
    requires ls' == ls[0 := ls[0].(next := next')]
    ensures Laid(t, ns, ls', parent, main, next', level)
  {
    assert ls'[1..] == ls[1..];
  }

  /** The position of the root of the last part. */
  function LastRoot(parts: seq<Part>): (k: nat)
    requires parts != []
    ensures k < SizeAll(parts)
  {
    if |parts| == 1 then 0 else Size(parts[0]) + LastRoot(parts[1..])
  }

  /** One more part at the end. */
  lemma {:induction false} OneMorePart(parts: seq<Part>, ns: seq<MimeInfo>, ls: seq<Links>,
                                       t: Part, ns': seq<MimeInfo>, ls': seq<Links>, parent: MimeInfo, level: nat)
    requires |ns| == |ls| == SizeAll(parts) && |ns'| == |ls'| == Size(t)
    requires LaidAll(parts, ns, ls, parent, ns'[0], level)
    requires Laid(t, ns', ls', parent, null, null, level)
    ensures SizeAll(parts + [t]) == SizeAll(parts) + Size(t)
    ensures LaidAll(parts + [t], ns + ns', ls + ls', parent, null, level)
    decreases parts
  {
    if parts == [] {
      assert parts + [t] == [t] && [t][1..] == [];
      assert ns + ns' == ns' && ls + ls' == ls';
      assert ns'[..Size(t)] == ns' && ls'[..Size(t)] == ls';
    } else {
      var m := Size(parts[0]);
      assert (parts + [t])[1..] == parts[1..] + [t];
      assert (ns + ns')[..m] == ns[..m] && (ls + ls')[..m] == ls[..m];
      assert (ns + ns')[m..] == ns[m..] + ns' && (ls + ls')[m..] == ls[m..] + ls';
      OneMorePart(parts[1..], ns[m..], ls[m..], t, ns', ls', parent, level);
    }
  }

  /** What the links of the first part say. */
  lemma FirstOfLaid(parts: seq<Part>, ns: seq<MimeInfo>, ls: seq<Links>, parent: MimeInfo, level: nat)
    requires parts != [] && |ns| == |ls| == SizeAll(parts) && LaidAll(parts, ns, ls, parent, null, level)
    ensures var m := Size(parts[0]);
      && 0 < m <= |ns| && (ls[0].next == null <==> |parts| == 1)
      && (|parts| == 1 ==> LastRoot(parts) == 0)
      && (|parts| > 1 ==>
            && m < |ns| && ls[0].next == ns[m] && |ns[m..]| == SizeAll(parts[1..])
            && LaidAll(parts[1..], ns[m..], ls[m..], parent, null, level)
            && LastRoot(parts) == m + LastRoot(parts[1..]))
  {
    var m := Size(parts[0]);
    assert ls[..m][0] == ls[0];
    assert |parts| == 1 || SizeAll(parts[1..]) > 0;
  }

  lemma AllWithin(ns: seq<MimeInfo>)
    ensures Within(ns, Snapshot(ns), ns)
  {
  }

  lemma WithinTail(ns: seq<MimeInfo>, ls: seq<Links>, all: seq<MimeInfo>, m: nat)
    requires Within(ns, ls, all) && m <= |ns|
    ensures Within(ns[m..], ls[m..], all)
  {
  }

  /** The loop that runs to the last child. */
  method LastChild(parent: MimeInfo, ghost parts: seq<Part>, ghost ns: seq<MimeInfo>) returns (child: MimeInfo)
    requires |ns| == SizeAll(parts) && parts != []
    requires LaidAll(parts, ns, Snapshot(ns), parent, null, parent.level + 1)
    requires parent.children == ns[0]
    ensures child == ns[LastRoot(parts)]
  {
    hide Laid, LaidAll, Within, Size, SizeAll, LastRoot;
    ghost var rest, left, ls := parts, ns, Snapshot(ns);
    AllWithin(ns);
    FirstOfLaid(rest, left, ls, parent, parent.level + 1);
    child := parent.children;
    FirstLink(left, ls, ns);
    while child.next != null
      invariant rest != [] && left != [] && |left| == |ls| == SizeAll(rest) && child == left[0] && child.next == ls[0].next
      invariant Within(left, ls, ns)
      invariant LaidAll(rest, left, ls, parent, null, parent.level + 1)
      invariant left[LastRoot(rest)] == ns[LastRoot(parts)]
      decreases |rest|
    {
      ghost var m := Size(rest[0]);
      FirstOfLaid(rest, left, ls, parent, parent.level + 1);
      WithinTail(left, ls, ns, m);
      child := child.next;
      rest, left, ls := rest[1..], left[m..], ls[m..];
      FirstOfLaid(rest, left, ls, parent, parent.level + 1);
      FirstLink(left, ls, ns);
    }
    FirstOfLaid(rest, left, ls, parent, parent.level + 1);
  }

  lemma FirstLink(ns: seq<MimeInfo>, ls: seq<Links>, all: seq<MimeInfo>)
    requires ns != [] && Within(ns, ls, all)
    ensures ls != [] && ls[0].next == ns[0].next
  {
  }

  /** The nodes are the parts of a multipart, the last one linked to `end`. */
  ghost predicate PartsLaid(parts: seq<Part>, ns: seq<MimeInfo>, parent: MimeInfo, end: MimeInfo?)
    reads ns, parent
  {
    |ns| == SizeAll(parts) && LaidAll(parts, ns, Snapshot(ns), parent, end, parent.level + 1)
  }

  /** procmime_mimeinfo_insert: the new part goes after the last child. */
  method Insert(parent: MimeInfo, mimeinfo: MimeInfo, ghost parts: seq<Part>, ghost ns: seq<MimeInfo>)
    requires parent !in ns && mimeinfo !in ns && parent != mimeinfo && DistinctNodes(ns)
    requires PartsLaid(parts, ns, parent, null)
    requires parent.children == if ns == [] then null else ns[0]
    modifies parent`children, mimeinfo`parent, mimeinfo`level, ns
    ensures mimeinfo.parent == parent && mimeinfo.level == parent.level + 1
    ensures parent.children == if ns == [] then mimeinfo else ns[0]
    ensures PartsLaid(parts, ns, parent, mimeinfo)
  {
    if parent.children == null {
      parent.children := mimeinfo;
    } else {
      var child := LastChild(parent, parts, ns);
      ghost var before := Snapshot(ns);
      child.next := mimeinfo;
      ghost var k := LastRoot(parts);
      assert Snapshot(ns) == before[k := before[k].(next := mimeinfo)];
      LastGotNext(parts, ns, before, Snapshot(ns), parent, null, mimeinfo, parent.level + 1);
    }
    ghost var after := Snapshot(ns);
    mimeinfo.parent := parent;
    mimeinfo.level := parent.level + 1;
    assert Snapshot(ns) == after;
  }

  /**
   procmime_scan_multipart_message, given the structure of the text: what hangs below a
   part is created, linked and scanned part by part.
   */
  method Scan(mimeinfo: MimeInfo, t: Part) returns (ghost ns: seq<MimeInfo>)
    requires mimeinfo.children == null && mimeinfo.sub == null
    modifies mimeinfo`children, mimeinfo`sub
    ensures |ns| == Size(t) && ns[0] == mimeinfo && fresh(ns[1..]) && DistinctNodes(ns)
    ensures Laid(t, ns, Snapshot(ns), mimeinfo.parent, mimeinfo.main, mimeinfo.next, mimeinfo.level)
    decreases t, 0
  {
    match t {
      case Leaf =>
        ns := [mimeinfo];
      case Multipart(parts) =>
        ghost var below := ScanParts(mimeinfo, parts);
        ns := [mimeinfo] + below;
        MultipartOnTop(mimeinfo, parts, below);
      case Message(None) =>
        ns := [mimeinfo];
      case Message(Some(body)) =>
        var sub := new MimeInfo();
        mimeinfo.sub := sub;
        sub.level := mimeinfo.level + 1;
        sub.parent := mimeinfo.parent;
        sub.main := mimeinfo;
        ghost var below := Scan(sub, body);
        ns := [mimeinfo] + below;
        MessageOnTop(mimeinfo, body, below);
    }
  }

  method ScanParts(mimeinfo: MimeInfo, parts: seq<Part>) returns (ghost ns: seq<MimeInfo>)
    requires mimeinfo.children == null
    modifies mimeinfo`children
    ensures fresh(ns) && DistinctNodes(ns) && PartsLaid(parts, ns, mimeinfo, null)
    ensures mimeinfo.children == if ns == [] then null else ns[0]
    decreases parts, 0
  {
    ns := [];
    var i := 0;
    while i < |parts|
      invariant 0 <= i <= |parts| && fresh(ns) && DistinctNodes(ns)
      invariant PartsLaid(parts[..i], ns, mimeinfo, null)
      invariant i == 0 ==> ns == []
      invariant mimeinfo !in ns && mimeinfo.children == if ns == [] then null else ns[0]
    {
      assert parts[..i + 1] == parts[..i] + [parts[i]];
      ghost var below := ScanPart(mimeinfo, parts[i], parts[..i], ns);
      ns := ns + below;
      i := i + 1;
    }
    assert parts[..i] == parts;
  }

  /** One round of the loop: the part is created, inserted and scanned. */
  method ScanPart(mimeinfo: MimeInfo, t: Part, ghost parts: seq<Part>, ghost ns: seq<MimeInfo>) returns (ghost below: seq<MimeInfo>)
    requires mimeinfo !in ns && DistinctNodes(ns) && PartsLaid(parts, ns, mimeinfo, null)
    requires mimeinfo.children == if ns == [] then null else ns[0]
    modifies mimeinfo`children, ns
    ensures below != [] && fresh(below) && DistinctNodes(ns + below)
    ensures mimeinfo.children == (ns + below)[0]
    ensures PartsLaid(parts + [t], ns + below, mimeinfo, null)
    decreases t, 1
  {
    var partinfo := new MimeInfo();
    Insert(mimeinfo, partinfo, parts, ns);
    below := Scan(partinfo, t);
    assert fresh(below) by {
      forall x | x in below ensures fresh(x) {
        if x != partinfo {
          assert x in below[1..];
        }
      }
    }
    PartAtEnd(mimeinfo, parts, ns, t, below);
  }

  lemma Joined(a: seq<MimeInfo>, b: seq<MimeInfo>)
    requires DistinctNodes(a) && DistinctNodes(b) && forall x :: x in a ==> x !in b
    ensures Snapshot(a + b) == Snapshot(a) + Snapshot(b)
    ensures DistinctNodes(a + b)
  {
    var c := a + b;
    forall i, j | 0 <= i < j < |c| ensures c[i] != c[j] {
      if i < |a| <= j {
        assert c[i] in a && b[j - |a|] in b;
      }
    }
  }

  lemma MultipartOnTop(n: MimeInfo, parts: seq<Part>, below: seq<MimeInfo>)
    requires DistinctNodes(below) && n !in below && PartsLaid(parts, below, n, null)
    requires n.sub == null && n.children == if below == [] then null else below[0]
    ensures DistinctNodes([n] + below)
    ensures Laid(Multipart(parts), [n] + below, Snapshot([n] + below), n.parent, n.main, n.next, n.level)
  {
    Joined([n], below);
    var ns, ls := [n] + below, Snapshot([n] + below);
    assert ls[0] == LinksOf(n) && ns[1..] == below && ls[1..] == Snapshot(below);
    assert parts != [] ==> SizeAll(parts) > 0;
  }

  lemma MessageOnTop(n: MimeInfo, body: Part, below: seq<MimeInfo>)
    requires |below| == Size(body) && DistinctNodes(below) && n !in below
    requires Laid(body, below, Snapshot(below), n.parent, n, null, n.level + 1)
    requires n.sub == below[0] && n.children == null
    ensures DistinctNodes([n] + below)
    ensures Laid(Message(Some(body)), [n] + below, Snapshot([n] + below), n.parent, n.main, n.next, n.level)
  {
    Joined([n], below);
    var ns, ls := [n] + below, Snapshot([n] + below);
    assert ls[0] == LinksOf(n) && ns[1..] == below && ls[1..] == Snapshot(below);
  }

  lemma PartAtEnd(n: MimeInfo, parts: seq<Part>, ns: seq<MimeInfo>, t: Part, below: seq<MimeInfo>)
    requires |below| == Size(t) && PartsLaid(parts, ns, n, below[0])
    requires Laid(t, below, Snapshot(below), n, null, null, n.level + 1)
    requires DistinctNodes(ns) && DistinctNodes(below) && forall x :: x in ns ==> x !in below
    ensures DistinctNodes(ns + below) && PartsLaid(parts + [t], ns + below, n, null)
  {
    OneMorePart(parts, ns, Snapshot(ns), t, below, Snapshot(below), n, n.level + 1);
    Joined(ns, below);
  }

  /** Scanning a message and walking the result. */
  method ScanAndWalk(t: Part) returns (visited: seq<MimeInfo>, ghost parts: seq<MimeInfo>)
    ensures fresh(parts) && DistinctNodes(parts) && IsTree(t, parts)
    ensures visited == Visit(t, parts)
    ensures visited == parts <==> NothingSkipped(t)
  {
    var root := new MimeInfo();
    parts := Scan(root, t);
    visited := Traverse(t, root, parts);
  }
}
