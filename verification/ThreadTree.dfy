/**
 The thread tree builder of procmsg.c.  Node 0 is the root and node k is the k-th
 message; links are kept as a parent for each node and a list of children for each node.
 */
module ThreadTree {
  import opened Bytes

  datatype MsgInfo = MsgInfo(msgid: Option<string>, inreplyto: Option<string>, references: seq<string>)

  // ---- Paths to the root ----

  function Up(parent: seq<nat>, x: nat, k: nat): nat
    decreases k
  {
    if k == 0 then x
    else if x < |parent| then Up(parent, parent[x], k - 1)
    else 0
  }

  /** a is x or one of its ancestors. */
  ghost predicate Under(parent: seq<nat>, a: nat, x: nat)
  {
    exists k: nat :: Up(parent, x, k) == a
  }

  ghost predicate WellFormed(parent: seq<nat>)
  {
    |parent| > 0 && parent[0] == 0 && forall x :: 0 <= x < |parent| ==> parent[x] < |parent|
  }

  /** From every node the way up ends at the root. */
  ghost predicate Acyclic(parent: seq<nat>)
  {
    WellFormed(parent) && forall x: nat :: x < |parent| ==> Under(parent, 0, x)
  }

  lemma {:induction false} UpInRange(parent: seq<nat>, x: nat, k: nat)
    requires WellFormed(parent) && x < |parent|
    ensures Up(parent, x, k) < |parent|
    ensures x == 0 ==> Up(parent, x, k) == 0
    decreases k
  {
    if k > 0 {
      UpInRange(parent, parent[x], k - 1);
    }
  }

  lemma {:induction false} UpAdds(parent: seq<nat>, x: nat, j: nat, k: nat)
    requires WellFormed(parent) && x < |parent|
    ensures Up(parent, x, j + k) == Up(parent, Up(parent, x, j), k)
    decreases j
  {
    if j > 0 {
      UpAdds(parent, parent[x], j - 1, k);
    }
  }

  /** A new leaf changes no path of the others. */
  lemma {:induction false} UpWithLeaf(parent: seq<nat>, p: nat, x: nat, k: nat)
    requires WellFormed(parent) && p < |parent| && x < |parent|
    ensures Up(parent + [p], x, k) == Up(parent, x, k)
    decreases k
  {
    if k > 0 {
      UpWithLeaf(parent, p, parent[x], k - 1);
    }
  }

  lemma AddLeafAcyclic(parent: seq<nat>, p: nat)
    requires Acyclic(parent) && p < |parent|
    ensures Acyclic(parent + [p])
  {
    forall x: nat | x < |parent| + 1 ensures Under(parent + [p], 0, x) {
      var y := if x < |parent| then x else p;
      assert Under(parent, 0, y);
      var k: nat :| Up(parent, y, k) == 0;
      UpWithLeaf(parent, p, y, k);
      if x == |parent| {
        assert Up(parent + [p], x, k + 1) == 0;
      }
    }
  }

  /** A path that does not meet y is not changed by moving y. */
  lemma {:induction false} UpAvoiding(parent: seq<nat>, y: nat, p: nat, x: nat, k: nat)
    requires WellFormed(parent) && x < |parent| && 0 < y < |parent| && p < |parent|
    requires forall j: nat :: j < k ==> Up(parent, x, j) != y
    ensures Up(parent[y := p], x, k) == Up(parent, x, k)
    decreases k
  {
    if k > 0 {
      assert Up(parent, x, 0) != y;
      forall j: nat | j < k - 1 ensures Up(parent, parent[x], j) != y {
        assert Up(parent, x, j + 1) != y;
      }
      UpAvoiding(parent, y, p, parent[x], k - 1);
    }
  }

  /** Moving a subtree below a node outside it keeps the tree acyclic. */
  lemma RelinkAcyclic(parent: seq<nat>, y: nat, p: nat)
    requires Acyclic(parent) && 0 < y < |parent| && p < |parent| && !Under(parent, y, p)
    ensures Acyclic(parent[y := p])
  {
    var parent' := parent[y := p];
    assert Under(parent, 0, p);
    var kp: nat :| Up(parent, p, kp) == 0;
    UpAvoiding(parent, y, p, p, kp);
    forall x: nat | x < |parent| ensures Under(parent', 0, x) {
      if Under(parent, y, x) {
        var m := FirstMeeting(parent, y, x);
        UpAvoiding(parent, y, p, x, m);
        UpAdds(parent', x, m, kp + 1);
        assert Up(parent', x, m + (kp + 1)) == 0;
      } else {
        assert Under(parent, 0, x);
        var k: nat :| Up(parent, x, k) == 0;
        UpAvoiding(parent, y, p, x, k);
      }
    }
  }

  lemma FirstMeeting(parent: seq<nat>, y: nat, x: nat) returns (m: nat)
    requires Under(parent, y, x)
    ensures Up(parent, x, m) == y && forall j: nat :: j < m ==> Up(parent, x, j) != y
  {
    var k: nat :| Up(parent, x, k) == y;
    m := 0;
    while Up(parent, x, m) != y
      invariant m <= k && forall j: nat :: j < m ==> Up(parent, x, j) != y
      decreases k - m
    {
      m := m + 1;
    }
  }

  /** Moving a top-level node takes nothing out of the subtree of another top-level node. */
  lemma RelinkKeepsSubtree(parent: seq<nat>, y: nat, p: nat, z: nat, q: nat)
    requires WellFormed(parent) && 0 < y < |parent| && p < |parent| && q < |parent|
    requires parent[y] == 0 && 0 < z && z != y && Under(parent, z, q)
    ensures Under(parent[y := p], z, q)
  {
    var m := FirstMeeting(parent, z, q);
    forall j: nat | j < m ensures Up(parent, q, j) != y {
      if Up(parent, q, j) == y {
        UpAdds(parent, q, j, m - j);
        UpInRange(parent, 0, m - j - 1);
      }
    }
    UpAvoiding(parent, y, p, q, m);
  }

  // ---- Lists of children ----

  ghost predicate NoDuplicates(s: seq<nat>)
  {
    forall i, j :: 0 <= i < j < |s| ==> s[i] != s[j]
  }

  /** s lists each child of p once and nothing else. */
  ghost predicate ListsChildren(parent: seq<nat>, p: nat, s: seq<nat>)
  {
    NoDuplicates(s) && forall c: nat :: c in s <==> 0 < c < |parent| && parent[c] == p
  }

  /** Every node but the root is listed exactly once, below its parent. */
  ghost predicate Linked(parent: seq<nat>, children: seq<seq<nat>>)
  {
    && |children| == |parent|
    && (forall p :: 0 <= p < |children| ==> ListsChildren(parent, p, children[p]))
  }

  function Remove(s: seq<nat>, x: nat): (r: seq<nat>)
    ensures forall y :: y in r ==> y in s
    ensures forall y :: y in s && y != x ==> y in r
    ensures |s| - 1 <= |r| <= |s|
  {
    if s == [] then [] else if s[0] == x then s[1..] else [s[0]] + Remove(s[1..], x)
  }

  lemma {:induction false} RemoveIs(s: seq<nat>, i: nat)
    requires i < |s| && forall j :: 0 <= j < i ==> s[j] != s[i]
    ensures Remove(s, s[i]) == s[..i] + s[i + 1..]
    decreases i
  {
    if i > 0 {
      RemoveIs(s[1..], i - 1);
      assert [s[0]] + (s[1..][..i - 1] + s[1..][i..]) == s[..i] + s[i + 1..];
    }
  }

  lemma NoDuplicatesWithout(s: seq<nat>, i: nat)
    requires NoDuplicates(s) && i < |s|
    ensures NoDuplicates(s[..i] + s[i + 1..]) && s[i] !in s[..i] + s[i + 1..]
  {
    var r := s[..i] + s[i + 1..];
    assert forall j :: 0 <= j < |r| ==> r[j] == if j < i then s[j] else s[j + 1];
    assert forall j :: 0 <= j < |r| ==> r[j] != s[i];
  }

  lemma RemoveAt(s: seq<nat>, i: nat)
    requires NoDuplicates(s) && i < |s|
    ensures Remove(s, s[i]) == s[..i] + s[i + 1..]
    ensures NoDuplicates(Remove(s, s[i])) && s[i] !in Remove(s, s[i])
  {
    NoDuplicatesWithout(s, i);
    assert forall j :: 0 <= j < i ==> s[j] != s[i];
    hide Remove, NoDuplicates;
    RemoveIs(s, i);
  }

  lemma ListsEach(parent: seq<nat>, s: seq<nat>)
    requires ListsChildren(parent, 0, s)
    ensures NoDuplicates(s) && (forall k :: 0 <= k < |s| ==> 0 < s[k] < |parent| && parent[s[k]] == 0)
    ensures forall x :: 0 < x < |parent| && parent[x] == 0 ==> x in s
  {
    assert forall k :: 0 <= k < |s| ==> s[k] in s;
  }

  lemma DecreasingWithout(s: seq<nat>, k: nat)
    requires k < |s| && Decreasing(s)
    ensures Decreasing(s[..k] + s[k + 1..])
  {
    var r := s[..k] + s[k + 1..];
    assert forall j :: 0 <= j < |r| ==> r[j] == if j < k then s[j] else s[j + 1];
  }

  function AddLeaf(children: seq<seq<nat>>, p: nat, first: bool): seq<seq<nat>>
    requires p < |children|
  {
    var node := |children|;
    children[p := if first then [node] + children[p] else children[p] + [node]] + [[]]
  }

  lemma AddLeafLinked(parent: seq<nat>, children: seq<seq<nat>>, p: nat, first: bool)
    requires WellFormed(parent) && Linked(parent, children) && p < |parent|
    ensures Linked(parent + [p], AddLeaf(children, p, first))
  {
    var children' := AddLeaf(children, p, first);
    forall q | 0 <= q < |children'| ensures ListsChildren(parent + [p], q, children'[q]) {
      if q == p {
        assert ListsChildren(parent, p, children[p]);
        ListWithNew(parent, p, children[p]);
      } else if q < |children| {
        assert ListsChildren(parent, q, children[q]);
      }
    }
  }

  lemma ListWithNew(parent: seq<nat>, p: nat, s: seq<nat>)
    requires |parent| > 0 && ListsChildren(parent, p, s)
    ensures ListsChildren(parent + [p], p, [|parent|] + s) && ListsChildren(parent + [p], p, s + [|parent|])
  {
    assert |parent| !in s;
    forall c: nat ensures (c in [|parent|] + s <==> c == |parent| || c in s) && (c in s + [|parent|] <==> c == |parent| || c in s) {
    }
  }

  lemma MoveLinked(parent: seq<nat>, children: seq<seq<nat>>, node: nat, p: nat)
    requires WellFormed(parent) && Linked(parent, children)
    requires 0 < node < |parent| && parent[node] == 0 && 0 < p < |parent|
    ensures var top := Remove(children[0], node);
      Linked(parent[node := p], children[0 := top][p := [node] + children[p]])
  {
    assert ListsChildren(parent, 0, children[0]);
    assert node in children[0];
    var i :| 0 <= i < |children[0]| && children[0][i] == node;
    RemoveAt(children[0], i);
    var parent', children' := parent[node := p], children[0 := Remove(children[0], node)][p := [node] + children[p]];
    forall q | 0 <= q < |children'| ensures ListsChildren(parent', q, children'[q]) {
      assert ListsChildren(parent, q, children[q]);
      if q == p {
        forall c: nat ensures c in children'[p] <==> c == node || c in children[p] {
        }
      }
    }
  }

  // ---- What the references of a message ask for ----

  /** The node each id stands for: the first message that carries it. */
  function IdTable(msgs: seq<MsgInfo>): (t: map<string, nat>)
    ensures forall id :: id in t ==> 0 < t[id] <= |msgs|
  {
    if msgs == [] then map[] else
      var t := IdTable(msgs[..|msgs| - 1]);
      var id := msgs[|msgs| - 1].msgid;
      if id.Some? && id.value !in t then t[id.value := |msgs|] else t
  }

  function FirstReference(t: map<string, nat>, refs: seq<string>): Option<nat>
  {
    if refs == [] then None else if refs[0] in t then Some(t[refs[0]]) else FirstReference(t, refs[1..])
  }

  function DirectParent(t: map<string, nat>, m: MsgInfo): Option<nat>
  {
    if m.inreplyto.Some? && m.inreplyto.value in t then Some(t[m.inreplyto.value]) else None
  }

  /** The node a message belongs under: what it replies to, or the first of its references that is there. */
  function WantedParent(msgs: seq<MsgInfo>, x: nat): (p: Option<nat>)
    requires 0 < x <= |msgs|
    ensures p.Some? ==> 0 < p.value <= |msgs|
  {
    var m, t := msgs[x - 1], IdTable(msgs);
    FirstReferenceInRange(t, m.references, |msgs|);
    if DirectParent(t, m).Some? then DirectParent(t, m) else FirstReference(t, m.references)
  }

  lemma {:induction false} FirstReferenceInRange(t: map<string, nat>, refs: seq<string>, n: nat)
    requires forall id :: id in t ==> 0 < t[id] <= n
    ensures FirstReference(t, refs).Some? ==> 0 < FirstReference(t, refs).value <= n
  {
    if refs != [] {
      FirstReferenceInRange(t, refs[1..], n);
    }
  }

  /** An entry of the table is never changed by later messages. */
  lemma {:induction false} IdTableGrows(msgs: seq<MsgInfo>, k: nat, id: string)
    requires k <= |msgs| && id in IdTable(msgs[..k])
    ensures id in IdTable(msgs) && IdTable(msgs)[id] == IdTable(msgs[..k])[id]
    decreases |msgs|
  {
    if k == |msgs| {
      assert msgs[..k] == msgs;
    } else {
      assert msgs[..|msgs| - 1][..k] == msgs[..k];
      IdTableGrows(msgs[..|msgs| - 1], k, id);
    }
  }

  /** The table holds the first message with each id. */
  lemma {:induction false} IdTableIsFirst(msgs: seq<MsgInfo>, id: string)
    ensures var t := IdTable(msgs);
      && (id in t ==> msgs[t[id] - 1].msgid == Some(id))
      && forall j :: 0 <= j < (if id in t then t[id] - 1 else |msgs|) ==> msgs[j].msgid != Some(id)
    decreases |msgs|
  {
    if msgs != [] {
      IdTableIsFirst(msgs[..|msgs| - 1], id);
    }
  }

  /** Message p is the first one with this id. */
  predicate IsFirstWith(msgs: seq<MsgInfo>, p: nat, id: string)
  {
    1 <= p <= |msgs| && msgs[p - 1].msgid == Some(id) && forall j :: 0 <= j < p - 1 ==> msgs[j].msgid != Some(id)
  }

  predicate NoneWith(msgs: seq<MsgInfo>, id: string)
  {
    forall j :: 0 <= j < |msgs| ==> msgs[j].msgid != Some(id)
  }

  /** Message p is what the nearest of the references that is there stands for. */
  predicate IsNearest(msgs: seq<MsgInfo>, refs: seq<string>, p: nat)
  {
    exists k :: 0 <= k < |refs| && IsFirstWith(msgs, p, refs[k]) && forall i :: 0 <= i < k ==> NoneWith(msgs, refs[i])
  }

  lemma InTable(msgs: seq<MsgInfo>, id: string)
    ensures id !in IdTable(msgs) <==> NoneWith(msgs, id)
    ensures forall p: nat :: IsFirstWith(msgs, p, id) <==> id in IdTable(msgs) && IdTable(msgs)[id] == p
  {
    IdTableIsFirst(msgs, id);
    var t := IdTable(msgs);
    if id in t {
      hide IdTable;
      assert msgs[t[id] - 1].msgid == Some(id);
      forall p: nat ensures IsFirstWith(msgs, p, id) <==> t[id] == p {
        if 0 < p < t[id] {
          assert msgs[p - 1].msgid != Some(id);
        }
      }
    }
  }

  lemma {:induction false} FirstReferenceIsNearest(msgs: seq<MsgInfo>, refs: seq<string>, p: nat)
    ensures FirstReference(IdTable(msgs), refs) == Some(p) <==> IsNearest(msgs, refs, p)
    ensures FirstReference(IdTable(msgs), refs) == None <==> forall i :: 0 <= i < |refs| ==> NoneWith(msgs, refs[i])
    decreases |refs|
  {
    hide IdTable, IsFirstWith, NoneWith;
    if refs != [] {
      var rest := refs[1..];
      InTable(msgs, refs[0]);
      FirstReferenceIsNearest(msgs, rest, p);
      assert forall i :: 0 <= i < |rest| ==> rest[i] == refs[i + 1];
      if NoneWith(msgs, refs[0]) {
        NotBoth(msgs, p, refs[0]);
        NearestBehind(msgs, refs, p);
        assert (forall i :: 0 <= i < |refs| ==> NoneWith(msgs, refs[i])) <==> forall i :: 0 <= i < |rest| ==> NoneWith(msgs, rest[i]) by {
          assert forall i :: 1 <= i < |refs| ==> refs[i] == rest[i - 1];
        }
      } else {
        assert IsNearest(msgs, refs, p) <==> IsFirstWith(msgs, p, refs[0]);
      }
    }
  }

  lemma NotBoth(msgs: seq<MsgInfo>, p: nat, id: string)
    ensures !(NoneWith(msgs, id) && IsFirstWith(msgs, p, id))
  {
  }

  /** A reference that nothing has makes no difference. */
  lemma NearestBehind(msgs: seq<MsgInfo>, refs: seq<string>, p: nat)
    requires refs != [] && NoneWith(msgs, refs[0])
    ensures IsNearest(msgs, refs, p) <==> IsNearest(msgs, refs[1..], p)
  {
    hide NoneWith, IsFirstWith;
    NotBoth(msgs, p, refs[0]);
    var rest := refs[1..];
    if IsNearest(msgs, refs, p) {
      var k :| 0 <= k < |refs| && IsFirstWith(msgs, p, refs[k]) && forall i :: 0 <= i < k ==> NoneWith(msgs, refs[i]);
      assert rest[k - 1] == refs[k] && forall i :: 0 <= i < k - 1 ==> rest[i] == refs[i + 1];
    }
    if IsNearest(msgs, rest, p) {
      var k :| 0 <= k < |rest| && IsFirstWith(msgs, p, rest[k]) && forall i :: 0 <= i < k ==> NoneWith(msgs, rest[i]);
      assert refs[k + 1] == rest[k] && forall i :: 1 <= i < k + 1 ==> refs[i] == rest[i - 1];
    }
  }

  /**
   What the messages alone say about the wanted parent: the first message with the id that
   is replied to; only if there is none, the first message with the nearest reference that
   any message has.
   */
  lemma WantedParentExactly(msgs: seq<MsgInfo>, x: nat, p: nat)
    requires 0 < x <= |msgs|
    ensures var m := msgs[x - 1];
      var noDirect := m.inreplyto == None || NoneWith(msgs, m.inreplyto.value);
      && (WantedParent(msgs, x) == Some(p) <==>
          || (m.inreplyto.Some? && IsFirstWith(msgs, p, m.inreplyto.value))
          || (noDirect && IsNearest(msgs, m.references, p)))
      && (WantedParent(msgs, x) == None <==>
          noDirect && forall k :: 0 <= k < |m.references| ==> NoneWith(msgs, m.references[k]))
  {
    hide IdTable, IsNearest, IsFirstWith, NoneWith, FirstReference;
    var m := msgs[x - 1];
    if m.inreplyto.Some? {
      InTable(msgs, m.inreplyto.value);
      NotBoth(msgs, p, m.inreplyto.value);
    }
    FirstReferenceIsNearest(msgs, m.references, p);
  }

  /** p is the first message before x that x replies to, or the root when there is none. */
  ghost predicate FirstRepliedTo(msgs: seq<MsgInfo>, x: nat, p: nat)
    requires 0 < x <= |msgs|
  {
    var id := msgs[x - 1].inreplyto;
    if p == 0 then id == None || forall j :: 0 <= j < x - 1 ==> msgs[j].msgid != id
    else p < x && id.Some? && msgs[p - 1].msgid == id && forall j :: 0 <= j < p - 1 ==> msgs[j].msgid != id
  }

  /** Every message so far is below the first earlier one it replies to. */
  ghost predicate Placed(msgs: seq<MsgInfo>, parent: seq<nat>)
  {
    |parent| <= |msgs| + 1 && forall x :: 0 < x < |parent| ==> FirstRepliedTo(msgs, x, parent[x])
  }

  lemma EarlierParent(msgs: seq<MsgInfo>, i: nat, p: nat)
    requires i < |msgs|
    requires var t, id := IdTable(msgs[..i]), msgs[i].inreplyto; p == if id.Some? && id.value in t then t[id.value] else 0
    ensures var d := DirectParent(IdTable(msgs[..i]), msgs[i]); p <= i && p == if d.Some? then d.value else 0
  {
  }

  lemma JustifiedGrows(msgs: seq<MsgInfo>, parent: seq<nat>, i: nat, p: nat)
    requires i < |msgs| && |parent| == i + 1 && Justified(msgs, parent)
    requires var d := DirectParent(IdTable(msgs[..i]), msgs[i]); p == if d.Some? then d.value else 0
    ensures Justified(msgs, parent + [p])
  {
    hide IdTable;
    if p != 0 {
      IdTableGrows(msgs, i, msgs[i].inreplyto.value);
    }
  }

  lemma TopBelow(parent: seq<nat>, children: seq<seq<nat>>)
    requires Linked(parent, children) && children != []
    ensures forall k :: 0 <= k < |children[0]| ==> children[0][k] < |parent|
  {
    assert ListsChildren(parent, 0, children[0]);
    assert forall k :: 0 <= k < |children[0]| ==> children[0][k] in children[0];
  }

  lemma DecreasingGrows(s: seq<nat>, n: nat)
    requires Decreasing(s) && forall k :: 0 <= k < |s| ==> s[k] < n
    ensures Decreasing([n] + s)
  {
  }

  /** The table with one message more. */
  lemma IdTableStep(msgs: seq<MsgInfo>, i: nat)
    requires i < |msgs|
    ensures var t, id := IdTable(msgs[..i]), msgs[i].msgid;
      IdTable(msgs[..i + 1]) == if id.Some? && id.value !in t then t[id.value := i + 1] else t
  {
    assert msgs[..i + 1][..i] == msgs[..i];
  }

  lemma NonePlaced(msgs: seq<MsgInfo>)
    ensures Placed(msgs, [0])
  {
  }

  lemma PlacedGrows(msgs: seq<MsgInfo>, parent: seq<nat>, i: nat, p: nat)
    requires i < |msgs| && |parent| == i + 1 && Placed(msgs, parent)
    requires p == if DirectParent(IdTable(msgs[..i]), msgs[i]).Some? then DirectParent(IdTable(msgs[..i]), msgs[i]).value else 0
    ensures Placed(msgs, parent + [p])
  {
    if msgs[i].inreplyto.Some? {
      IdTableIsFirst(msgs[..i], msgs[i].inreplyto.value);
    }
    assert FirstRepliedTo(msgs, i + 1, p);
    hide FirstRepliedTo;
    forall x | 0 < x < |parent + [p]| ensures FirstRepliedTo(msgs, x, (parent + [p])[x]) {
      if x <= i {
        assert FirstRepliedTo(msgs, x, parent[x]);
      }
    }
  }

  /** Every edge but those to the root is one a message asked for. */
  ghost predicate Justified(msgs: seq<MsgInfo>, parent: seq<nat>)
  {
    |parent| <= |msgs| + 1 && forall x :: 0 < x < |parent| ==> parent[x] == 0 || Some(parent[x]) == WantedParent(msgs, x)
  }

  /** A message rests at top level only when its wanted parent is missing or below itself. */
  ghost predicate Stuck(msgs: seq<MsgInfo>, parent: seq<nat>, x: nat)
    requires 0 < x <= |msgs|
  {
    var p := WantedParent(msgs, x);
    p == None || Under(parent, x, p.value)
  }

  ghost predicate Maximal(msgs: seq<MsgInfo>, parent: seq<nat>)
    requires |parent| == |msgs| + 1
  {
    forall x :: 0 < x < |parent| && parent[x] == 0 ==> Stuck(msgs, parent, x)
  }

  /** The k-th ancestor the messages themselves ask for. */
  function WantedUp(msgs: seq<MsgInfo>, x: nat, k: nat): Option<nat>
    requires 0 < x <= |msgs|
    decreases k
  {
    if k == 0 then Some(x) else
      var p := WantedParent(msgs, x);
      if p == None then None else WantedUp(msgs, p.value, k - 1)
  }

  lemma {:induction false} PathWasWanted(msgs: seq<MsgInfo>, parent: seq<nat>, x: nat, y: nat, k: nat)
    requires WellFormed(parent) && |parent| == |msgs| + 1 && Justified(msgs, parent)
    requires 0 < x < |parent| && y > 0 && Up(parent, x, k) == y
    ensures WantedUp(msgs, x, k) == Some(y)
    decreases k
  {
    if k > 0 {
      if parent[x] == 0 {
        UpInRange(parent, 0, k - 1);
      } else {
        PathWasWanted(msgs, parent, parent[x], y, k - 1);
      }
    }
  }

  /** In a finished tree a message whose wanted parent is there rests at top level only if the references go round in a circle through it. */
  lemma TopLevelOnlyIfCircular(msgs: seq<MsgInfo>, parent: seq<nat>, x: nat) returns (k: nat)
    requires WellFormed(parent) && |parent| == |msgs| + 1 && Justified(msgs, parent) && Maximal(msgs, parent)
    requires 0 < x < |parent| && parent[x] == 0 && WantedParent(msgs, x).Some?
    ensures k > 0 && WantedUp(msgs, x, k) == Some(x)
  {
    var p := WantedParent(msgs, x).value;
    assert Stuck(msgs, parent, x);
    var j: nat :| Up(parent, p, j) == x;
    PathWasWanted(msgs, parent, p, x, j);
    k := j + 1;
  }

  ghost predicate Decreasing(s: seq<nat>)
  {
    forall i, j :: 0 <= i < j < |s| ==> s[i] > s[j]
  }

  class Tree {
    var parent: seq<nat>
    var children: seq<seq<nat>>

    ghost predicate Valid()
      reads this
    {
      Acyclic(parent) && Linked(parent, children)
    }

    /** g_node_new(NULL) */
    constructor ()
      ensures parent == [0] && children == [[]] && Valid()
    {
      parent, children := [0], [[]];
      new;
      assert Up(parent, 0, 0) == 0;
      assert Under(parent, 0, 0);
    }

    /** g_node_insert_data_before: a new last node, put first or last among the children of p. */
    method InsertData(p: nat, first: bool) returns (node: nat)
      requires Valid() && p < |parent|
      modifies this
      ensures Valid() && node == |old(parent)| && parent == old(parent) + [p]
      ensures p == 0 && first ==> children[0] == [node] + old(children[0])
      ensures p != 0 ==> children[0] == old(children[0])
    {
      node := |parent|;
      AddLeafAcyclic(parent, p);
      AddLeafLinked(parent, children, p, first);
      parent := parent + [p];
      children := children[p := if first then [node] + children[p] else children[p] + [node]] + [[]];
    }

    /** g_node_is_ancestor */
    method IsAncestor(node: nat, descendant: nat) returns (found: bool)
      requires Valid() && 0 < node < |parent| && 0 < descendant < |parent|
      ensures found || node == descendant <==> Under(parent, node, descendant)
    {
      assert Under(parent, 0, descendant);
      ghost var depth: nat :| Up(parent, descendant, depth) == 0;
      ghost var k := 0;
      var cur := descendant;
      while cur != 0
        invariant cur < |parent| && k <= depth && Up(parent, descendant, k) == cur
        invariant forall j: nat :: 0 < j <= k ==> Up(parent, descendant, j) != node
        decreases depth - k
      {
        UpAdds(parent, descendant, k, 1);
        if parent[cur] == node {
          assert Up(parent, descendant, k + 1) == node;
          return true;
        }
        cur, k := parent[cur], k + 1;
      }
      forall j: nat | j > k ensures Up(parent, descendant, j) == 0 {
        UpAdds(parent, descendant, k, j - k);
        UpInRange(parent, 0, j - k);
      }
      if node == descendant {
        assert Up(parent, descendant, 0) == node;
      }
      return false;
    }

    /** g_node_unlink from the top level, then g_node_insert_before as first child of p. */
    method Move(node: nat, p: nat)
      requires Valid() && 0 < node < |parent| && 0 < p < |parent| && parent[node] == 0
      requires !Under(parent, node, p)
      modifies this
      ensures Valid() && parent == old(parent)[node := p]
      ensures children[0] == Remove(old(children[0]), node)
    {
      RelinkAcyclic(parent, node, p);
      MoveLinked(parent, children, node, p);
      children := children[0 := Remove(children[0], node)];
      children := children[p := [node] + children[p]];
      parent := parent[node := p];
    }
  
    /**
     procmsg_get_thread_tree: every message is in the tree exactly once, every edge is one
     a message asked for, and no message is left at top level that could go elsewhere.
     The top level is in reverse order of arrival.
     */
    method Build(msgs: seq<MsgInfo>)
      requires parent == [0] && children == [[]] && Valid()
      modifies this
      ensures Valid() && |parent| == |msgs| + 1
      ensures Justified(msgs, parent)
      ensures Maximal(msgs, parent)
      ensures Decreasing(children[0])
    {
      var table := AddAll(msgs);
      CompleteThreads(msgs, table);
    }

    /** The first loop: each message goes below the earlier message it replies to, or to the top. */
    method AddAll(msgs: seq<MsgInfo>) returns (table: map<string, nat>)
      requires parent == [0] && children == [[]] && Valid()
      modifies this
      ensures Valid() && |parent| == |msgs| + 1
      ensures table == IdTable(msgs)
      ensures Placed(msgs, parent)
      ensures Justified(msgs, parent)
      ensures Decreasing(children[0])
    {
      hide Placed;
      NonePlaced(msgs);
      table := map[];
      var i := 0;
      assert msgs[..0] == [];
      while i < |msgs|
        invariant i <= |msgs| && Valid() && |parent| == i + 1
        invariant table == IdTable(msgs[..i])
        invariant Placed(msgs, parent) && Justified(msgs, parent)
        invariant Decreasing(children[0])
      {
        table := AddOne(msgs, i, table);
        i := i + 1;
      }
      assert msgs[..i] == msgs;
    }

    method AddOne(msgs: seq<MsgInfo>, i: nat, table: map<string, nat>) returns (table': map<string, nat>)
      requires i < |msgs| && Valid() && |parent| == i + 1
      requires table == IdTable(msgs[..i])
      requires Placed(msgs, parent) && Justified(msgs, parent) && Decreasing(children[0])
      modifies this
      ensures Valid() && |parent| == i + 2
      ensures table' == IdTable(msgs[..i + 1])
      ensures Placed(msgs, parent) && Justified(msgs, parent) && Decreasing(children[0])
    {
      hide Placed, Justified, IdTable, Decreasing, Acyclic, ListsChildren, DirectParent;
      var m := msgs[i];
      var p := 0;
      if m.inreplyto.Some? && m.inreplyto.value in table {
        p := table[m.inreplyto.value];
      }
      ghost var top := children[0];
      EarlierParent(msgs, i, p);
      JustifiedGrows(msgs, parent, i, p);
      PlacedGrows(msgs, parent, i, p);
      TopBelow(parent, children);
      DecreasingGrows(top, i + 1);
      var node := InsertData(p, p == 0);
      table' := table;
      if m.msgid.Some? && m.msgid.value !in table {
        table' := table[m.msgid.value := node];
      }
      IdTableStep(msgs, i);
    }

    /** The second loop: walks the top level and moves each message below its wanted parent where it can. */
    method CompleteThreads(msgs: seq<MsgInfo>, table: map<string, nat>)
      requires Valid() && |parent| == |msgs| + 1 && table == IdTable(msgs)
      requires Justified(msgs, parent) && Decreasing(children[0])
      modifies this
      ensures Valid() && |parent| == |msgs| + 1
      ensures Justified(msgs, parent) && Maximal(msgs, parent)
      ensures Decreasing(children[0])
    {
      hide Acyclic, Justified, Stuck, IdTable, ListsChildren, Decreasing, NoDuplicates, Remove;
      ghost var done := 0;
      var node := if children[0] == [] then 0 else children[0][0];
      while node != 0
        invariant Valid() && |parent| == |msgs| + 1
        invariant Justified(msgs, parent) && Decreasing(children[0])
        invariant done <= |children[0]|
        invariant node == if done < |children[0]| then children[0][done] else 0
        invariant forall i | 0 <= i < done :: 0 < children[0][i] <= |msgs| && Stuck(msgs, parent, children[0][i])
        decreases |children[0]| - done
      {
        ListsEach(parent, children[0]);
        var next := NextSibling(node, done);
        ghost var top := children[0];
        var moved := Settle(msgs, table, node);
        if moved {
          RemoveAt(top, done);
          DecreasingWithout(top, done);
        } else {
          done := done + 1;
        }
        node := next;
      }
      ListsEach(parent, children[0]);
      forall x | 0 < x < |parent| && parent[x] == 0 ensures Stuck(msgs, parent, x) {
        assert x in children[0];
      }
    }

    /** node->next, for a top-level node. */
    method NextSibling(node: nat, ghost at: nat) returns (next: nat)
      requires Valid() && at < |children[0]| && children[0][at] == node
      ensures next == if at + 1 < |children[0]| then children[0][at + 1] else 0
    {
      assert ListsChildren(parent, 0, children[0]);
      var i :| 0 <= i < |children[0]| && children[0][i] == node;
      next := if i + 1 < |children[0]| then children[0][i + 1] else 0;
    }

    /** The lookups for one message: what it replies to, then its references in order; 0 when none is there. */
    method LookupParent(msgs: seq<MsgInfo>, table: map<string, nat>, node: nat) returns (p: nat)
      requires 0 < node <= |msgs| && table == IdTable(msgs)
      ensures WantedParent(msgs, node) == if p == 0 then None else Some(p)
    {
      var m := msgs[node - 1];
      p := 0;
      if m.inreplyto.Some? && m.inreplyto.value in table {
        p := table[m.inreplyto.value];
      }
      if p == 0 {
        var refs := m.references;
        while refs != []
          invariant p == 0 && FirstReference(table, refs) == FirstReference(table, m.references)
          decreases |refs|
        {
          if refs[0] in table {
            p := table[refs[0]];
            return;
          }
          refs := refs[1..];
        }
      }
    }

    /** One top-level message: moved below its wanted parent, unless that is missing, itself or below itself. */
    method Settle(msgs: seq<MsgInfo>, table: map<string, nat>, node: nat) returns (moved: bool)
      requires Valid() && |parent| == |msgs| + 1 && table == IdTable(msgs)
      requires 0 < node < |parent| && parent[node] == 0 && Justified(msgs, parent)
      modifies this
      ensures Valid() && |parent| == |msgs| + 1 && Justified(msgs, parent)
      ensures !moved ==> children == old(children) && parent == old(parent) && Stuck(msgs, parent, node)
      ensures moved ==> children[0] == Remove(old(children[0]), node)
      ensures forall z | 0 < z <= |msgs| && z != node && Stuck(msgs, old(parent), z) :: Stuck(msgs, parent, z)
    {
      var p := LookupParent(msgs, table, node);
      moved := false;
      if p != 0 && p != node {
        var circular := IsAncestor(node, p);
        if !circular {
          ghost var before := parent;
          Move(node, p);
          forall z | 0 < z <= |msgs| && z != node && Stuck(msgs, before, z) ensures Stuck(msgs, parent, z) {
            var q := WantedParent(msgs, z);
            if q.Some? {
              RelinkKeepsSubtree(before, node, p, z, q.value);
            }
          }
          moved := true;
        }
      } else if p == node {
        assert Up(parent, node, 0) == node;
      }
    }
  }
}
