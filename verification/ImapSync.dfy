/** imap_get_msg_list_full: bringing the cached message list of a folder into line with the server. */
module ImapSync {
  import opened Bytes
  import opened ImapFlags

  const UINT_MAX: nat := 0xFFFF_FFFF

  datatype Msg = Msg(num: nat, flags: MsgFlags)

  /** One message on the server: its UID and the flag list a FETCH shows. */
  datatype Remote = Remote(uid: nat, flagStr: string)

  /** UIDs are positive 32-bit numbers and come in ascending order (section 2.3.1.1 of RFC 3501). */
  ghost predicate ValidServer(server: seq<Remote>)
  {
    && (forall i :: 0 <= i < |server| ==> 0 < server[i].uid <= UINT_MAX)
    && (forall i, j :: 0 <= i < j < |server| ==> server[i].uid < server[j].uid)
  }

  ghost predicate Distinct(list: seq<Msg>)
  {
    forall i, j :: 0 <= i < j < |list| ==> list[i].num != list[j].num
  }

  ghost predicate InList(list: seq<Msg>, uid: nat)
  {
    exists m :: m in list && m.num == uid
  }

  ghost predicate OnServer(server: seq<Remote>, uid: nat)
  {
    exists i :: 0 <= i < |server| && server[i].uid == uid
  }

  /** The highest number in the list, or 0. */
  predicate IsLastNum(list: seq<Msg>, n: nat)
  {
    && (forall k :: 0 <= k < |list| ==> list[k].num <= n)
    && (n == 0 || exists k :: 0 <= k < |list| && list[k].num == n)
  }

  /** procmsg_get_last_num_in_msg_list */
  method GetLastNum(list: seq<Msg>) returns (last: nat)
    ensures IsLastNum(list, last)
  {
    last := 0;
    var i := 0;
    while i < |list|
      invariant 0 <= i <= |list| && IsLastNum(list[..i], last)
    {
      if last < list[i].num {
        last := list[i].num;
      }
      i := i + 1;
    }
    assert list[..i] == list;
  }

  function Fetched(r: Remote): Msg
  {
    Msg(r.uid, FreshFlags(r.flagStr))
  }

  /** What a full fetch would have given, up to the recent and deleted bits, which are not kept in step. */
  predicate SameState(m: Msg, r: Remote)
  {
    var f := FreshFlags(r.flagStr);
    && m.num == r.uid
    && m.flags.unread == f.unread && m.flags.marked == f.marked
    && m.flags.replied == f.replied && m.flags.color == f.color
  }

  ghost predicate UpToDate(m: Msg, server: seq<Remote>)
  {
    exists i :: 0 <= i < |server| && SameState(m, server[i])
  }

  /** The list holds exactly the messages of the server, once each, in the state of a fresh fetch. */
  ghost predicate AgreesWithServer(list: seq<Msg>, server: seq<Remote>)
  {
    && Distinct(list)
    && (forall i :: 0 <= i < |server| ==> InList(list, server[i].uid))
    && (forall m :: m in list ==> UpToDate(m, server))
  }

  function FlagsTable(server: seq<Remote>): map<nat, ImapFlags>
  {
    if server == [] then map[] else
      var r := server[|server| - 1];
      FlagsTable(server[..|server| - 1])[r.uid := TableFlags(r.flagStr)]
  }

  // ---- Counting ----

  function CountNew(list: seq<Msg>): nat
  {
    if list == [] then 0 else (if list[0].flags.isNew then 1 else 0) + CountNew(list[1..])
  }

  function CountUnread(list: seq<Msg>): nat
  {
    if list == [] then 0 else (if list[0].flags.unread then 1 else 0) + CountUnread(list[1..])
  }

  lemma {:induction false} CountsAdd(a: seq<Msg>, b: seq<Msg>)
    ensures CountNew(a + b) == CountNew(a) + CountNew(b)
    ensures CountUnread(a + b) == CountUnread(a) + CountUnread(b)
  {
    if a == [] {
      assert a + b == b;
    } else {
      assert (a + b)[1..] == a[1..] + b;
      CountsAdd(a[1..], b);
    }
  }

  /** Taking out or replacing one element changes the counts by that element alone. */
  lemma CountsAt(list: seq<Msg>, i: nat, m: Msg)
    requires i < |list|
    ensures CountNew(list[..i] + list[i + 1..]) == CountNew(list) - CountNew([list[i]])
    ensures CountUnread(list[..i] + list[i + 1..]) == CountUnread(list) - CountUnread([list[i]])
    ensures CountNew(list[i := m]) == CountNew(list) - CountNew([list[i]]) + CountNew([m])
    ensures CountUnread(list[i := m]) == CountUnread(list) - CountUnread([list[i]]) + CountUnread([m])
  {
    var a, b := list[..i], list[i + 1..];
    assert list == a + ([list[i]] + b) && list[i := m] == a + ([m] + b);
    CountsAdd(a, [list[i]] + b);
    CountsAdd([list[i]], b);
    CountsAdd(a, [m] + b);
    CountsAdd([m], b);
    CountsAdd(a, b);
  }

  // ---- The steps on one message ----

  predicate AllMarked(list: seq<Msg>, marks: map<nat, MsgFlags>)
  {
    forall k :: 0 <= k < |list| ==> list[k].num in marks
  }

  /** A listed message under its mark; the new bit of a mark holds only while no new messages have come. */
  function MarkedFlags(m: Msg, marks: map<nat, MsgFlags>, keepNew: bool): Msg
  {
    if m.num !in marks then m
    else if keepNew then m.(flags := marks[m.num])
    else m.(flags := marks[m.num].(isNew := false))
  }

  /** The flags of a cached message after it has been brought into line with its table entry. */
  function SyncedFlags(f: MsgFlags, i: ImapFlags): MsgFlags
  {
    MsgFlags(f.isNew && !i.seen, !i.seen, i.flagged, f.deleted, i.answered, i.color)
  }

  function Synced(m: Msg, i: ImapFlags): Msg
  {
    Msg(m.num, SyncedFlags(m.flags, i))
  }

  function SyncedList(list: seq<Msg>, table: map<nat, ImapFlags>): seq<Msg>
  {
    if list == [] then [] else
      (if list[0].num in table && table[list[0].num] != NO_IMAP_FLAGS then [Synced(list[0], table[list[0].num])] else [])
      + SyncedList(list[1..], table)
  }

  function Outside(list: seq<Msg>, first: nat, last: nat): seq<Msg>
  {
    if list == [] then [] else
      (if first <= list[0].num <= last then [] else [list[0]]) + Outside(list[1..], first, last)
  }

  function FetchRange(server: seq<Remote>, first: nat, last: nat): seq<Msg>
  {
    if server == [] then [] else
      (if first <= server[0].uid <= last then [Fetched(server[0])] else []) + FetchRange(server[1..], first, last)
  }

  lemma CountOne(m: Msg)
    ensures CountNew([m]) == (if m.flags.isNew then 1 else 0) && CountUnread([m]) == (if m.flags.unread then 1 else 0)
  {
  }

  lemma SyncedNext(list: seq<Msg>, table: map<nat, ImapFlags>)
    requires list != []
    ensures var m, rest := list[0], SyncedList(list[1..], table);
      SyncedList(list, table) ==
        if m.num in table && table[m.num] != NO_IMAP_FLAGS then [Synced(m, table[m.num])] + rest else rest
  {
    var rest := SyncedList(list[1..], table);
    assert [] + rest == rest;
  }

  class FolderItem {
    var newCount: int
    var unread: int
    var total: int
    var lastNum: nat
    var cacheDirty: bool
    var markDirty: bool

    constructor ()
    {
      newCount, unread, total, lastNum, cacheDirty, markDirty := 0, 0, 0, 0, false, false;
    }

    /** The counters are those of the list. */
    ghost predicate Counts(list: seq<Msg>)
      reads this
    {
      newCount == CountNew(list) && unread == CountUnread(list) && total == |list|
    }

    /** The loop of procmsg_set_flags that lays the marks over the messages. */
    method LayMarks(list: seq<Msg>, table: map<nat, MsgFlags>) returns (marked: seq<Msg>, unflagged: nat)
      requires forall k :: 0 <= k < |list| ==> list[k].flags.isNew && list[k].flags.unread
      modifies this`newCount, this`unread, this`total
      ensures |marked| == |list| && forall k :: 0 <= k < |list| ==> marked[k] == MarkedFlags(list[k], table, true)
      ensures Counts(marked)
      ensures unflagged == 0 <==> AllMarked(list, table)
    {
      newCount, unread, total := 0, 0, 0;
      marked, unflagged := [], 0;
      var i := 0;
      while i < |list|
        invariant 0 <= i <= |list| && |marked| == i
        invariant forall k :: 0 <= k < i ==> marked[k] == MarkedFlags(list[k], table, true)
        invariant unflagged == 0 <==> forall k :: 0 <= k < i ==> list[k].num in table
        invariant Counts(marked)
      {
        var m := list[i];
        if m.num in table {
          m := m.(flags := table[m.num]);
          if m.flags.isNew {
            newCount := newCount + 1;
          }
          if m.flags.unread {
            unread := unread + 1;
          }
        } else {
          unflagged := unflagged + 1;
          newCount := newCount + 1;
          unread := unread + 1;
        }
        total := total + 1;
        CountsAdd(marked, [m]);
        marked := marked + [m];
        i := i + 1;
      }
    }

    /** procmsg_set_flags: the marks of the mark file, when there is one, and the counters of the list. */
    method SetFlags(list: seq<Msg>, marks: Option<map<nat, MsgFlags>>, markQueue: bool) returns (marked: seq<Msg>)
      requires forall k :: 0 <= k < |list| ==> list[k].flags.isNew && list[k].flags.unread
      modifies this
      ensures |marked| == |list|
      ensures marks == None ==> marked == list
      ensures marks != None ==> forall k :: 0 <= k < |list| ==>
        marked[k] == MarkedFlags(list[k], marks.value, markQueue || AllMarked(list, marks.value))
      ensures Counts(marked)
      ensures if marks == None then lastNum == old(lastNum) else IsLastNum(list, lastNum)
      ensures markDirty <==> old(markDirty) || marks == None || !AllMarked(list, marks.value)
    {
      if marks == None {
        AllFresh(list);
        newCount, unread, total := |list|, |list|, |list|;
        markDirty := true;
        return list;
      }
      var table := marks.value;
      if !markQueue && !AllMarked(list, table) {
        table := map num | num in table :: table[num].(isNew := false);
        markDirty := true;
      }
      var unflagged;
      marked, unflagged := LayMarks(list, table);
      lastNum := GetLastNum(list);
      if unflagged > 0 {
        markDirty := true;
      }
    }

    /** The loop over the cached list: vanished messages go, flags follow the server, the counters follow both. */
    method SyncFlags(list: seq<Msg>, table: map<nat, ImapFlags>) returns (synced: seq<Msg>)
      requires Counts(list)
      modifies this
      ensures synced == SyncedList(list, table)
      ensures Counts(synced)
    {
      hide CountNew, CountUnread, SyncedList, SyncedFlags;
      synced := list;
      var i := 0;
      while i < |synced|
        invariant 0 <= i <= |synced|
        invariant synced[..i] + SyncedList(synced[i..], table) == SyncedList(list, table)
        invariant Counts(synced)
        decreases |synced| - i
      {
        var m := synced[i];
        ghost var before := synced;
        SyncedNext(synced[i..], table);
        assert before[i..][1..] == before[i + 1..];
        if m.num !in table || table[m.num] == NO_IMAP_FLAGS {
          Forget(m);
          CountsAt(synced, i, m);
          synced := synced[..i] + synced[i + 1..];
          assert synced[..i] == before[..i] && synced[i..] == before[i + 1..];
          continue;
        }
        var flags := SyncOne(m.flags, table[m.num]);
        CountOne(m);
        CountOne(Msg(m.num, flags));
        CountsAt(synced, i, Msg(m.num, flags));
        synced := synced[i := Msg(m.num, flags)];
        i := i + 1;
        StepSynced(before, i - 1, Msg(m.num, flags), SyncedList(before[i..], table));
      }
      NothingSynced(table);
      assert synced[i..] == [] && synced[..i] + [] == synced;
    }

    /** A message fetched from the server. */
    method CountIn(m: Msg)
      modifies this
      ensures newCount == old(newCount) + CountNew([m])
      ensures unread == old(unread) + CountUnread([m])
      ensures total == old(total) + 1
    {
      if m.flags.isNew {
        newCount := newCount + 1;
      }
      if m.flags.unread {
        unread := unread + 1;
      }
      total := total + 1;
    }

    /** A cached message that the server no longer has. */
    method Forget(m: Msg)
      modifies this
      ensures newCount == old(newCount) - CountNew([m])
      ensures unread == old(unread) - CountUnread([m])
      ensures total == old(total) - 1
    {
      if m.flags.isNew {
        newCount := newCount - 1;
      }
      if m.flags.unread {
        unread := unread - 1;
      }
      total := total - 1;
      cacheDirty, markDirty := true, true;
    }

    method SyncOne(f: MsgFlags, i: ImapFlags) returns (r: MsgFlags)
      modifies this
      ensures r == SyncedFlags(f, i)
      ensures total == old(total)
      ensures newCount == old(newCount) + (if r.isNew then 1 else 0) - (if f.isNew then 1 else 0)
      ensures unread == old(unread) + (if r.unread then 1 else 0) - (if f.unread then 1 else 0)
    {
      r := SyncSeen(f, i);
      r := SyncMarks(r, i);
    }

    method SyncSeen(f: MsgFlags, i: ImapFlags) returns (r: MsgFlags)
      modifies this`newCount, this`unread, this`markDirty
      ensures r == MsgFlags(f.isNew && !i.seen, !i.seen, f.marked, f.deleted, f.replied, f.color)
      ensures newCount == old(newCount) + (if r.isNew then 1 else 0) - (if f.isNew then 1 else 0)
      ensures unread == old(unread) + (if r.unread then 1 else 0) - (if f.unread then 1 else 0)
    {
      r := f;
      if !i.seen {
        if !r.unread {
          unread := unread + 1;
          r := r.(unread := true);
          markDirty := true;
        }
      } else {
        if r.isNew {
          newCount := newCount - 1;
          markDirty := true;
        }
        if r.unread {
          unread := unread - 1;
          markDirty := true;
        }
        r := r.(isNew := false, unread := false);
      }
    }

    method SyncMarks(f: MsgFlags, i: ImapFlags) returns (r: MsgFlags)
      modifies this`markDirty
      ensures r == MsgFlags(f.isNew, f.unread, i.flagged, f.deleted, i.answered, i.color)
    {
      r := f;
      if i.flagged != r.marked {
        r := r.(marked := i.flagged);
        markDirty := true;
      }
      if i.answered != r.replied {
        r := r.(replied := i.answered);
        markDirty := true;
      }
      if i.color != r.color {
        r := r.(color := i.color);
        markDirty := true;
      }
    }
  }

  lemma {:induction false} AllFresh(list: seq<Msg>)
    requires forall k :: 0 <= k < |list| ==> list[k].flags.isNew && list[k].flags.unread
    ensures CountNew(list) == CountUnread(list) == |list|
  {
    if list != [] {
      AllFresh(list[1..]);
    }
  }

  lemma StepSynced(list: seq<Msg>, i: nat, m: Msg, rest: seq<Msg>)
    requires i < |list|
    ensures list[i := m][..i + 1] + rest == list[..i] + ([m] + rest)
    ensures list[i := m][i + 1..] == list[i + 1..]
  {
  }

  // ---- From the flag table to the list ----

  lemma {:induction false} TableOfServer(server: seq<Remote>, i: nat)
    requires ValidServer(server) && i < |server|
    ensures server[i].uid in FlagsTable(server) && FlagsTable(server)[server[i].uid] == TableFlags(server[i].flagStr)
  {
    var k := |server| - 1;
    if i < k {
      TableOfServer(server[..k], i);
      assert server[i].uid != server[k].uid;
    }
  }

  lemma {:induction false} TableFromServer(server: seq<Remote>, uid: nat)
    requires uid in FlagsTable(server)
    ensures exists i :: 0 <= i < |server| && server[i].uid == uid
  {
    var k := |server| - 1;
    if uid != server[k].uid {
      TableFromServer(server[..k], uid);
      var i :| 0 <= i < k && server[..k][i].uid == uid;
      assert server[i].uid == uid;
    }
  }

  /** What remains of the cache is what the server has, each message in the state of a fresh fetch. */
  lemma {:induction false} SyncedIsUpToDate(list: seq<Msg>, server: seq<Remote>)
    requires ValidServer(server)
    ensures var synced := SyncedList(list, FlagsTable(server));
      && (Distinct(list) ==> Distinct(synced))
      && (forall m :: m in synced ==> UpToDate(m, server) && InList(list, m.num))
  {
    hide FlagsTable, SyncedList, Synced, UpToDate, InList, ValidServer;
    if list == [] {
      NothingSynced(FlagsTable(server));
    } else {
      var table := FlagsTable(server);
      var m := list[0];
      var rest := SyncedList(list[1..], table);
      SyncedIsUpToDate(list[1..], server);
      SyncedNext(list, table);
      forall m' | m' in rest ensures InList(list, m'.num) && (Distinct(list) ==> m'.num != m.num) {
        FoundLater(list, m'.num);
      }
      if m.num in table && table[m.num] != NO_IMAP_FLAGS {
        SyncedOneUpToDate(m, server);
        FoundFirst(list);
      }
    }
  }

  lemma NothingSynced(table: map<nat, ImapFlags>)
    ensures SyncedList([], table) == []
  {
  }

  lemma FoundFirst(list: seq<Msg>)
    requires list != []
    ensures InList(list, list[0].num)
  {
    assert list[0] in list;
  }

  lemma FoundLater(list: seq<Msg>, uid: nat)
    requires list != [] && InList(list[1..], uid)
    ensures InList(list, uid) && (Distinct(list) ==> list[0].num != uid)
  {
    var o :| o in list[1..] && o.num == uid;
    var i :| 0 <= i < |list[1..]| && list[1..][i] == o;
    assert list[i + 1] == o;
  }

  lemma SyncedOneUpToDate(m: Msg, server: seq<Remote>)
    requires ValidServer(server) && m.num in FlagsTable(server)
    ensures var n := Synced(m, FlagsTable(server)[m.num]); n.num == m.num && UpToDate(n, server)
  {
    hide FlagsTable, FreshFlags;
    TableFromServer(server, m.num);
    var i :| 0 <= i < |server| && server[i].uid == m.num;
    TableOfServer(server, i);
    ParsersAgree(server[i].flagStr);
    assert SameState(Synced(m, FlagsTable(server)[m.num]), server[i]);
  }

  /** The UIDs that remain of a cached list are those the server still has. */
  lemma {:induction false} SyncedHolds(list: seq<Msg>, server: seq<Remote>, uid: nat)
    requires ValidServer(server)
    ensures InList(SyncedList(list, FlagsTable(server)), uid) <==> InList(list, uid) && OnServer(server, uid)
  {
    if list != [] {
      var table, num := FlagsTable(server), list[0].num;
      SyncedHolds(list[1..], server, uid);
      InListAdds([list[0]], list[1..], uid);
      assert list == [list[0]] + list[1..];
      StaysExactly(server, num);
      if num in table && table[num] != NO_IMAP_FLAGS {
        InListAdds([Synced(list[0], table[num])], SyncedList(list[1..], table), uid);
      }
    }
  }

  lemma InListAdds(a: seq<Msg>, b: seq<Msg>, uid: nat)
    ensures InList(a + b, uid) <==> InList(a, uid) || InList(b, uid)
    ensures |a| == 1 ==> (InList(a, uid) <==> a[0].num == uid)
  {
    assert forall m :: m in a + b <==> m in a || m in b;
    assert |a| == 1 ==> a[0] in a;
  }

  /** A cached message stays exactly when the server has its UID: no entry of the table is zero. */
  lemma StaysExactly(server: seq<Remote>, uid: nat)
    requires ValidServer(server)
    ensures var table := FlagsTable(server);
      (uid in table && table[uid] != NO_IMAP_FLAGS) <==> OnServer(server, uid)
  {
    if uid in FlagsTable(server) {
      TableFromServer(server, uid);
    }
    if OnServer(server, uid) {
      var i :| 0 <= i < |server| && server[i].uid == uid;
      TableOfServer(server, i);
    }
  }

  lemma {:induction false} OutsideMembers(list: seq<Msg>, first: nat, last: nat)
    ensures forall m :: m in Outside(list, first, last) <==> m in list && !(first <= m.num <= last)
    ensures Distinct(list) ==> Distinct(Outside(list, first, last))
  {
    if list != [] {
      OutsideMembers(list[1..], first, last);
      assert Distinct(list) ==> forall m :: m in list[1..] ==> m.num != list[0].num;
    }
  }

  /** The messages of the server with UIDs from first to last, for a range that starts at position k and ends at the end. */
  lemma {:induction false} FetchRangeTail(server: seq<Remote>, first: nat, last: nat)
    requires forall i, j :: 0 <= i < j < |server| ==> server[i].uid < server[j].uid
    requires forall i :: 0 <= i < |server| ==> server[i].uid <= last
    ensures TailFrom(FetchRange(server, first, last), server, first)
  {
    if server == [] {
    } else if server[0].uid < first {
      FetchRangeTail(server[1..], first, last);
      assert FetchRange(server, first, last) == FetchRange(server[1..], first, last);
      TailGrows(FetchRange(server[1..], first, last), server, first);
    } else {
      WholeRange(server, first, last);
      FetchAllIs(server);
    }
  }

  /** `fetched` is what a fetch gives for the UIDs of the server from `first` on. */
  ghost predicate TailFrom(fetched: seq<Msg>, server: seq<Remote>, first: nat)
  {
    && |fetched| <= |server|
    && (forall k :: 0 <= k < |fetched| ==> fetched[k] == Fetched(server[|server| - |fetched| + k]))
    && (forall i :: 0 <= i < |server| ==> (server[i].uid >= first <==> i >= |server| - |fetched|))
  }

  lemma TailGrows(fetched: seq<Msg>, server: seq<Remote>, first: nat)
    requires server != [] && server[0].uid < first && TailFrom(fetched, server[1..], first)
    ensures TailFrom(fetched, server, first)
  {
    forall i | 0 <= i < |server| ensures server[i].uid >= first <==> i >= |server| - |fetched| {
      if i > 0 {
        assert server[i] == server[1..][i - 1];
      }
    }
  }

  lemma {:induction false} WholeRange(server: seq<Remote>, first: nat, last: nat)
    requires forall i :: 0 <= i < |server| ==> first <= server[i].uid <= last
    ensures FetchRange(server, first, last) == FetchAll(server)
  {
    if server != [] {
      WholeRange(server[1..], first, last);
    }
  }

  // ---- The whole synchronisation ----

  /** The position from i on of the first UID of the server that is not in the list. */
  function FirstUncached(list: seq<Msg>, server: seq<Remote>, i: nat): (k: nat)
    requires i <= |server|
    ensures i <= k <= |server|
    decreases |server| - i
  {
    if i == |server| then i
    else if exists m :: m in list && m.num == server[i].uid then FirstUncached(list, server, i + 1)
    else i
  }

  lemma {:induction false} FirstUncachedIs(list: seq<Msg>, server: seq<Remote>, i: nat)
    requires i <= |server|
    ensures var k := FirstUncached(list, server, i);
      && (forall j :: i <= j < k ==> InList(list, server[j].uid))
      && (k < |server| ==> !InList(list, server[k].uid))
    decreases |server| - i
  {
    if i < |server| {
      FirstUncachedIs(list, server, i + 1);
    }
  }

  /** The first UID to fetch, or 0. */
  function Begin(list: seq<Msg>, server: seq<Remote>): nat
  {
    var k := FirstUncached(list, server, 0);
    if k < |server| then server[k].uid else 0
  }

  /** The range that is thrown away before fetching starts here; `last + 1` wraps. */
  function CutFrom(begin: nat, last: nat): nat
  {
    if begin > 0 then begin else (last + 1) % (UINT_MAX + 1)
  }

  function LastUid(server: seq<Remote>): nat
    requires server != []
  {
    server[|server| - 1].uid
  }

  function Kept(list: seq<Msg>, server: seq<Remote>): seq<Msg>
    requires ValidServer(server) && server != []
  {
    var below := if server[0].uid == 1 then list else Outside(list, 0, server[0].uid - 1);
    Outside(below, CutFrom(Begin(list, server), LastUid(server)), UINT_MAX)
  }

  function NewList(list: seq<Msg>, server: seq<Remote>): seq<Msg>
    requires server != []
  {
    if 0 < Begin(list, server) <= LastUid(server)
    then FetchRange(server, Begin(list, server), LastUid(server)) else []
  }

  /** A duplicate-free list of messages the server has. */
  ghost predicate Trusted(list: seq<Msg>, server: seq<Remote>)
  {
    Distinct(list) && forall m :: m in list ==> UpToDate(m, server)
  }

  lemma KeptMembers(list: seq<Msg>, server: seq<Remote>)
    requires ValidServer(server) && server != [] && Trusted(list, server)
    ensures Distinct(Kept(list, server))
    ensures forall m :: m in Kept(list, server) <==> m in list && m.num < CutFrom(Begin(list, server), LastUid(server))
  {
    forall m | m in list ensures server[0].uid <= m.num <= UINT_MAX {
      assert UpToDate(m, server);
    }
    OutsideMembers(list, 0, server[0].uid - 1);
    var below := if server[0].uid == 1 then list else Outside(list, 0, server[0].uid - 1);
    OutsideMembers(below, CutFrom(Begin(list, server), LastUid(server)), UINT_MAX);
  }

  /**
   The list after a successful synchronisation is that of a fresh fetch, except in one
   case: nothing new, and a last UID of 2^32 - 1, so that `last + 1` wraps to 0 and the
   whole cache is thrown away.
   */
  lemma ResultAgreesExactly(list: seq<Msg>, server: seq<Remote>)
    requires ValidServer(server) && server != [] && Trusted(list, server)
    ensures AgreesWithServer(Kept(list, server) + NewList(list, server), server) <==>
      !(Begin(list, server) == 0 && LastUid(server) == UINT_MAX)
  {
    if Begin(list, server) == 0 {
      NothingNew(list, server);
    } else {
      KeptMembers(list, server);
      PiecesFit(list, server);
      MergedAgrees(Kept(list, server), NewList(list, server), server, Begin(list, server));
    }
  }

  lemma NothingNew(list: seq<Msg>, server: seq<Remote>)
    requires ValidServer(server) && server != [] && Trusted(list, server) && Begin(list, server) == 0
    ensures AgreesWithServer(Kept(list, server) + NewList(list, server), server) <==> LastUid(server) != UINT_MAX
  {
    hide Outside, Kept, FirstUncached, UpToDate, Trusted;
    KeptMembers(list, server);
    var kept := Kept(list, server);
    assert kept + NewList(list, server) == kept;
    if LastUid(server) == UINT_MAX {
      NothingKept(kept, server);
    } else {
      NothingToFetch(list, server);
      AllCached(list, kept, server);
    }
  }

  lemma NothingKept(kept: seq<Msg>, server: seq<Remote>)
    requires server != [] && forall m :: m !in kept
    ensures !AgreesWithServer(kept, server)
  {
    assert !InList(kept, server[0].uid);
  }

  lemma NothingToFetch(list: seq<Msg>, server: seq<Remote>)
    requires ValidServer(server) && Begin(list, server) == 0
    ensures forall i :: 0 <= i < |server| ==> InList(list, server[i].uid)
  {
    FirstUncachedIs(list, server, 0);
  }

  lemma AllCached(list: seq<Msg>, kept: seq<Msg>, server: seq<Remote>)
    requires Trusted(list, server) && Distinct(kept)
    requires forall i :: 0 <= i < |server| ==> InList(list, server[i].uid)
    requires forall m :: m in kept <==> m in list && m.num <= LastUid(server)
    requires ValidServer(server) && server != []
    ensures AgreesWithServer(kept, server)
  {
    forall i | 0 <= i < |server| ensures InList(kept, server[i].uid) {
      assert InList(list, server[i].uid);
    }
  }

  /** What is fetched is the tail of the server's list; everything before it is cached. */
  lemma NewListIs(list: seq<Msg>, server: seq<Remote>)
    requires ValidServer(server) && server != [] && Begin(list, server) > 0
    ensures var fetched, begin := NewList(list, server), Begin(list, server);
      && |fetched| <= |server|
      && (forall k :: 0 <= k < |fetched| ==> fetched[k] == Fetched(server[|server| - |fetched| + k]) && fetched[k].num >= begin)
      && (forall i :: 0 <= i < |server| - |fetched| ==> server[i].uid < begin && InList(list, server[i].uid))
  {
    FirstUncachedIs(list, server, 0);
    FetchRangeTail(server, Begin(list, server), LastUid(server));
  }

  lemma TailDistinct(fetched: seq<Msg>, server: seq<Remote>)
    requires ValidServer(server) && |fetched| <= |server|
    requires forall k :: 0 <= k < |fetched| ==> fetched[k] == Fetched(server[|server| - |fetched| + k])
    ensures Distinct(fetched)
  {
  }

  /** A cached part below `begin` that has all the server has there, and the rest of the server's list, make the whole. */
  ghost predicate Fit(kept: seq<Msg>, fetched: seq<Msg>, server: seq<Remote>, begin: nat)
  {
    && |fetched| <= |server|
    && (forall m :: m in kept ==> m.num < begin)
    && (forall k :: 0 <= k < |fetched| ==> fetched[k] == Fetched(server[|server| - |fetched| + k]) && fetched[k].num >= begin)
    && (forall i :: 0 <= i < |server| - |fetched| ==> InList(kept, server[i].uid))
  }

  lemma PiecesFit(list: seq<Msg>, server: seq<Remote>)
    requires ValidServer(server) && server != [] && Trusted(list, server) && Begin(list, server) > 0
    ensures Fit(Kept(list, server), NewList(list, server), server, Begin(list, server))
  {
    NewListIs(list, server);
    KeptMembers(list, server);
    var kept := Kept(list, server);
    forall i | 0 <= i < |server| - |NewList(list, server)| ensures InList(kept, server[i].uid) {
      assert InList(list, server[i].uid);
    }
  }

  lemma MergedAgrees(kept: seq<Msg>, fetched: seq<Msg>, server: seq<Remote>, begin: nat)
    requires ValidServer(server) && Trusted(kept, server) && Fit(kept, fetched, server, begin)
    ensures AgreesWithServer(kept + fetched, server)
  {
    MergedComplete(kept, fetched, server);
    TailDistinct(fetched, server);
    MergedDistinct(kept, fetched, begin);
  }

  lemma MergedComplete(kept: seq<Msg>, fetched: seq<Msg>, server: seq<Remote>)
    requires |fetched| <= |server|
    requires forall i :: 0 <= i < |server| - |fetched| ==> InList(kept, server[i].uid)
    requires forall k :: 0 <= k < |fetched| ==> fetched[k] == Fetched(server[|server| - |fetched| + k])
    requires forall m :: m in kept ==> UpToDate(m, server)
    ensures forall i :: 0 <= i < |server| ==> InList(kept + fetched, server[i].uid)
    ensures forall m :: m in kept + fetched ==> UpToDate(m, server)
  {
    var base, result := |server| - |fetched|, kept + fetched;
    forall i | 0 <= i < |server| ensures InList(result, server[i].uid) {
      if i < base {
        assert InList(kept, server[i].uid);
        var m :| m in kept && m.num == server[i].uid;
        assert m in result;
      } else {
        assert result[|kept| + (i - base)] == Fetched(server[i]);
        assert Fetched(server[i]) in result;
      }
    }
    forall m | m in result ensures UpToDate(m, server) {
      if m !in kept {
        var k :| 0 <= k < |fetched| && fetched[k] == m;
        assert SameState(m, server[base + k]);
      }
    }
  }

  lemma MergedDistinct(kept: seq<Msg>, fetched: seq<Msg>, begin: nat)
    requires Distinct(kept) && forall m :: m in kept ==> m.num < begin
    requires forall k :: 0 <= k < |fetched| ==> fetched[k].num >= begin
    requires Distinct(fetched)
    ensures Distinct(kept + fetched)
  {
    assert forall i :: 0 <= i < |kept| ==> kept[i] in kept;
  }

  lemma {:induction false} OutsideSplits(list: seq<Msg>, first: nat, last: nat)
    ensures |Outside(list, first, last)| <= |list|
    ensures |Outside(list, first, last)| == |list| <==> forall m :: m in list ==> !(first <= m.num <= last)
    ensures |Outside(list, first, last)| == |list| ==> Outside(list, first, last) == list
  {
    if list != [] {
      OutsideSplits(list[1..], first, last);
      assert forall m :: m in list <==> m == list[0] || m in list[1..];
    }
  }

  /** No cached message that the server still has lies above the first one that is to be fetched. */
  ghost predicate NoHoles(list: seq<Msg>, server: seq<Remote>)
    requires server != []
  {
    forall i :: 0 <= i < |server| && InList(list, server[i].uid) ==>
      server[i].uid < CutFrom(Begin(list, server), LastUid(server))
  }

  /** What vanished from the server plays no part in where the fetch begins and what is cut. */
  lemma CacheDecides(cache: seq<Msg>, synced: seq<Msg>, server: seq<Remote>)
    requires server != []
    requires forall i :: 0 <= i < |server| ==> (InList(synced, server[i].uid) <==> InList(cache, server[i].uid))
    ensures Begin(synced, server) == Begin(cache, server)
    ensures NoHoles(synced, server) <==> NoHoles(cache, server)
  {
    hide Begin;
    BeginDecided(cache, synced, server);
  }

  lemma BeginDecided(cache: seq<Msg>, synced: seq<Msg>, server: seq<Remote>)
    requires forall i :: 0 <= i < |server| ==> (InList(synced, server[i].uid) <==> InList(cache, server[i].uid))
    ensures Begin(synced, server) == Begin(cache, server)
  {
    hide FirstUncached;
    FirstUncachedIs(cache, server, 0);
    FirstUncachedIs(synced, server, 0);
  }

  lemma NothingDroppedExactly(list: seq<Msg>, server: seq<Remote>)
    requires ValidServer(server) && server != [] && Trusted(list, server)
    ensures |Kept(list, server)| == |list| <==> NoHoles(list, server)
    ensures NoHoles(list, server) ==> Kept(list, server) == list
  {
    hide NoHoles, FirstUncached, Begin, CutFrom, Outside, UpToDate, ValidServer;
    var cut := CutFrom(Begin(list, server), LastUid(server));
    InServerRange(list, server);
    OutsideSplits(list, 0, server[0].uid - 1);
    OutsideSplits(list, cut, UINT_MAX);
    NoHolesHere(list, server, cut);
  }

  lemma InServerRange(list: seq<Msg>, server: seq<Remote>)
    requires ValidServer(server) && server != [] && Trusted(list, server)
    ensures forall m :: m in list ==> 0 < server[0].uid <= m.num <= UINT_MAX
    ensures 0 < server[0].uid
  {
    forall m | m in list ensures server[0].uid <= m.num <= UINT_MAX {
      assert UpToDate(m, server);
    }
  }

  lemma NoHolesHere(list: seq<Msg>, server: seq<Remote>, cut: nat)
    requires server != [] && Trusted(list, server) && cut == CutFrom(Begin(list, server), LastUid(server))
    ensures NoHoles(list, server) <==> forall m :: m in list ==> m.num < cut
  {
    hide FirstUncached, Begin, CutFrom;
    if NoHoles(list, server) {
      forall m | m in list ensures m.num < cut {
        assert UpToDate(m, server);
        var i :| 0 <= i < |server| && SameState(m, server[i]);
        assert InList(list, server[i].uid);
      }
    }
  }

  /** imap_delete_cached_messages */
  method DeleteCached(list: seq<Msg>, first: nat, last: nat) returns (rest: seq<Msg>)
    ensures rest == if first == 0 && last == 0 then list else Outside(list, first, last)
  {
    if first == 0 && last == 0 {
      return list;
    }
    rest := list;
    var cur := 0;
    while cur < |rest|
      invariant 0 <= cur <= |rest|
      invariant rest[..cur] + Outside(rest[cur..], first, last) == Outside(list, first, last)
      decreases |rest| - cur
    {
      ghost var before := rest;
      var m := rest[cur];
      assert before[cur..][1..] == before[cur + 1..];
      if first <= m.num <= last {
        rest := rest[..cur] + rest[cur + 1..];
        assert rest[..cur] == before[..cur] && rest[cur..] == before[cur + 1..];
      } else {
        cur := cur + 1;
        assert rest[..cur] == before[..cur - 1] + [m];
      }
    }
  }

  /** The search for the first new message, in the UIDs of the server. */
  method FirstNew(list: seq<Msg>, server: seq<Remote>) returns (begin: nat)
    requires server != []
    ensures begin == Begin(list, server)
  {
    if list == [] {
      return server[0].uid;
    }
    var cached := set m | m in list :: m.num;
    var i := 0;
    while i < |server|
      invariant 0 <= i <= |server|
      invariant FirstUncached(list, server, i) == FirstUncached(list, server, 0)
    {
      if server[i].uid !in cached {
        return server[i].uid;
      }
      i := i + 1;
    }
    return 0;
  }

  /** The messages a range of UIDs stands for; the empty range means all of them. */
  function Requested(server: seq<Remote>, first: nat, last: nat): seq<Msg>
  {
    if server == [] then [] else
      (if (first == 0 && last == 0) || first <= server[0].uid <= last then [Fetched(server[0])] else [])
      + Requested(server[1..], first, last)
  }

  /** imap_get_uncached_messages, when every envelope can be parsed. */
  method GetUncached(item: FolderItem, server: seq<Remote>, first: nat, last: nat) returns (list: seq<Msg>)
    modifies item
    ensures list == Requested(server, first, last)
    ensures item.newCount == old(item.newCount) + CountNew(list)
    ensures item.unread == old(item.unread) + CountUnread(list)
    ensures item.total == old(item.total) + |list|
  {
    list := [];
    var rest := server;
    while rest != []
      invariant list + Requested(rest, first, last) == Requested(server, first, last)
      invariant item.newCount == old(item.newCount) + CountNew(list)
      invariant item.unread == old(item.unread) + CountUnread(list)
      invariant item.total == old(item.total) + |list|
      decreases |rest|
    {
      if (first == 0 && last == 0) || first <= rest[0].uid <= last {
        var flags := ParseFlags(rest[0].flagStr);
        var m := Msg(rest[0].uid, flags);
        item.CountIn(m);
        CountsAdd(list, [m]);
        Shift(list, m, Requested(rest[1..], first, last));
        list := list + [m];
      } else {
        assert Requested(rest, first, last) == Requested(rest[1..], first, last);
      }
      rest := rest[1..];
    }
  }

  lemma Shift(list: seq<Msg>, m: Msg, rest: seq<Msg>)
    ensures list + ([m] + rest) == (list + [m]) + rest
  {
  }

  lemma {:induction false} RequestedIs(server: seq<Remote>, first: nat, last: nat)
    ensures first == 0 && last == 0 ==> Requested(server, first, last) == FetchAll(server)
    ensures !(first == 0 && last == 0) ==> Requested(server, first, last) == FetchRange(server, first, last)
  {
    if server != [] {
      RequestedIs(server[1..], first, last);
    }
  }

  function FetchAll(server: seq<Remote>): seq<Msg>
  {
    if server == [] then [] else [Fetched(server[0])] + FetchAll(server[1..])
  }

  lemma {:induction false} FetchAllIs(server: seq<Remote>)
    ensures |FetchAll(server)| == |server| && forall i :: 0 <= i < |server| ==> FetchAll(server)[i] == Fetched(server[i])
  {
    if server != [] {
      FetchAllIs(server[1..]);
    }
  }

  /** Removes the cache entries outside the range of UIDs to keep. */
  method Prune(synced: seq<Msg>, server: seq<Remote>, begin: nat) returns (remaining: seq<Msg>)
    requires ValidServer(server) && server != [] && begin == Begin(synced, server)
    ensures remaining == Kept(synced, server)
  {
    hide Outside, FirstUncached, Begin;
    var first, last := server[0].uid, server[|server| - 1].uid;
    remaining := DeleteCached(synced, 0, first - 1);
    remaining := DeleteCached(remaining, if begin > 0 then begin else (last + 1) % (UINT_MAX + 1), UINT_MAX);
  }

  /** The second half: throw away what lies outside the known range and fetch from the first new message on. */
  method Refresh(item: FolderItem, synced: seq<Msg>, server: seq<Remote>) returns (list: seq<Msg>)
    requires ValidServer(server) && server != [] && item.Counts(synced)
    modifies item
    ensures list == Kept(synced, server) + NewList(synced, server)
    ensures item.newCount == CountNew(synced) + CountNew(NewList(synced, server))
    ensures item.unread == CountUnread(synced) + CountUnread(NewList(synced, server))
    ensures item.total == |synced| + |NewList(synced, server)|
    ensures item.lastNum == LastUid(server)
  {
    var begin := FirstNew(synced, server);
    var last := server[|server| - 1].uid;
    var remaining := Prune(synced, server, begin);
    var newlist: seq<Msg> := [];
    if begin > 0 && begin <= last {
      RequestedIs(server, begin, last);
      newlist := GetUncached(item, server, begin, last);
    }
    list := remaining + newlist;
    item.lastNum := last;
  }

  /** The list and the counters that the cache and the server determine. */
  lemma SyncedResult(cache: seq<Msg>, marked: seq<Msg>, server: seq<Remote>)
    requires ValidServer(server) && server != [] && Distinct(cache)
    requires |marked| == |cache| && forall k :: 0 <= k < |cache| ==> marked[k].num == cache[k].num
    ensures var synced := SyncedList(marked, FlagsTable(server));
      && (forall uid :: InList(synced, uid) <==> InList(cache, uid) && OnServer(server, uid))
      && (AgreesWithServer(Kept(synced, server) + NewList(synced, server), server) <==>
          !(Begin(cache, server) == 0 && LastUid(server) == UINT_MAX))
      && (|Kept(synced, server)| == |synced| <==> NoHoles(cache, server))
      && (NoHoles(cache, server) ==> Kept(synced, server) == synced)
  {
    hide *;
    var synced := SyncedList(marked, FlagsTable(server));
    SameNumbers(cache, marked);
    SyncedTrusted(marked, server);
    forall uid ensures InList(synced, uid) <==> InList(cache, uid) && OnServer(server, uid) {
      SyncedHolds(marked, server, uid);
    }
    OnServerAll(server);
    CacheDecides(cache, synced, server);
    ResultAgreesExactly(synced, server);
    NothingDroppedExactly(synced, server);
  }

  lemma SameNumbers(cache: seq<Msg>, marked: seq<Msg>)
    requires |marked| == |cache| && forall k :: 0 <= k < |cache| ==> marked[k].num == cache[k].num
    ensures Distinct(cache) ==> Distinct(marked)
    ensures forall uid :: InList(marked, uid) <==> InList(cache, uid)
  {
    forall uid ensures InList(marked, uid) <==> InList(cache, uid) {
      if InList(marked, uid) {
        var k :| 0 <= k < |marked| && marked[k].num == uid;
        assert cache[k] in cache;
      }
      if InList(cache, uid) {
        var k :| 0 <= k < |cache| && cache[k].num == uid;
        assert marked[k] in marked;
      }
    }
  }

  lemma SyncedTrusted(marked: seq<Msg>, server: seq<Remote>)
    requires ValidServer(server) && Distinct(marked)
    ensures Trusted(SyncedList(marked, FlagsTable(server)), server)
  {
    SyncedIsUpToDate(marked, server);
  }

  lemma OnServerAll(server: seq<Remote>)
    ensures forall i :: 0 <= i < |server| ==> OnServer(server, server[i].uid)
  {
  }

  /**
   The synchronisation with a cache.  `synced` is the part of the cache the server still
   has.  The counters are those of the list exactly when no cached message the server
   still has lies above the first new UID: the messages above it are counted when the
   cache is read, thrown away, and counted again when they are fetched.
   */
  method SyncWithCache(item: FolderItem, cache: seq<Msg>, marks: Option<map<nat, MsgFlags>>, markQueue: bool,
                       server: seq<Remote>)
    returns (list: seq<Msg>, ghost synced: seq<Msg>)
    requires ValidServer(server) && server != [] && Distinct(cache)
    requires forall k :: 0 <= k < |cache| ==> cache[k].flags.isNew && cache[k].flags.unread
    modifies item
    ensures forall uid :: InList(synced, uid) <==> InList(cache, uid) && OnServer(server, uid)
    ensures list == Kept(synced, server) + NewList(synced, server)
    ensures AgreesWithServer(list, server) <==> !(Begin(cache, server) == 0 && LastUid(server) == UINT_MAX)
    ensures item.Counts(list) <==> NoHoles(cache, server)
    ensures item.newCount == CountNew(synced) + CountNew(NewList(synced, server))
    ensures item.unread == CountUnread(synced) + CountUnread(NewList(synced, server))
    ensures item.total == |synced| + |NewList(synced, server)|
    ensures item.lastNum == LastUid(server)
  {
    hide NoHoles, Begin, AgreesWithServer, FirstUncached, Kept, NewList, SyncedList;
    var marked := item.SetFlags(cache, marks, markQueue);
    synced := SyncedList(marked, FlagsTable(server));
    var remaining := item.SyncFlags(marked, FlagsTable(server));
    list := Refresh(item, remaining, server);
    SyncedResult(cache, marked, server);
    CountsAdd(synced, NewList(synced, server));
  }

  /** The branch without a cache. */
  method FetchEverything(item: FolderItem, server: seq<Remote>) returns (list: seq<Msg>)
    requires ValidServer(server) && server != []
    requires item.newCount == item.unread == item.total == 0
    modifies item
    ensures AgreesWithServer(list, server) && item.Counts(list)
    ensures item.lastNum == LastUid(server) && item.cacheDirty && item.markDirty
  {
    hide AgreesWithServer, CountNew, CountUnread;
    list := GetUncached(item, server, 0, 0);
    RequestedIs(server, 0, 0);
    FetchAllIs(server);
    FreshListAgrees(list, server);
    item.lastNum := GetLastNum(list);
    FreshLastNum(list, server, item.lastNum);
    item.cacheDirty, item.markDirty := true, true;
  }

  lemma EmptyAgrees()
    ensures AgreesWithServer([], []) && CountNew([]) == CountUnread([]) == 0
  {
  }

  /**
   imap_get_msg_list_full on a folder that could be selected, before sorting.  The list is
   that of a fresh fetch for every cache, unless the cache is in use, nothing is new and
   the last UID is 2^32 - 1; the counters are those of the list unless the cache is in use
   and has a hole.
   */
  method GetMsgList(item: FolderItem, cache: seq<Msg>, marks: Option<map<nat, MsgFlags>>, markQueue: bool,
                    server: seq<Remote>, useCache: bool, uidValidityKept: bool)
    returns (list: seq<Msg>)
    requires ValidServer(server) && Distinct(cache)
    requires forall k :: 0 <= k < |cache| ==> cache[k].flags.isNew && cache[k].flags.unread
    modifies item
    ensures AgreesWithServer(list, server) <==>
      server == [] || !(useCache && uidValidityKept) || Begin(cache, server) != 0 || LastUid(server) != UINT_MAX
    ensures item.Counts(list) <==> server == [] || !(useCache && uidValidityKept) || NoHoles(cache, server)
    ensures item.lastNum == if server == [] then old(item.lastNum) else LastUid(server)
    ensures server != [] && markQueue ==> item.markDirty
  {
    hide NoHoles, Begin, FirstUncached, AgreesWithServer, CountNew, CountUnread, Kept, NewList, LastUid;
    item.newCount, item.unread, item.total := 0, 0, 0;
    if server == [] {
      EmptyAgrees();
      return [];
    }
    if useCache && uidValidityKept {
      ghost var synced;
      list, synced := SyncWithCache(item, cache, marks, markQueue, server);
    } else {
      list := FetchEverything(item, server);
    }
    if markQueue {
      item.markDirty := true;
    }
  }

  /** One message, cached and on the server, with the last UID there is: the synchronisation loses it. */
  lemma LastUidIsLost(flags: MsgFlags)
    ensures var cache, server := [Msg(UINT_MAX, flags)], [Remote(UINT_MAX, "\\Seen")];
      && ValidServer(server)
      && (var synced := SyncedList(cache, FlagsTable(server));
          InList(synced, UINT_MAX) && !AgreesWithServer(Kept(synced, server) + NewList(synced, server), server))
  {
    hide SyncedList, Kept, NewList, FlagsTable, AgreesWithServer, NoHoles;
    var cache, server := [Msg(UINT_MAX, flags)], [Remote(UINT_MAX, "\\Seen")];
    assert cache[0] in cache && server[0].uid == UINT_MAX;
    SyncedResult(cache, cache, server);
  }

  /** A cached message above one that is not cached: it is counted when the cache is read and again when fetched. */
  lemma HoleIsCountedTwice(flags: MsgFlags)
    ensures var cache, server := [Msg(2, flags)], [Remote(1, ""), Remote(2, "")];
      && ValidServer(server) && !NoHoles(cache, server)
      && (var synced := SyncedList(cache, FlagsTable(server));
          InList(synced, 2) && |synced| != |Kept(synced, server)|)
  {
    hide SyncedList, Kept, NewList, FlagsTable, AgreesWithServer;
    var cache, server := [Msg(2, flags)], [Remote(1, ""), Remote(2, "")];
    assert cache[0] in cache && server[1].uid == 2;
    assert Begin(cache, server) == 1;
    SyncedResult(cache, cache, server);
  }

  lemma FreshLastNum(list: seq<Msg>, server: seq<Remote>, last: nat)
    requires ValidServer(server) && server != [] && IsLastNum(list, last)
    requires |list| == |server| && forall i :: 0 <= i < |server| ==> list[i] == Fetched(server[i])
    ensures last == LastUid(server)
  {
    var n := |server| - 1;
    assert list[n].num == server[n].uid;
    assert server[n].uid > 0;
    var k :| 0 <= k < |list| && list[k].num == last;
    LastIsLargest(server, k);
  }

  lemma LastIsLargest(server: seq<Remote>, k: nat)
    requires ValidServer(server) && k < |server|
    ensures server[k].uid <= LastUid(server)
  {
  }

  lemma FreshListAgrees(list: seq<Msg>, server: seq<Remote>)
    requires ValidServer(server) && |list| == |server| && forall i :: 0 <= i < |server| ==> list[i] == Fetched(server[i])
    ensures AgreesWithServer(list, server)
  {
    forall i | 0 <= i < |server| ensures InList(list, server[i].uid) {
      assert list[i] in list;
    }
    forall m | m in list ensures UpToDate(m, server) {
      var k :| 0 <= k < |list| && list[k] == m;
      assert SameState(m, server[k]);
    }
  }
}
