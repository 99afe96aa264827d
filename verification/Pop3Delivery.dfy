/**
 The POP3 client against a well-formed server: which messages a session delivers, what
 it counts, and why no message is delivered in two sessions.
 */
module Pop3Delivery {
  import opened Bytes
  import opened Pop3
  import opened Pop3Runs

  /** The mailbox as the server presents it: unique ids (section 7 of RFC 1939) and sizes. */
  datatype Mailbox = Mailbox(ids: seq<string>, sizes: seq<nat>)

  ghost predicate ValidMailbox(box: Mailbox)
  {
    && |box.ids| == |box.sizes|
    && (forall i, j :: 0 <= i < j < |box.ids| ==> box.ids[i] != box.ids[j])
    && (forall i :: 0 <= i < |box.sizes| ==> box.sizes[i] < 0x8000_0000)
  }

  function IdLines(box: Mailbox): seq<UidlLine>
  {
    seq(|box.ids|, i requires 0 <= i < |box.ids| => UidlLine(i + 1, box.ids[i]))
  }

  function Sizes(box: Mailbox): seq<SizeLine>
  {
    seq(|box.sizes|, i requires 0 <= i < |box.sizes| => SizeLine(i + 1, box.sizes[i]))
  }

  /** A reply of this server: it may refuse anything but UIDL as unknown, and what it lists is the mailbox. */
  predicate Answers(box: Mailbox, s: Pop, e: Event)
  {
    match e
    case Status(reply, body) =>
      && (s.phase == GetRangeStat && reply == Ok ==> |body| >= 2 && body[0] == |box.ids|)
      && (s.phase == GetRangeUidl ==> reply != ErrOther)
    case UidlListing(lines, whole) => whole && lines == IdLines(box)
    case SizeListing(lines, whole) => whole && lines == Sizes(box)
    case Message(_, _, _) => true
  }

  ghost predicate IsSession(box: Mailbox, s: Pop, es: seq<Event>)
    requires Shaped(s)
    decreases |es|
  {
    IsRun(s, es) && (es != [] ==>
      && Answers(box, s, es[0])
      && (StepKeepsShape(s, es[0]); IsSession(box, Step(s, es[0]), es[1..])))
  }

  /** The id file holds this id. */
  predicate Known(s: Pop, id: string)
  {
    Lookup(s.table, id) != RECV_TIME_NONE
  }

  /** A time that reads back as a time. */
  predicate Durable(time: int)
  {
    Gint(if time == RECV_TIME_NONE then RECV_TIME_RECEIVED else time) != RECV_TIME_NONE
  }

  /** The record of message n once the listing has been read. */
  predicate Listed(s: Pop, id: string, m: MsgInfo)
  {
    m == MsgInfo(m.size, Some(id), Lookup(s.table, id), !s.prefs.getall && Known(s, id), false)
  }

  predicate Fresh(s: Pop, id: string)
  {
    s.prefs.getall || !Known(s, id) || s.prefs.rmmail
  }

  function Id(box: Mailbox, n: int): string
    requires 1 <= n <= |box.ids|
  {
    box.ids[n - 1]
  }

  /** The current message is the first one listed so far that needs attention. */
  ghost predicate FirstFresh(box: Mailbox, s: Pop, k: nat)
    requires k <= |box.ids|
  {
    && (if s.newMsg then 1 <= s.cur <= k && Fresh(s, Id(box, s.cur)) else s.cur == 1)
    && (forall n :: 1 <= n <= k && (s.newMsg ==> n < s.cur) ==> !Fresh(s, Id(box, n)))
  }

  /** The first k lines of the listing have been read. */
  ghost predicate ReadTo(box: Mailbox, s: Pop, k: nat)
    requires k <= |box.ids|
  {
    && s.count == |box.ids| && |s.msg| == s.count + 1
    && (forall n :: 1 <= n <= k ==> Listed(s, Id(box, n), s.msg[n]))
    && (forall n :: k < n <= s.count ==> s.msg[n] == NO_MSG)
    && FirstFresh(box, s, k)
  }

  lemma ReadOneMore(box: Mailbox, s: Pop, k: nat)
    requires k < |box.ids| && ReadTo(box, s, k)
    ensures ReadTo(box, RecvUidlLine(s, UidlLine(k + 1, Id(box, k + 1))), k + 1)
  {
  }

  lemma {:induction false} UidlLinesRead(box: Mailbox, s: Pop, k: nat)
    requires k <= |box.ids| && ReadTo(box, s, k)
    ensures var r := RecvUidlLines(s, IdLines(box)[k..]);
      && ReadTo(box, r, |box.ids|) && r == s.(msg := r.msg, cur := r.cur, newMsg := r.newMsg)
    decreases |box.ids| - k
  {
    var lines := IdLines(box)[k..];
    if k < |box.ids| {
      assert lines[0] == UidlLine(k + 1, Id(box, k + 1)) && lines[1..] == IdLines(box)[k + 1..];
      ReadOneMore(box, s, k);
      UidlLinesRead(box, RecvUidlLine(s, lines[0]), k + 1);
    }
  }

  lemma GintInRange(n: int)
    requires -0x8000_0000 <= n < 0x8000_0000
    ensures Gint(n) == n
  {
  }

  lemma LookupDurable(table: map<string, int>, id: string)
    requires Lookup(table, id) != RECV_TIME_NONE
    ensures Durable(Lookup(table, id))
  {
    GintInRange(Lookup(table, id));
  }

  /** Message n of a session that leaves known mail alone: received exactly when known or accepted here, never both. */
  ghost predicate Kept(box: Mailbox, s: Pop, n: int)
    requires 1 <= n <= |box.ids| && n < |s.msg|
  {
    var m := s.msg[n];
    && m.uidl == Some(Id(box, n))
    && (m.received <==> Known(s, Id(box, n)) || n in s.dropped)
    && !(Known(s, Id(box, n)) && n in s.dropped)
    && (m.received ==> Durable(m.recvTime))
    && (!m.received ==> m.recvTime == RECV_TIME_NONE)
  }

  ghost predicate AllKept(box: Mailbox, s: Pop)
  {
    && s.count == |box.ids|
    && |s.msg| == (if s.count > 0 then s.count + 1 else 0)
    && (forall n :: 1 <= n <= s.count ==> Kept(box, s, n))
  }

  /** The invariant of a session that does not fetch known mail again. */
  ghost predicate Remembers(box: Mailbox, s: Pop)
  {
    && Shaped(s) && !s.prefs.getall && Durable(s.now) && s.phase != GetRangeLast
    && UpTo(s.dropped, |box.ids|)
    && if s.uidlValid then
         && AllKept(box, s)
         && s.phase !in {GetRangeStat, GetRangeUidl, GetRangeUidlRecv}
         && (s.phase in {Retr, RetrRecv} && !s.failed ==> !s.msg[s.cur].received)
         && (s.phase == Delete && !s.failed ==> s.msg[s.cur].received)
       else
         && s.dropped == []
         && (!s.failed ==>
               || (s.phase == GetRangeStat && s.count == 0 && !s.newMsg)
               || (s.phase in {GetRangeUidl, GetRangeUidlRecv} && ReadTo(box, s, 0))
               || s.phase in {Logout, Done, Aborted})
  }

  /** The part of the invariant that does not depend on the phase. */
  ghost predicate Core(box: Mailbox, s: Pop)
  {
    && !s.prefs.getall && Durable(s.now) && s.uidlValid && !s.failed
    && UpTo(s.dropped, |box.ids|) && AllKept(box, s) && 1 <= s.cur <= s.count
  }

  lemma CoreOf(box: Mailbox, s: Pop, r: Pop)
    requires AllKept(box, s)
    requires r.msg == s.msg && r.count == s.count && r.dropped == s.dropped && r.table == s.table
    ensures AllKept(box, r)
  {
    forall n | 1 <= n <= r.count ensures Kept(box, r, n) {
      assert Kept(box, s, n);
    }
  }

  lemma LookupNextRemembers(box: Mailbox, s: Pop)
    requires Core(box, s)
    ensures Remembers(box, LookupNext(s))
  {
    LookupNextStops(s);
    CoreOf(box, s, LookupNext(s));
    assert Kept(box, s, LookupNext(s).cur);
  }

  lemma AdvanceRemembers(box: Mailbox, s: Pop)
    requires Core(box, s)
    ensures Remembers(box, Advance(s))
  {
    if s.cur == s.count {
      CoreOf(box, s, Advance(s));
    } else {
      CoreOf(box, s, s.(cur := s.cur + 1));
      LookupNextRemembers(box, s.(cur := s.cur + 1));
    }
  }

  lemma StatusRemembers(box: Mailbox, s: Pop, reply: Reply, body: seq<int>)
    requires ValidMailbox(box) && Remembers(box, s)
    requires Enabled(s, Status(reply, body)) && Answers(box, s, Status(reply, body))
    ensures Remembers(box, RecvStatus(s, reply, body))
  {
    StatusKeepsShape(s, reply, body);
    var r := RecvStatus(s, reply, body);
    if s.phase == Delete && reply == Ok {
      var s' := MarkDeleted(s);
      forall n | 1 <= n <= s.count ensures Kept(box, s', n) {
        assert Kept(box, s, n);
      }
      AdvanceRemembers(box, s');
    } else if s.uidlValid {
      CoreOf(box, s, r);
    }
  }

  lemma UidlRemembers(box: Mailbox, s: Pop)
    requires ValidMailbox(box) && Remembers(box, s) && Enabled(s, UidlListing(IdLines(box), true))
    ensures Remembers(box, RecvUidl(s, IdLines(box), true))
  {
    assert IdLines(box)[0..] == IdLines(box);
    UidlLinesRead(box, s, 0);
    var r := RecvUidl(s, IdLines(box), true);
    forall n | 1 <= n <= r.count ensures Kept(box, r, n) {
      assert Listed(r, Id(box, n), r.msg[n]);
      if Known(r, Id(box, n)) {
        LookupDurable(r.table, Id(box, n));
      }
    }
  }

  lemma ListRemembers(box: Mailbox, s: Pop, lines: seq<SizeLine>)
    requires Remembers(box, s) && Enabled(s, SizeListing(lines, true))
    ensures Remembers(box, RecvList(s, lines, true))
  {
    SizeLinesKeepShape(s, lines);
    var (s', good) := RecvSizeLines(s, lines);
    forall n | 1 <= n <= s.count ensures Kept(box, s', n) {
      assert Kept(box, s, n);
    }
    if good {
      LookupNextRemembers(box, s');
    } else {
      CoreOf(box, s', Fail(s'));
    }
  }

  lemma RetrRemembers(box: Mailbox, s: Pop, stored: bool, drop: Drop, connected: bool)
    requires Remembers(box, s) && Enabled(s, Message(stored, drop, connected))
    ensures Remembers(box, RecvRetr(s, stored, drop, connected))
  {
    if stored && drop != DropError {
      var s' := Accept(s, drop);
      forall n | 1 <= n <= s.count ensures Kept(box, s', n) {
        assert Kept(box, s, n);
        assert n in s'.dropped <==> n in s.dropped || n == s.cur;
      }
      AdvanceRemembers(box, s');
      CoreOf(box, s', RecvRetr(s, stored, drop, false));
      CoreOf(box, s', Send(s', Delete, DeleCmd(s.cur)));
    } else {
      CoreOf(box, s, Fail(s));
    }
  }

  lemma StepRemembers(box: Mailbox, s: Pop, e: Event)
    requires ValidMailbox(box) && Remembers(box, s) && Enabled(s, e) && Answers(box, s, e)
    ensures Remembers(box, Step(s, e))
  {
    match e
    case Status(reply, body) => StatusRemembers(box, s, reply, body);
    case UidlListing(lines, whole) => UidlRemembers(box, s);
    case SizeListing(lines, whole) => ListRemembers(box, s, lines);
    case Message(stored, drop, connected) => RetrRemembers(box, s, stored, drop, connected);
  }

  lemma {:induction false} RunRemembers(box: Mailbox, s: Pop, es: seq<Event>)
    requires ValidMailbox(box) && Remembers(box, s) && IsSession(box, s, es)
    ensures Remembers(box, Run(s, es)) && Run(s, es).table == s.table
    decreases |es|
  {
    if es != [] {
      StepRemembers(box, s, es[0]);
      StepKeepsTable(s, es[0]);
      RunRemembers(box, Step(s, es[0]), es[1..]);
    }
  }

  lemma StatusKeepsTable(s: Pop, reply: Reply, body: seq<int>)
    requires Shaped(s) && Enabled(s, Status(reply, body))
    ensures RecvStatus(s, reply, body).table == s.table
  {
    if s.phase == Delete {
      AdvanceMovesOn(MarkDeleted(s));
    }
  }

  lemma StepKeepsTable(s: Pop, e: Event)
    requires Shaped(s) && Enabled(s, e)
    ensures Step(s, e).table == s.table
  {
    match e
    case Status(reply, body) => StatusKeepsTable(s, reply, body);
    case UidlListing(lines, whole) => UidlLinesKeepShape(s, lines);
    case SizeListing(lines, whole) =>
      SizeLinesKeepShape(s, lines);
      if RecvSizeLines(s, lines).1 && whole {
        LookupNextStops(RecvSizeLines(s, lines).0);
      }
    case Message(stored, drop, connected) =>
      if stored && drop != DropError {
        AdvanceMovesOn(Accept(s, drop));
      }
  }

  // ---- From one session to the next ----

  /** The id is on file, whenever the file is read. */
  ghost predicate OnFile(file: seq<Entry>, id: string)
  {
    forall now :: Durable(now) ==> Lookup(ReadTable(file, now), id) != RECV_TIME_NONE
  }

  ghost predicate Distinct(file: seq<Entry>)
  {
    forall i, j :: 0 <= i < j < |file| ==> file[i].id != file[j].id
  }

  lemma {:induction false} ReadsBack(file: seq<Entry>, i: nat, now: int)
    requires Distinct(file) && i < |file|
    ensures file[i].id in ReadTable(file, now) && ReadTable(file, now)[file[i].id] == EntryTime(file[i], now)
  {
    var k := |file| - 1;
    if i < k {
      ReadsBack(file[..k], i, now);
      assert file[i].id != file[k].id;
    }
  }

  ghost predicate IdFrom(box: Mailbox, n: nat, id: string)
    requires n >= 1
  {
    exists m :: n <= m <= |box.ids| && Id(box, m) == id
  }

  lemma {:induction false} EntriesDistinct(box: Mailbox, s: Pop, n: nat)
    requires ValidMailbox(box) && AllKept(box, s) && n >= 1
    ensures var file := EntriesFrom(s, n);
      Distinct(file) && forall i :: 0 <= i < |file| ==> IdFrom(box, n, file[i].id)
    decreases s.count + 1 - n
  {
    if n <= s.count {
      EntriesDistinct(box, s, n + 1);
      assert Kept(box, s, n);
      assert !IdFrom(box, n + 1, Id(box, n));
      forall id | IdFrom(box, n + 1, id) || id == Id(box, n) ensures IdFrom(box, n, id) {
      }
    }
  }

  /** A received message that was not deleted for good gets its entry. */
  lemma {:induction false} EntryWritten(box: Mailbox, s: Pop, n: nat, m: nat)
    requires AllKept(box, s) && 1 <= n <= m <= s.count
    requires s.msg[m].received && !(s.phase == Done && s.msg[m].deleted)
    ensures Entry(Id(box, m), Some(s.msg[m].recvTime)) in EntriesFrom(s, n)
    decreases s.count + 1 - n
  {
    assert Kept(box, s, m);
    if n < m {
      EntryWritten(box, s, n + 1, m);
    }
  }

  /**
   One session remembers: an id that was on file or was accepted in this session is on
   file afterwards, unless its message is gone from the server for good.
   */
  lemma SessionRemembers(box: Mailbox, s: Pop, es: seq<Event>, file: seq<Entry>, n: nat)
    requires !s.prefs.getall && Durable(s.now) && s == Start(s.prefs, s.now, ReadTable(file, s.now))
    requires ValidMailbox(box) && IsSession(box, s, es)
    requires 1 <= n <= |box.ids|
    ensures var r := Run(s, es);
      && Remembers(box, r)
      && (OnFile(file, Id(box, n)) ==> n !in r.dropped)
      && (OnFile(file, Id(box, n)) || n in r.dropped ==>
            || OnFile(NextFile(r, file), Id(box, n))
            || (r.phase == Done && r.uidlValid && r.msg[n].deleted))
  {
    RunRemembers(box, s, es);
    var r := Run(s, es);
    if r.uidlValid {
      assert Kept(box, r, n);
      if r.msg[n].received && !(r.phase == Done && r.msg[n].deleted) {
        EntriesDistinct(box, r, 1);
        EntryWritten(box, r, 1, n);
        var next := EntriesFrom(r, 1);
        var i :| 0 <= i < |next| && next[i] == Entry(Id(box, n), Some(r.msg[n].recvTime));
        forall now | Durable(now) ensures Lookup(ReadTable(next, now), Id(box, n)) != RECV_TIME_NONE {
          ReadsBack(next, i, now);
        }
      }
    }
  }

  /** One session of an account: the mailbox it met, the preferences, the clock and what the server sent. */
  datatype Log = Log(box: Mailbox, prefs: Prefs, now: int, events: seq<Event>)

  ghost predicate ValidLog(file: seq<Entry>, log: Log)
  {
    && ValidMailbox(log.box) && !log.prefs.getall && Durable(log.now)
    && IsSession(log.box, Start(log.prefs, log.now, ReadTable(file, log.now)), log.events)
  }

  ghost function EndOf(file: seq<Entry>, log: Log): (r: Pop)
    requires ValidLog(file, log)
    ensures r.uidlValid && r.count > 0 ==> |r.msg| == r.count + 1
  {
    var s := Start(log.prefs, log.now, ReadTable(file, log.now));
    RunRemembers(log.box, s, log.events);
    Run(s, log.events)
  }

  /** The id file as session i finds it, each session having left its own to the next. */
  ghost function FileBefore(file: seq<Entry>, logs: seq<Log>, i: nat): seq<Entry>
    requires i <= |logs|
    decreases i
  {
    if i == 0 then file else
      var before := FileBefore(file, logs, i - 1);
      if ValidLog(before, logs[i - 1]) then NextFile(EndOf(before, logs[i - 1]), before) else before
  }

  /** The sessions of an account one after another. */
  ghost predicate ValidHistory(file: seq<Entry>, logs: seq<Log>)
  {
    forall i :: 0 <= i < |logs| ==> ValidLog(FileBefore(file, logs, i), logs[i])
  }

  ghost function Outcome(file: seq<Entry>, logs: seq<Log>, i: nat): Pop
    requires ValidHistory(file, logs) && i < |logs|
  {
    EndOf(FileBefore(file, logs, i), logs[i])
  }

  ghost predicate Delivered(file: seq<Entry>, logs: seq<Log>, i: nat, id: string)
    requires ValidHistory(file, logs) && i < |logs|
  {
    exists n :: 1 <= n <= |logs[i].box.ids| && Id(logs[i].box, n) == id && n in Outcome(file, logs, i).dropped
  }

  /** Ids are never reused: one that has left the mailbox, or was deleted in a completed session, stays away. */
  ghost predicate StableIds(file: seq<Entry>, logs: seq<Log>)
    requires ValidHistory(file, logs)
  {
    && (forall i, j, k, id | 0 <= i < j < k < |logs| && id in logs[i].box.ids && id !in logs[j].box.ids ::
          id !in logs[k].box.ids)
    && (forall i, k, id | 0 <= i < k < |logs| && PurgedId(file, logs, i, id) :: id !in logs[k].box.ids)
  }

  ghost predicate PurgedId(file: seq<Entry>, logs: seq<Log>, i: nat, id: string)
    requires ValidHistory(file, logs) && i < |logs|
  {
    exists n :: 1 <= n <= |logs[i].box.ids| && Id(logs[i].box, n) == id && Purged(Outcome(file, logs, i), n)
  }

  predicate Purged(r: Pop, n: nat)
  {
    r.phase == Done && r.uidlValid && n < |r.msg| && r.msg[n].deleted
  }

  lemma SessionOfHistory(file: seq<Entry>, logs: seq<Log>, j: nat, n: nat)
    requires ValidHistory(file, logs) && j < |logs| && 1 <= n <= |logs[j].box.ids|
    ensures
      var id, r := Id(logs[j].box, n), Outcome(file, logs, j);
      && (OnFile(FileBefore(file, logs, j), id) ==> n !in r.dropped)
      && (OnFile(FileBefore(file, logs, j), id) || n in r.dropped ==>
            OnFile(FileBefore(file, logs, j + 1), id) || Purged(r, n))
  {
    var before := FileBefore(file, logs, j);
    SessionRemembers(logs[j].box, Start(logs[j].prefs, logs[j].now, ReadTable(before, logs[j].now)),
                     logs[j].events, before, n);
  }

  /**
   The argument for one id, on four facts about each session: is the id in the mailbox,
   is it on file beforehand, is its message accepted, is it purged for good.
   */
  lemma {:induction false} SafeOnceAccepted(
    present: nat -> bool, onFile: nat -> bool, accepted: nat -> bool, purged: nat -> bool, i: nat, k: nat)
    requires i < k && present(i) && accepted(i)
    requires forall m | i <= m < k :: (accepted(m) || (present(m) && onFile(m))) ==> onFile(m + 1) || purged(m)
    requires forall m, m' | i <= m < m' <= k && purged(m) :: !present(m')
    requires forall m, m' | i < m < m' <= k && !present(m) :: !present(m')
    ensures onFile(k) || !present(k)
    decreases k
  {
    if k > i + 1 {
      SafeOnceAccepted(present, onFile, accepted, purged, i, k - 1);
    }
  }

  /** The facts about one session of a history. */
  lemma SessionFacts(file: seq<Entry>, logs: seq<Log>, j: nat, id: string)
    requires ValidHistory(file, logs) && j < |logs|
    ensures Delivered(file, logs, j, id) ==> id in logs[j].box.ids && !OnFile(FileBefore(file, logs, j), id)
    ensures Delivered(file, logs, j, id) || (id in logs[j].box.ids && OnFile(FileBefore(file, logs, j), id)) ==>
      OnFile(FileBefore(file, logs, j + 1), id) || PurgedId(file, logs, j, id)
  {
    var box, r := logs[j].box, Outcome(file, logs, j);
    if Delivered(file, logs, j, id) {
      var n :| 1 <= n <= |box.ids| && Id(box, n) == id && n in r.dropped;
      SessionOfHistory(file, logs, j, n);
    } else if id in box.ids {
      var p :| 0 <= p < |box.ids| && box.ids[p] == id;
      assert Id(box, p + 1) == id;
      SessionOfHistory(file, logs, j, p + 1);
    }
  }

  /** At-most-once delivery: no message is accepted in two sessions of an account. */
  lemma DeliveredAtMostOnce(file: seq<Entry>, logs: seq<Log>, i: nat, j: nat, id: string)
    requires ValidHistory(file, logs) && StableIds(file, logs)
    requires i < j < |logs| && Delivered(file, logs, i, id)
    ensures !Delivered(file, logs, j, id)
  {
    forall m | 0 <= m < |logs| ensures
      && (Delivered(file, logs, m, id) ==> id in logs[m].box.ids && !OnFile(FileBefore(file, logs, m), id))
      && (Delivered(file, logs, m, id) || (id in logs[m].box.ids && OnFile(FileBefore(file, logs, m), id)) ==>
            OnFile(FileBefore(file, logs, m + 1), id) || PurgedId(file, logs, m, id))
    {
      SessionFacts(file, logs, m, id);
    }
    SafeOnceAccepted(
      (m: nat) => m < |logs| && id in logs[m].box.ids,
      (m: nat) => m <= |logs| && OnFile(FileBefore(file, logs, m), id),
      (m: nat) => m < |logs| && Delivered(file, logs, m, id),
      (m: nat) => m < |logs| && PurgedId(file, logs, m, id), i, j);
  }
}
