/** Which messages a POP3 session that meets no error deletes from the server, and which it leaves there. */
module Pop3Deletions {
  import opened Bytes
  import opened Pop3
  import opened Pop3Runs
  import opened Pop3Delivery
  import opened Pop3Accounts

  // ---- When a message is due ----

  /** By the time of its receipt on file: marked for deletion, or kept on the server for as many days as asked for. */
  predicate DueOnFile(prefs: Prefs, now: int, time: int)
  {
    || time == RECV_TIME_DELETE
    || (prefs.rmmail && time != RECV_TIME_NONE && time != RECV_TIME_KEEP && now - time >= 86400 * prefs.leaveDays)
  }

  /** By what the store answered when it got the message. */
  predicate DueAfter(prefs: Prefs, answer: Drop)
  {
    answer == DropDelete || (prefs.rmmail && prefs.leaveDays == 0 && answer != DropDontReceive)
  }

  /** A message that a session does not just leave where it is: new, or any if all are to be fetched or removed. */
  predicate NeedsAttention(prefs: Prefs, time: int)
  {
    prefs.getall || prefs.rmmail || time == RECV_TIME_NONE
  }

  /** The first message that needs attention, from n on; the search starts there. */
  function First(box: Mailbox, prefs: Prefs, table: map<string, int>, n: nat): (f: nat)
    requires n >= 1
    ensures f >= n
    decreases |box.ids| + 1 - n
  {
    if n > |box.ids| || NeedsAttention(prefs, Lookup(table, Id(box, n))) then n
    else First(box, prefs, table, n + 1)
  }

  lemma {:induction false} FirstIsReached(box: Mailbox, prefs: Prefs, table: map<string, int>, n: nat, k: nat)
    requires 1 <= n && k <= |box.ids|
    ensures First(box, prefs, table, n) <= k <==>
      exists m :: n <= m <= k && NeedsAttention(prefs, Lookup(table, Id(box, m)))
    decreases |box.ids| + 1 - n
  {
    hide NeedsAttention, Lookup;
    if n <= |box.ids| && !NeedsAttention(prefs, Lookup(table, Id(box, n))) {
      FirstIsReached(box, prefs, table, n + 1, k);
    }
  }

  // ---- What the store answered ----

  /** The store's answer to the message whose RETR was the last command sent. */
  function Answered(s: Pop, e: Event, v: map<int, Drop>): map<int, Drop>
  {
    if e.Message? && e.stored && e.drop != DropError && s.sent != [] && s.sent[|s.sent| - 1].RetrCmd?
    then v[s.sent[|s.sent| - 1].n := e.drop]
    else v
  }

  /** The answers of a whole session. */
  ghost function StoreAnswers(s: Pop, es: seq<Event>, v: map<int, Drop>): map<int, Drop>
    requires Shaped(s) && IsRun(s, es)
    decreases |es|
  {
    if es == [] then v else
      StepKeepsShape(s, es[0]);
      StoreAnswers(Step(s, es[0]), es[1..], Answered(s, es[0], v))
  }

  // ---- The invariant ----

  predicate Due(box: Mailbox, s: Pop, v: map<int, Drop>, n: int)
    requires 1 <= n <= |box.ids|
  {
    || DueOnFile(s.prefs, s.now, Lookup(s.table, Id(box, n)))
    || (n in v && DueAfter(s.prefs, v[n]))
  }

  /** A message that has not been looked at. */
  ghost predicate Waits(box: Mailbox, s: Pop, v: map<int, Drop>, n: int)
    requires 1 <= n <= |box.ids| && n < |s.msg|
  {
    Listed(s, Id(box, n), s.msg[n]) && n !in v
  }

  /** Below k the messages from the first one on have been deleted if due; the others wait. */
  ghost predicate DeletedTo(box: Mailbox, s: Pop, v: map<int, Drop>, k: int)
  {
    && s.count == |box.ids| && |s.msg| == (if s.count > 0 then s.count + 1 else 0) && s.now > RECV_TIME_DELETE
    && (forall n | 1 <= n <= |box.ids| ::
          DeleCmd(n) in s.sent <==> First(box, s.prefs, s.table, 1) <= n < k && Due(box, s, v, n))
    && (forall n | 1 <= n <= |box.ids| && n < |s.msg| && k <= n :: Waits(box, s, v, n))
  }

  ghost predicate NoneDeleted(s: Pop)
  {
    forall c :: c in s.sent ==> !c.DeleCmd?
  }

  ghost predicate Fetching(box: Mailbox, s: Pop, v: map<int, Drop>)
  {
    && DeletedTo(box, s, v, s.cur)
    && First(box, s.prefs, s.table, 1) <= s.cur <= s.count && 1 <= s.cur
    && !DueOnFile(s.prefs, s.now, Lookup(s.table, Id(box, s.cur)))
    && s.sent != [] && s.sent[|s.sent| - 1] == RetrCmd(s.cur)
  }

  ghost predicate Deletes(box: Mailbox, s: Pop, v: map<int, Drop>)
  {
    Shaped(s) && (!s.failed ==>
      match s.phase
      case GetRangeStat => s.count == 0 && !s.newMsg && NoneDeleted(s) && v == map[] && s.now > RECV_TIME_DELETE
      case GetRangeUidl => ReadTo(box, s, 0) && NoneDeleted(s) && v == map[] && s.now > RECV_TIME_DELETE
      case GetRangeUidlRecv => ReadTo(box, s, 0) && NoneDeleted(s) && v == map[] && s.now > RECV_TIME_DELETE
      case GetRangeLast => false
      case GetSizeList => DeletedTo(box, s, v, s.cur) && First(box, s.prefs, s.table, 1) == s.cur
      case GetSizeListRecv => DeletedTo(box, s, v, s.cur) && First(box, s.prefs, s.table, 1) == s.cur
      case Retr => Fetching(box, s, v)
      case RetrRecv => Fetching(box, s, v)
      case Delete => DeletedTo(box, s, v, s.cur + 1) && First(box, s.prefs, s.table, 1) <= s.cur
      case _ => DeletedTo(box, s, v, s.count + 1))
  }

  /** What a longer list of commands deletes. */
  lemma OneMoreSent(sent: seq<Command>, c: Command, n: int)
    ensures DeleCmd(n) in sent + [c] <==> DeleCmd(n) in sent || c == DeleCmd(n)
  {
    assert (sent + [c])[|sent|] == c;
  }

  lemma SearchDeletesTo(box: Mailbox, s: Pop, v: map<int, Drop>, r: Pop)
    requires DeletedTo(box, s, v, s.cur) && First(box, s.prefs, s.table, 1) <= s.cur <= s.count && 1 <= s.cur && !s.failed
    requires r == LookupNext(s)
    ensures DeletedTo(box, r, v, if r.phase == Retr then r.cur else r.cur + 1)
    ensures 1 <= r.cur <= |box.ids|
    ensures r.phase == Retr ==> !DueOnFile(s.prefs, s.now, Lookup(s.table, Id(box, r.cur)))
  {
    hide LookupNext, First, Due, Expired, Lookup, DueOnFile;
    LookupNextStops(s);
    var k := if r.phase == Retr then r.cur else r.cur + 1;
    forall n | 1 <= n <= |box.ids|
      ensures DeleCmd(n) in r.sent <==> First(box, r.prefs, r.table, 1) <= n < k && Due(box, r, v, n)
    {
      OneMoreSent(s.sent, r.sent[|s.sent|], n);
      if s.cur <= n {
        assert Waits(box, s, v, n);
        WaitingIsDue(box, s, v, n);
      }
      DueDepends(box, s, r, v, n);
    }
    forall n | 1 <= n <= |box.ids| && n < |r.msg| && k <= n ensures Waits(box, r, v, n) {
      assert Waits(box, s, v, n);
    }
    assert Waits(box, s, v, r.cur);
    WaitingIsDue(box, s, v, r.cur);
  }

  lemma SearchDeletes(box: Mailbox, s: Pop, v: map<int, Drop>)
    requires DeletedTo(box, s, v, s.cur) && First(box, s.prefs, s.table, 1) <= s.cur <= s.count && 1 <= s.cur && !s.failed
    ensures Deletes(box, LookupNext(s), v)
  {
    hide LookupNext, First, Due, Expired, Skipped, DueOnFile, DeletedTo;
    ShapeOfDeleted(box, s, v);
    LookupNextStops(s);
    SearchDeletesTo(box, s, v, LookupNext(s));
  }

  lemma ShapeOfDeleted(box: Mailbox, s: Pop, v: map<int, Drop>)
    requires DeletedTo(box, s, v, s.cur)
    ensures s.count == |box.ids| && |s.msg| == if s.count > 0 then s.count + 1 else 0
  {
  }

  lemma AdvanceDeletes(box: Mailbox, s: Pop, v: map<int, Drop>)
    requires DeletedTo(box, s, v, s.cur + 1) && First(box, s.prefs, s.table, 1) <= s.cur <= s.count && 1 <= s.cur && !s.failed
    ensures Deletes(box, Advance(s), v)
  {
    hide LookupNext, First, Due;
    if s.cur == s.count {
      QuitDeletes(box, s, v, s.cur + 1);
    } else {
      var s' := s.(cur := s.cur + 1);
      SameDeletes(box, s, s', v, s.cur + 1);
      SearchDeletes(box, s', v);
    }
  }

  /** Only these parts of the state matter, and of the messages only those that wait. */
  lemma SameDeletes(box: Mailbox, s: Pop, r: Pop, v: map<int, Drop>, k: int)
    requires DeletedTo(box, s, v, k)
    requires r.prefs == s.prefs && r.now == s.now && r.table == s.table && r.count == s.count && r.sent == s.sent
    requires |r.msg| == |s.msg| && forall n :: 0 <= n < |s.msg| && k <= n ==> r.msg[n] == s.msg[n].(size := r.msg[n].size)
    ensures DeletedTo(box, r, v, k)
  {
    hide First, Due;
    forall n | 1 <= n <= |box.ids|
      ensures DeleCmd(n) in r.sent <==> First(box, r.prefs, r.table, 1) <= n < k && Due(box, r, v, n)
    {
      DueDepends(box, s, r, v, n);
    }
    forall n | 1 <= n <= |box.ids| && n < |r.msg| && k <= n ensures Waits(box, r, v, n) {
      assert Waits(box, s, v, n);
    }
  }

  /** Another command deletes nothing. */
  lemma QuitDeletes(box: Mailbox, s: Pop, v: map<int, Drop>, k: int)
    requires DeletedTo(box, s, v, k)
    ensures DeletedTo(box, Send(s, Logout, Quit), v, k)
  {
    hide First, Due;
    var r := Send(s, Logout, Quit);
    forall n | 1 <= n <= |box.ids|
      ensures DeleCmd(n) in r.sent <==> First(box, r.prefs, r.table, 1) <= n < k && Due(box, r, v, n)
    {
      OneMoreSent(s.sent, Quit, n);
      DueDepends(box, s, r, v, n);
    }
    forall n | 1 <= n <= |box.ids| && n < |r.msg| && k <= n ensures Waits(box, r, v, n) {
      assert Waits(box, s, v, n);
    }
  }

  /** A waiting message is due exactly when the search finds it expired. */
  lemma WaitingIsDue(box: Mailbox, s: Pop, v: map<int, Drop>, n: int)
    requires 1 <= n <= |box.ids| && n < |s.msg| && Waits(box, s, v, n)
    ensures Due(box, s, v, n) <==> Expired(s, s.msg[n])
    ensures DueOnFile(s.prefs, s.now, Lookup(s.table, Id(box, n))) <==> Expired(s, s.msg[n])
  {
  }

  lemma DueDepends(box: Mailbox, s: Pop, r: Pop, v: map<int, Drop>, n: int)
    requires 1 <= n <= |box.ids| && s.prefs == r.prefs && s.now == r.now && s.table == r.table
    ensures Due(box, s, v, n) == Due(box, r, v, n)
  {
  }

  // ---- The handlers ----

  /** After the store's answer, with a DELE sent exactly if the message is due by it. */
  lemma AnswerDeletes(box: Mailbox, s: Pop, v: map<int, Drop>, drop: Drop, r: Pop)
    requires Fetching(box, s, v)
    requires r.prefs == s.prefs && r.now == s.now && r.table == s.table && r.count == s.count && r.cur == s.cur
    requires |r.msg| == |s.msg| && forall n :: 0 <= n < |s.msg| && n != s.cur ==> r.msg[n] == s.msg[n]
    requires r.sent == if DueAfter(s.prefs, drop) then s.sent + [DeleCmd(s.cur)] else s.sent
    ensures DeletedTo(box, r, v[s.cur := drop], s.cur + 1)
  {
    hide First, DueOnFile, DueAfter, Lookup;
    var v' := v[s.cur := drop];
    forall n | 1 <= n <= |box.ids|
      ensures DeleCmd(n) in r.sent <==> First(box, r.prefs, r.table, 1) <= n < s.cur + 1 && Due(box, r, v', n)
    {
      OneMoreSent(s.sent, DeleCmd(s.cur), n);
    }
    forall n | 1 <= n <= |box.ids| && n < |r.msg| && s.cur + 1 <= n ensures Waits(box, r, v', n) {
      assert Waits(box, s, v, n);
    }
  }

  lemma MessageDeletes(box: Mailbox, s: Pop, v: map<int, Drop>, stored: bool, drop: Drop, connected: bool)
    requires Deletes(box, s, v) && Enabled(s, Message(stored, drop, connected))
    ensures Deletes(box, RecvRetr(s, stored, drop, connected), Answered(s, Message(stored, drop, connected), v))
  {
    hide First, Due, DeletedTo, LookupNext;
    ShapeOfDeleted(box, s, v);
    if stored && drop != DropError && connected {
      var s', v' := Accept(s, drop), v[s.cur := drop];
      ClockIsLate(box, s, v);
      if DueAfter(s.prefs, drop) {
        AnswerDeletes(box, s, v, drop, Send(s', Delete, DeleCmd(s.cur)));
      } else {
        AnswerDeletes(box, s, v, drop, s');
        AdvanceDeletes(box, s', v');
      }
    }
  }

  lemma ClockIsLate(box: Mailbox, s: Pop, v: map<int, Drop>)
    requires DeletedTo(box, s, v, s.cur)
    ensures s.now > RECV_TIME_DELETE
  {
  }

  lemma ConfirmDeletes(box: Mailbox, s: Pop, v: map<int, Drop>)
    requires Deletes(box, s, v) && s.phase == Delete && !s.failed
    ensures Deletes(box, Advance(MarkDeleted(s)), v)
  {
    hide First, Due, DeletedTo, LookupNext;
    var s' := MarkDeleted(s);
    SameDeletes(box, s, s', v, s.cur + 1);
    AdvanceDeletes(box, s', v);
  }

  lemma StatusDeletes(box: Mailbox, s: Pop, v: map<int, Drop>, reply: Reply, body: seq<int>)
    requires Deletes(box, s, v) && Enabled(s, Status(reply, body))
    requires Answers(box, s, Status(reply, body)) && Clean(s, Status(reply, body))
    ensures Deletes(box, RecvStatus(s, reply, body), v)
  {
    hide First, Due, Advance, MarkDeleted, RecvStat;
    StatusKeepsShape(s, reply, body);
    if s.phase == Delete {
      ConfirmDeletes(box, s, v);
    } else if s.phase == GetRangeStat {
      StatDeletes(box, s, v, body);
    } else {
      var r := RecvStatus(s, reply, body);
      if s.phase != GetRangeUidl {
        SameDeletes(box, s, r, v, if s.phase == Logout then s.count + 1 else s.cur);
      }
    }
  }

  lemma StatDeletes(box: Mailbox, s: Pop, v: map<int, Drop>, body: seq<int>)
    requires Deletes(box, s, v) && s.phase == GetRangeStat && !s.failed && |body| >= 2 && body[0] == |box.ids|
    ensures Deletes(box, RecvStat(s, body), v)
  {
    hide First;
    var r := RecvStat(s, body);
    assert NoneDeleted(r) by {
      assert r.sent[..|s.sent|] == s.sent;
    }
  }

  lemma {:induction false} FirstIsFresh(box: Mailbox, s: Pop, n: nat)
    requires FirstFresh(box, s, |box.ids|) && 1 <= n
    requires s.newMsg ==> n <= s.cur
    ensures First(box, s.prefs, s.table, n) == if s.newMsg then s.cur else if n > |box.ids| then n else |box.ids| + 1
    decreases |box.ids| + 1 - n
  {
    if n <= |box.ids| {
      assert NeedsAttention(s.prefs, Lookup(s.table, Id(box, n))) <==> Fresh(s, Id(box, n));
      if !Fresh(s, Id(box, n)) {
        FirstIsFresh(box, s, n + 1);
      }
    }
  }

  lemma UidlDeletes(box: Mailbox, s: Pop, v: map<int, Drop>)
    requires Deletes(box, s, v) && s.phase == GetRangeUidlRecv && !s.failed
    ensures Deletes(box, RecvUidl(s, IdLines(box), true), v)
  {
    assert IdLines(box)[0..] == IdLines(box);
    UidlLinesRead(box, s, 0);
    UidlLinesKeepShape(s, IdLines(box));
    hide First, RecvUidlLines;
    var s' := RecvUidlLines(s, IdLines(box));
    var r := RecvUidl(s, IdLines(box), true);
    FirstIsFresh(box, s', 1);
    forall n ensures DeleCmd(n) !in r.sent {
      OneMoreSent(s.sent, r.sent[|s.sent|], n);
    }
    forall n | 1 <= n <= |box.ids| && n < |r.msg| ensures Waits(box, r, v, n) {
      assert Listed(s', Id(box, n), s'.msg[n]);
    }
  }

  lemma ListDeletes(box: Mailbox, s: Pop, v: map<int, Drop>, lines: seq<SizeLine>, whole: bool)
    requires Deletes(box, s, v) && Enabled(s, SizeListing(lines, whole))
    ensures Deletes(box, RecvList(s, lines, whole), v)
  {
    hide First, DeletedTo, LookupNext;
    ShapeOfDeleted(box, s, v);
    SizeLinesKeepShape(s, lines);
    var (s', good) := RecvSizeLines(s, lines);
    SameDeletes(box, s, s', v, s.cur);
    if good && whole {
      SearchDeletes(box, s', v);
    }
  }

  lemma StepDeletes(box: Mailbox, s: Pop, v: map<int, Drop>, e: Event)
    requires Deletes(box, s, v) && Enabled(s, e) && Answers(box, s, e) && Clean(s, e)
    ensures Deletes(box, Step(s, e), Answered(s, e, v))
  {
    match e
    case Status(reply, body) => StatusDeletes(box, s, v, reply, body);
    case UidlListing(lines, whole) => UidlDeletes(box, s, v);
    case SizeListing(lines, whole) => ListDeletes(box, s, v, lines, whole);
    case Message(stored, drop, connected) => MessageDeletes(box, s, v, stored, drop, connected);
  }

  lemma {:induction false} RunDeletes(box: Mailbox, s: Pop, es: seq<Event>, v: map<int, Drop>)
    requires Shaped(s) && Deletes(box, s, v) && IsSession(box, s, es) && IsCleanSession(box, s, es)
    requires Accepted(s, v)
    ensures Deletes(box, Run(s, es), StoreAnswers(s, es, v)) && Accepted(Run(s, es), StoreAnswers(s, es, v))
    decreases |es|
  {
    hide Deletes, Step, Answered, Accepted;
    if es != [] {
      StepDeletes(box, s, v, es[0]);
      StepAccepts(box, s, v, es[0]);
      StepKeepsShape(s, es[0]);
      RunDeletes(box, Step(s, es[0]), es[1..], Answered(s, es[0], v));
    }
  }

  /** The accepted messages are those that the store answered for. */
  ghost predicate Accepted(s: Pop, v: map<int, Drop>)
  {
    forall n :: n in s.dropped <==> n in v
  }

  lemma StepAccepts(box: Mailbox, s: Pop, v: map<int, Drop>, e: Event)
    requires Deletes(box, s, v) && Enabled(s, e) && Accepted(s, v)
    ensures Accepted(Step(s, e), Answered(s, e, v))
  {
    hide First, Due, DeletedTo, Advance, RecvStatus;
    match e
    case Status(reply, body) => StatusKeepsInputs(s, reply, body);
    case UidlListing(lines, whole) => UidlLinesKeepShape(s, lines);
    case SizeListing(lines, whole) =>
      SizeLinesKeepShape(s, lines);
      if RecvSizeLines(s, lines).1 && whole {
        LookupNextStops(RecvSizeLines(s, lines).0);
      }
    case Message(stored, drop, connected) =>
      if stored && drop != DropError {
        var s' := Accept(s, drop);
        AdvanceKeepsInputs(s');
        forall n ensures n in s'.dropped <==> n in s.dropped || n == s.cur {
        }
      }
  }

  /** The clock and the file of ids stay as they were. */
  lemma {:induction false} RunKeepsInputs(s: Pop, es: seq<Event>)
    requires Shaped(s) && IsRun(s, es)
    ensures var r := Run(s, es); r.prefs == s.prefs && r.now == s.now && r.table == s.table
    decreases |es|
  {
    hide Step;
    if es != [] {
      StepKeepsShape(s, es[0]);
      StepKeepsInputs(s, es[0]);
      RunKeepsInputs(Step(s, es[0]), es[1..]);
    }
  }

  lemma StatusKeepsInputs(s: Pop, reply: Reply, body: seq<int>)
    requires Shaped(s) && Enabled(s, Status(reply, body))
    ensures var r := RecvStatus(s, reply, body); r.prefs == s.prefs && r.now == s.now && r.table == s.table && r.dropped == s.dropped
  {
    hide Advance;
    if s.phase == Delete {
      AdvanceKeepsInputs(MarkDeleted(s));
    }
  }

  lemma StepKeepsInputs(s: Pop, e: Event)
    requires Shaped(s) && Enabled(s, e)
    ensures var r := Step(s, e); r.prefs == s.prefs && r.now == s.now && r.table == s.table
  {
    match e
    case Status(reply, body) => StatusKeepsInputs(s, reply, body);
    case UidlListing(lines, whole) => UidlLinesKeepShape(s, lines);
    case SizeListing(lines, whole) =>
      SizeLinesKeepShape(s, lines);
      if RecvSizeLines(s, lines).1 && whole {
        LookupNextStops(RecvSizeLines(s, lines).0);
      }
    case Message(stored, drop, connected) =>
      if stored && drop != DropError {
        AdvanceKeepsInputs(Accept(s, drop));
      }
  }

  lemma AdvanceKeepsInputs(s: Pop)
    requires |s.msg| == s.count + 1 && 1 <= s.cur <= s.count
    ensures var r := Advance(s); r.prefs == s.prefs && r.now == s.now && r.table == s.table && r.dropped == s.dropped
  {
    if s.cur < s.count {
      LookupNextStops(s.(cur := s.cur + 1));
    }
  }

  /**
   Which messages a session deletes that met no error and has come to its end: none before
   the first message that needs attention, and from there on exactly those that are due by
   the time on file, or by what the store answered when it got them.
   */
  lemma DeletesExactlyTheDue(box: Mailbox, prefs: Prefs, now: int, table: map<string, int>, es: seq<Event>, n: nat)
    requires ValidMailbox(box) && now > RECV_TIME_DELETE && 1 <= n <= |box.ids|
    requires var s := Start(prefs, now, table); IsSession(box, s, es) && IsCleanSession(box, s, es)
    requires var r := Run(Start(prefs, now, table), es); !r.failed && r.phase in {Logout, Done}
    ensures var s := Start(prefs, now, table);
      var answers, time := StoreAnswers(s, es, map[]), Lookup(table, Id(box, n));
      DeleCmd(n) in Run(s, es).sent <==>
        && (exists m :: 1 <= m <= n && NeedsAttention(prefs, Lookup(table, Id(box, m))))
        && (DueOnFile(prefs, now, time) || (n in answers && DueAfter(prefs, answers[n])))
    ensures var s := Start(prefs, now, table); n in StoreAnswers(s, es, map[]) <==> n in Run(s, es).dropped
  {
    hide First, DueOnFile, DueAfter, NeedsAttention, Lookup, Step, StoreAnswers;
    var s := Start(prefs, now, table);
    RunDeletes(box, s, es, map[]);
    RunKeepsInputs(s, es);
    FirstIsReached(box, prefs, table, 1, n);
  }

  // ---- The time that is written to the file ----

  /** The time recorded for a message that the store answered for. */
  function AnswerTime(answer: Drop, now: int): int
  {
    if answer == DropDontReceive then RECV_TIME_KEEP else if answer == DropDelete then RECV_TIME_DELETE else now
  }

  /** Every message that has not been deleted carries the time of its receipt: that on file, or that of this session. */
  ghost predicate Timed(box: Mailbox, s: Pop, v: map<int, Drop>)
  {
    s.uidlValid ==> forall n | 1 <= n <= |box.ids| && n < |s.msg| ::
      !s.msg[n].deleted ==> s.msg[n].recvTime == if n in v then AnswerTime(v[n], s.now) else Lookup(s.table, Id(box, n))
  }

  /** Searching, listing sizes and marking deletions change no time of the others. */
  lemma TimesStay(box: Mailbox, s: Pop, r: Pop, v: map<int, Drop>)
    requires Timed(box, s, v) && s.uidlValid == r.uidlValid && s.now == r.now && s.table == r.table && |s.msg| == |r.msg|
    requires forall n :: 0 <= n < |s.msg| && !r.msg[n].deleted ==> !s.msg[n].deleted && r.msg[n].recvTime == s.msg[n].recvTime
    ensures Timed(box, r, v)
  {
  }

  lemma AdvanceKeepsTimes(s: Pop)
    requires |s.msg| == s.count + 1 && 1 <= s.cur <= s.count
    ensures var r := Advance(s);
      r.msg == s.msg && r.uidlValid == s.uidlValid && r.now == s.now && r.table == s.table && r.dropped == s.dropped
  {
    if s.cur < s.count {
      LookupNextStops(s.(cur := s.cur + 1));
    }
  }

  lemma StatusTimed(box: Mailbox, s: Pop, v: map<int, Drop>, reply: Reply, body: seq<int>)
    requires Deletes(box, s, v) && Timed(box, s, v) && Enabled(s, Status(reply, body))
    requires s.phase == GetRangeStat ==> !s.uidlValid && |body| >= 2 && body[0] == |box.ids| && reply == Ok
    ensures Timed(box, RecvStatus(s, reply, body), v)
  {
    hide First, Due, DeletedTo, Advance, Lookup;
    var r := RecvStatus(s, reply, body);
    if s.phase == Delete && reply == Ok {
      AdvanceKeepsTimes(MarkDeleted(s));
      TimesStay(box, s, r, v);
    } else if s.phase != GetRangeStat {
      TimesStay(box, s, r, v);
    }
  }

  lemma MessageTimed(box: Mailbox, s: Pop, v: map<int, Drop>, stored: bool, drop: Drop, connected: bool)
    requires Deletes(box, s, v) && Timed(box, s, v) && Enabled(s, Message(stored, drop, connected))
    ensures Timed(box, RecvRetr(s, stored, drop, connected), Answered(s, Message(stored, drop, connected), v))
  {
    hide First, Due, DeletedTo, Advance, Lookup;
    if stored && drop != DropError {
      AdvanceKeepsTimes(Accept(s, drop));
    }
  }

  lemma UidlTimed(box: Mailbox, s: Pop, v: map<int, Drop>)
    requires Deletes(box, s, v) && s.phase == GetRangeUidlRecv && !s.failed
    ensures Timed(box, RecvUidl(s, IdLines(box), true), v)
  {
    hide First;
    assert IdLines(box)[0..] == IdLines(box);
    UidlLinesRead(box, s, 0);
    var s' := RecvUidlLines(s, IdLines(box));
    forall n | 1 <= n <= |box.ids| ensures Listed(s', Id(box, n), s'.msg[n]) {
    }
  }

  /** The ids are known from the listing on, and nothing is known of times before. */
  ghost predicate BeforeUidl(s: Pop)
  {
    !s.failed ==> (s.phase in {GetRangeStat, GetRangeUidl, GetRangeUidlRecv} <==> !s.uidlValid)
  }

  lemma StepTimed(box: Mailbox, s: Pop, v: map<int, Drop>, e: Event)
    requires Deletes(box, s, v) && Timed(box, s, v) && BeforeUidl(s) && Enabled(s, e) && Answers(box, s, e) && Clean(s, e)
    ensures Timed(box, Step(s, e), Answered(s, e, v)) && BeforeUidl(Step(s, e))
  {
    hide First, Due, DeletedTo, Advance, LookupNext, RecvSizeLines;
    match e
    case Status(reply, body) =>
      StatusTimed(box, s, v, reply, body);
      StatusBefore(s, reply, body);
    case UidlListing(lines, whole) => UidlTimed(box, s, v);
    case SizeListing(lines, whole) =>
      SizeLinesKeepShape(s, lines);
      var (s', good) := RecvSizeLines(s, lines);
      if good && whole {
        LookupNextStops(s');
      }
      TimesStay(box, s, RecvList(s, lines, whole), v);
    case Message(stored, drop, connected) =>
      MessageTimed(box, s, v, stored, drop, connected);
      if stored && drop != DropError {
        AdvanceMovesPast(Accept(s, drop));
        AdvanceKeepsTimes(Accept(s, drop));
      }
  }

  lemma AdvanceMovesPast(s: Pop)
    requires |s.msg| == s.count + 1 && 1 <= s.cur <= s.count
    ensures Advance(s).phase in {Retr, Delete, Logout}
  {
    if s.cur < s.count {
      LookupNextStops(s.(cur := s.cur + 1));
    }
  }

  lemma StatusBefore(s: Pop, reply: Reply, body: seq<int>)
    requires Shaped(s) && BeforeUidl(s) && Enabled(s, Status(reply, body)) && s.phase != GetRangeLast && reply == Ok
    requires s.phase == GetRangeStat ==> |body| >= 2 && body[0] >= 0
    ensures BeforeUidl(RecvStatus(s, reply, body))
  {
    hide Advance;
    if s.phase == Delete {
      AdvanceMovesPast(MarkDeleted(s));
      AdvanceKeepsTimes(MarkDeleted(s));
    }
  }

  lemma {:induction false} RunTimed(box: Mailbox, s: Pop, es: seq<Event>, v: map<int, Drop>)
    requires Shaped(s) && Deletes(box, s, v) && Timed(box, s, v) && BeforeUidl(s)
    requires IsSession(box, s, es) && IsCleanSession(box, s, es)
    ensures Timed(box, Run(s, es), StoreAnswers(s, es, v)) && BeforeUidl(Run(s, es))
    decreases |es|
  {
    hide Deletes, Step, Answered, Timed, BeforeUidl;
    if es != [] {
      StepDeletes(box, s, v, es[0]);
      StepTimed(box, s, v, es[0]);
      StepKeepsShape(s, es[0]);
      RunTimed(box, Step(s, es[0]), es[1..], Answered(s, es[0], v));
    }
  }

  /**
   The time of its receipt follows a message from session to session: what the next one
   reads for a message left on the server is the time on file before, or that of the
   session that accepted it.
   */
  lemma NextSessionKnowsTime(
    box: Mailbox, prefs: Prefs, now: int, file: seq<Entry>, es: seq<Event>, n: nat, later: int)
    requires ValidMailbox(box) && RECV_TIME_DELETE < now < 0x8000_0000 && !prefs.getall && 1 <= n <= |box.ids|
    requires var s := Start(prefs, now, ReadTable(file, now)); IsSession(box, s, es) && IsCleanSession(box, s, es)
    requires var r := Run(Start(prefs, now, ReadTable(file, now)), es);
      !r.failed && r.phase in {Logout, Done}
    ensures n < |Run(Start(prefs, now, ReadTable(file, now)), es).msg|
    ensures var s := Start(prefs, now, ReadTable(file, now));
      var r, answers := Run(s, es), StoreAnswers(s, es, map[]);
      var before := Lookup(s.table, Id(box, n));
      (before != RECV_TIME_NONE || n in r.dropped) && !r.msg[n].deleted ==>
        Lookup(ReadTable(NextFile(r, file), later), Id(box, n)) == if n in answers then AnswerTime(answers[n], now) else before
  {
    hide First, Step, StoreAnswers, Lookup, NextFile, ReadTable, Deletes;
    var s := Start(prefs, now, ReadTable(file, now));
    var r := Run(s, es);
    StartIsReady(box, s);
    RunDeletes(box, s, es, map[]);
    RunTimed(box, s, es, map[]);
    RunRemembers(box, s, es);
    RunKeepsInputs(s, es);
    EndShape(box, r, StoreAnswers(s, es, map[]));
    var answers, before := StoreAnswers(s, es, map[]), Lookup(s.table, Id(box, n));
    if (before != RECV_TIME_NONE || n in r.dropped) && !r.msg[n].deleted {
      var time := r.msg[n].recvTime;
      assert Kept(box, r, n);
      LookupInRange(s.table, Id(box, n));
      TimeReadsBack(box, r, file, n, later);
    }
  }

  lemma EndShape(box: Mailbox, r: Pop, v: map<int, Drop>)
    requires Deletes(box, r, v) && !r.failed && r.phase in {Logout, Done}
    ensures r.count == |box.ids| && |r.msg| == if r.count > 0 then r.count + 1 else 0
  {
    hide First, Due;
  }

  lemma StartIsReady(box: Mailbox, s: Pop)
    requires s == Start(s.prefs, s.now, s.table) && s.now > RECV_TIME_DELETE
    ensures Deletes(box, s, map[]) && Timed(box, s, map[]) && BeforeUidl(s) && Accepted(s, map[])
  {
  }

  lemma LookupInRange(table: map<string, int>, id: string)
    ensures -0x8000_0000 <= Lookup(table, id) < 0x8000_0000
  {
  }

  /** What is written for a received message is read again. */
  lemma TimeReadsBack(box: Mailbox, r: Pop, file: seq<Entry>, n: nat, later: int)
    requires ValidMailbox(box) && AllKept(box, r) && r.uidlValid && 1 <= n <= r.count && r.msg[n].received && !r.msg[n].deleted
    requires r.msg[n].recvTime != RECV_TIME_NONE && -0x8000_0000 <= r.msg[n].recvTime < 0x8000_0000
    ensures Lookup(ReadTable(NextFile(r, file), later), Id(box, n)) == r.msg[n].recvTime
  {
    EntriesDistinct(box, r, 1);
    EntryWritten(box, r, 1, n);
    var next := EntriesFrom(r, 1);
    var i :| 0 <= i < |next| && next[i] == Entry(Id(box, n), Some(r.msg[n].recvTime));
    ReadsBack(next, i, later);
    GintInRange(r.msg[n].recvTime);
  }
}
