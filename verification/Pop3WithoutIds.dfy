/** The POP3 client against a server that refuses UIDL: what it forgets, and what it fetches again. */
module Pop3WithoutIds {
  import opened Bytes
  import opened Pop3
  import opened Pop3Runs
  import opened Pop3Delivery
  import opened Pop3Accounts

  predicate Refuses(s: Pop, e: Event)
  {
    e.Status? && s.phase == GetRangeUidl ==> e.reply != Ok
  }

  /** A run in which UIDL, if it is asked for, is refused. */
  ghost predicate UidlRefused(s: Pop, es: seq<Event>)
    requires Shaped(s)
    decreases |es|
  {
    IsRun(s, es) && (es != [] ==>
      && Refuses(s, es[0])
      && (StepKeepsShape(s, es[0]); UidlRefused(Step(s, es[0]), es[1..])))
  }

  // ---- The file of ids is left alone ----

  /** No listing is read; the ids count as known only when the mailbox is empty and UIDL was not asked for. */
  ghost predicate NoListing(s: Pop)
  {
    && Shaped(s) && s.phase != GetRangeUidlRecv
    && (s.phase == GetRangeStat ==> Uidl !in s.sent)
    && (s.uidlValid ==> s.count == 0 && Uidl !in s.sent && s.phase in {Logout, Done, Aborted})
  }

  /** What moving on to the next message changes. */
  lemma AdvanceChanges(s: Pop)
    requires |s.msg| == s.count + 1 && 1 <= s.cur <= s.count
    ensures var r := Advance(s);
      && r == s.(phase := r.phase, cur := r.cur, totalBytes := r.totalBytes, sent := r.sent)
      && r.phase in {Retr, Delete, Logout} && s.cur <= r.cur <= s.count
  {
    hide LookupNext, Skipped, Expired;
    if s.cur < s.count {
      LookupNextStops(s.(cur := s.cur + 1));
    }
  }

  lemma ListChanges(s: Pop, lines: seq<SizeLine>, whole: bool)
    requires |s.msg| == s.count + 1 && 1 <= s.cur <= s.count && !s.failed
    ensures var r := RecvList(s, lines, whole);
      && r == s.(failed := r.failed, phase := r.phase, cur := r.cur, msg := r.msg, totalBytes := r.totalBytes, sent := r.sent)
      && if r.failed then r.phase == s.phase else r.phase in {Retr, Delete, Logout}
  {
    hide LookupNext, Skipped, Expired, RecvSizeLines;
    SizeLinesKeepShape(s, lines);
    var (r, good) := RecvSizeLines(s, lines);
    if good && whole {
      LookupNextStops(r);
    }
  }

  lemma StatusNoListing(s: Pop, reply: Reply, body: seq<int>)
    requires NoListing(s) && Enabled(s, Status(reply, body)) && Refuses(s, Status(reply, body))
    ensures NoListing(RecvStatus(s, reply, body))
  {
    StatusKeepsShape(s, reply, body);
    hide LookupNext, Advance, Shaped;
    if s.phase == Delete {
      DeletePhase(s);
      AdvanceChanges(MarkDeleted(s));
    }
  }

  lemma DeletePhase(s: Pop)
    requires Shaped(s) && Processing(s.phase) && !s.failed
    ensures |s.msg| == s.count + 1 && 1 <= s.cur <= s.count
  {
  }

  lemma StepNoListing(s: Pop, e: Event)
    requires NoListing(s) && Enabled(s, e) && Refuses(s, e)
    ensures NoListing(Step(s, e))
  {
    hide LookupNext, Advance, RecvSizeLines, RecvList, RecvStatus;
    StepKeepsShape(s, e);
    match e
    case Status(reply, body) => StatusNoListing(s, reply, body);
    case UidlListing(lines, whole) =>
    case SizeListing(lines, whole) => ListChanges(s, lines, whole);
    case Message(stored, drop, connected) =>
      if stored && drop != DropError {
        AdvanceChanges(Accept(s, drop));
      }
  }

  lemma {:induction false} RunNoListing(s: Pop, es: seq<Event>)
    requires NoListing(s) && UidlRefused(s, es)
    ensures NoListing(Run(s, es))
    decreases |es|
  {
    if es != [] {
      StepNoListing(s, es[0]);
      RunNoListing(Step(s, es[0]), es[1..]);
    }
  }

  /** In every run in which UIDL is refused the file of ids stays as it was; an empty mailbox, of which it is not asked, clears it. */
  lemma RefusedKeepsFile(prefs: Prefs, now: int, table: map<string, int>, es: seq<Event>, file: seq<Entry>)
    requires UidlRefused(Start(prefs, now, table), es)
    ensures var r := Run(Start(prefs, now, table), es);
      && (Uidl in r.sent ==> !r.uidlValid)
      && (r.uidlValid ==> r.count == 0)
      && NextFile(r, file) == if r.uidlValid then [] else file
  {
    RunNoListing(Start(prefs, now, table), es);
  }

  // ---- The ids on file play no part ----

  lemma TestsIgnoreTable(s: Pop, m: MsgInfo, table: map<string, int>)
    ensures Expired(s.(table := table), m) == Expired(s, m) && Skipped(s.(table := table), m) == Skipped(s, m)
  {
  }

  /** The search stops at one place only. */
  lemma SameStop(s: Pop, t: Pop, r: Pop, u: Pop)
    requires |s.msg| == s.count + 1 && 1 <= s.cur <= s.count
    requires t.msg == s.msg && t.count == s.count && t.cur == s.cur
    requires forall m :: Expired(t, m) == Expired(s, m) && Skipped(t, m) == Skipped(s, m)
    requires StopsAt(s, r) && StopsAt(t, u)
    ensures r.cur == u.cur && r.phase == u.phase
  {
    hide Expired, Skipped;
  }

  lemma LookupNextIgnoresTable(s: Pop, table: map<string, int>)
    requires |s.msg| == s.count + 1 && 1 <= s.cur <= s.count
    ensures LookupNext(s.(table := table)) == LookupNext(s).(table := table)
  {
    hide LookupNext, Expired, Skipped, SumSizes;
    var t := s.(table := table);
    forall m ensures Expired(t, m) == Expired(s, m) && Skipped(t, m) == Skipped(s, m) {
      TestsIgnoreTable(s, m, table);
    }
    LookupNextStops(s);
    LookupNextStops(t);
    LookupNextAccounts(s);
    LookupNextAccounts(t);
    SameStop(s, t, LookupNext(s), LookupNext(t));
  }

  lemma {:induction false} SizeLinesIgnoreTable(s: Pop, lines: seq<SizeLine>, table: map<string, int>)
    requires s.count > 0 ==> |s.msg| == s.count + 1
    ensures var (r, good) := RecvSizeLines(s, lines); RecvSizeLines(s.(table := table), lines) == (r.(table := table), good)
    decreases |lines|
  {
    if lines != [] && lines[0].SizeLine? {
      SizeLinesIgnoreTable(RecvSizeLine(s, lines[0].num, lines[0].size), lines[1..], table);
    }
  }

  lemma AdvanceIgnoresTable(s: Pop, table: map<string, int>)
    requires |s.msg| == s.count + 1 && 1 <= s.cur <= s.count
    ensures Advance(s.(table := table)) == Advance(s).(table := table)
  {
    if s.cur < s.count {
      LookupNextIgnoresTable(s.(cur := s.cur + 1), table);
    }
  }

  lemma ShortStatIgnoresTable(s: Pop, body: seq<int>, table: map<string, int>)
    requires |body| < 2
    ensures RecvStat(s.(table := table), body) == RecvStat(s, body).(table := table)
  {
  }

  lemma EmptyStatIgnoresTable(s: Pop, body: seq<int>, table: map<string, int>)
    requires |body| >= 2 && body[0] <= 0
    ensures RecvStat(s.(table := table), body) == RecvStat(s, body).(table := table)
  {
  }

  lemma StatIgnoresTable(s: Pop, body: seq<int>, table: map<string, int>)
    ensures RecvStat(s.(table := table), body) == RecvStat(s, body).(table := table)
  {
    if |body| < 2 {
      hide RecvStat;
      ShortStatIgnoresTable(s, body, table);
    } else if body[0] <= 0 {
      hide RecvStat;
      EmptyStatIgnoresTable(s, body, table);
    }
  }

  lemma RefusedLastIgnoresTable(s: Pop, body: seq<int>, table: map<string, int>)
    ensures RecvLast(s.(table := table), false, body) == RecvLast(s, false, body).(table := table)
  {
  }

  lemma LastIgnoresTable(s: Pop, body: seq<int>, table: map<string, int>)
    ensures RecvLast(s.(table := table), true, body) == RecvLast(s, true, body).(table := table)
  {
  }

  lemma DeleteIgnoresTable(s: Pop, table: map<string, int>)
    requires |s.msg| == s.count + 1 && 1 <= s.cur <= s.count
    ensures Advance(MarkDeleted(s.(table := table))) == Advance(MarkDeleted(s)).(table := table)
  {
    AdvanceIgnoresTable(MarkDeleted(s), table);
    hide Advance;
    assert MarkDeleted(s.(table := table)) == MarkDeleted(s).(table := table);
  }

  lemma SendIgnoresTable(s: Pop, phase: Phase, c: Command, table: map<string, int>)
    ensures Send(s.(table := table), phase, c) == Send(s, phase, c).(table := table)
  {
  }

  /** The replies that start a listing, a message or the end, or are refused. */
  lemma QuietIgnoresTable(s: Pop, reply: Reply, body: seq<int>, table: map<string, int>)
    requires Shaped(s) && Enabled(s, Status(reply, body)) && s.phase !in {GetRangeStat, GetRangeLast, Delete}
    ensures RecvStatus(s.(table := table), reply, body) == RecvStatus(s, reply, body).(table := table)
  {
    hide Advance, Shaped, RecvStat, RecvLast, MarkDeleted, Send;
    SendIgnoresTable(s, Logout, Quit, table);
    SendIgnoresTable(s, GetRangeLast, Last, table);
  }

  lemma NumbersIgnoreTable(s: Pop, reply: Reply, body: seq<int>, table: map<string, int>)
    requires Shaped(s) && Enabled(s, Status(reply, body)) && s.phase in {GetRangeStat, GetRangeLast}
    ensures RecvStatus(s.(table := table), reply, body) == RecvStatus(s, reply, body).(table := table)
  {
    hide Advance, Shaped, RecvStat, RecvLast, MarkDeleted, Send;
    StatIgnoresTable(s, body, table);
    LastIgnoresTable(s, body, table);
    RefusedLastIgnoresTable(s, body, table);
    SendIgnoresTable(s, Logout, Quit, table);
  }

  lemma DeletedIgnoresTable(s: Pop, reply: Reply, body: seq<int>, table: map<string, int>)
    requires Shaped(s) && Enabled(s, Status(reply, body)) && s.phase == Delete
    ensures RecvStatus(s.(table := table), reply, body) == RecvStatus(s, reply, body).(table := table)
  {
    hide Advance, Shaped, RecvStat, RecvLast, MarkDeleted, Send;
    SendIgnoresTable(s, Logout, Quit, table);
    DeletePhase(s);
    DeleteIgnoresTable(s, table);
  }

  lemma StatusIgnoresTable(s: Pop, reply: Reply, body: seq<int>, table: map<string, int>)
    requires Shaped(s) && Enabled(s, Status(reply, body))
    ensures RecvStatus(s.(table := table), reply, body) == RecvStatus(s, reply, body).(table := table)
  {
    hide RecvStatus, Shaped;
    if s.phase == Delete {
      DeletedIgnoresTable(s, reply, body, table);
    } else if s.phase in {GetRangeStat, GetRangeLast} {
      NumbersIgnoreTable(s, reply, body, table);
    } else {
      QuietIgnoresTable(s, reply, body, table);
    }
  }

  lemma StepIgnoresTable(s: Pop, e: Event, table: map<string, int>)
    requires Shaped(s) && Enabled(s, e) && s.phase != GetRangeUidlRecv
    ensures Shaped(s.(table := table)) && Enabled(s.(table := table), e)
    ensures Step(s.(table := table), e) == Step(s, e).(table := table)
  {
    hide LookupNext, RecvSizeLines, Advance, RecvStatus;
    match e
    case Status(reply, body) => StatusIgnoresTable(s, reply, body, table);
    case UidlListing(lines, whole) =>
    case SizeListing(lines, whole) =>
      SizeLinesKeepShape(s, lines);
      SizeLinesIgnoreTable(s, lines, table);
      LookupNextIgnoresTable(RecvSizeLines(s, lines).0, table);
    case Message(stored, drop, connected) =>
      assert Accept(s.(table := table), drop) == Accept(s, drop).(table := table);
      AdvanceIgnoresTable(Accept(s, drop), table);
  }

  /** With another file of ids the same run is possible, and nothing but the table is different after it. */
  lemma {:induction false} RefusedIgnoresTable(s: Pop, es: seq<Event>, table: map<string, int>)
    requires NoListing(s) && UidlRefused(s, es)
    ensures Shaped(s.(table := table)) && UidlRefused(s.(table := table), es)
    ensures Run(s.(table := table), es) == Run(s, es).(table := table)
    decreases |es|
  {
    hide Step, Shaped, Enabled;
    ShapeIgnoresTable(s, table);
    if es != [] {
      StepNoListing(s, es[0]);
      StepIgnoresTable(s, es[0], table);
      RefusedIgnoresTable(Step(s, es[0]), es[1..], table);
    }
  }

  lemma ShapeIgnoresTable(s: Pop, table: map<string, int>)
    requires Shaped(s)
    ensures Shaped(s.(table := table))
  {
  }

  // ---- What is delivered with LAST, or without it ----

  /** UIDL is an unknown command; LAST gives the last message seen, or is unknown as well, as if none had been. */
  predicate KnowsLast(s: Pop, e: Event, last: nat)
  {
    && (e.Status? && s.phase == GetRangeUidl ==> e.reply == ErrOther)
    && (e.Status? && s.phase == GetRangeLast ==>
          (e.reply == ErrOther && last == 0) || (e.reply == Ok && e.body != [] && e.body[0] == last))
  }

  /** A session without errors with such a server. */
  ghost predicate IsPlainSession(box: Mailbox, s: Pop, es: seq<Event>, last: nat)
    requires Shaped(s)
    decreases |es|
  {
    IsRun(s, es) && (es != [] ==>
      && Lists(box, s, es[0]) && Clean(s, es[0]) && KnowsLast(s, es[0], last)
      && (StepKeepsShape(s, es[0]); IsPlainSession(box, Step(s, es[0]), es[1..], last)))
  }

  /** Not empty and within the size limit. */
  predicate Deliverable(box: Mailbox, prefs: Prefs, n: int)
    requires ValidBoxIndex(box, n)
  {
    Size(box, n) != 0 && !(prefs.limitOn && prefs.limit > 0 && Size(box, n) > prefs.limit * 1024)
  }

  /** Every message below k and after the last one seen has been accepted if it is deliverable; no other one has been touched. */
  ghost predicate TakenTo(box: Mailbox, s: Pop, k: int, last: nat)
  {
    && s.count == |box.ids| == |box.sizes|
    && (s.count > 0 ==> |s.msg| == s.count + 1)
    && (forall n | 1 <= n < k && ValidBoxIndex(box, n) :: n in s.dropped <==> n > last && Deliverable(box, s.prefs, n))
    && (forall n :: n in s.dropped ==> n < k)
    && (forall n :: 1 <= n <= s.count && k <= n ==> !s.msg[n].received && s.msg[n].recvTime == RECV_TIME_NONE)
  }

  ghost predicate Taken(box: Mailbox, s: Pop, last: nat)
  {
    !s.failed ==>
      match s.phase
      case GetRangeStat => s.dropped == []
      case GetRangeUidl => TakenTo(box, s, s.cur, last) && s.cur == 1
      case GetRangeLast => TakenTo(box, s, s.cur, last) && s.cur == 1
      case GetSizeList => TakenTo(box, s, s.cur, last) && last < s.cur
      case GetSizeListRecv => TakenTo(box, s, s.cur, last) && last < s.cur
      case Retr => TakenTo(box, s, s.cur, last) && last < s.cur && ToFetch(s)
      case RetrRecv => TakenTo(box, s, s.cur, last) && last < s.cur && ToFetch(s)
      case Delete => TakenTo(box, s, s.cur + 1, last) && last < s.cur
      case GetRangeUidlRecv => false
      case _ => TakenTo(box, s, s.count + 1, last)
  }

  /** An untouched message is skipped exactly when it is not deliverable, and has not expired. */
  lemma UntouchedTests(box: Mailbox, s: Pop, n: int)
    requires SizesSet(box, s) && ValidBoxIndex(box, n)
    requires !s.msg[n].received && s.msg[n].recvTime == RECV_TIME_NONE
    ensures Skipped(s, s.msg[n]) <==> !Deliverable(box, s.prefs, n)
    ensures !Expired(s, s.msg[n])
  {
  }

  lemma LookupNextTaken(box: Mailbox, s: Pop, last: nat)
    requires SizesSet(box, s) && 1 <= s.cur <= s.count && !s.failed && TakenTo(box, s, s.cur, last) && last < s.cur
    ensures Taken(box, LookupNext(s), last)
  {
    hide LookupNext, Skipped, Expired, Deliverable;
    LookupNextStops(s);
    var r := LookupNext(s);
    forall n | s.cur <= n <= s.count
      ensures !Expired(s, s.msg[n]) && (Skipped(s, s.msg[n]) <==> !Deliverable(box, s.prefs, n))
    {
      UntouchedTests(box, s, n);
    }
    if r.phase == Retr {
      TestsIgnorePlace(s, r);
    }
  }

  lemma TestsIgnorePlace(s: Pop, r: Pop)
    requires r == s.(phase := r.phase, cur := r.cur, totalBytes := r.totalBytes, sent := r.sent)
    ensures forall m :: Skipped(r, m) == Skipped(s, m)
  {
  }

  lemma AdvanceTaken(box: Mailbox, s: Pop, last: nat)
    requires SizesSet(box, s) && 1 <= s.cur <= s.count && !s.failed && TakenTo(box, s, s.cur + 1, last) && last < s.cur
    ensures Taken(box, Advance(s), last)
  {
    hide LookupNext;
    if s.cur < s.count {
      LookupNextTaken(box, s.(cur := s.cur + 1), last);
    }
  }

  lemma StatusTaken(box: Mailbox, s: Pop, last: nat, reply: Reply, body: seq<int>)
    requires ValidMailbox(box) && Accounted(box, s) && Taken(box, s, last)
    requires var e := Status(reply, body); Enabled(s, e) && Lists(box, s, e) && Clean(s, e) && KnowsLast(s, e, last)
    ensures Taken(box, RecvStatus(s, reply, body), last)
  {
    hide LookupNext, Advance, TakenTo, SizesSet, RecvStat;
    if s.phase == GetRangeStat {
      StatTaken(box, s, last, body);
    } else if s.phase == Delete {
      DeleteTaken(box, s, last);
    } else if s.phase == GetRangeLast {
      LastTaken(box, s, last, reply == Ok, body);
    } else {
      var r := RecvStatus(s, reply, body);
      NextPhase(s, reply, body, last);
      SameTaken(box, s, r, s.cur, last);
      SameTaken(box, s, r, s.count + 1, last);
      hide RecvStatus, Accounted, Shaped;
    }
  }

  /** The other replies only lead to the next phase. */
  lemma NextPhase(s: Pop, reply: Reply, body: seq<int>, last: nat)
    requires var e := Status(reply, body); Shaped(s) && Enabled(s, e) && Clean(s, e) && KnowsLast(s, e, last)
    requires s.phase !in {GetRangeStat, GetRangeLast, Delete}
    ensures var r := RecvStatus(s, reply, body);
      && r == s.(phase := r.phase, sent := r.sent)
      && match s.phase
         case GetRangeUidl => r.phase == GetRangeLast
         case GetSizeList => r.phase == GetSizeListRecv
         case Retr => r.phase == RetrRecv
         case _ => r.phase in {Done, Aborted}
  {
  }

  /** Only the record of messages and of what was accepted matters. */
  lemma SameTaken(box: Mailbox, s: Pop, r: Pop, k: int, last: nat)
    requires s.count == r.count && s.msg == r.msg && s.dropped == r.dropped && s.prefs == r.prefs
    ensures TakenTo(box, s, k, last) ==> TakenTo(box, r, k, last)
  {
  }

  /** After LAST the search starts behind the last message seen, or not at all. */
  lemma LastTaken(box: Mailbox, s: Pop, last: nat, supported: bool, body: seq<int>)
    requires Shaped(s) && s.phase == GetRangeLast && !s.failed && Taken(box, s, last)
    requires if supported then body != [] && body[0] == last else last == 0
    ensures Taken(box, RecvLast(s, supported, body), last)
  {
    hide Deliverable;
  }

  lemma StatTaken(box: Mailbox, s: Pop, last: nat, body: seq<int>)
    requires s.dropped == [] && |box.ids| == |box.sizes| && |body| >= 2 && body[0] == |box.ids|
    ensures Taken(box, RecvStat(s, body), last)
  {
  }

  lemma DeleteTaken(box: Mailbox, s: Pop, last: nat)
    requires SizesSet(box, s) && 1 <= s.cur <= s.count && !s.failed && TakenTo(box, s, s.cur + 1, last) && last < s.cur
    ensures Taken(box, Advance(MarkDeleted(s)), last)
  {
    AdvanceTaken(box, MarkDeleted(s), last);
  }

  lemma ListTaken(box: Mailbox, s: Pop, last: nat)
    requires ValidMailbox(box) && Accounted(box, s) && Taken(box, s, last) && Enabled(s, SizeListing(Sizes(box), true))
    ensures Taken(box, RecvList(s, Sizes(box), true), last)
  {
    hide LookupNext, RecvSizeLines;
    assert Sizes(box)[0..] == Sizes(box);
    SizeLinesKeepShape(s, Sizes(box));
    SizeLinesRead(box, s, 0);
    LookupNextTaken(box, RecvSizeLines(s, Sizes(box)).0, last);
  }

  lemma RetrTaken(box: Mailbox, s: Pop, last: nat, stored: bool, drop: Drop, connected: bool)
    requires Accounted(box, s) && Taken(box, s, last) && Enabled(s, Message(stored, drop, connected))
    ensures Taken(box, RecvRetr(s, stored, drop, connected), last)
  {
    hide LookupNext;
    if stored && drop != DropError {
      var s' := Accept(s, drop);
      assert s.msg[s.cur].size == Size(box, s.cur);
      forall n ensures n in s'.dropped <==> n in s.dropped || n == s.cur {
      }
      AdvanceTaken(box, s', last);
    }
  }

  lemma {:induction false} RunTaken(box: Mailbox, s: Pop, last: nat, es: seq<Event>)
    requires ValidMailbox(box) && Accounted(box, s) && Taken(box, s, last) && IsPlainSession(box, s, es, last)
    ensures Taken(box, Run(s, es), last)
    decreases |es|
  {
    hide Step, Taken, Lists, Clean, KnowsLast, Enabled, ValidMailbox;
    if es != [] {
      StepAccounted(box, s, es[0]);
      StepTaken(box, s, last, es[0]);
      RunTaken(box, Step(s, es[0]), last, es[1..]);
    }
  }

  lemma StepTaken(box: Mailbox, s: Pop, last: nat, e: Event)
    requires ValidMailbox(box) && Accounted(box, s) && Taken(box, s, last)
    requires Enabled(s, e) && Lists(box, s, e) && Clean(s, e) && KnowsLast(s, e, last)
    ensures Taken(box, Step(s, e), last)
  {
    hide LookupNext, RecvSizeLines, RecvUidlLines;
    match e
    case Status(reply, body) => StatusTaken(box, s, last, reply, body);
    case UidlListing(lines, whole) =>
    case SizeListing(lines, whole) => ListTaken(box, s, last);
    case Message(stored, drop, connected) => RetrTaken(box, s, last, stored, drop, connected);
  }

  /**
   Against a server without UIDL every session without errors accepts exactly the messages
   after the last one seen, as LAST gives it, that are not empty and within the size limit,
   whatever the file of ids holds.
   */
  lemma LastDeliversTheRest(box: Mailbox, prefs: Prefs, now: int, table: map<string, int>, es: seq<Event>, last: nat)
    requires ValidMailbox(box) && IsPlainSession(box, Start(prefs, now, table), es, last)
    requires var r := Run(Start(prefs, now, table), es); !r.failed && r.phase in {Logout, Done}
    ensures forall n | ValidBoxIndex(box, n) ::
      n in Run(Start(prefs, now, table), es).dropped <==> n > last && Deliverable(box, prefs, n)
  {
    hide Step;
    RunTaken(box, Start(prefs, now, table), last, es);
    RunKeepsPrefs(Start(prefs, now, table), es);
  }

  /**
   Why UIDL has to be supported for at-most-once delivery: if LAST is unknown as well, all
   of them are accepted again, however often they have been accepted before.
   */
  lemma WithoutUidlDeliversAgain(box: Mailbox, prefs: Prefs, now: int, table: map<string, int>, es: seq<Event>)
    requires ValidMailbox(box) && IsPlainSession(box, Start(prefs, now, table), es, 0)
    requires var r := Run(Start(prefs, now, table), es); !r.failed && r.phase in {Logout, Done}
    ensures forall n | ValidBoxIndex(box, n) ::
      n in Run(Start(prefs, now, table), es).dropped <==> Deliverable(box, prefs, n)
  {
    hide Step;
    LastDeliversTheRest(box, prefs, now, table, es, 0);
  }

  lemma {:induction false} RunKeepsPrefs(s: Pop, es: seq<Event>)
    requires Shaped(s) && IsRun(s, es)
    ensures Run(s, es).prefs == s.prefs
    decreases |es|
  {
    hide Step;
    if es != [] {
      StepKeepsPrefs(s, es[0]);
      RunKeepsPrefs(Step(s, es[0]), es[1..]);
    }
  }

  lemma StatusKeepsPrefs(s: Pop, reply: Reply, body: seq<int>)
    requires Shaped(s) && Enabled(s, Status(reply, body))
    ensures RecvStatus(s, reply, body).prefs == s.prefs
  {
    hide LookupNext, Advance, Shaped;
    if s.phase == Delete {
      DeletePhase(s);
      AdvanceChanges(MarkDeleted(s));
    }
  }

  lemma StepKeepsPrefs(s: Pop, e: Event)
    requires Shaped(s) && Enabled(s, e)
    ensures Shaped(Step(s, e)) && Step(s, e).prefs == s.prefs
  {
    hide LookupNext, Advance, RecvSizeLines, RecvList, RecvUidlLines, RecvStatus;
    StepKeepsShape(s, e);
    match e
    case Status(reply, body) => StatusKeepsPrefs(s, reply, body);
    case UidlListing(lines, whole) => UidlLinesKeepShape(s, lines);
    case SizeListing(lines, whole) => ListChanges(s, lines, whole);
    case Message(stored, drop, connected) =>
      if stored && drop != DropError {
        AdvanceChanges(Accept(s, drop));
      }
  }
}
