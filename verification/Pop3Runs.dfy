/** What holds over every run of the POP3 client, whatever the server answers. */
module Pop3Runs {
  import opened Bytes
  import opened Pop3

  /** The events can follow one another from this state. */
  ghost predicate IsRun(s: Pop, es: seq<Event>)
    requires Shaped(s)
    decreases |es|
  {
    es == [] || (Enabled(s, es[0]) && (StepKeepsShape(s, es[0]); IsRun(Step(s, es[0]), es[1..])))
  }

  ghost function Run(s: Pop, es: seq<Event>): (r: Pop)
    requires Shaped(s) && IsRun(s, es)
    ensures Shaped(r)
    decreases |es|
  {
    if es == [] then s else StepKeepsShape(s, es[0]); Run(Step(s, es[0]), es[1..])
  }

  function SumSizes(msg: seq<MsgInfo>, lo: nat, hi: nat): int
    requires lo <= hi <= |msg|
    decreases hi - lo
  {
    if lo == hi then 0 else msg[lo].size + SumSizes(msg, lo + 1, hi)
  }

  /** Where pop3_lookup_next stops: every message passed over was to be skipped, the one reached was not. */
  ghost predicate StopsAt(s: Pop, r: Pop)
    requires |s.msg| == s.count + 1 && 1 <= s.cur <= s.count
  {
    && s.cur <= r.cur <= s.count
    && r == s.(phase := r.phase, cur := r.cur, totalBytes := r.totalBytes, sent := r.sent)
    && (forall n :: s.cur <= n < r.cur ==> Skipped(s, s.msg[n]) && !Expired(s, s.msg[n]))
    && var m := s.msg[r.cur];
       || (r.phase == Delete && Expired(s, m) && r.sent == s.sent + [DeleCmd(r.cur)])
       || (r.phase == Retr && !Expired(s, m) && !Skipped(s, m) && r.sent == s.sent + [RetrCmd(r.cur)])
       || (r.phase == Logout && r.cur == s.count && !Expired(s, m) && Skipped(s, m) && r.sent == s.sent + [Quit])
  }

  lemma {:induction false} LookupNextStops(s: Pop)
    requires |s.msg| == s.count + 1 && 1 <= s.cur <= s.count
    ensures StopsAt(s, LookupNext(s))
    decreases s.count - s.cur
  {
    var m := s.msg[s.cur];
    if !Expired(s, m) && Skipped(s, m) && s.cur < s.count {
      LookupNextStops(s.(totalBytes := s.totalBytes + m.size, cur := s.cur + 1));
    }
  }

  /** The sizes of all messages passed over, and of one to be deleted, go into the total. */
  lemma {:induction false} LookupNextAccounts(s: Pop)
    requires |s.msg| == s.count + 1 && 1 <= s.cur <= s.count
    ensures var r := LookupNext(s);
      && s.cur <= r.cur <= s.count
      && r.totalBytes == s.totalBytes + SumSizes(s.msg, s.cur, if r.phase == Retr then r.cur else r.cur + 1)
    decreases s.count - s.cur
  {
    var m := s.msg[s.cur];
    if !Expired(s, m) && Skipped(s, m) && s.cur < s.count {
      LookupNextAccounts(s.(totalBytes := s.totalBytes + m.size, cur := s.cur + 1));
    }
  }

  lemma {:induction false} UidlLinesKeepShape(s: Pop, lines: seq<UidlLine>)
    requires s.count > 0 ==> |s.msg| == s.count + 1
    ensures var r := RecvUidlLines(s, lines);
      && r == s.(msg := r.msg, cur := r.cur, newMsg := r.newMsg)
      && |r.msg| == |s.msg|
      && (r.cur == s.cur || 1 <= r.cur <= s.count)
    decreases |lines|
  {
    if lines != [] {
      UidlLinesKeepShape(RecvUidlLine(s, lines[0]), lines[1..]);
    }
  }

  lemma AdvanceKeepsShape(s: Pop)
    requires |s.msg| == s.count + 1 && 1 <= s.cur <= s.count
    ensures Shaped(Advance(s))
  {
    if s.cur < s.count {
      LookupNextStops(s.(cur := s.cur + 1));
    }
  }

  lemma StatusKeepsShape(s: Pop, reply: Reply, body: seq<int>)
    requires Shaped(s) && Enabled(s, Status(reply, body))
    ensures Shaped(RecvStatus(s, reply, body))
  {
    if s.phase == Delete && reply == Ok {
      AdvanceKeepsShape(MarkDeleted(s));
    }
  }

  lemma StepKeepsShape(s: Pop, e: Event)
    requires Shaped(s) && Enabled(s, e)
    ensures Shaped(Step(s, e))
  {
    match e
    case Status(reply, body) =>
      StatusKeepsShape(s, reply, body);
    case UidlListing(lines, whole) =>
      UidlLinesKeepShape(s, lines);
    case SizeListing(lines, whole) =>
      SizeLinesKeepShape(s, lines);
      if RecvSizeLines(s, lines).1 && whole {
        LookupNextStops(RecvSizeLines(s, lines).0);
      }
    case Message(stored, drop, connected) =>
      if stored && drop != DropError {
        AdvanceKeepsShape(Accept(s, drop));
      }
  }

  /** Every error reply is answered with QUIT, but for an unknown UIDL or LAST; and the end of the session by nothing. */
  lemma ErrorsQuit(s: Pop, reply: Reply, body: seq<int>)
    requires Shaped(s) && Enabled(s, Status(reply, body)) && reply != Ok
    ensures var r := Step(s, Status(reply, body));
      if s.phase == Logout then r == s.(phase := Aborted)
      else if reply == ErrOther && s.phase == GetRangeUidl then r == s.(phase := GetRangeLast, sent := s.sent + [Last])
      else if reply == ErrOther && s.phase == GetRangeLast then r.phase in {GetSizeList, Logout} && r.cur == s.cur
      else r == s.(phase := Logout, sent := s.sent + [Quit])
  {
  }

  /** The server's UIDL reply named this message with an id that the id file holds. */
  predicate Recorded(s: Pop, n: int)
  {
    0 <= n < |s.msg| && s.msg[n].uidl.Some? && Lookup(s.table, s.msg[n].uidl.value) != RECV_TIME_NONE
  }

  /** Commands about messages in the only order they may be sent: RETR 1, DELE 1, RETR 2, ... */
  function Rank(c: Command): int
  {
    match c
    case RetrCmd(n) => 2 * n
    case DeleCmd(n) => 2 * n + 1
    case _ => 0
  }

  /** Each command about a message comes after everything it ranks above; so none is sent twice. */
  ghost predicate Ordered(sent: seq<Command>)
  {
    forall i, j :: 0 <= i < j < |sent| && (sent[j].RetrCmd? || sent[j].DeleCmd?) ==> Rank(sent[i]) < Rank(sent[j])
  }

  ghost predicate RankedTo(sent: seq<Command>, k: int)
  {
    forall i :: 0 <= i < |sent| ==> 0 <= Rank(sent[i]) <= k
  }

  ghost predicate Increasing(ns: seq<int>)
  {
    forall i, j :: 0 <= i < j < |ns| ==> ns[i] < ns[j]
  }

  ghost predicate UpTo(ns: seq<int>, k: int)
  {
    forall i :: 0 <= i < |ns| ==> 1 <= ns[i] <= k
  }

  /** How far the commands and the accepted messages have got, phase by phase. */
  ghost predicate Progress(s: Pop)
  {
    match s.phase
    case Retr => RankedTo(s.sent, 2 * s.cur) && UpTo(s.dropped, s.cur - 1)
    case RetrRecv => RankedTo(s.sent, 2 * s.cur) && UpTo(s.dropped, if s.failed then s.cur else s.cur - 1)
    case Delete => RankedTo(s.sent, 2 * s.cur + 1) && UpTo(s.dropped, s.cur)
    case Logout => UpTo(s.dropped, s.count)
    case Done => UpTo(s.dropped, s.count)
    case Aborted => UpTo(s.dropped, s.count)
    case _ => RankedTo(s.sent, 0) && s.dropped == []
  }

  /** Why a message may be deleted: it was accepted in this session, or its id was on file. */
  ghost predicate Cause(s: Pop, n: int)
  {
    n in s.dropped || Recorded(s, n)
  }

  ghost predicate Justified(s: Pop)
  {
    && (forall i :: 0 <= i < |s.sent| && s.sent[i].DeleCmd? ==> Cause(s, s.sent[i].n))
    && (forall n :: 0 <= n < |s.msg| && s.msg[n].recvTime != RECV_TIME_NONE ==> Cause(s, n))
    && (s.phase == Delete ==> Cause(s, s.cur))
  }

  /** The safety invariant of a session. */
  ghost predicate Safe(s: Pop)
  {
    Shaped(s) && Ordered(s.sent) && Increasing(s.dropped) && Progress(s) && Justified(s)
  }

  /** Everything before the current message is settled. */
  ghost predicate Settled(s: Pop)
  {
    && |s.msg| == s.count + 1 && 1 <= s.cur <= s.count && !s.failed
    && Ordered(s.sent) && Increasing(s.dropped)
    && RankedTo(s.sent, 2 * s.cur - 1) && UpTo(s.dropped, s.cur - 1)
    && Justified(s.(phase := Logout))
  }

  lemma LookupNextSafe(s: Pop)
    requires Settled(s)
    ensures Safe(LookupNext(s))
  {
    LookupNextStops(s);
    var r := LookupNext(s);
    assert Ordered(r.sent);
    if r.phase == Delete {
      assert s.msg[r.cur].recvTime != RECV_TIME_NONE;
      assert Cause(s, r.cur);
    }
    JustifiedGrows(s, r);
  }

  lemma JustifiedGrows(s: Pop, r: Pop)
    requires s.msg == r.msg && s.dropped == r.dropped && s.table == r.table
    requires |r.sent| == |s.sent| + 1 && r.sent[..|s.sent|] == s.sent
    requires Justified(s.(phase := Logout))
    requires var c := r.sent[|s.sent|]; c.DeleCmd? ==> Cause(s, c.n)
    ensures Justified(r.(phase := Logout))
    ensures forall n :: Cause(r, n) == Cause(s, n)
  {
    forall n ensures Cause(r, n) == Cause(s, n) {
    }
    forall i | 0 <= i < |r.sent| && r.sent[i].DeleCmd? ensures Cause(r, r.sent[i].n) {
      if i < |s.sent| {
        assert r.sent[i] == s.sent[i];
      }
    }
  }

  lemma AdvanceSafe(s: Pop)
    requires |s.msg| == s.count + 1 && 1 <= s.cur <= s.count && !s.failed
    requires Ordered(s.sent) && Increasing(s.dropped)
    requires RankedTo(s.sent, 2 * s.cur + 1) && UpTo(s.dropped, s.cur)
    requires Justified(s.(phase := Logout))
    ensures Safe(Advance(s))
  {
    if s.cur == s.count {
      JustifiedGrows(s, Advance(s));
    } else {
      assert Justified(s.(cur := s.cur + 1, phase := Logout));
      LookupNextSafe(s.(cur := s.cur + 1));
    }
  }

  /** A command that is not about a message changes nothing that matters. */
  lemma SendSafe(s: Pop, phase: Phase, c: Command)
    requires Ordered(s.sent) && Justified(s.(phase := Logout))
    requires !c.RetrCmd? && !c.DeleCmd?
    ensures Ordered(Send(s, phase, c).sent) && Justified(Send(s, phase, c).(phase := Logout))
    ensures RankedTo(s.sent, 0) ==> RankedTo(Send(s, phase, c).sent, 0)
  {
    JustifiedGrows(s, Send(s, phase, c));
  }

  lemma StatSafe(s: Pop, body: seq<int>)
    requires Safe(s) && s.phase == GetRangeStat && !s.failed
    ensures Safe(RecvStat(s, body))
  {
    hide Ordered, Increasing;
    var r := RecvStat(s, body);
    if |body| >= 2 {
      SendSafe(s.(count := r.count, msg := r.msg, cur := r.cur, uidlValid := r.uidlValid), r.phase, if body[0] > 0 then Uidl else Quit);
    }
  }

  lemma LastSafe(s: Pop, supported: bool, body: seq<int>)
    requires Safe(s) && s.phase == GetRangeLast && !s.failed
    ensures Safe(RecvLast(s, supported, body))
  {
    if !supported || body != [] {
      var r := RecvLast(s, supported, body);
      SendSafe(s.(newMsg := r.newMsg, cur := r.cur), r.phase, if r.cur > 0 then List else Quit);
    }
  }

  lemma StatusSafe(s: Pop, reply: Reply, body: seq<int>)
    requires Safe(s) && Enabled(s, Status(reply, body))
    ensures Safe(RecvStatus(s, reply, body))
  {
    hide RecvStat, RecvLast, Advance, Ordered, RankedTo, Increasing, UpTo, Justified;
    var unsupported := reply == ErrOther && s.phase in {GetRangeLast, GetRangeUidl};
    if reply != Ok && !unsupported {
      if s.phase == Logout {
        PhaseSafe(s, Aborted);
      } else {
        QuitSafe(s);
      }
    } else {
      match s.phase
      case GetRangeStat => StatSafe(s, body);
      case GetRangeLast => LastSafe(s, !unsupported, body);
      case GetRangeUidl =>
        if unsupported {
          JustifiedInPhase(s, Logout);
          SendSafe(s, GetRangeLast, Last);
          JustifiedInPhase(Send(s, GetRangeLast, Last).(phase := Logout), GetRangeLast);
        } else {
          PhaseSafe(s, GetRangeUidlRecv);
        }
      case Delete =>
        MarkDeletedJustified(s);
        AdvanceSafe(MarkDeleted(s));
      case GetSizeList => PhaseSafe(s, GetSizeListRecv);
      case Retr => PhaseSafe(s, RetrRecv);
      case _ => PhaseSafe(s, Done);
    }
  }

  /** Only the phase changes. */
  lemma PhaseSafe(s: Pop, phase: Phase)
    requires Safe(s) && !s.failed
    requires match s.phase
             case GetRangeUidl => phase == GetRangeUidlRecv
             case GetSizeList => phase == GetSizeListRecv
             case Retr => phase == RetrRecv
             case Logout => phase == Done || phase == Aborted
             case _ => false
    ensures Safe(s.(phase := phase))
  {
    hide Ordered, RankedTo, Increasing, UpTo, Justified;
    JustifiedInPhase(s, phase);
  }

  lemma JustifiedInPhase(s: Pop, phase: Phase)
    requires Justified(s) && phase != Delete
    ensures Justified(s.(phase := phase))
  {
    var r := s.(phase := phase);
    forall n ensures Cause(r, n) == Cause(s, n) {
    }
  }

  /** A session that is broken off. */
  lemma QuitSafe(s: Pop)
    requires Safe(s) && !s.failed
    ensures Safe(Send(s, Logout, Quit))
  {
    JustifiedInPhase(s, Logout);
    SendSafe(s, Logout, Quit);
    hide Ordered, RankedTo, Increasing, Justified;
  }

  lemma MarkDeletedJustified(s: Pop)
    requires Safe(s) && s.phase == Delete && !s.failed
    ensures Justified(MarkDeleted(s).(phase := Logout))
  {
    var r := MarkDeleted(s);
    forall n ensures Cause(r, n) == Cause(s, n) {
    }
  }

  ghost predicate TimesRecorded(s: Pop)
  {
    forall n :: 0 <= n < |s.msg| && s.msg[n].recvTime != RECV_TIME_NONE ==> Recorded(s, n)
  }

  /** A UIDL line records a time only together with the id it was found under. */
  lemma {:induction false} UidlLinesRecorded(s: Pop, lines: seq<UidlLine>)
    requires s.count > 0 ==> |s.msg| == s.count + 1
    requires TimesRecorded(s)
    ensures TimesRecorded(RecvUidlLines(s, lines))
    decreases |lines|
  {
    if lines != [] {
      var s' := RecvUidlLine(s, lines[0]);
      forall n | 0 <= n < |s'.msg| && s'.msg[n].recvTime != RECV_TIME_NONE
        ensures Recorded(s', n)
      {
        if s'.msg[n] == s.msg[n] {
          assert Recorded(s, n);
        }
      }
      UidlLinesRecorded(s', lines[1..]);
    }
  }

  lemma UidlSafe(s: Pop, lines: seq<UidlLine>, whole: bool)
    requires Safe(s) && Enabled(s, UidlListing(lines, whole))
    ensures Safe(RecvUidl(s, lines, whole))
  {
    UidlLinesKeepShape(s, lines);
    UidlLinesRecorded(s, lines);
    var s' := RecvUidlLines(s, lines);
    if whole {
      SendSafe(s'.(uidlValid := true), if s'.newMsg then GetSizeList else Logout, if s'.newMsg then List else Quit);
    }
  }

  lemma ListSafe(s: Pop, lines: seq<SizeLine>, whole: bool)
    requires Safe(s) && Enabled(s, SizeListing(lines, whole))
    ensures Safe(RecvList(s, lines, whole))
  {
    SizeLinesKeepShape(s, lines);
    var (s', good) := RecvSizeLines(s, lines);
    SizesKeepJustified(s, s');
    if good && whole {
      LookupNextSafe(s');
    }
  }

  lemma SizesKeepJustified(s: Pop, r: Pop)
    requires Justified(s) && s.phase == GetSizeListRecv
    requires |r.msg| == |s.msg| && r == s.(msg := r.msg, totalBytes := r.totalBytes)
    requires forall n :: 0 <= n < |s.msg| ==> r.msg[n] == s.msg[n].(size := r.msg[n].size)
    ensures Justified(r)
  {
    forall n ensures Cause(r, n) == Cause(s, n) {
    }
  }

  lemma RetrSafe(s: Pop, stored: bool, drop: Drop, connected: bool)
    requires Safe(s) && Enabled(s, Message(stored, drop, connected))
    ensures Safe(RecvRetr(s, stored, drop, connected))
  {
    if stored && drop != DropError {
      var s' := Accept(s, drop);
      AcceptJustified(s, drop);
      if connected {
        AdvanceSafe(s');
        DeleteAcceptedSafe(s');
      }
    }
  }

  lemma DeleteAcceptedSafe(s: Pop)
    requires Shaped(s) && s.phase == RetrRecv && !s.failed
    requires Ordered(s.sent) && Increasing(s.dropped) && RankedTo(s.sent, 2 * s.cur) && UpTo(s.dropped, s.cur)
    requires Justified(s) && Cause(s, s.cur)
    ensures Safe(Send(s, Delete, DeleCmd(s.cur)))
  {
    JustifiedGrows(s, Send(s, Delete, DeleCmd(s.cur)));
  }

  lemma AcceptJustified(s: Pop, drop: Drop)
    requires Safe(s) && s.phase == RetrRecv && !s.failed
    ensures Justified(Accept(s, drop)) && Justified(Accept(s, drop).(phase := Logout))
    ensures Cause(Accept(s, drop), s.cur)
  {
    var r := Accept(s, drop);
    forall n ensures Cause(s, n) || n == s.cur ==> Cause(r, n) {
    }
  }

  lemma StepSafe(s: Pop, e: Event)
    requires Safe(s) && Enabled(s, e)
    ensures Safe(Step(s, e))
  {
    match e
    case Status(reply, body) => StatusSafe(s, reply, body);
    case UidlListing(lines, whole) => UidlSafe(s, lines, whole);
    case SizeListing(lines, whole) => ListSafe(s, lines, whole);
    case Message(stored, drop, connected) => RetrSafe(s, stored, drop, connected);
  }

  lemma {:induction false} RunSafe(s: Pop, es: seq<Event>)
    requires Safe(s) && IsRun(s, es)
    ensures Safe(Run(s, es))
    decreases |es|
  {
    if es != [] {
      StepSafe(s, es[0]);
      RunSafe(Step(s, es[0]), es[1..]);
    }
  }

  /**
   Safety of a whole session, whatever the server answers: at most one RETR and one DELE
   for each message, DELE only for a message accepted in this session or already on
   file, no message accepted twice, and every number within the count.
   */
  lemma SessionSafety(prefs: Prefs, now: int, table: map<string, int>, es: seq<Event>)
    requires IsRun(Start(prefs, now, table), es)
    ensures var r := Run(Start(prefs, now, table), es);
      && (forall i, j :: 0 <= i < j < |r.sent| && r.sent[i] == r.sent[j] ==> !r.sent[i].RetrCmd? && !r.sent[i].DeleCmd?)
      && (forall n :: DeleCmd(n) in r.sent ==> n in r.dropped || Recorded(r, n))
      && (forall i, j :: 0 <= i < j < |r.dropped| ==> r.dropped[i] != r.dropped[j])
      && (forall n :: n in r.dropped ==> 1 <= n <= r.count)
      && (Processing(r.phase) ==> 1 <= r.cur <= r.count)
  {
    var s := Start(prefs, now, table);
    assert Safe(s);
    RunSafe(s, es);
    var r := Run(s, es);
    forall n | DeleCmd(n) in r.sent ensures Cause(r, n) {
      var i :| 0 <= i < |r.sent| && r.sent[i] == DeleCmd(n);
    }
  }

  /** An upper bound on the events still to come. */
  function Fuel(s: Pop): int
  {
    if s.failed then 0 else
      var n := if s.count > 0 then s.count else 0;
      match s.phase
      case GetRangeStat => 0
      case GetRangeUidl => 3 * n + 7
      case GetRangeUidlRecv => 3 * n + 6
      case GetRangeLast => 3 * n + 6
      case GetSizeList => 3 * n + 5
      case GetSizeListRecv => 3 * n + 4
      case Retr => 3 * (n - s.cur) + 4
      case RetrRecv => 3 * (n - s.cur) + 3
      case Delete => 3 * (n - s.cur) + 2
      case Logout => 1
      case _ => 0
  }

  lemma AdvanceMovesOn(s: Pop)
    requires |s.msg| == s.count + 1 && 1 <= s.cur <= s.count && !s.failed
    ensures var r := Advance(s);
      && 0 <= Fuel(r) <= 3 * (s.count - s.cur) + 1
      && s.cur <= r.cur <= s.count && r.count == s.count && r.phase in {Retr, Delete, Logout}
      && r.table == s.table
  {
    if s.cur < s.count {
      LookupNextStops(s.(cur := s.cur + 1));
    }
  }

  lemma StatusBurnsFuel(s: Pop, reply: Reply, body: seq<int>)
    requires Shaped(s) && Enabled(s, Status(reply, body)) && s.phase != GetRangeStat
    ensures var r := RecvStatus(s, reply, body);
      0 <= Fuel(r) < Fuel(s) && r.count == s.count && r.phase != GetRangeStat
  {
    if s.phase == Delete {
      AdvanceMovesOn(MarkDeleted(s));
    }
  }

  lemma StepBurnsFuel(s: Pop, e: Event)
    requires Shaped(s) && Enabled(s, e) && s.phase != GetRangeStat
    ensures 0 <= Fuel(Step(s, e)) < Fuel(s)
    ensures Step(s, e).count == s.count && Step(s, e).phase != GetRangeStat
  {
    hide RecvStatus, LookupNext, RecvSizeLines, RecvUidlLines;
    match e
    case Status(reply, body) =>
      StatusBurnsFuel(s, reply, body);
    case UidlListing(lines, whole) =>
      UidlLinesKeepShape(s, lines);
    case SizeListing(lines, whole) =>
      SizeLinesKeepShape(s, lines);
      if RecvSizeLines(s, lines).1 && whole {
        LookupNextStops(RecvSizeLines(s, lines).0);
      }
    case Message(stored, drop, connected) =>
      if stored && drop != DropError {
        AdvanceMovesOn(Accept(s, drop));
      }
  }

  /** While messages are processed the current message never goes back. */
  lemma CurrentNeverDecreases(s: Pop, e: Event)
    requires Shaped(s) && Enabled(s, e) && Processing(s.phase)
    ensures s.cur <= Step(s, e).cur <= s.count && Step(s, e).count == s.count
  {
    match e
    case Status(reply, body) =>
      if s.phase == Delete {
        AdvanceMovesOn(MarkDeleted(s));
      }
    case SizeListing(lines, whole) =>
      SizeLinesKeepShape(s, lines);
      if RecvSizeLines(s, lines).1 && whole {
        LookupNextStops(RecvSizeLines(s, lines).0);
      }
    case Message(stored, drop, connected) =>
      if stored && drop != DropError {
        AdvanceMovesOn(Accept(s, drop));
      }
    case _ =>
  }

  lemma {:induction false} RunBurnsFuel(s: Pop, es: seq<Event>)
    requires Shaped(s) && IsRun(s, es) && s.phase != GetRangeStat
    ensures |es| <= Fuel(s)
    ensures Run(s, es).count == s.count
    decreases |es|
  {
    if es != [] {
      StepBurnsFuel(s, es[0]);
      StepKeepsShape(s, es[0]);
      RunBurnsFuel(Step(s, es[0]), es[1..]);
    } else {
      assert Fuel(s) >= 0;
    }
  }

  /** Every session ends: at most three replies for each message and eight besides. */
  lemma SessionTerminates(prefs: Prefs, now: int, table: map<string, int>, es: seq<Event>)
    requires IsRun(Start(prefs, now, table), es)
    ensures var n := Run(Start(prefs, now, table), es).count;
      |es| <= 8 + if n > 0 then 3 * n else 0
  {
    var s := Start(prefs, now, table);
    if es != [] {
      StepKeepsShape(s, es[0]);
      var s' := Step(s, es[0]);
      if s'.phase == GetRangeStat {
        assert s'.failed;
        assert es[1..] == [];
      } else {
        RunBurnsFuel(s', es[1..]);
      }
    }
  }
}
