/**
 The POP3 client as a state machine over server replies: which command follows which
 reply, the decision to retrieve, delete or skip each message, and the list of unique
 ids written after a session.  Replies are given parsed; authentication is over.
 */
module Pop3 {
  import opened Bytes

  const RECV_TIME_NONE: int := 0
  const RECV_TIME_RECEIVED: int := 1
  const RECV_TIME_KEEP: int := 2
  const RECV_TIME_DELETE: int := 3

  datatype Phase =
    | GetRangeStat | GetRangeUidl | GetRangeUidlRecv | GetRangeLast
    | GetSizeList | GetSizeListRecv | Retr | RetrRecv | Delete | Logout | Done | Aborted

  datatype Command = Uidl | Last | List | RetrCmd(n: int) | DeleCmd(n: int) | Quit

  datatype MsgInfo = MsgInfo(size: int, uidl: Option<string>, recvTime: int, received: bool, deleted: bool)

  const NO_MSG := MsgInfo(0, None, RECV_TIME_NONE, false, false)

  datatype Prefs = Prefs(getall: bool, rmmail: bool, leaveDays: int, limitOn: bool, limit: int)

  datatype Reply = Ok | ErrLocked | ErrTimeout | ErrOther | Garbage

  datatype UidlLine = UidlLine(num: int, id: string) | BadUidlLine

  datatype SizeLine = SizeLine(num: nat, size: nat) | BadSizeLine

  datatype Drop = DropOk | DropDontReceive | DropDelete | DropError

  /**
   What the session layer hands over: a status line with the numbers in its body, a
   finished listing (`whole` unless some line lacks its CR), or a finished message
   (was it written to disk, what the mail store answered, is the socket still there).
   */
  datatype Event =
    | Status(reply: Reply, body: seq<int>)
    | UidlListing(ids: seq<UidlLine>, whole: bool)
    | SizeListing(sizes: seq<SizeLine>, whole: bool)
    | Message(stored: bool, drop: Drop, connected: bool)

  /** A line of the file of unique ids; lines of the oldest format carry no time. */
  datatype Entry = Entry(id: string, time: Option<int>)

  /** The session; `sent` and `dropped` record the commands sent and the messages the store accepted. */
  datatype Pop = Pop(
    prefs: Prefs, now: int, table: map<string, int>,
    phase: Phase, failed: bool,
    count: int, cur: int, msg: seq<MsgInfo>, totalBytes: int,
    newMsg: bool, uidlValid: bool,
    sent: seq<Command>, dropped: seq<int>)

  /** Conversion to a 32-bit signed integer. */
  function Gint(x: int): int
  {
    var r := x % 0x1_0000_0000;
    if r >= 0x8000_0000 then r - 0x1_0000_0000 else r
  }

  function Lookup(table: map<string, int>, id: string): int
  {
    if id in table then Gint(table[id]) else RECV_TIME_NONE
  }

  function Start(prefs: Prefs, now: int, table: map<string, int>): Pop
  {
    Pop(prefs, now, table, GetRangeStat, false, 0, 0, [], 0, false, false, [], [])
  }

  function Send(s: Pop, phase: Phase, c: Command): Pop
  {
    s.(phase := phase, sent := s.sent + [c])
  }

  function Fail(s: Pop): Pop
  {
    s.(failed := true)
  }

  /** Which event can come next; after a failure or the end of the session none can. */
  predicate Enabled(s: Pop, e: Event)
  {
    && !s.failed
    && match e
       case Status(_, _) => s.phase in {GetRangeStat, GetRangeUidl, GetRangeLast, GetSizeList, Retr, Delete, Logout}
       case UidlListing(_, _) => s.phase == GetRangeUidlRecv
       case SizeListing(_, _) => s.phase == GetSizeListRecv
       case Message(_, _, _) => s.phase == RetrRecv
  }

  /** The phases in which the current message is looked at. */
  predicate Processing(phase: Phase)
  {
    phase in {GetSizeList, GetSizeListRecv, Retr, RetrRecv, Delete}
  }

  /** The message array matches the count, and the current message is in it while messages are processed. */
  predicate Shaped(s: Pop)
  {
    && (!s.failed ==> |s.msg| == if s.count > 0 then s.count + 1 else 0)
    && (s.phase in {GetRangeUidl, GetRangeUidlRecv, GetRangeLast} ==> 1 <= s.cur <= s.count)
    && (Processing(s.phase) ==> 1 <= s.cur <= s.count)
  }

  predicate Expired(s: Pop, m: MsgInfo)
  {
    || m.recvTime == RECV_TIME_DELETE
    || (s.prefs.rmmail && m.recvTime != RECV_TIME_NONE && m.recvTime != RECV_TIME_KEEP
        && s.now - m.recvTime >= s.prefs.leaveDays * 24 * 60 * 60)
  }

  predicate OverLimit(s: Pop, m: MsgInfo)
  {
    s.prefs.limitOn && s.prefs.limit > 0 && m.size > s.prefs.limit * 1024
  }

  predicate Skipped(s: Pop, m: MsgInfo)
  {
    m.size == 0 || m.received || OverLimit(s, m)
  }

  /** pop3_lookup_next: delete, skip or retrieve, starting at the current message. */
  function LookupNext(s: Pop): Pop
    requires |s.msg| == s.count + 1 && 1 <= s.cur <= s.count
    decreases s.count - s.cur
  {
    var m := s.msg[s.cur];
    if Expired(s, m) then
      Send(s.(totalBytes := s.totalBytes + m.size), Delete, DeleCmd(s.cur))
    else if Skipped(s, m) then
      var s' := s.(totalBytes := s.totalBytes + m.size);
      if s.cur == s.count then Send(s', Logout, Quit) else LookupNext(s'.(cur := s.cur + 1))
    else
      Send(s, Retr, RetrCmd(s.cur))
  }

  function Advance(s: Pop): Pop
    requires |s.msg| == s.count + 1 && 1 <= s.cur <= s.count
  {
    if s.cur == s.count then Send(s, Logout, Quit) else LookupNext(s.(cur := s.cur + 1))
  }

  function RecvStat(s: Pop, body: seq<int>): Pop
  {
    if |body| < 2 then
      Fail(if |body| == 0 then s else s.(count := body[0]))
    else if body[0] == 0 then
      Send(s.(count := 0, msg := [], uidlValid := true), Logout, Quit)
    else if body[0] > 0 then
      Send(s.(count := body[0], msg := seq(body[0] + 1, _ => NO_MSG), cur := 1), GetRangeUidl, Uidl)
    else
      Send(s.(count := body[0], msg := [], cur := 1), Logout, Quit)
  }

  function RecvLast(s: Pop, supported: bool, body: seq<int>): Pop
  {
    if supported && body == [] then Fail(s) else
      var s' := if !supported then s
                else if s.count > body[0] then s.(newMsg := true, cur := body[0] + 1)
                else s.(cur := 0);
      if s'.cur > 0 then Send(s', GetSizeList, List) else Send(s', Logout, Quit)
  }

  function RecvUidlLine(s: Pop, line: UidlLine): Pop
    requires s.count > 0 ==> |s.msg| == s.count + 1
  {
    if line.BadUidlLine? || line.num <= 0 || line.num > s.count then s else
      var time := Lookup(s.table, line.id);
      var m := s.msg[line.num];
      var m' := m.(uidl := Some(line.id), recvTime := time,
                   received := m.received || (!s.prefs.getall && time != RECV_TIME_NONE));
      var first := !s.newMsg && (s.prefs.getall || time == RECV_TIME_NONE || s.prefs.rmmail);
      s.(msg := s.msg[line.num := m'],
         cur := if first then line.num else s.cur,
         newMsg := s.newMsg || first)
  }

  function RecvUidlLines(s: Pop, lines: seq<UidlLine>): Pop
    requires s.count > 0 ==> |s.msg| == s.count + 1
    decreases |lines|
  {
    if lines == [] then s else RecvUidlLines(RecvUidlLine(s, lines[0]), lines[1..])
  }

  function RecvUidl(s: Pop, lines: seq<UidlLine>, whole: bool): Pop
    requires s.count > 0 ==> |s.msg| == s.count + 1
  {
    var s' := RecvUidlLines(s, lines);
    if !whole then Fail(s')
    else if s'.newMsg then Send(s'.(uidlValid := true), GetSizeList, List)
    else Send(s'.(uidlValid := true), Logout, Quit)
  }

  function RecvSizeLine(s: Pop, num: nat, size: nat): Pop
    requires s.count > 0 ==> |s.msg| == s.count + 1
  {
    s.(msg := if 0 < num <= s.count then s.msg[num := s.msg[num].(size := Gint(size))] else s.msg,
       totalBytes := if 0 < num < s.cur then s.totalBytes + size else s.totalBytes)
  }

  /** The whole listing, or None at the first line that is not two numbers. */
  function RecvSizeLines(s: Pop, lines: seq<SizeLine>): (Pop, bool)
    requires s.count > 0 ==> |s.msg| == s.count + 1
    decreases |lines|
  {
    if lines == [] then (s, true)
    else if lines[0].BadSizeLine? then (s, false)
    else RecvSizeLines(RecvSizeLine(s, lines[0].num, lines[0].size), lines[1..])
  }

  function RecvList(s: Pop, lines: seq<SizeLine>, whole: bool): Pop
    requires |s.msg| == s.count + 1 && 1 <= s.cur <= s.count
  {
    var (s', good) := RecvSizeLines(s, lines);
    SizeLinesKeepShape(s, lines);
    if good && whole then LookupNext(s') else Fail(s')
  }

  lemma {:induction false} SizeLinesKeepShape(s: Pop, lines: seq<SizeLine>)
    requires s.count > 0 ==> |s.msg| == s.count + 1
    ensures var s' := RecvSizeLines(s, lines).0;
      && s'.cur == s.cur && s'.count == s.count && |s'.msg| == |s.msg|
      && s' == s.(msg := s'.msg, totalBytes := s'.totalBytes)
      && forall n :: 0 <= n < |s.msg| ==> s'.msg[n] == s.msg[n].(size := s'.msg[n].size)
    decreases |lines|
  {
    if lines != [] && lines[0].SizeLine? {
      SizeLinesKeepShape(RecvSizeLine(s, lines[0].num, lines[0].size), lines[1..]);
    }
  }

  /** The mail store took the message (or said to keep or delete it): it counts as received. */
  function Accept(s: Pop, drop: Drop): Pop
    requires |s.msg| == s.count + 1 && 1 <= s.cur <= s.count
  {
    var time := match drop
      case DropDontReceive => RECV_TIME_KEEP
      case DropDelete => RECV_TIME_DELETE
      case _ => s.now;
    s.(totalBytes := s.totalBytes + s.msg[s.cur].size,
       msg := s.msg[s.cur := s.msg[s.cur].(received := true, recvTime := time)],
       dropped := s.dropped + [s.cur])
  }

  function RecvRetr(s: Pop, stored: bool, drop: Drop, connected: bool): Pop
    requires |s.msg| == s.count + 1 && 1 <= s.cur <= s.count
  {
    if !stored || drop == DropError then Fail(s) else
      var s' := Accept(s, drop);
      var time := s'.msg[s.cur].recvTime;
      if !connected then Fail(s')
      else if time == RECV_TIME_DELETE || (s.prefs.rmmail && s.prefs.leaveDays == 0 && time != RECV_TIME_KEEP)
      then Send(s', Delete, DeleCmd(s.cur))
      else Advance(s')
  }

  function MarkDeleted(s: Pop): Pop
    requires |s.msg| == s.count + 1 && 1 <= s.cur <= s.count
  {
    s.(msg := s.msg[s.cur := s.msg[s.cur].(recvTime := RECV_TIME_DELETE, deleted := true)])
  }

  /** pop3_session_recv_msg with pop3_ok: an error reply ends the session, except that UIDL and LAST may be unsupported. */
  function RecvStatus(s: Pop, reply: Reply, body: seq<int>): Pop
    requires Shaped(s) && Enabled(s, Status(reply, body))
  {
    var unsupported := reply == ErrOther && s.phase in {GetRangeLast, GetRangeUidl};
    if reply != Ok && !unsupported && s.phase != Logout then Send(s, Logout, Quit) else
      match s.phase
      case GetRangeStat => RecvStat(s, body)
      case GetRangeLast => RecvLast(s, !unsupported, body)
      case GetRangeUidl => if unsupported then Send(s, GetRangeLast, Last) else s.(phase := GetRangeUidlRecv)
      case GetSizeList => s.(phase := GetSizeListRecv)
      case Retr => s.(phase := RetrRecv)
      case Delete => Advance(MarkDeleted(s))
      case _ => s.(phase := if reply == Ok then Done else Aborted)
  }

  function Step(s: Pop, e: Event): Pop
    requires Shaped(s) && Enabled(s, e)
  {
    match e
    case Status(reply, body) => RecvStatus(s, reply, body)
    case UidlListing(lines, whole) => RecvUidl(s, lines, whole)
    case SizeListing(lines, whole) => RecvList(s, lines, whole)
    case Message(stored, drop, connected) => RecvRetr(s, stored, drop, connected)
  }

  /** What a session leaves in the file of unique ids, from message n on. */
  function EntriesFrom(s: Pop, n: nat): seq<Entry>
    requires s.count > 0 ==> |s.msg| == s.count + 1
    requires n >= 1
    decreases s.count + 1 - n
  {
    if n > s.count then [] else
      var m := s.msg[n];
      (if m.uidl == None || !m.received || (s.phase == Done && m.deleted) then []
       else [Entry(m.uidl.value, Some(m.recvTime))])
      + EntriesFrom(s, n + 1)
  }

  /** pop3_write_uidl_list: the file is left alone unless the whole listing came. */
  function NextFile(s: Pop, file: seq<Entry>): seq<Entry>
    requires s.uidlValid && s.count > 0 ==> |s.msg| == s.count + 1
  {
    if s.uidlValid then EntriesFrom(s, 1) else file
  }

  function EntryTime(e: Entry, now: int): int
  {
    var time := if e.time.Some? then e.time.value else now;
    if time == RECV_TIME_NONE then RECV_TIME_RECEIVED else time
  }

  /** pop3_get_uidl_table: later lines win. */
  function ReadTable(file: seq<Entry>, now: int): map<string, int>
  {
    if file == [] then map[] else
      var e := file[|file| - 1];
      ReadTable(file[..|file| - 1], now)[e.id := EntryTime(e, now)]
  }
}
