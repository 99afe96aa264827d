/**
 The POP3 session object of pop.c.  Each handler updates the session in place and is
 proved to take the step that Pop3 describes.
 */
module Pop3Client {
  import opened Bytes
  import opened Pop3

  class Pop3Session {
    const prefs: Prefs
    const currentTime: int
    const uidlTable: map<string, int>
    var state: Phase
    var failed: bool
    var count: int
    var curMsg: int
    var msg: seq<MsgInfo>
    var curTotalBytes: int
    var newMsgExist: bool
    var uidlIsValid: bool
    ghost var sent: seq<Command>
    ghost var dropped: seq<int>

    ghost function View(): Pop
      reads this
    {
      Pop(prefs, currentTime, uidlTable, state, failed, count, curMsg, msg, curTotalBytes,
          newMsgExist, uidlIsValid, sent, dropped)
    }

    constructor (prefs: Prefs, now: int, table: map<string, int>)
      ensures View() == Start(prefs, now, table)
    {
      this.prefs, currentTime, uidlTable := prefs, now, table;
      state, failed, count, curMsg, msg := GetRangeStat, false, 0, 0, [];
      curTotalBytes, newMsgExist, uidlIsValid := 0, false, false;
      sent, dropped := [], [];
    }

    method GenSend(phase: Phase, c: Command)
      modifies this
      ensures View() == Send(old(View()), phase, c)
    {
      state := phase;
      sent := sent + [c];
    }

    method LookupNextMsg()
      requires |msg| == count + 1 && 1 <= curMsg <= count
      modifies this
      ensures View() == LookupNext(old(View()))
    {
      while true
        invariant |msg| == count + 1 && 1 <= curMsg <= count
        invariant LookupNext(View()) == LookupNext(old(View()))
        decreases count - curMsg
      {
        var m := msg[curMsg];
        var over := prefs.limitOn && prefs.limit > 0 && m.size > prefs.limit * 1024;
        if m.recvTime == RECV_TIME_DELETE
           || (prefs.rmmail && m.recvTime != RECV_TIME_NONE && m.recvTime != RECV_TIME_KEEP
               && currentTime - m.recvTime >= prefs.leaveDays * 24 * 60 * 60) {
          curTotalBytes := curTotalBytes + m.size;
          GenSend(Delete, DeleCmd(curMsg));
          return;
        }
        if m.size == 0 || m.received || over {
          curTotalBytes := curTotalBytes + m.size;
          if curMsg == count {
            GenSend(Logout, Quit);
            return;
          }
          curMsg := curMsg + 1;
        } else {
          GenSend(Retr, RetrCmd(curMsg));
          return;
        }
      }
    }

    method StatRecv(body: seq<int>)
      requires Shaped(View()) && state == GetRangeStat
      modifies this
      ensures View() == RecvStat(old(View()), body)
    {
      if |body| > 0 {
        count := body[0];
      }
      if |body| < 2 {
        failed := true;
        return;
      }
      if count == 0 {
        uidlIsValid := true;
        msg := [];
      } else {
        msg := if count > 0 then seq(count + 1, _ => NO_MSG) else [];
        curMsg := 1;
      }
      if count > 0 {
        GenSend(GetRangeUidl, Uidl);
      } else {
        GenSend(Logout, Quit);
      }
    }

    method LastRecv(supported: bool, body: seq<int>)
      modifies this
      ensures View() == RecvLast(old(View()), supported, body)
    {
      if supported {
        if body == [] {
          failed := true;
          return;
        }
        if count > body[0] {
          newMsgExist := true;
          curMsg := body[0] + 1;
        } else {
          curMsg := 0;
        }
      }
      if curMsg > 0 {
        GenSend(GetSizeList, List);
      } else {
        GenSend(Logout, Quit);
      }
    }

    method UidlDataRecv(lines: seq<UidlLine>, whole: bool)
      requires count > 0 ==> |msg| == count + 1
      modifies this
      ensures View() == RecvUidl(old(View()), lines, whole)
    {
      var i := 0;
      while i < |lines|
        invariant 0 <= i <= |lines|
        invariant count > 0 ==> |msg| == count + 1
        invariant RecvUidlLines(View(), lines[i..]) == RecvUidlLines(old(View()), lines)
      {
        var line := lines[i];
        assert lines[i..][0] == line && lines[i..][1..] == lines[i + 1..];
        ghost var before := View();
        i := i + 1;
        if line.BadUidlLine? || line.num <= 0 || line.num > count {
          continue;
        }
        var num := line.num;
        var recvTime := if line.id in uidlTable then Gint(uidlTable[line.id]) else RECV_TIME_NONE;
        msg := msg[num := msg[num].(uidl := Some(line.id), recvTime := recvTime)];
        if !prefs.getall && recvTime != RECV_TIME_NONE {
          msg := msg[num := msg[num].(received := true)];
        }
        if !newMsgExist && (prefs.getall || recvTime == RECV_TIME_NONE || prefs.rmmail) {
          curMsg := num;
          newMsgExist := true;
        }
        assert msg == RecvUidlLine(before, line).msg;
      }
      if !whole {
        failed := true;
        return;
      }
      uidlIsValid := true;
      if newMsgExist {
        GenSend(GetSizeList, List);
      } else {
        GenSend(Logout, Quit);
      }
    }

    method ListDataRecv(lines: seq<SizeLine>, whole: bool)
      requires |msg| == count + 1 && 1 <= curMsg <= count
      modifies this
      ensures View() == RecvList(old(View()), lines, whole)
    {
      SizeLinesKeepShape(View(), lines);
      var i := 0;
      while i < |lines|
        invariant 0 <= i <= |lines|
        invariant |msg| == count + 1 && 1 <= curMsg <= count
        invariant RecvSizeLines(View(), lines[i..]) == RecvSizeLines(old(View()), lines)
      {
        assert lines[i..][0] == lines[i] && lines[i..][1..] == lines[i + 1..];
        if lines[i].BadSizeLine? {
          failed := true;
          return;
        }
        var num, size := lines[i].num, lines[i].size;
        if 0 < num <= count {
          msg := msg[num := msg[num].(size := Gint(size))];
        }
        if 0 < num < curMsg {
          curTotalBytes := curTotalBytes + size;
        }
        i := i + 1;
      }
      if !whole {
        failed := true;
        return;
      }
      LookupNextMsg();
    }

    method MsgDataRecv(stored: bool, drop: Drop, connected: bool)
      requires |msg| == count + 1 && 1 <= curMsg <= count
      modifies this
      ensures View() == RecvRetr(old(View()), stored, drop, connected)
    {
      if !stored || drop == DropError {
        failed := true;
        return;
      }
      curTotalBytes := curTotalBytes + msg[curMsg].size;
      var time := currentTime;
      match drop {
        case DropDontReceive => time := RECV_TIME_KEEP;
        case DropDelete => time := RECV_TIME_DELETE;
        case _ =>
      }
      msg := msg[curMsg := msg[curMsg].(received := true, recvTime := time)];
      dropped := dropped + [curMsg];
      if !connected {
        failed := true;
        return;
      }
      if msg[curMsg].recvTime == RECV_TIME_DELETE
         || (prefs.rmmail && prefs.leaveDays == 0 && msg[curMsg].recvTime != RECV_TIME_KEEP) {
        GenSend(Delete, DeleCmd(curMsg));
      } else {
        NextMessage();
      }
    }

    method NextMessage()
      requires |msg| == count + 1 && 1 <= curMsg <= count
      modifies this
      ensures View() == Advance(old(View()))
    {
      if curMsg == count {
        GenSend(Logout, Quit);
      } else {
        curMsg := curMsg + 1;
        LookupNextMsg();
      }
    }

    method DeleteRecv()
      requires |msg| == count + 1 && 1 <= curMsg <= count
      modifies this
      ensures View() == Advance(MarkDeleted(old(View())))
    {
      msg := msg[curMsg := msg[curMsg].(recvTime := RECV_TIME_DELETE, deleted := true)];
      NextMessage();
    }

    /** pop3_session_recv_msg */
    method RecvMsg(reply: Reply, body: seq<int>)
      requires Shaped(View()) && Enabled(View(), Status(reply, body))
      modifies this
      ensures View() == Step(old(View()), Status(reply, body))
    {
      var unsupported := reply == ErrOther && (state == GetRangeLast || state == GetRangeUidl);
      if reply != Ok && !unsupported && state != Logout {
        GenSend(Logout, Quit);
        return;
      }
      match state {
        case GetRangeStat => StatRecv(body);
        case GetRangeLast => LastRecv(!unsupported, body);
        case GetRangeUidl =>
          if unsupported {
            GenSend(GetRangeLast, Last);
          } else {
            state := GetRangeUidlRecv;
          }
        case GetSizeList => state := GetSizeListRecv;
        case Retr => state := RetrRecv;
        case Delete => DeleteRecv();
        case Logout => state := if reply == Ok then Done else Aborted;
      }
    }

    /** pop3_session_recv_data_finished and pop3_session_recv_data_as_file_finished */
    method RecvData(e: Event)
      requires Shaped(View()) && Enabled(View(), e) && !e.Status?
      modifies this
      ensures View() == Step(old(View()), e)
    {
      match e {
        case UidlListing(lines, whole) => UidlDataRecv(lines, whole);
        case SizeListing(lines, whole) => ListDataRecv(lines, whole);
        case Message(stored, drop, connected) => MsgDataRecv(stored, drop, connected);
      }
    }

    /** pop3_write_uidl_list */
    method WriteUidlList(file: seq<Entry>) returns (written: seq<Entry>)
      requires uidlIsValid && count > 0 ==> |msg| == count + 1
      ensures written == NextFile(View(), file)
    {
      if !uidlIsValid {
        return file;
      }
      hide EntriesFrom;
      written := [];
      var n := 1;
      ghost var v := View();
      while n <= count
        invariant 1 <= n && (count >= 0 ==> n <= count + 1)
        invariant written + EntriesFrom(v, n) == EntriesFrom(v, 1)
      {
        EntriesStep(v, n, written);
        var m := msg[n];
        if m.uidl.Some? && m.received && !(state == Done && m.deleted) {
          written := written + [Entry(m.uidl.value, Some(m.recvTime))];
        }
        n := n + 1;
      }
      NoEntries(v, n);
    }
  }

  lemma EntriesStep(v: Pop, n: nat, written: seq<Entry>)
    requires v.count > 0 ==> |v.msg| == v.count + 1
    requires 1 <= n <= v.count
    ensures var m := v.msg[n];
      written + EntriesFrom(v, n)
      == (if m.uidl == None || !m.received || (v.phase == Done && m.deleted) then written
          else written + [Entry(m.uidl.value, Some(m.recvTime))]) + EntriesFrom(v, n + 1)
  {
  }

  lemma NoEntries(v: Pop, n: nat)
    requires v.count > 0 ==> |v.msg| == v.count + 1
    requires 1 <= n && n > v.count
    ensures EntriesFrom(v, n) == []
  {
  }

  /** pop3_get_uidl_table */
  method GetUidlTable(file: seq<Entry>, now: int) returns (table: map<string, int>)
    ensures table == ReadTable(file, now)
  {
    table := map[];
    var i := 0;
    while i < |file|
      invariant 0 <= i <= |file|
      invariant table == ReadTable(file[..i], now)
    {
      var recvTime := if file[i].time.Some? then file[i].time.value else now;
      if recvTime == RECV_TIME_NONE {
        recvTime := RECV_TIME_RECEIVED;
      }
      table := table[file[i].id := recvTime];
      assert file[..i + 1][..i] == file[..i];
      i := i + 1;
    }
    assert file[..i] == file;
  }
}
