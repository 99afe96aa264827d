/**
 The byte-stream session: a line reader, an in-memory data reader and a windowed
 data reader that spills to a file, all on one 8192-byte receive buffer, and the
 two resumable writers.  Sockets and files are parameters of each callback: what a
 read returned, how much a write accepted, whether the disk took the data.
 */
module Session {
  import opened Bytes

  const SESSION_BUFFSIZE: nat := 8192
  const PREREAD_SIZE: nat := 8
  const WRITE_DATA_BUFFSIZE: nat := 8192

  datatype State = Ready | Send | Recv | Eof | Error

  /** The outcome of one sock_read. */
  datatype Read = Data(bytes: seq<byte>) | Closed | Again | Failed

  /** The outcome of one sock_write. */
  datatype Write = Accepted(n: nat) | WouldBlock | Broken

  /** The end-of-data test, on the whole stream: it is the terminator, or the terminator on a line of its own. */
  predicate Terminated(stream: seq<byte>, terminator: seq<byte>)
  {
    stream == terminator || EndsWith(stream, CRLF + terminator)
  }

  /** The in-memory reader also stops when the stream merely starts with the terminator. */
  predicate TerminatedInMemory(stream: seq<byte>, terminator: seq<byte>)
  {
    terminator <= stream || EndsWith(stream, CRLF + terminator)
  }

  /** The stream becomes terminated at its last byte and at no byte before it. */
  ghost predicate TerminatedOnlyAtEnd(stream: seq<byte>, terminator: seq<byte>)
  {
    && Terminated(stream, terminator)
    && forall k :: 0 < k < |stream| ==> !Terminated(stream[..k], terminator)
  }

  /** strretchomp: the text without its trailing CR and LF bytes. */
  function Retchomp(s: seq<byte>): (r: seq<byte>)
    ensures r <= s
    ensures r == [] || (r[|r| - 1] != CR && r[|r| - 1] != LF)
    ensures forall i :: |r| <= i < |s| ==> s[i] == CR || s[i] == LF
  {
    if s == [] || (s[|s| - 1] != CR && s[|s| - 1] != LF) then s else Retchomp(s[..|s| - 1])
  }

  class Session {
    const readBuf: array<byte>
    var state: State
    var readBufP: nat
    var readBufLen: nat
    var readMsgBuf: seq<byte>
    var readDataBuf: seq<byte>
    var readDataTerminator: seq<byte>
    var readDataFile: Option<seq<byte>>
    var readDataPos: nat
    var prereadLen: nat
    var writeBuf: Option<seq<byte>>
    var writeBufP: nat
    var writeDataFile: Option<seq<byte>>
    var writeDataPos: nat
    var writeDataOffset: nat  // the stdio position of writeDataFile

    constructor ()
      ensures Idle() && readBufLen == 0 && readMsgBuf == [] && state == Ready
      ensures writeBuf == None && writeDataFile == None
      ensures fresh(readBuf)
    {
      readBuf := new byte[SESSION_BUFFSIZE](_ => NUL);
      state := Ready;
      readBufP, readBufLen := 0, 0;
      readMsgBuf, readDataBuf, readDataTerminator := [], [], [];
      readDataFile, readDataPos, prereadLen := None, 0, 0;
      writeBuf, writeBufP, writeDataFile, writeDataPos, writeDataOffset := None, 0, None, 0, 0;
    }

    /** The unread region lies inside the buffer and an empty region starts at its beginning. */
    ghost predicate ValidBuffer()
      reads this
    {
      && readBuf.Length == SESSION_BUFFSIZE
      && readBufP + readBufLen <= SESSION_BUFFSIZE
    }

    /** No data transfer in progress. */
    ghost predicate Idle()
      reads this
    {
      && ValidBuffer()
      && (readBufLen == 0 ==> readBufP == 0)
      && readDataFile == None && readDataPos == 0 && prereadLen == 0 && readDataBuf == []
    }

    /** Bytes already read from the socket and not yet consumed. */
    ghost function Pending(): seq<byte>
      requires ValidBuffer()
      reads this, readBuf
    {
      readBuf[readBufP..readBufP + readBufLen]
    }

    function ReadBufLeft(): int
      reads this
    {
      SESSION_BUFFSIZE - readBufP - readBufLen
    }

    /** The window of the file reader: the tail kept in the buffer precedes the unread region. */
    ghost predicate Receiving()
      reads this
    {
      && ValidBuffer()
      && readDataFile.Some?
      && readDataPos == |readDataFile.value|
      && readDataBuf == []
      && prereadLen <= readBufP
      && (readDataPos > 0 ==> prereadLen >= PREREAD_SIZE)
      && (readBufLen == 0 ==> ReadBufLeft() >= SESSION_BUFFSIZE / 2)
      && 0 < |readDataTerminator| <= PREREAD_SIZE - 2
    }

    /** Everything received since the transfer began: the spilled part, then the window. */
    ghost function Stream(): seq<byte>
      requires Receiving()
      reads this, readBuf
    {
      readDataFile.value + readBuf[readBufP - prereadLen..readBufP + readBufLen]
    }

    /** sock_read into the buffer at readBufP; only called with an empty unread region. */
    method Fill(bytes: seq<byte>)
      requires ValidBuffer() && readBufLen == 0 && |bytes| <= ReadBufLeft()
      modifies this`readBufLen, readBuf
      ensures readBufLen == |bytes| && ValidBuffer() && Pending() == bytes
      ensures readBuf[..readBufP] == old(readBuf[..readBufP])
    {
      forall i | 0 <= i < |bytes| {
        readBuf[readBufP + i] := bytes[i];
      }
      readBufLen := |bytes|;
    }

    /** The same read while a window is kept: the stream grows by what was read. */
    method FillWindow(bytes: seq<byte>)
      requires Receiving() && readBufLen == 0 && 0 < |bytes| <= ReadBufLeft()
      modifies this`readBufLen, readBuf
      ensures Receiving() && readBufLen == |bytes| && Stream() == old(Stream()) + bytes
    {
      ghost var tail := readBuf[readBufP - prereadLen..readBufP];
      ghost var before := readBuf[..readBufP];
      Fill(bytes);
      assert tail == before[readBufP - prereadLen..];
      assert readBuf[readBufP - prereadLen..readBufP + readBufLen] == tail + bytes;
      Assoc(readDataFile.value, tail, bytes);
    }

    /** g_memmove of a stretch of the buffer to its beginning. */
    method MoveToFront(from: nat, len: nat)
      requires readBuf.Length == SESSION_BUFFSIZE && from + len <= SESSION_BUFFSIZE
      modifies readBuf
      ensures readBuf[..len] == old(readBuf[from..from + len])
    {
      forall i | 0 <= i < len {
        readBuf[i] := readBuf[from + i];
      }
    }

    method RecvDataAsFile(terminator: seq<byte>)
      requires Idle()
      requires 0 < |terminator| <= PREREAD_SIZE - 2
      modifies this`state, this`readDataTerminator, this`readDataFile
      ensures Receiving() && state == Recv && readDataTerminator == terminator
      ensures Stream() == Pending()
    {
      state := Recv;
      readDataTerminator := terminator;
      readDataFile := Some([]);
    }

    /** The two comparisons the callback makes on the window. */
    method WindowTerminated() returns (complete: bool)
      requires Receiving()
      ensures complete == Terminated(Stream(), readDataTerminator)
    {
      hide Terminated;
      var terminatorLen := |readDataTerminator|;
      var bufDataLen := prereadLen + readBufLen;
      var window := readBuf[readBufP - prereadLen..readBufP + readBufLen];
      complete := false;
      if bufDataLen >= terminatorLen {
        if readDataPos == 0 && bufDataLen == terminatorLen && window == readDataTerminator {
          complete := true;
        } else if bufDataLen >= terminatorLen + 2
                  && window[bufDataLen - terminatorLen - 2..bufDataLen - terminatorLen] == CRLF
                  && window[bufDataLen - terminatorLen..] == readDataTerminator {
          complete := true;
        }
      }
      WindowTest(readDataFile.value, window, readDataTerminator);
    }

    /** Writes the first part of the window to the file and slides the last 8 bytes to the front. */
    method Spill(writeLen: nat)
      requires Receiving() && writeLen + PREREAD_SIZE == prereadLen + readBufLen
      modifies this`readBufP, this`readBufLen, this`readDataFile, this`readDataPos, this`prereadLen, readBuf
      ensures Receiving() && readBufLen == 0 && Stream() == old(Stream())
    {
      ghost var before := readDataFile.value;
      var dataBegin := readBufP - prereadLen;
      ghost var window := readBuf[dataBegin..readBufP + readBufLen];
      assert readBuf[dataBegin..dataBegin + writeLen] == window[..writeLen];
      assert readBuf[dataBegin + writeLen..readBufP + readBufLen] == window[writeLen..];
      readDataFile := Some(readDataFile.value + readBuf[dataBegin..dataBegin + writeLen]);
      readDataPos := readDataPos + writeLen;
      MoveToFront(dataBegin + writeLen, PREREAD_SIZE);
      readBufP := PREREAD_SIZE;
      prereadLen := PREREAD_SIZE;
      readBufLen := 0;
      assert readBuf[0..PREREAD_SIZE] == window[writeLen..];
      assert window == window[..writeLen] + window[writeLen..];
      Assoc(before, window[..writeLen], window[writeLen..]);
    }

    /** A window of at most 8 bytes moves to the beginning of the buffer. */
    method Compact()
      requires Receiving() && prereadLen + readBufLen <= PREREAD_SIZE
      modifies this`readBufP, this`readBufLen, this`prereadLen, readBuf
      ensures Receiving() && readBufLen == 0 && Stream() == old(Stream())
    {
      var dataBegin := readBufP - prereadLen;
      var bufDataLen := prereadLen + readBufLen;
      ghost var window := readBuf[dataBegin..dataBegin + bufDataLen];
      if dataBegin > 0 {
        MoveToFront(dataBegin, bufDataLen);
        readBufP := prereadLen;
      }
      assert readBuf[..bufDataLen] == window;
      readBufP := readBufP + readBufLen;
      prereadLen := bufDataLen;
      readBufLen := 0;
      assert readBuf[readBufP - prereadLen..readBufP] == readBuf[..bufDataLen];
    }

    /** An incomplete read: keep the window, move it down, or spill all of it but its last 8 bytes. */
    method Retain(writeOk: bool) returns (again: bool)
      requires Receiving() && readBufLen > 0
      modifies this`state, this`readBufP, this`readBufLen, this`readDataFile, this`readDataPos, this`prereadLen, readBuf
      ensures again ==> Receiving() && readBufLen == 0 && Stream() == old(Stream()) && state == old(state)
      ensures !again ==> !writeOk && state == Error
    {
      var dataBegin := readBufP - prereadLen;
      var bufDataLen := prereadLen + readBufLen;
      if bufDataLen <= PREREAD_SIZE {
        Compact();
        return true;
      }
      if ReadBufLeft() >= SESSION_BUFFSIZE / 2 {
        readBufP := readBufP + readBufLen;
        prereadLen := bufDataLen;
        readBufLen := 0;
        return true;
      }
      var writeLen := bufDataLen - PREREAD_SIZE;
      if !writeOk {
        state := Error;
        return false;
      }
      Spill(writeLen);
      return true;
    }

    /** A complete read: everything before the terminator goes to the file, which is handed over. */
    method Finish(writeOk: bool, flushOk: bool, finishedOk: bool) returns (delivered: Option<seq<byte>>)
      requires Receiving() && readBufLen > 0 && Terminated(Stream(), readDataTerminator)
      modifies this`state, this`readBufP, this`readBufLen, this`readDataFile, this`readDataPos, this`prereadLen
      ensures delivered == (if flushOk && (writeOk || old(Stream()) == readDataTerminator)
                            then Some(old(Stream())[..|old(Stream())| - |readDataTerminator|]) else None)
      ensures delivered.Some? ==>
        Idle() && readBufLen == 0 && state == if finishedOk then old(state) else Error
      ensures delivered.None? ==> state == Error
    {
      var dataBegin := readBufP - prereadLen;
      ghost var window := readBuf[dataBegin..readBufP + readBufLen];
      TerminatorInWindow(readDataFile.value, window, readDataTerminator);
      var writeLen := prereadLen + readBufLen - |readDataTerminator|;
      delivered := None;
      if writeLen > 0 && !writeOk {
        state := Error;
        return;
      }
      assert readBuf[dataBegin..dataBegin + writeLen] == window[..writeLen];
      readDataFile := Some(readDataFile.value + readBuf[dataBegin..dataBegin + writeLen]);
      readDataPos := readDataPos + writeLen;
      if !flushOk {
        state := Error;
        return;
      }
      prereadLen, readBufLen, readBufP := 0, 0, 0;
      delivered := readDataFile;
      readDataFile, readDataPos := None, 0;
      if !finishedOk {
        state := Error;
      }
    }

    /**
     One callback of the windowed reader.  Whatever the window does, its decision and
     its output are those of a reader that keeps the whole stream.
     */
    method ReadDataAsFile(read: Read, writeOk: bool, flushOk: bool, finishedOk: bool)
      returns (again: bool, delivered: Option<seq<byte>>)
      requires Receiving()
      requires readBufLen == 0 && read.Data? ==> 0 < |read.bytes| <= ReadBufLeft()
      modifies this`state, this`readBufP, this`readBufLen, this`readDataFile, this`readDataPos, this`prereadLen, readBuf
      ensures old(readBufLen) == 0 && !read.Data? ==>
        && delivered == None && again == read.Again? && Receiving() && readBufLen == 0 && Stream() == old(Stream())
        && state == (match read case Closed => Eof case Failed => Error case _ => old(state))
      ensures old(readBufLen) > 0 || read.Data? ==>
        var stream := if old(readBufLen) == 0 then old(Stream()) + read.bytes else old(Stream());
        if Terminated(stream, readDataTerminator) then
          && !again
          && delivered == (if flushOk && (writeOk || stream == readDataTerminator)
                           then Some(stream[..|stream| - |readDataTerminator|]) else None)
          && (delivered.Some? ==>
                Idle() && readBufLen == 0 && state == if finishedOk then old(state) else Error)
          && (delivered.None? ==> state == Error)
        else
          && delivered == None
          && (again ==> Receiving() && readBufLen == 0 && Stream() == stream && state == old(state))
          && (!again ==> !writeOk && state == Error)
    {
      again, delivered := false, None;
      if readBufLen == 0 {
        match read {
          case Closed => state := Eof; return;
          case Again => again := true; return;
          case Failed => state := Error; return;
          case Data(bytes) => FillWindow(bytes);
        }
      }
      var complete := WindowTerminated();
      if complete {
        delivered := Finish(writeOk, flushOk, finishedOk);
      } else {
        again := Retain(writeOk);
      }
    }

    method Consume(len: nat)
      requires Idle() && len <= readBufLen
      modifies this`readBufP, this`readBufLen
      ensures Idle() && Pending() == old(Pending())[len..]
    {
      readBufLen := readBufLen - len;
      readBufP := if readBufLen == 0 then 0 else readBufP + len;
    }

    /** The first line in the buffer, or all there is. */
    method TakeFirst() returns (taken: seq<byte>)
      requires Idle() && readBufLen > 0
      modifies this`readBufP, this`readBufLen
      ensures Idle()
      ensures var input := old(Pending()); var n := LineLength(input);
        input != [] && taken == input[..n] && Pending() == input[n..]
    {
      hide LineLength;
      var pending := readBuf[readBufP..readBufP + readBufLen];
      var lineLen := LineLength(pending);
      taken := pending[..lineLen];
      Consume(lineLen);
    }

    /** Takes one line, or all there is, out of the buffer; a whole line is handed over. */
    method TakeLine(recvOk: bool) returns (again: bool, msg: Option<seq<byte>>)
      requires Idle() && readBufLen > 0
      modifies this`state, this`readBufP, this`readBufLen, this`readMsgBuf
      ensures Idle()
      ensures
        var input := old(Pending());
        var n := LineLength(input);
        var line := old(readMsgBuf) + CString(input[..n]);
        && Pending() == input[n..]
        && again == (input[n - 1] != LF)
        && msg == (if again then None else Some(Retchomp(line)))
        && readMsgBuf == (if again then line else [])
        && state == if again || recvOk then old(state) else Error
    {
      hide LineLength, CString, Retchomp;
      var taken := TakeFirst();
      readMsgBuf := readMsgBuf + CString(taken);
      if taken[|taken| - 1] != LF {
        return true, None;
      }
      again, msg := false, Some(Retchomp(readMsgBuf));
      readMsgBuf := [];
      if !recvOk {
        state := Error;
      }
    }

    /** One callback of the line reader: a status line is handed over, the bytes after it stay in the buffer. */
    method ReadMsg(read: Read, recvOk: bool) returns (again: bool, msg: Option<seq<byte>>)
      requires Idle()
      requires readBufLen == 0 && read.Data? ==> 0 < |read.bytes| <= SESSION_BUFFSIZE - 1
      modifies this`state, this`readBufP, this`readBufLen, this`readMsgBuf, readBuf
      ensures Idle()
      ensures old(readBufLen) == 0 && !read.Data? ==>
        && msg == None && again == read.Again? && readBufLen == 0 && readMsgBuf == old(readMsgBuf)
        && state == (match read case Closed => Eof case Failed => Error case _ => old(state))
      ensures old(readBufLen) > 0 || read.Data? ==>
        var input := if old(readBufLen) == 0 then read.bytes else old(Pending());
        var n := LineLength(input);
        var line := old(readMsgBuf) + CString(input[..n]);
        && Pending() == input[n..]
        && again == (input[n - 1] != LF)
        && msg == (if again then None else Some(Retchomp(line)))
        && readMsgBuf == (if again then line else [])
        && state == if again || recvOk then old(state) else Error
    {
      hide LineLength, CString, Retchomp;
      if readBufLen == 0 {
        again, msg := false, None;
        match read {
          case Closed => state := Eof; return;
          case Again => again := true; return;
          case Failed => state := Error; return;
          case Data(bytes) => Fill(bytes);
        }
      }
      again, msg := TakeLine(recvOk);
    }

    method RecvData(terminator: seq<byte>)
      requires Idle()
      modifies this`state, this`readDataTerminator
      ensures Idle() && state == Recv && readDataTerminator == terminator
    {
      state := Recv;
      readDataTerminator := terminator;
    }

    /** Appends all pending bytes to the array and tests it. */
    method TakeData(finishedOk: bool) returns (again: bool, delivered: Option<seq<byte>>)
      requires ValidBuffer()
      modifies this`state, this`readBufP, this`readBufLen, this`readDataBuf
      ensures ValidBuffer() && readBufLen == 0 && readBufP == 0
      ensures
        var stream := old(readDataBuf) + old(Pending());
        && again == !TerminatedInMemory(stream, readDataTerminator)
        && delivered == (if again then None else Some(stream[..|stream| - |readDataTerminator|]))
        && readDataBuf == (if again then stream else [])
        && state == if again || finishedOk then old(state) else Error
    {
      readDataBuf := readDataBuf + readBuf[readBufP..readBufP + readBufLen];
      readBufLen, readBufP := 0, 0;

      var terminatorLen := |readDataTerminator|;
      var len := |readDataBuf|;
      var complete := false;
      if len >= terminatorLen {
        if readDataBuf[..terminatorLen] == readDataTerminator {
          complete := true;
        } else if len >= terminatorLen + 2
                  && readDataBuf[len - terminatorLen - 2..len - terminatorLen] == CRLF
                  && readDataBuf[len - terminatorLen..] == readDataTerminator {
          complete := true;
        }
      }
      EndsWithParts(readDataBuf, CRLF, readDataTerminator);
      if !complete {
        return true, None;
      }
      again, delivered := false, Some(readDataBuf[..len - terminatorLen]);
      readDataBuf := [];
      if !finishedOk {
        state := Error;
      }
    }

    /** One callback of the in-memory reader. */
    method ReadData(read: Read, finishedOk: bool) returns (again: bool, delivered: Option<seq<byte>>)
      requires ValidBuffer() && (readBufLen == 0 ==> readBufP == 0)
      requires readBufLen == 0 && read.Data? ==> 0 < |read.bytes| <= SESSION_BUFFSIZE
      modifies this`state, this`readBufP, this`readBufLen, this`readDataBuf, readBuf
      ensures ValidBuffer() && readBufLen == 0 && readBufP == 0
      ensures old(readBufLen) == 0 && !read.Data? ==>
        && delivered == None && again == read.Again? && readDataBuf == old(readDataBuf)
        && state == (match read case Closed => Eof case Failed => Error case _ => old(state))
      ensures old(readBufLen) > 0 || read.Data? ==>
        var stream := old(readDataBuf) + if old(readBufLen) == 0 then read.bytes else old(Pending());
        && again == !TerminatedInMemory(stream, readDataTerminator)
        && delivered == (if again then None else Some(stream[..|stream| - |readDataTerminator|]))
        && readDataBuf == (if again then stream else [])
        && state == if again || finishedOk then old(state) else Error
    {
      if readBufLen == 0 {
        again, delivered := false, None;
        match read {
          case Closed => state := Eof; return;
          case Again => again := true; return;
          case Failed => state := Error; return;
          case Data(bytes) => Fill(bytes);
        }
      }
      again, delivered := TakeData(finishedOk);
    }

    /** What session_send_msg has still to put on the wire. */
    ghost function Unsent(): seq<byte>
      reads this
    {
      if writeBuf.Some? && writeBufP <= |writeBuf.value| then writeBuf.value[writeBufP..] else []
    }

    /** One write of a queued command: 0 when it is all sent, 1 when some is left, -1 on an error. */
    method WriteBuf(write: Write) returns (ret: int, sent: seq<byte>)
      requires writeBuf.Some? && writeBufP < |writeBuf.value|
      requires write.Accepted? ==> write.n <= |Unsent()| && write.n <= SESSION_BUFFSIZE
      modifies this`state, this`writeBuf, this`writeBufP
      ensures ret in {-1, 0, 1}
      ensures old(Unsent()) == sent + Unsent()
      ensures |sent| == if write.Accepted? then write.n else 0
      ensures ret == -1 <==> write.Broken?
      ensures ret == -1 ==> state == Error
      ensures ret == 0 ==> writeBuf == None
      ensures ret == 1 ==> writeBuf.Some? && writeBufP < |writeBuf.value|
      ensures ret != -1 ==> state == old(state)
    {
      var toWrite := writeBuf.value[writeBufP..];
      if |toWrite| > SESSION_BUFFSIZE {
        toWrite := toWrite[..SESSION_BUFFSIZE];
      }
      var writeLen := 0;
      match write {
        case Broken => state := Error; return -1, [];
        case WouldBlock =>
        case Accepted(n) => writeLen := n;
      }
      sent := toWrite[..writeLen];
      if writeBufP + writeLen < |writeBuf.value| {
        writeBufP := writeBufP + writeLen;
        return 1, sent;
      }
      writeBuf, writeBufP := None, 0;
      return 0, sent;
    }

    /** The file is read from where the last accepted byte left off. */
    ghost predicate Sending()
      reads this
    {
      writeDataFile.Some? && writeDataPos < |writeDataFile.value| && writeDataOffset == writeDataPos
    }

    ghost function UnsentData(): seq<byte>
      reads this
    {
      if Sending() then writeDataFile.value[writeDataPos..] else []
    }

    /** One block of a file transfer; a short write rewinds the file to the first byte not accepted. */
    method WriteData(write: Write, readOk: bool, seekOk: bool) returns (ret: int, sent: seq<byte>)
      requires Sending()
      requires write.Accepted? ==> write.n <= |UnsentData()| && write.n <= WRITE_DATA_BUFFSIZE
      modifies this`state, this`writeDataFile, this`writeDataPos, this`writeDataOffset
      ensures ret in {-1, 0, 1}
      ensures readOk && !write.Broken? ==> |sent| == if write.Accepted? then write.n else 0
      ensures sent <= old(UnsentData())
      ensures ret >= 0 ==> old(UnsentData()) == sent + UnsentData() && state == old(state)
      ensures ret == 0 <==> readOk && write.Accepted? && sent == old(UnsentData())
      ensures ret == 0 ==> writeDataFile == None
      ensures ret == 1 ==> Sending()
      ensures ret == -1 ==> state == Error && (!readOk || write.Broken? || !seekOk)
    {
      ghost var unsent, file, start := UnsentData(), writeDataFile.value, writeDataPos;
      var toWriteLen := |writeDataFile.value| - writeDataPos;
      if toWriteLen > WRITE_DATA_BUFFSIZE {
        toWriteLen := WRITE_DATA_BUFFSIZE;
      }
      if !readOk {
        state := Error;
        return -1, [];
      }
      var buf := writeDataFile.value[writeDataOffset..writeDataOffset + toWriteLen];
      assert buf == unsent[..toWriteLen];
      writeDataOffset := writeDataOffset + toWriteLen;
      var writeLen := 0;
      match write {
        case Broken => state := Error; return -1, [];
        case WouldBlock =>
        case Accepted(n) => writeLen := n;
      }
      sent := buf[..writeLen];
      assert unsent == sent + file[start + writeLen..];
      if writeDataPos + writeLen < |writeDataFile.value| {
        writeDataPos := writeDataPos + writeLen;
        if writeLen < toWriteLen {
          if !seekOk {
            state := Error;
            return -1, sent;
          }
          writeDataOffset := writeDataPos;
        }
        return 1, sent;
      }
      writeDataFile, writeDataPos := None, 0;
      return 0, sent;
    }
  }

  /**
   A whole transfer driven by the main loop, with reads of any size up to the space
   offered and any number of empty wake-ups: if the stream, of which some may already
   be in the buffer, is terminated only at its end, exactly the text before the
   terminator is delivered, and not before the last byte has been read.
   */
  method ReceiveFile(s: Session, wire: seq<byte>, stalls: nat) returns (delivered: seq<byte>)
    requires s.Receiving() && s.prereadLen == 0 && s.readDataFile == Some([])
    requires s.Stream() + wire != []
    requires TerminatedOnlyAtEnd(s.Stream() + wire, s.readDataTerminator)
    modifies s, s.readBuf
    ensures s.Idle() && s.readBufLen == 0
    ensures s.readDataTerminator == old(s.readDataTerminator)
    ensures delivered + s.readDataTerminator == old(s.Stream()) + wire
  {
    hide TerminatedOnlyAtEnd, Terminated, Session.Receiving, Session.Stream, Session.Idle;
    ghost var first := s.Stream();
    ghost var stream := first + wire;
    RoomLeft(s);
    ghost var terminator := s.readDataTerminator;
    var pos, left := 0, stalls;
    while true
      invariant s.Receiving() && s.readDataTerminator == terminator
      invariant pos <= |wire|
      invariant s.Stream() == first + wire[..pos]
      invariant s.readBufLen == 0 && s.Stream() != [] ==> pos < |wire|
      decreases |wire| - pos, s.readBufLen, left
    {
      var read := Again;
      if s.readBufLen == 0 {
        var idle: bool := *;
        if idle && left > 0 {
          IdleWake(s);
          left := left - 1;
          continue;
        }
        RoomLeft(s);
        var n :| 1 <= n <= s.ReadBufLeft() && n <= |wire| - pos;
        PrefixGrows(first, wire, pos, pos + n);
        read := Data(wire[pos..pos + n]);
        pos := pos + n;
      }
      PrefixOf(first, wire, pos, terminator);
      var result := Wake(s, read);
      if result.Some? {
        return result.value;
      }
    }
  }

  // ---- The in-memory reader over a whole transfer ----

  /** The stream after n reads, of which `first` was in the buffer before. */
  function Received(first: seq<byte>, pieces: seq<seq<byte>>, n: nat): seq<byte>
    requires n <= |pieces|
  {
    first + Join(pieces[..n])
  }

  predicate Decides(inMemory: bool, stream: seq<byte>, terminator: seq<byte>)
  {
    if inMemory then TerminatedInMemory(stream, terminator) else Terminated(stream, terminator)
  }

  /** The first of the tests after each read to succeed is the one after n reads. */
  ghost predicate StopsAt(inMemory: bool, first: seq<byte>, pieces: seq<seq<byte>>, n: nat, terminator: seq<byte>)
  {
    && n <= |pieces|
    && Decides(inMemory, Received(first, pieces, n), terminator)
    && forall m :: 0 <= m < n ==> !Decides(inMemory, Received(first, pieces, m), terminator)
  }

  ghost predicate NeverStops(inMemory: bool, first: seq<byte>, pieces: seq<seq<byte>>, terminator: seq<byte>)
  {
    forall m :: 0 <= m <= |pieces| ==> !Decides(inMemory, Received(first, pieces, m), terminator)
  }

  /** What is handed over when the test on the stream succeeds. */
  function TextOf(stream: seq<byte>, terminator: seq<byte>): seq<byte>
    requires |terminator| <= |stream|
  {
    stream[..|stream| - |terminator|]
  }

  ghost predicate EachReadGives(pieces: seq<seq<byte>>)
  {
    forall i :: 0 <= i < |pieces| ==> 0 < |pieces[i]| <= SESSION_BUFFSIZE
  }

  /**
   A whole transfer through the in-memory reader: bytes may be in the buffer already, the
   reads are of any size up to the buffer's, and there may be any number of empty wake-ups.
   */
  method ReceiveData(s: Session, pieces: seq<seq<byte>>, stalls: nat) returns (delivered: Option<seq<byte>>, used: nat)
    requires s.Idle() && s.readDataTerminator != [] && EachReadGives(pieces)
    modifies s, s.readBuf
    ensures used <= |pieces| && s.readBufLen == 0 && s.readDataTerminator == old(s.readDataTerminator)
    ensures delivered.Some? ==>
      && StopsAt(true, old(s.Pending()), pieces, used, s.readDataTerminator)
      && |s.readDataTerminator| <= |Received(old(s.Pending()), pieces, used)|
      && delivered.value == TextOf(Received(old(s.Pending()), pieces, used), s.readDataTerminator)
      && s.Idle()
    ensures delivered.None? ==>
      && NeverStops(true, old(s.Pending()), pieces, s.readDataTerminator)
      && used == |pieces| && s.readDataBuf == Received(old(s.Pending()), pieces, used)
  {
    hide Decides, Join, Received, NeverStops, StopsAt, TextOf, EachReadGives;
    ghost var first, terminator := s.Pending(), s.readDataTerminator;
    delivered, used := None, 0;
    NothingRead(first, pieces);
    if s.readBufLen > 0 {
      delivered := TakeIn(s, Again);
      if delivered.Some? {
        StopsNow(first, pieces, 0, terminator);
        return;
      }
    } else {
      assert first == [];
      NothingDecided(terminator);
    }
    NotYet(first, pieces, 0, terminator);
    delivered, used := ReceiveMore(s, first, pieces, stalls);
  }

  /** No test has succeeded up to the one after n reads. */
  ghost predicate Undecided(first: seq<byte>, pieces: seq<seq<byte>>, n: nat, terminator: seq<byte>)
  {
    n <= |pieces| && forall m :: 0 <= m <= n ==> !Decides(true, Received(first, pieces, m), terminator)
  }

  lemma NotYet(first: seq<byte>, pieces: seq<seq<byte>>, n: nat, terminator: seq<byte>)
    requires n <= |pieces| && (n > 0 ==> Undecided(first, pieces, n - 1, terminator))
    requires !Decides(true, Received(first, pieces, n), terminator)
    ensures Undecided(first, pieces, n, terminator)
    ensures n == |pieces| ==> NeverStops(true, first, pieces, terminator)
  {
    hide Decides, Received;
  }

  lemma StopsNow(first: seq<byte>, pieces: seq<seq<byte>>, n: nat, terminator: seq<byte>)
    requires n <= |pieces| && (n > 0 ==> Undecided(first, pieces, n - 1, terminator))
    requires Decides(true, Received(first, pieces, n), terminator)
    ensures StopsAt(true, first, pieces, n, terminator)
  {
    hide Decides, Received;
  }

  lemma ReadGives(pieces: seq<seq<byte>>, i: nat)
    requires EachReadGives(pieces) && i < |pieces|
    ensures 0 < |pieces[i]| <= SESSION_BUFFSIZE
  {
  }

  /** The reads after what was in the buffer. */
  method ReceiveMore(s: Session, ghost first: seq<byte>, pieces: seq<seq<byte>>, stalls: nat)
    returns (delivered: Option<seq<byte>>, used: nat)
    requires s.ValidBuffer() && s.readBufLen == 0 && s.readBufP == 0
    requires s.readDataFile == None && s.readDataPos == 0 && s.prereadLen == 0
    requires s.readDataTerminator != [] && EachReadGives(pieces)
    requires s.readDataBuf == Received(first, pieces, 0) && Undecided(first, pieces, 0, s.readDataTerminator)
    modifies s, s.readBuf
    ensures used <= |pieces| && s.readBufLen == 0 && s.readDataTerminator == old(s.readDataTerminator)
    ensures delivered.Some? ==>
      && StopsAt(true, first, pieces, used, s.readDataTerminator)
      && |s.readDataTerminator| <= |Received(first, pieces, used)|
      && delivered.value == TextOf(Received(first, pieces, used), s.readDataTerminator)
      && s.Idle()
    ensures delivered.None? ==>
      && NeverStops(true, first, pieces, s.readDataTerminator)
      && used == |pieces| && s.readDataBuf == Received(first, pieces, used)
  {
    hide Decides, Join, Received, NeverStops, StopsAt, TextOf, EachReadGives, Undecided;
    ghost var terminator := s.readDataTerminator;
    delivered, used := None, 0;
    StillUndecided(first, pieces, 0, terminator);
    var left := stalls;
    while used < |pieces|
      invariant used <= |pieces| && delivered == None
      invariant s.ValidBuffer() && s.readBufLen == 0 && s.readBufP == 0
      invariant s.readDataFile == None && s.readDataPos == 0 && s.prereadLen == 0
      invariant s.readDataTerminator == terminator && s.readDataBuf == Received(first, pieces, used)
      invariant Undecided(first, pieces, used, terminator)
      invariant used == |pieces| ==> NeverStops(true, first, pieces, terminator)
      decreases |pieces| - used, left
    {
      var idle: bool := *;
      if idle && left > 0 {
        var _, _ := s.ReadData(Again, true);
        left := left - 1;
        continue;
      }
      ReadNext(first, pieces, used);
      ReadGives(pieces, used);
      delivered := TakeIn(s, Data(pieces[used]));
      used := used + 1;
      if delivered.Some? {
        StopsNow(first, pieces, used, terminator);
        return;
      }
      NotYet(first, pieces, used, terminator);
    }
  }

  lemma StillUndecided(first: seq<byte>, pieces: seq<seq<byte>>, n: nat, terminator: seq<byte>)
    requires Undecided(first, pieces, n, terminator)
    ensures n == |pieces| ==> NeverStops(true, first, pieces, terminator)
  {
    hide Decides, Received;
  }

  /** One callback of the in-memory reader with something to process. */
  method TakeIn(s: Session, read: Read) returns (delivered: Option<seq<byte>>)
    requires s.ValidBuffer() && (s.readBufLen == 0 ==> s.readBufP == 0)
    requires s.readDataFile == None && s.readDataPos == 0 && s.prereadLen == 0
    requires s.readBufLen == 0 ==> read.Data? && 0 < |read.bytes| <= SESSION_BUFFSIZE
    modifies s, s.readBuf
    ensures s.ValidBuffer() && s.readBufLen == 0 && s.readBufP == 0
    ensures s.readDataFile == None && s.readDataPos == 0 && s.prereadLen == 0
    ensures s.readDataTerminator == old(s.readDataTerminator)
    ensures
      var stream := old(s.readDataBuf) + if old(s.readBufLen) == 0 then read.bytes else old(s.Pending());
      var done := Decides(true, stream, s.readDataTerminator);
      && (delivered.Some? <==> done)
      && (done ==> |s.readDataTerminator| <= |stream| && delivered == Some(TextOf(stream, s.readDataTerminator)))
      && s.readDataBuf == if done then [] else stream
  {
    var _, d := s.ReadData(read, true);
    delivered := d;
  }

  lemma NothingRead(first: seq<byte>, pieces: seq<seq<byte>>)
    ensures Received(first, pieces, 0) == first == [] + first
  {
    assert pieces[..0] == [] && first + [] == first;
  }

  lemma NothingDecided(terminator: seq<byte>)
    requires terminator != []
    ensures !Decides(true, [], terminator) && !Decides(false, [], terminator)
  {
  }

  lemma ReadNext(first: seq<byte>, pieces: seq<seq<byte>>, n: nat)
    requires n < |pieces|
    ensures Received(first, pieces, n + 1) == Received(first, pieces, n) + pieces[n]
  {
    JoinNext(pieces, n);
  }

  /** Each stream is a prefix of the later ones, and shorter. */
  lemma {:induction false} ReceivedGrows(first: seq<byte>, pieces: seq<seq<byte>>, m: nat, n: nat)
    requires m <= n <= |pieces| && EachReadGives(pieces)
    ensures Received(first, pieces, m) <= Received(first, pieces, n)
    ensures m < n ==> |Received(first, pieces, m)| < |Received(first, pieces, n)|
    decreases n
  {
    hide Received;
    if m < n {
      ReceivedGrows(first, pieces, m, n - 1);
      ReadNext(first, pieces, n - 1);
      assert |pieces[n - 1]| > 0;
    }
  }

  /** Before the first terminated prefix neither test succeeds. */
  lemma NoneBefore(stream: seq<byte>, terminator: seq<byte>, k: nat)
    requires terminator != [] && k < |stream| && TerminatedOnlyAtEnd(stream, terminator)
    ensures !Decides(true, stream[..k], terminator) && !Decides(false, stream[..k], terminator)
  {
    if k == 0 {
      NothingDecided(terminator);
    } else if |terminator| <= k {
      assert !Terminated(stream[..k], terminator);
      assert !Terminated(stream[..|terminator|], terminator);
      assert stream[..k][..|terminator|] == stream[..|terminator|];
    }
  }

  /**
   What the in-memory reader hands over is the text before the first terminator exactly
   when one of the reads ends with that terminator.
   */
  lemma DeliversTextExactly(first: seq<byte>, pieces: seq<seq<byte>>, p: nat, terminator: seq<byte>)
    requires terminator != [] && EachReadGives(pieces) && p <= |Received(first, pieces, |pieces|)|
    requires TerminatedOnlyAtEnd(Received(first, pieces, |pieces|)[..p], terminator)
    ensures |terminator| <= p
    ensures (exists n :: StopsAt(true, first, pieces, n, terminator)
               && |terminator| <= |Received(first, pieces, n)|
               && TextOf(Received(first, pieces, n), terminator) == Received(first, pieces, |pieces|)[..p - |terminator|])
      <==> exists n :: 0 <= n <= |pieces| && |Received(first, pieces, n)| == p
  {
    hide Received, Decides, TerminatedOnlyAtEnd, EachReadGives;
    var whole := Received(first, pieces, |pieces|);
    TerminatedLong(whole[..p], terminator);
    if n :| 0 <= n <= |pieces| && |Received(first, pieces, n)| == p {
      ReceivedGrows(first, pieces, n, |pieces|);
      assert Received(first, pieces, n) == whole[..p];
      StopsThere(first, pieces, n, terminator);
    }
    if n :| StopsAt(true, first, pieces, n, terminator)
            && |terminator| <= |Received(first, pieces, n)|
            && TextOf(Received(first, pieces, n), terminator) == whole[..p - |terminator|] {
      assert |Received(first, pieces, n)| == p;
    }
  }

  lemma TerminatedLong(stream: seq<byte>, terminator: seq<byte>)
    requires TerminatedOnlyAtEnd(stream, terminator)
    ensures |terminator| <= |stream|
    ensures Decides(true, stream, terminator) && Decides(false, stream, terminator)
  {
  }

  lemma StopsThere(first: seq<byte>, pieces: seq<seq<byte>>, n: nat, terminator: seq<byte>)
    requires terminator != [] && EachReadGives(pieces) && n <= |pieces|
    requires TerminatedOnlyAtEnd(Received(first, pieces, n), terminator)
    ensures StopsAt(true, first, pieces, n, terminator) && StopsAt(false, first, pieces, n, terminator)
  {
    hide Received, Decides, TerminatedOnlyAtEnd, EachReadGives;
    var stream := Received(first, pieces, n);
    TerminatedLong(stream, terminator);
    forall m | 0 <= m < n
      ensures !Decides(true, Received(first, pieces, m), terminator) && !Decides(false, Received(first, pieces, m), terminator)
    {
      ReceivedGrows(first, pieces, m, n);
      assert Received(first, pieces, m) == stream[..|Received(first, pieces, m)|];
      NoneBefore(stream, terminator, |Received(first, pieces, m)|);
    }
  }

  /** A stream that is terminated only at its end is handed over whole, with the last read, in every division. */
  lemma EveryDivisionDelivers(first: seq<byte>, pieces: seq<seq<byte>>, terminator: seq<byte>)
    requires terminator != [] && EachReadGives(pieces)
    requires TerminatedOnlyAtEnd(Received(first, pieces, |pieces|), terminator)
    ensures forall n :: StopsAt(true, first, pieces, n, terminator) <==> n == |pieces|
    ensures TextOf(Received(first, pieces, |pieces|), terminator) + terminator == Received(first, pieces, |pieces|)
  {
    StopsThere(first, pieces, |pieces|, terminator);
    hide Received, Decides, EachReadGives;
  }

  /** The first read that brings in a whole terminator at the start of the stream brings in more, not ending in a terminator. */
  ghost predicate Overshoots(first: seq<byte>, pieces: seq<seq<byte>>, terminator: seq<byte>)
  {
    exists n :: 0 <= n <= |pieces|
      && (forall m :: 0 <= m < n ==> |Received(first, pieces, m)| < |terminator|)
      && terminator < Received(first, pieces, n) && !EndsWith(Received(first, pieces, n), CRLF + terminator)
  }

  /**
   The in-memory reader stops earlier than the windowed one exactly when the stream starts
   with a terminator and the first read to reach past it does not end in another one;
   otherwise the two stop after the same read.
   */
  lemma ReadersAgreeExactly(first: seq<byte>, pieces: seq<seq<byte>>, terminator: seq<byte>)
    requires terminator != [] && EachReadGives(pieces)
    ensures (forall n :: StopsAt(true, first, pieces, n, terminator) <==> StopsAt(false, first, pieces, n, terminator))
      <==> !Overshoots(first, pieces, terminator)
  {
    hide Received, Decides, EachReadGives;
    if Overshoots(first, pieces, terminator) {
      var n :| 0 <= n <= |pieces|
        && (forall m :: 0 <= m < n ==> |Received(first, pieces, m)| < |terminator|)
        && terminator < Received(first, pieces, n) && !EndsWith(Received(first, pieces, n), CRLF + terminator);
      OvershootStops(first, pieces, n, terminator);
    } else {
      forall n ensures StopsAt(true, first, pieces, n, terminator) <==> StopsAt(false, first, pieces, n, terminator) {
        if StopsAt(true, first, pieces, n, terminator) {
          SameStop(first, pieces, n, terminator);
        }
        if StopsAt(false, first, pieces, n, terminator) {
          BothDecide(Received(first, pieces, n), terminator);
          var m := FirstStop(first, pieces, n, terminator);
          SameStop(first, pieces, m, terminator);
          assert m == n;
        }
      }
    }
  }

  lemma BothDecide(stream: seq<byte>, terminator: seq<byte>)
    ensures Decides(false, stream, terminator) ==> Decides(true, stream, terminator)
    ensures Decides(true, stream, terminator) && !Decides(false, stream, terminator)
      <==> terminator < stream && !EndsWith(stream, CRLF + terminator)
  {
    if terminator <= stream && |terminator| == |stream| {
      assert stream == terminator;
    }
  }

  /** A shorter stream cannot be terminated. */
  lemma TooShort(inMemory: bool, stream: seq<byte>, terminator: seq<byte>)
    requires |stream| < |terminator|
    ensures !Decides(inMemory, stream, terminator)
  {
  }

  lemma OvershootStops(first: seq<byte>, pieces: seq<seq<byte>>, n: nat, terminator: seq<byte>)
    requires n <= |pieces|
    requires forall m :: 0 <= m < n ==> |Received(first, pieces, m)| < |terminator|
    requires terminator < Received(first, pieces, n) && !EndsWith(Received(first, pieces, n), CRLF + terminator)
    ensures StopsAt(true, first, pieces, n, terminator) && !StopsAt(false, first, pieces, n, terminator)
  {
    hide Received, Decides;
    BothDecide(Received(first, pieces, n), terminator);
    forall m | 0 <= m < n ensures !Decides(true, Received(first, pieces, m), terminator) {
      TooShort(true, Received(first, pieces, m), terminator);
    }
  }

  lemma SameStop(first: seq<byte>, pieces: seq<seq<byte>>, n: nat, terminator: seq<byte>)
    requires EachReadGives(pieces) && !Overshoots(first, pieces, terminator)
    requires StopsAt(true, first, pieces, n, terminator)
    ensures StopsAt(false, first, pieces, n, terminator)
  {
    hide Received, Decides, EachReadGives, Overshoots;
    forall m | 0 <= m <= n
      ensures Decides(false, Received(first, pieces, m), terminator) ==> Decides(true, Received(first, pieces, m), terminator)
    {
      BothDecide(Received(first, pieces, m), terminator);
    }
    if !Decides(false, Received(first, pieces, n), terminator) {
      StopOvershoots(first, pieces, n, terminator);
    }
  }

  lemma StopOvershoots(first: seq<byte>, pieces: seq<seq<byte>>, n: nat, terminator: seq<byte>)
    requires EachReadGives(pieces) && StopsAt(true, first, pieces, n, terminator)
    requires !Decides(false, Received(first, pieces, n), terminator)
    ensures Overshoots(first, pieces, terminator)
  {
    hide Received, Decides, EachReadGives;
    BothDecide(Received(first, pieces, n), terminator);
    forall m | 0 <= m < n ensures |Received(first, pieces, m)| < |terminator| {
      ReceivedGrows(first, pieces, m, n);
      StartsThere(Received(first, pieces, m), Received(first, pieces, n), terminator);
    }
  }

  lemma StartsThere(short: seq<byte>, long: seq<byte>, terminator: seq<byte>)
    requires short <= long && terminator <= long
    ensures |terminator| <= |short| ==> Decides(true, short, terminator)
  {
    if |terminator| <= |short| {
      assert short[..|terminator|] == long[..|terminator|];
    }
  }

  lemma {:induction false} FirstStop(first: seq<byte>, pieces: seq<seq<byte>>, n: nat, terminator: seq<byte>) returns (m: nat)
    requires n <= |pieces| && Decides(true, Received(first, pieces, n), terminator)
    ensures m <= n && StopsAt(true, first, pieces, m, terminator)
    decreases n
  {
    hide Received, Decides;
    if k :| 0 <= k < n && Decides(true, Received(first, pieces, k), terminator) {
      m := FirstStop(first, pieces, k, terminator);
    } else {
      m := n;
    }
  }

  /**
   A listing that is empty, followed by other lines: read as ".", CR, LF, "a" the in-memory
   reader hands over ".", while the windowed reader waits for the terminator at the end.
   */
  lemma StopsEarly()
    ensures var t: seq<byte> := [DOT, CR, LF];
      var pieces: seq<seq<byte>> := [[DOT, CR, LF, 97], [CR, LF, DOT, CR, LF]];
      && StopsAt(true, [], pieces, 1, t) && |t| <= |Received([], pieces, 1)| && TextOf(Received([], pieces, 1), t) == [DOT]
      && StopsAt(false, [], pieces, 2, t)
  {
    var t: seq<byte> := [DOT, CR, LF];
    var a: seq<byte> := [DOT, CR, LF, 97];
    var b: seq<byte> := [CR, LF, DOT, CR, LF];
    var pieces := [a, b];
    NothingRead([], pieces);
    ReadNext([], pieces, 0);
    ReadNext([], pieces, 1);
    assert [] + a == a;
    hide Received;
    assert (a + b)[4..] == CRLF + t;
    assert a[3] != LF;
    NothingDecided(t);
  }

  /** A whole file transfer over a socket that accepts any prefix of each block: every byte goes out once, in order. */
  method SendFile(s: Session, stalls: nat) returns (sent: seq<byte>)
    requires s.Sending()
    modifies s
    ensures sent == old(s.UnsentData()) && s.writeDataFile == None
  {
    ghost var all := s.UnsentData();
    var left := stalls;
    sent := [];
    while s.writeDataFile.Some?
      invariant s.writeDataFile.Some? ==> s.Sending()
      invariant sent + s.UnsentData() == all
      decreases |s.UnsentData()|, left
    {
      var write := WouldBlock;
      var idle: bool := *;
      if idle && left > 0 {
        left := left - 1;
      } else {
        var room := |s.writeDataFile.value| - s.writeDataPos;
        var n :| 1 <= n <= room && n <= WRITE_DATA_BUFFSIZE;
        write := Accepted(n);
      }
      ghost var before := s.UnsentData();
      var _, block := s.WriteData(write, true, true);
      Assoc(sent, block, s.UnsentData());
      sent := sent + block;
    }
  }

  lemma RoomLeft(s: Session)
    requires s.Receiving()
    ensures s.readBufLen == 0 ==> s.ReadBufLeft() > 0
    ensures s.readDataFile == Some([]) && s.prereadLen == 0 && s.readBufLen > 0 ==> s.Stream() != []
    ensures s.readDataFile == Some([]) && s.prereadLen == 0 && s.readBufLen == 0 ==> s.Stream() == []
  {
  }

  /** A wake-up that finds nothing to read. */
  method IdleWake(s: Session)
    requires s.Receiving() && s.readBufLen == 0
    modifies s, s.readBuf
    ensures s.readDataTerminator == old(s.readDataTerminator)
    ensures s.Receiving() && s.readBufLen == 0 && s.Stream() == old(s.Stream())
  {
    var _, _ := s.ReadDataAsFile(Again, true, true, true);
  }

  /** One callback with something to process, when the disk takes everything. */
  method Wake(s: Session, read: Read) returns (result: Option<seq<byte>>)
    requires s.Receiving()
    requires s.readBufLen == 0 ==> read.Data? && 0 < |read.bytes| <= s.ReadBufLeft()
    modifies s, s.readBuf
    ensures s.readDataTerminator == old(s.readDataTerminator)
    ensures
      var stream := if old(s.readBufLen) == 0 then old(s.Stream()) + read.bytes else old(s.Stream());
      && (result.Some? <==> Terminated(stream, s.readDataTerminator))
      && (result.Some? ==>
            s.Idle() && s.readBufLen == 0 && result.value + s.readDataTerminator == stream)
      && (result.None? ==> s.Receiving() && s.readBufLen == 0 && s.Stream() == stream)
  {
    hide Terminated;
    ghost var stream := if s.readBufLen == 0 then s.Stream() + read.bytes else s.Stream();
    var _, delivered := s.ReadDataAsFile(read, true, true, true);
    if Terminated(stream, s.readDataTerminator) {
      TextThenTerminator(stream, s.readDataTerminator);
    }
    result := delivered;
  }

  lemma TextThenTerminator(stream: seq<byte>, terminator: seq<byte>)
    requires Terminated(stream, terminator)
    ensures |terminator| <= |stream| && stream[..|stream| - |terminator|] + terminator == stream
  {
  }

  /** A prefix of the stream that reaches into the wire is terminated only when it is everything. */
  lemma PrefixOf(first: seq<byte>, wire: seq<byte>, pos: nat, terminator: seq<byte>)
    requires pos <= |wire|
    requires TerminatedOnlyAtEnd(first + wire, terminator)
    requires first + wire[..pos] != []
    ensures Terminated(first + wire[..pos], terminator) <==> pos == |wire|
    ensures pos == |wire| ==> first + wire[..pos] == first + wire
  {
    var k := |first| + pos;
    assert first + wire[..pos] == (first + wire)[..k];
    if pos == |wire| {
      assert (first + wire)[..k] == first + wire;
    }
  }

  /** Moving a stretch from the rest to what came before it leaves the whole unchanged. */
  lemma PrefixGrows(before: seq<byte>, rest: seq<byte>, i: nat, j: nat)
    requires i <= j <= |rest|
    ensures before + rest[i..] == (before + rest[i..j]) + rest[j..]
    ensures (before + rest[..i]) + rest[i..j] == before + rest[..j]
  {
    assert rest[i..] == rest[i..j] + rest[j..];
    assert rest[..j] == rest[..i] + rest[i..j];
  }

  lemma EndsWithParts(s: seq<byte>, a: seq<byte>, b: seq<byte>)
    ensures EndsWith(s, a + b) <==>
      |s| >= |a| + |b| && s[|s| - |b| - |a|..|s| - |b|] == a && s[|s| - |b|..] == b
  {
    if |s| >= |a| + |b| {
      var tail := s[|s| - |b| - |a|..];
      assert tail == s[|s| - |b| - |a|..|s| - |b|] + s[|s| - |b|..];
    }
  }

  /** The test on the window decides the test on the whole stream. */
  lemma WindowTest(spilled: seq<byte>, window: seq<byte>, terminator: seq<byte>)
    requires 0 < |terminator| <= PREREAD_SIZE - 2
    requires spilled != [] ==> |window| >= PREREAD_SIZE
    ensures Terminated(spilled + window, terminator) <==>
      || (spilled == [] && window == terminator)
      || (|window| >= |terminator| + 2
          && window[|window| - |terminator| - 2..|window| - |terminator|] == CRLF
          && window[|window| - |terminator|..] == terminator)
  {
    var stream := spilled + window;
    var n := |terminator|;
    if |window| >= n + 2 {
      assert stream[|stream| - n - 2..] == window[|window| - n - 2..];
      var tail := window[|window| - n - 2..];
      assert tail == window[|window| - n - 2..|window| - n] + window[|window| - n..];
    } else {
      assert stream == window;
    }
  }

  /** A terminated stream has its whole terminator inside the window. */
  lemma TerminatorInWindow(spilled: seq<byte>, window: seq<byte>, terminator: seq<byte>)
    requires 0 < |terminator| <= PREREAD_SIZE - 2
    requires spilled != [] ==> |window| >= PREREAD_SIZE
    requires Terminated(spilled + window, terminator)
    ensures |window| >= |terminator|
    ensures var stream := spilled + window;
      stream[..|stream| - |terminator|] == spilled + window[..|window| - |terminator|]
  {
    WindowTest(spilled, window, terminator);
  }
}
