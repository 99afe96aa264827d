/**
 From the dot-stuffed wire form of a message to the file the client stores: the
 line loop of pop3_write_msg_to_file, and the whole path from socket to file.
 */
module PopFile {
  import opened Bytes
  import opened Fgets
  import opened Session

  const TERMINATOR: seq<byte> := [DOT, CR, LF]

  /** What is written for one chunk: CRLF becomes LF, a trailing CR goes, one of two leading dots goes. */
  function DecodeChunk(chunk: seq<byte>): seq<byte>
  {
    var len := |chunk|;
    var last := if len > 0 then chunk[len - 1] else NUL;
    var buf :=
      if last == LF && len > 1 && chunk[len - 2] == CR then chunk[..len - 2] + [LF]
      else if last == CR then chunk[..len - 1]
      else chunk;
    if (last == NUL || last == LF) && At(buf, 0) == DOT && At(buf, 1) == DOT then buf[1..] else buf
  }

  function DecodeFile(src: seq<byte>): seq<byte>
    decreases |src|
  {
    if src == [] then [] else
      var n := FgetsLength(src, BUFFSIZE);
      DecodeChunk(CString(src[..n])) + DecodeFile(src[n..])
  }

  /** The edits made on one fgets buffer before it is written. */
  method EditChunk(chunk: seq<byte>) returns (buf: seq<byte>)
    ensures buf == DecodeChunk(chunk)
  {
    buf := chunk;
    var len := |buf|;
    var last := NUL;
    if len > 0 {
      last := buf[len - 1];
      if last == LF && len > 1 && buf[len - 2] == CR {
        buf := buf[..len - 2] + [LF];
      } else if last == CR {
        buf := buf[..len - 1];
      }
    }
    if (last == NUL || last == LF) && At(buf, 0) == DOT && At(buf, 1) == DOT {
      buf := buf[1..];
    }
  }

  lemma DecodeStep(src: seq<byte>, n: nat)
    requires src != [] && n == FgetsLength(src, BUFFSIZE)
    ensures 0 < n <= |src| && DecodeFile(src) == DecodeChunk(CString(src[..n])) + DecodeFile(src[n..])
  {
  }

  /** pop3_write_msg_to_file: None when the disk refuses the data. */
  method WriteMsgToFile(src: seq<byte>, diskOk: bool) returns (file: Option<seq<byte>>)
    ensures file == if diskOk || src == [] then Some(DecodeFile(src)) else None
  {
    hide FgetsLength, DecodeChunk, CString;
    var out: seq<byte> := [];
    var left := src;
    while left != []
      invariant left != src ==> diskOk
      invariant out + DecodeFile(left) == DecodeFile(src)
      decreases |left|
    {
      var n := FgetsLength(left, BUFFSIZE);
      DecodeStep(left, n);
      hide DecodeFile;
      var buf := EditChunk(CString(left[..n]));
      if !diskOk {
        return None;
      }
      Assoc(out, buf, DecodeFile(left[n..]));
      out := out + buf;
      left := left[n..];
    }
    assert out + [] == out;
    return Some(out);
  }

  /** Section 3 of RFC 1939: a line that starts with a dot is sent with one more. */
  function Stuff(line: seq<byte>): seq<byte>
  {
    if At(line, 0) == DOT then [DOT] + line else line
  }

  function Encode(lines: seq<seq<byte>>): seq<byte>
  {
    if lines == [] then [] else Stuff(lines[0]) + CRLF + Encode(lines[1..])
  }

  function Wire(lines: seq<seq<byte>>): seq<byte>
  {
    Encode(lines) + TERMINATOR
  }

  /** The message as it is to be stored, with LF line ends. */
  function Local(lines: seq<seq<byte>>): seq<byte>
  {
    if lines == [] then [] else lines[0] + [LF] + Local(lines[1..])
  }

  /** A line of a message: no NUL, no LF inside; of any length. */
  predicate IsTextLine(line: seq<byte>)
  {
    NulFree(line) && LF !in line
  }

  predicate IsBody(lines: seq<seq<byte>>)
  {
    forall i :: 0 <= i < |lines| ==> IsTextLine(lines[i])
  }

  // ---- Lines longer than the buffer ----

  /** How much fgets takes when there is no LF in reach. */
  const CHUNK: nat := BUFFSIZE - 1

  function WithoutLastCr(chunk: seq<byte>): seq<byte>
  {
    if chunk != [] && chunk[|chunk| - 1] == CR then chunk[..|chunk| - 1] else chunk
  }

  /** What is written for the text of one line and its CRLF, but for the LF: only the chunk with the LF loses a dot. */
  function Written(text: seq<byte>): seq<byte>
    decreases |text|
  {
    if |text| >= CHUNK then WithoutLastCr(text[..CHUNK]) + Written(text[CHUNK..])
    else if |text| == CHUNK - 1 || At(text, 0) != DOT || At(text, 1) != DOT then text
    else text[1..]
  }

  lemma OpenChunk(text: seq<byte>, rest: seq<byte>)
    requires IsTextLine(text) && |text| == CHUNK
    ensures DecodeFile(text + rest) == WithoutLastCr(text) + DecodeFile(rest)
  {
    var src := text + rest;
    hide DecodeFile, DecodeChunk, CString;
    if rest == [] {
      assert src == text;
      WholeText(text, BUFFSIZE);
    } else {
      assert src[..BUFFSIZE - 1] == text;
      NoLineEnd(src, BUFFSIZE);
    }
    DecodeStep(src, CHUNK);
    assert src[..CHUNK] == text && src[CHUNK..] == rest;
    OpenChunkDecoded(text);
  }

  lemma OpenChunkDecoded(text: seq<byte>)
    requires IsTextLine(text) && text != []
    ensures DecodeChunk(CString(text)) == WithoutLastCr(text)
  {
  }

  lemma LastChunk(text: seq<byte>, rest: seq<byte>)
    requires IsTextLine(text) && |text| < CHUNK - 1
    ensures DecodeFile(text + CRLF + rest) == Written(text) + [LF] + DecodeFile(rest)
  {
    hide DecodeFile, DecodeChunk, Written;
    var src, chunk := text + CRLF + rest, text + CRLF;
    assert src == (text + [CR]) + [LF] + rest;
    FgetsTakesLine(text + [CR], rest, BUFFSIZE);
    DecodeStep(src, |chunk|);
    assert src[..|chunk|] == chunk && src[|chunk|..] == rest;
    LastChunkDecoded(text);
  }

  lemma LastChunkDecoded(text: seq<byte>)
    requires IsTextLine(text) && |text| < CHUNK - 1
    ensures DecodeChunk(CString(text + CRLF)) == Written(text) + [LF]
  {
    hide CString, DecodeChunk, Written;
    assert NulFree(text + CRLF);
    if At(text, 0) == DOT && At(text, 1) == DOT {
      TwoDots(text);
      ShortWritten(text);
    } else {
      NotTwoDots(text);
      ShortWritten(text);
    }
  }

  lemma ShortWritten(text: seq<byte>)
    requires |text| < CHUNK - 1
    ensures Written(text) == if At(text, 0) == DOT && At(text, 1) == DOT then text[1..] else text
  {
  }

  lemma TwoDots(text: seq<byte>)
    requires At(text, 0) == DOT && At(text, 1) == DOT
    ensures DecodeChunk(text + CRLF) == text[1..] + [LF]
  {
    var chunk := text + CRLF;
    assert chunk[..|chunk| - 2] == text;
    assert (text + [LF])[1..] == text[1..] + [LF];
  }

  lemma NotTwoDots(text: seq<byte>)
    requires !(At(text, 0) == DOT && At(text, 1) == DOT)
    ensures DecodeChunk(text + CRLF) == text + [LF]
  {
    var chunk := text + CRLF;
    assert chunk[..|chunk| - 2] == text;
  }

  /** The CR of the line end is the last byte of a chunk, and the LF is alone in the next. */
  lemma SplitLineEnd(text: seq<byte>, rest: seq<byte>)
    requires IsTextLine(text) && |text| == CHUNK - 1
    ensures DecodeFile(text + CRLF + rest) == Written(text) + [LF] + DecodeFile(rest)
  {
    var end := [LF] + rest;
    assert text + CRLF + rest == (text + [CR]) + end;
    OpenChunk(text + [CR], end);
    assert WithoutLastCr(text + [CR]) == text;
    DecodeStep(end, 1);
    assert end[..1] == [LF] && end[1..] == rest;
    hide FgetsLength, DecodeFile;
    assert DecodeChunk(CString([LF])) == [LF];
    Assoc(text, [LF], DecodeFile(rest));
  }

  lemma {:induction false} LineIsWritten(text: seq<byte>, rest: seq<byte>)
    requires IsTextLine(text)
    ensures DecodeFile(text + CRLF + rest) == Written(text) + [LF] + DecodeFile(rest)
    decreases |text|
  {
    hide DecodeFile, WithoutLastCr;
    if |text| >= CHUNK {
      var a, b := text[..CHUNK], text[CHUNK..];
      assert text == a + b && IsTextLine(a) && IsTextLine(b);
      assert text + CRLF + rest == a + (b + CRLF + rest);
      OpenChunk(a, b + CRLF + rest);
      LineIsWritten(b, rest);
      var w, c, d := WithoutLastCr(a), Written(b), DecodeFile(rest);
      assert w + (c + [LF] + d) == (w + c) + [LF] + d;
    } else if |text| == CHUNK - 1 {
      SplitLineEnd(text, rest);
    } else {
      LastChunk(text, rest);
    }
  }

  /** The stuffed lines of a body as they are written. */
  function WrittenAll(lines: seq<seq<byte>>): (w: seq<seq<byte>>)
    ensures |w| == |lines|
    ensures forall i :: 0 <= i < |lines| ==> w[i] == Written(Stuff(lines[i]))
  {
    if lines == [] then [] else [Written(Stuff(lines[0]))] + WrittenAll(lines[1..])
  }

  lemma StuffedIsText(line: seq<byte>)
    requires IsTextLine(line)
    ensures IsTextLine(Stuff(line))
  {
  }

  lemma {:induction false} BodyIsWritten(lines: seq<seq<byte>>)
    requires IsBody(lines)
    ensures DecodeFile(Encode(lines)) == Local(WrittenAll(lines))
  {
    hide Written, Stuff, IsTextLine;
    if lines != [] {
      var rest := Encode(lines[1..]);
      StuffedIsText(lines[0]);
      LineIsWritten(Stuff(lines[0]), rest);
      BodyIsWritten(lines[1..]);
      hide DecodeFile;
      assert WrittenAll(lines)[1..] == WrittenAll(lines[1..]);
    }
  }

  // ---- Which lines come back ----

  /** The chunk that holds the LF of the wire form of a line, counted from 0. */
  function LastChunkOf(text: seq<byte>): nat
  {
    (|text| + 1) / CHUNK
  }

  /** No CR of the text is the last byte of a chunk. */
  ghost predicate NoCrEndsAChunk(text: seq<byte>)
  {
    forall i :: 0 < i && i * CHUNK <= |text| ==> text[i * CHUNK - 1] != CR
  }

  predicate LastChunkStartsWithDots(text: seq<byte>)
  {
    var k := LastChunkOf(text) * CHUNK;
    k + 1 < |text| && text[k] == DOT && text[k + 1] == DOT
  }

  predicate DotsUpTo(text: seq<byte>, k: nat)
  {
    k <= |text| && forall i :: 0 <= i < k ==> text[i] == DOT
  }

  /**
   The lines that the client stores as they were sent.  A line that starts with a dot, and
   so has one more on the wire, loses it only in the chunk with the LF: that must be the
   first one, or there must be dots all the way up to its second byte.  Any other line must
   not have two dots there, nor a CR at the end of a chunk.
   */
  ghost predicate ComesBack(line: seq<byte>)
  {
    var text := Stuff(line);
    if At(line, 0) == DOT then DotsUpTo(text, LastChunkOf(text) * CHUNK + 2)
    else NoCrEndsAChunk(text) && !LastChunkStartsWithDots(text)
  }

  lemma OneChunkOff(text: seq<byte>)
    requires |text| >= CHUNK
    ensures LastChunkOf(text) == LastChunkOf(text[CHUNK..]) + 1
  {
  }

  lemma NoCrOff(text: seq<byte>)
    requires |text| >= CHUNK
    ensures NoCrEndsAChunk(text) <==> text[CHUNK - 1] != CR && NoCrEndsAChunk(text[CHUNK..])
  {
    var rest := text[CHUNK..];
    if NoCrEndsAChunk(text) {
      assert text[1 * CHUNK - 1] != CR;
      forall i | 0 < i && i * CHUNK <= |rest| ensures rest[i * CHUNK - 1] != CR {
        assert text[(i + 1) * CHUNK - 1] != CR;
      }
    }
    if text[CHUNK - 1] != CR && NoCrEndsAChunk(rest) {
      forall i | 0 < i && i * CHUNK <= |text| ensures text[i * CHUNK - 1] != CR {
        if i > 1 {
          assert rest[(i - 1) * CHUNK - 1] != CR;
        }
      }
    }
  }

  lemma DotsOff(text: seq<byte>)
    requires |text| >= CHUNK
    ensures LastChunkStartsWithDots(text) <==> LastChunkStartsWithDots(text[CHUNK..])
  {
    OneChunkOff(text);
    var rest := text[CHUNK..];
    var k := LastChunkOf(rest) * CHUNK;
    assert LastChunkOf(text) * CHUNK == k + CHUNK;
    assert k + 1 < |rest| ==> rest[k] == text[k + CHUNK] && rest[k + 1] == text[k + 1 + CHUNK];
  }

  /** Nothing is taken from a line that has no CR at the end of a chunk and no two dots at the start of the last one. */
  lemma {:induction false} NothingLostExactly(text: seq<byte>)
    ensures |Written(text)| <= |text|
    ensures Written(text) == text <==> NoCrEndsAChunk(text) && !LastChunkStartsWithDots(text)
    decreases |text|
  {
    if |text| >= CHUNK {
      var a, b := text[..CHUNK], text[CHUNK..];
      NothingLostExactly(b);
      NoCrOff(text);
      DotsOff(text);
      hide NoCrEndsAChunk, LastChunkStartsWithDots;
      assert text == a + b;
      assert a[CHUNK - 1] == text[CHUNK - 1];
      FrontEqual(a, Written(b), b);
      if text[CHUNK - 1] == CR {
        assert |Written(text)| < |text|;
      }
    } else {
      assert forall i :: 0 < i ==> i * CHUNK > |text|;
      assert LastChunkOf(text) == if |text| == CHUNK - 1 then 1 else 0;
    }
  }

  lemma FrontEqual(a: seq<byte>, b: seq<byte>, c: seq<byte>)
    ensures a + b == a + c <==> b == c
  {
    assert (a + b)[|a|..] == b && (a + c)[|a|..] == c;
  }

  /** Exactly the first byte is lost of a line that starts with a dot when it is dots up to the second byte of the last chunk. */
  lemma {:induction false} OneDotLostExactly(text: seq<byte>)
    requires At(text, 0) == DOT
    ensures Written(text) == text[1..] <==> DotsUpTo(text, LastChunkOf(text) * CHUNK + 2)
    decreases |text|
  {
    if |text| >= CHUNK {
      var a, b := text[..CHUNK], text[CHUNK..];
      OneChunkOff(text);
      var k := LastChunkOf(b) * CHUNK + 2;
      assert LastChunkOf(text) * CHUNK + 2 == CHUNK + k;
      DotsSplit(text, k);
      if DotsUpTo(a, CHUNK) && At(b, 0) == DOT {
        OneDotLostExactly(b);
        DotsShift(a, b);
        FrontEqual(a, Written(b), b[1..]);
      } else if Written(text) == text[1..] {
        FirstDotSpreads(text, WithoutLastCr(a), Written(b));
        assert false;
      }
    } else {
      assert LastChunkOf(text) == if |text| == CHUNK - 1 then 1 else 0;
    }
  }

  lemma DotsSplit(text: seq<byte>, k: nat)
    requires |text| >= CHUNK && k >= 1
    ensures DotsUpTo(text, CHUNK + k) <==> DotsUpTo(text[..CHUNK], CHUNK) && DotsUpTo(text[CHUNK..], k)
    ensures DotsUpTo(text[CHUNK..], k) ==> At(text[CHUNK..], 0) == DOT
  {
    var b := text[CHUNK..];
    if DotsUpTo(text[..CHUNK], CHUNK) && DotsUpTo(b, k) {
      forall i | 0 <= i < CHUNK + k ensures text[i] == DOT {
        assert if i < CHUNK then text[i] == text[..CHUNK][i] else text[i] == b[i - CHUNK];
      }
    }
    if DotsUpTo(text, CHUNK + k) {
      forall i | 0 <= i < k ensures b[i] == DOT {
        assert b[i] == text[CHUNK + i];
      }
    }
  }

  /** Dropping the first of a row of dots is dropping the last. */
  lemma DotsShift(a: seq<byte>, b: seq<byte>)
    requires a != [] && DotsUpTo(a, |a|) && At(b, 0) == DOT
    ensures (a + b)[1..] == a + b[1..] && WithoutLastCr(a) == a
  {
    assert forall i :: 0 <= i < |a| + |b| - 1 ==> (a + b)[1..][i] == (a + b[1..])[i];
  }

  /** When a text without its first byte starts with that text up to position k, all these bytes are the same. */
  lemma {:induction false} Spreads(text: seq<byte>, k: nat)
    requires k < |text| && forall i :: 0 <= i < k ==> text[i] == text[i + 1]
    ensures forall i :: 0 <= i <= k ==> text[i] == text[0]
    decreases k
  {
    if k > 0 {
      Spreads(text, k - 1);
      assert text[k - 1] == text[k - 1 + 1];
    }
  }

  lemma FirstDotSpreads(text: seq<byte>, front: seq<byte>, rest: seq<byte>)
    requires |text| >= CHUNK && At(text, 0) == DOT
    requires front == WithoutLastCr(text[..CHUNK]) && text[1..] == front + rest
    ensures DotsUpTo(text[..CHUNK], CHUNK) && At(text[CHUNK..], 0) == DOT
  {
    var a := text[..CHUNK];
    forall i | 0 <= i < |front| ensures text[i] == text[i + 1] {
      assert text[1..][i] == front[i] == a[i];
    }
    Spreads(text, |front|);
    assert a[CHUNK - 1] == text[CHUNK - 1] && text[|front|] == text[0];
    assert text[CHUNK..][0] == text[CHUNK];
  }

  /** A line is stored as it was sent exactly under that condition. */
  lemma LineReturnsExactly(line: seq<byte>)
    ensures Written(Stuff(line)) == line <==> ComesBack(line)
  {
    var text := Stuff(line);
    if At(line, 0) == DOT {
      assert text[1..] == line;
      OneDotLostExactly(text);
    } else {
      NothingLostExactly(text);
    }
  }

  lemma {:induction false} WrittenHasNoLf(text: seq<byte>)
    requires LF !in text
    ensures LF !in Written(text)
    decreases |text|
  {
    if |text| >= CHUNK {
      WrittenHasNoLf(text[CHUNK..]);
    }
  }

  /** Texts without LF can be read off the file they make. */
  lemma {:induction false} LocalInjective(a: seq<seq<byte>>, b: seq<seq<byte>>)
    requires |a| == |b| && forall i :: 0 <= i < |a| ==> LF !in a[i] && LF !in b[i]
    ensures Local(a) == Local(b) <==> a == b
  {
    if a != [] {
      LocalInjective(a[1..], b[1..]);
      SameFirst(a[0], Local(a[1..]), b[0], Local(b[1..]));
      assert a == [a[0]] + a[1..] && b == [b[0]] + b[1..];
    }
  }

  lemma SameFirst(a: seq<byte>, more: seq<byte>, b: seq<byte>, more': seq<byte>)
    requires LF !in a && LF !in b
    ensures a + [LF] + more == b + [LF] + more' <==> a == b && more == more'
  {
    var s, t := a + [LF] + more, b + [LF] + more';
    if s == t {
      assert forall i :: 0 <= i < |a| ==> s[i] == a[i];
      assert forall i :: 0 <= i < |b| ==> t[i] == b[i];
      assert s[|a|] == LF && t[|b|] == LF;
      assert s[..|a|] == a && t[..|b|] == b;
      assert s[|a| + 1..] == more && t[|b| + 1..] == more';
    }
  }

  /** Un-stuffing undoes stuffing for a body exactly when each of its lines comes back, however long they are. */
  lemma BodyReturnsExactly(lines: seq<seq<byte>>)
    requires IsBody(lines)
    ensures DecodeFile(Encode(lines)) == Local(lines) <==> forall i :: 0 <= i < |lines| ==> ComesBack(lines[i])
  {
    hide DecodeFile, Encode, Written, ComesBack, Stuff;
    BodyIsWritten(lines);
    var w := WrittenAll(lines);
    forall i | 0 <= i < |lines| ensures LF !in w[i] && LF !in lines[i] && (w[i] == lines[i] <==> ComesBack(lines[i])) {
      assert IsTextLine(lines[i]);
      StuffedIsText(lines[i]);
      WrittenHasNoLf(Stuff(lines[i]));
      LineReturnsExactly(lines[i]);
    }
    LocalInjective(w, lines);
  }

  /** Lines that fit the buffer with their line end and the dot they may get come back. */
  lemma ShortLinesComeBack(line: seq<byte>)
    requires |Stuff(line) + CRLF| < BUFFSIZE
    ensures ComesBack(line)
  {
    var text := Stuff(line);
    assert LastChunkOf(text) == 0;
    assert forall i :: 0 < i ==> i * CHUNK > |text|;
  }

  lemma DecodeUndoesEncode(lines: seq<seq<byte>>)
    requires IsBody(lines) && forall i :: 0 <= i < |lines| ==> |Stuff(lines[i]) + CRLF| < BUFFSIZE
    ensures DecodeFile(Encode(lines)) == Local(lines)
  {
    hide ComesBack;
    BodyReturnsExactly(lines);
    forall i | 0 <= i < |lines| ensures ComesBack(lines[i]) {
      ShortLinesComeBack(lines[i]);
    }
  }

  /** A longer line that starts with a single dot keeps both the dots it has on the wire. */
  lemma LongDotLineKeepsBothDots(line: seq<byte>)
    requires At(line, 0) == DOT && At(line, 1) != DOT && |Stuff(line) + CRLF| >= BUFFSIZE
    ensures !ComesBack(line)
  {
    assert Stuff(line)[2] != DOT;
  }

  /** A line with a CR as its byte 8191 loses it. */
  lemma CrAtChunkEndIsLost(line: seq<byte>)
    requires |line| >= CHUNK && line[CHUNK - 1] == CR && line[0] != DOT
    ensures !ComesBack(line)
  {
    assert 1 * CHUNK <= |line|;
  }

  /** After any LF on the wire comes the wire form of some remaining lines, or nothing. */
  lemma {:induction false} LineStart(lines: seq<seq<byte>>, i: nat) returns (j: nat)
    requires IsBody(lines) && i < |Wire(lines)| && Wire(lines)[i] == LF
    ensures j <= |lines|
    ensures i + 1 == |Wire(lines)| || Wire(lines)[i + 1..] == Wire(lines[j..])
  {
    j := 0;
    if lines != [] {
      var line := Stuff(lines[0]) + CRLF;
      assert IsTextLine(lines[0]);
      assert Wire(lines) == line + Wire(lines[1..]);
      if i < |line| - 1 {
        assert false;
      } else if i == |line| - 1 {
        j := 1;
      } else {
        var m := LineStart(lines[1..], i - |line|);
        j := m + 1;
        assert lines[1..][m..] == lines[j..];
      }
    }
  }

  lemma StuffedLineIsNotTerminator(lines: seq<seq<byte>>)
    requires IsBody(lines) && lines != []
    ensures !(TERMINATOR <= Wire(lines))
  {
    assert IsTextLine(lines[0]);
    assert Wire(lines)[0] == (Stuff(lines[0]) + CRLF)[0];
    assert Wire(lines)[1] == (Stuff(lines[0]) + CRLF)[1];
  }

  /** The stuffed body hides the terminator: the stream is terminated only at its very end. */
  lemma WireTerminatedOnlyAtEnd(lines: seq<seq<byte>>)
    requires IsBody(lines)
    ensures TerminatedOnlyAtEnd(Wire(lines), TERMINATOR)
  {
    var wire := Wire(lines);
    WireEndsInTerminator(lines);
    forall k | 0 < k < |wire| ensures !Terminated(wire[..k], TERMINATOR) {
      var prefix := wire[..k];
      if prefix == TERMINATOR {
        if lines != [] {
          StuffedLineIsNotTerminator(lines);
        }
      } else if EndsWith(prefix, CRLF + TERMINATOR) {
        assert prefix[k - 5..] == CRLF + TERMINATOR;
        assert wire[k - 4] == prefix[k - 5..][1] == LF;
        var j := LineStart(lines, k - 4);
        assert wire[k - 3..][..3] == prefix[k - 5..][2..] == TERMINATOR;
        if j < |lines| {
          StuffedLineIsNotTerminator(lines[j..]);
        }
      }
    }
  }

  lemma WireEndsInTerminator(lines: seq<seq<byte>>)
    ensures Terminated(Wire(lines), TERMINATOR)
  {
    if lines != [] {
      EncodeEndsInCrlf(lines);
      var wire := Wire(lines);
      assert wire[|wire| - 5..] == CRLF + TERMINATOR;
    }
  }

  lemma {:induction false} EncodeEndsInCrlf(lines: seq<seq<byte>>)
    requires lines != []
    ensures EndsWith(Encode(lines), CRLF)
  {
    var line := Stuff(lines[0]) + CRLF;
    if |lines| > 1 {
      EncodeEndsInCrlf(lines[1..]);
      assert Encode(lines) == line + Encode(lines[1..]);
    } else {
      assert Encode(lines) == line;
    }
  }

  /**
   End to end: however the wire form of a message is cut into reads, part of it perhaps
   read together with the status line, it is stored only when the last byte has come, and
   the stored file is the message with LF line ends exactly when each of its lines is one
   that comes back.
   */
  method RetrieveMessage(s: Session, ghost lines: seq<seq<byte>>, wire: seq<byte>, stalls: nat)
    returns (file: Option<seq<byte>>)
    requires s.Idle() && IsBody(lines)
    requires s.Pending() + wire == Wire(lines)
    modifies s, s.readBuf
    ensures s.Idle() && s.readBufLen == 0
    ensures file == Some(Local(WrittenAll(lines)))
    ensures file == Some(Local(lines)) <==> forall i :: 0 <= i < |lines| ==> ComesBack(lines[i])
  {
    hide ComesBack, DecodeFile, Local, Encode;
    WireTerminatedOnlyAtEnd(lines);
    s.RecvDataAsFile(TERMINATOR);
    var delivered := ReceiveFile(s, wire, stalls);
    assert delivered + TERMINATOR == Encode(lines) + TERMINATOR;
    assert delivered == (delivered + TERMINATOR)[..|delivered|] == Encode(lines);
    BodyIsWritten(lines);
    BodyReturnsExactly(lines);
    file := WriteMsgToFile(delivered, true);
  }
}
