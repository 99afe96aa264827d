/** Export to and import from an mbox file (mbox.c). */
module Mbox {
  import opened Bytes
  import opened Fgets

  /** What one fgets gave. */
  type Line = seq<byte>

  const FROM: Line := [70, 114, 111, 109, 32]
  const GT: byte := 62
  const COLON: byte := 58
  const EMPTY_LINE: Line := [LF]

  predicate IsFrom(l: Line)
  {
    FROM <= l
  }

  predicate IsQuotedFrom(l: Line)
  {
    l != [] && l[0] == GT && IsFrom(l[1..])
  }

  /** The import takes a line that starts with CR for an empty one as well. */
  predicate IsEmpty(l: Line)
  {
    At(l, 0) == LF || At(l, 0) == CR
  }

  /** is_header_line: a colon, not at the start, before the first space. */
  predicate IsHeaderLine(l: Line)
  {
    At(l, 0) != COLON && ColonFirst(l)
  }

  predicate ColonFirst(l: Line)
  {
    l != [] && l[0] != SPACE && l[0] != NUL && (l[0] == COLON || ColonFirst(l[1..]))
  }

  predicate ColonAt(l: Line, k: nat)
  {
    k < |l| && l[k] == COLON && forall j :: 0 <= j < k ==> l[j] != SPACE && l[j] != NUL && l[j] != COLON
  }

  lemma {:induction false} ColonFirstIs(l: Line)
    ensures ColonFirst(l) <==> exists k: nat :: ColonAt(l, k)
    decreases |l|
  {
    if l != [] {
      var rest := l[1..];
      ColonFirstIs(rest);
      if l[0] == COLON {
        assert ColonAt(l, 0);
      } else if l[0] != SPACE && l[0] != NUL {
        forall k: nat ensures ColonAt(rest, k) <==> ColonAt(l, k + 1) {
          assert forall j :: 0 <= j < |rest| ==> rest[j] == l[j + 1];
          assert forall j :: 1 <= j < |l| ==> l[j] == rest[j - 1];
        }
        forall k: nat | ColonAt(l, k) ensures k > 0 && ColonAt(rest, k - 1) {
        }
      }
    }
  }

  /** A header line has a colon after something that is neither a space nor a colon all along. */
  lemma HeaderLineIs(l: Line)
    ensures IsHeaderLine(l) <==> exists k: nat :: k > 0 && ColonAt(l, k)
  {
    ColonFirstIs(l);
    if IsHeaderLine(l) {
      var k: nat :| ColonAt(l, k);
      assert k > 0;
    }
  }

  // ---- Export ----

  datatype Sender = Sender(address: seq<byte>, date: seq<byte>)

  /** The separator; ctime ends the date with LF. */
  function FromLine(s: Sender): Line
  {
    FROM + s.address + [SPACE] + s.date
  }

  function Escaped(l: Line): Line
  {
    if IsFrom(l) then [GT] + l else l
  }

  function EscapedAll(m: seq<Line>): seq<Line>
  {
    if m == [] then [] else [Escaped(m[0])] + EscapedAll(m[1..])
  }

  /** export_msgs_to_mbox on the bytes of the message files: after each one comes an LF, whether or not its last line is ended. */
  function Export(senders: seq<Sender>, texts: seq<seq<byte>>): seq<byte>
    requires |senders| == |texts|
  {
    if texts == [] then [] else ExportedText(senders[0], texts[0]) + Export(senders[1..], texts[1..])
  }

  function ExportedText(sender: Sender, text: seq<byte>): seq<byte>
  {
    FromLine(sender) + Join(EscapedAll(Lines(text))) + [LF]
  }

  // ---- Import ----

  function Unescaped(l: Line): Line
  {
    if IsQuotedFrom(l) then l[1..] else l
  }

  function Blanks(n: nat): (b: seq<Line>)
    ensures |b| == n
  {
    seq(n, _ => EMPTY_LINE)
  }

  /** How the body of a message ends: with the file, or with the separator and first line of the next one. */
  datatype Stop = End | NextMessage(separator: Line, first: Line, rest: seq<Line>)
  datatype Body = Body(lines: seq<Line>, stop: Stop)

  function Before(lines: seq<Line>, b: Body): Body
  {
    b.(lines := lines + b.lines)
  }

  /** The lines after the first one of a message; `empty` empty lines are held back. */
  function ReadBody(lines: seq<Line>, empty: nat): Body
    decreases |lines|, 1
  {
    if lines == [] then Body(Blanks(if empty > 0 then empty - 1 else 0), End)
    else if IsEmpty(lines[0]) then ReadBody(lines[1..], empty + 1)
    else if IsFrom(lines[0]) then ReadSeparator(lines, empty)
    else Before(Blanks(empty) + [Unescaped(lines[0])], ReadBody(lines[1..], 0))
  }

  /** A line that starts with "From ": a separator when a header follows. */
  function ReadSeparator(lines: seq<Line>, empty: nat): Body
    requires lines != []
    decreases |lines|, 0
  {
    var l := lines[0];
    if |lines| == 1 then Body(Blanks(empty) + [l], End)
    else
      var next := lines[1];
      if IsHeaderLine(next) then Body(Blanks(if empty > 0 then empty - 1 else 0), NextMessage(l, next, lines[2..]))
      else if IsFrom(next) then ReadSeparator(lines[1..], empty)
      else if IsQuotedFrom(next) then
        Body(Blanks(if empty > 0 then empty - 1 else 0), NextMessage(l, next[1..], lines[2..]))
      else Before(Blanks(empty) + [l] + (if next == [] then [] else [next]), ReadBody(lines[2..], 0))
  }

  function FirstWord(s: seq<byte>): seq<byte>
  {
    if s == [] || s[0] == SPACE then [] else [s[0]] + FirstWord(s[1..])
  }

  const RETURN_PATH: seq<byte> := [82, 101, 116, 117, 114, 110, 45, 80, 97, 116, 104, 58, 32]

  /** The separator turned into a header, as far as g_snprintf fits it into the line buffer. */
  function ReturnPath(separator: Line): Line
    requires IsFrom(separator)
  {
    Clipped(RETURN_PATH + Strip(FirstWord(separator[5..])) + [LF])
  }

  function Clipped(s: seq<byte>): seq<byte>
  {
    if |s| < BUFFSIZE then s else s[..BUFFSIZE - 1]
  }

  lemma {:induction false} BodyLeaves(lines: seq<Line>, empty: nat)
    ensures var stop := ReadBody(lines, empty).stop;
      stop.NextMessage? ==> |stop.rest| < |lines| && IsFrom(stop.separator)
    decreases |lines|, 1
  {
    if lines == [] {
    } else if IsEmpty(lines[0]) {
      BodyLeaves(lines[1..], empty + 1);
    } else if IsFrom(lines[0]) {
      SeparatorLeaves(lines, empty);
    } else {
      BodyLeaves(lines[1..], 0);
    }
  }

  lemma {:induction false} SeparatorLeaves(lines: seq<Line>, empty: nat)
    requires lines != [] && IsFrom(lines[0])
    ensures var stop := ReadSeparator(lines, empty).stop;
      stop.NextMessage? ==> |stop.rest| < |lines| && IsFrom(stop.separator)
    decreases |lines|, 0
  {
    if |lines| > 1 && !IsHeaderLine(lines[1]) {
      if IsFrom(lines[1]) {
        SeparatorLeaves(lines[1..], empty);
      } else if !IsQuotedFrom(lines[1]) {
        BodyLeaves(lines[2..], 0);
      }
    }
  }

  /** The texts of the messages from one separator on. */
  function ImportFrom(separator: Line, first: Line, rest: seq<Line>): seq<seq<byte>>
    requires IsFrom(separator)
    decreases |rest|
  {
    var b := ReadBody(rest, 0);
    BodyLeaves(rest, 0);
    [Join([ReturnPath(separator), first] + b.lines)]
    + match b.stop
      case End => []
      case NextMessage(s, f, r) => ImportFrom(s, f, r)
  }

  function ImportLines(lines: seq<Line>): Option<seq<seq<byte>>>
  {
    if lines == [] then None
    else if IsEmpty(lines[0]) then ImportLines(lines[1..])
    else if !IsFrom(lines[0]) || |lines| == 1 then None
    else Some(ImportFrom(lines[0], lines[1], lines[2..]))
  }

  /** proc_mbox_full on the bytes of the file, without filtering; None for a file it does not take. */
  function Import(file: seq<byte>): Option<seq<seq<byte>>>
  {
    ImportLines(Lines(file))
  }

  // ---- How a file is divided ----

  /** A line that starts with "From " separates two messages exactly when a header follows, or a quoted one. */
  predicate Separates(lines: seq<Line>)
  {
    |lines| >= 2 && IsFrom(lines[0]) && (IsHeaderLine(lines[1]) || IsQuotedFrom(lines[1]))
  }

  function Separators(lines: seq<Line>): nat
  {
    if lines == [] then 0 else (if Separates(lines) then 1 else 0) + Separators(lines[1..])
  }

  lemma FromIsOnlyFrom(l: Line)
    requires IsFrom(l)
    ensures !IsHeaderLine(l) && !IsQuotedFrom(l) && !IsEmpty(l)
  {
    FromIsNoHeader(l);
    assert l[0] == FROM[0];
  }

  /** A line that does not start with "From " separates nothing. */
  lemma NoSeparator(lines: seq<Line>)
    requires lines != [] && !IsFrom(lines[0])
    ensures Separators(lines) == Separators(lines[1..])
  {
  }

  lemma {:induction false} BodyStops(lines: seq<Line>, empty: nat)
    ensures var stop := ReadBody(lines, empty).stop;
      Separators(lines) == if stop.End? then 0 else 1 + Separators(stop.rest)
    decreases |lines|, 1
  {
    hide IsFrom, IsEmpty, IsHeaderLine, IsQuotedFrom, ReadSeparator, Separates, Unescaped, Blanks;
    if lines != [] {
      if IsFrom(lines[0]) {
        FromIsOnlyFrom(lines[0]);
        SeparatorStops(lines, empty);
      } else {
        NoSeparator(lines);
        BodyStops(lines[1..], if IsEmpty(lines[0]) then empty + 1 else 0);
      }
    }
  }

  lemma {:induction false} SeparatorStops(lines: seq<Line>, empty: nat)
    requires lines != [] && IsFrom(lines[0])
    ensures var stop := ReadSeparator(lines, empty).stop;
      Separators(lines) == if stop.End? then 0 else 1 + Separators(stop.rest)
    decreases |lines|, 0
  {
    hide IsFrom, IsEmpty, IsHeaderLine, IsQuotedFrom, ReadBody, Unescaped, Blanks;
    var rest := lines[1..];
    if |lines| == 1 {
      assert Separators(rest) == 0;
    } else if IsFrom(rest[0]) {
      FromIsOnlyFrom(rest[0]);
      SeparatorStops(rest, empty);
    } else {
      NoSeparator(rest);
      assert rest[1..] == lines[2..];
      BodyStops(lines[2..], 0);
    }
  }

  lemma {:induction false} ImportFromCounts(separator: Line, first: Line, rest: seq<Line>)
    requires IsFrom(separator)
    ensures |ImportFrom(separator, first, rest)| == 1 + Separators(rest)
    decreases |rest|
  {
    hide IsFrom, ReadBody, Separators, ReturnPath, Join;
    BodyStops(rest, 0);
    BodyLeaves(rest, 0);
    var stop := ReadBody(rest, 0).stop;
    if stop.NextMessage? {
      ImportFromCounts(stop.separator, stop.first, stop.rest);
    }
  }

  /** The first line that does not count as empty. */
  predicate Begins(lines: seq<Line>, k: nat)
  {
    k < |lines| && !IsEmpty(lines[k]) && forall i :: 0 <= i < k ==> IsEmpty(lines[i])
  }

  lemma {:induction false} ImportLinesBegins(lines: seq<Line>, k: nat)
    requires Begins(lines, k)
    ensures ImportLines(lines) == if IsFrom(lines[k]) && k + 1 < |lines|
      then Some(ImportFrom(lines[k], lines[k + 1], lines[k + 2..])) else None
    decreases k
  {
    hide IsFrom, IsEmpty, ImportFrom;
    if k > 0 {
      assert lines[1..][k - 1] == lines[k] && lines[1..][k..] == lines[k + 1..];
      assert forall i :: 0 <= i < k - 1 ==> lines[1..][i] == lines[i + 1];
      ImportLinesBegins(lines[1..], k - 1);
      if k + 1 < |lines| {
        assert lines[1..][k + 1..] == lines[k + 2..];
      }
    }
  }

  /**
   Any file: it is taken exactly when its first line that is not empty starts with "From "
   and is not the last one, and gives one message for that line and for each separator
   after the line behind it.
   */
  lemma ImportDivides(file: seq<byte>, k: nat)
    requires Begins(Lines(file), k)
    ensures var ls := Lines(file);
      && (Import(file).Some? <==> IsFrom(ls[k]) && k + 1 < |ls|)
      && (Import(file).Some? ==> |Import(file).value| == 1 + Separators(ls[k + 2..]))
  {
    hide IsFrom, ImportFrom, Lines, Separators, Begins;
    var ls := Lines(file);
    BeginsInside(ls, k);
    ImportLinesBegins(ls, k);
    if IsFrom(ls[k]) && k + 1 < |ls| {
      ImportFromCounts(ls[k], ls[k + 1], ls[k + 2..]);
    }
  }

  lemma BeginsInside(lines: seq<Line>, k: nat)
    requires Begins(lines, k)
    ensures k < |lines|
  {
  }

  /** A file with empty lines alone is not taken. */
  lemma {:induction false} EmptyIsRefused(lines: seq<Line>)
    requires forall i :: 0 <= i < |lines| ==> IsEmpty(lines[i])
    ensures ImportLines(lines) == None
    decreases |lines|
  {
    if lines != [] {
      EmptyIsRefused(lines[1..]);
    }
  }

  // ---- The round trip ----

  /** What a line becomes on the way out and back in. */
  function Returned(l: Line): Line
  {
    if IsEmpty(l) then EMPTY_LINE else Unescaped(Escaped(l))
  }

  function ReturnedAll(m: seq<Line>): seq<Line>
  {
    if m == [] then [] else [Returned(m[0])] + ReturnedAll(m[1..])
  }

  predicate Survives(l: Line)
  {
    !IsQuotedFrom(l) && (IsEmpty(l) ==> l == EMPTY_LINE)
  }

  /** A line survives exactly when it does not start with a quoted "From " and, if it counts as empty, is just LF. */
  lemma LineSurvivesExactly(l: Line)
    ensures Returned(l) == l <==> Survives(l)
  {
    if IsFrom(l) {
      assert ([GT] + l)[1..] == l;
    }
  }

  lemma EscapedIsNoSeparator(l: Line)
    ensures !IsFrom(Escaped(l)) && IsEmpty(Escaped(l)) == IsEmpty(l)
  {
  }

  /** The lines written for a body, and the empty lines held back at its end. */
  function Held(m: seq<Line>, empty: nat): (seq<Line>, nat)
    decreases |m|
  {
    if m == [] then ([], empty)
    else if IsEmpty(m[0]) then Held(m[1..], empty + 1)
    else
      var (lines, held) := Held(m[1..], 0);
      (Blanks(empty) + [Unescaped(Escaped(m[0]))] + lines, held)
  }

  lemma {:induction false} HeldIsReturned(m: seq<Line>, empty: nat)
    ensures Held(m, empty).0 + Blanks(Held(m, empty).1) == Blanks(empty) + ReturnedAll(m)
    decreases |m|
  {
    hide Unescaped, Escaped, IsEmpty;
    if m == [] {
      assert [] + Blanks(empty) == Blanks(empty) + [];
    } else if IsEmpty(m[0]) {
      HeldIsReturned(m[1..], empty + 1);
      assert Blanks(empty + 1) == Blanks(empty) + [EMPTY_LINE];
      assert Blanks(empty) + [EMPTY_LINE] + ReturnedAll(m[1..]) == Blanks(empty) + ([EMPTY_LINE] + ReturnedAll(m[1..]));
    } else {
      HeldIsReturned(m[1..], 0);
      var (lines, held) := Held(m[1..], 0);
      assert Blanks(0) + ReturnedAll(m[1..]) == ReturnedAll(m[1..]);
      var l := Unescaped(Escaped(m[0]));
      assert (Blanks(empty) + [l] + lines) + Blanks(held) == Blanks(empty) + ([l] + (lines + Blanks(held)));
    }
  }

  /** Reading goes through an exported body without taking any of its lines for a separator. */
  lemma {:induction false} BodyGoesThrough(m: seq<Line>, rest: seq<Line>, empty: nat)
    ensures ReadBody(EscapedAll(m) + rest, empty) == Before(Held(m, empty).0, ReadBody(rest, Held(m, empty).1))
    decreases |m|
  {
    hide Escaped, Unescaped, IsEmpty, IsFrom;
    var lines := EscapedAll(m) + rest;
    if m == [] {
      assert lines == rest && [] + ReadBody(rest, empty).lines == ReadBody(rest, empty).lines;
    } else {
      EscapedIsNoSeparator(m[0]);
      assert lines[0] == Escaped(m[0]) && lines[1..] == EscapedAll(m[1..]) + rest;
      if IsEmpty(m[0]) {
        BodyGoesThrough(m[1..], rest, empty + 1);
      } else {
        BodyGoesThrough(m[1..], rest, 0);
        var a, b, c := Blanks(empty) + [Unescaped(Escaped(m[0]))], Held(m[1..], 0).0, ReadBody(rest, Held(m[1..], 0).1);
        assert a + (b + c.lines) == (a + b) + c.lines;
      }
    }
  }

  lemma {:induction false} HeldEnds(m: seq<Line>, empty: nat)
    requires forall i :: 0 <= i < |m| ==> m[i] != []
    ensures var lines := Held(m, empty).0; lines == [] || lines[|lines| - 1] != EMPTY_LINE
    decreases |m|
  {
    if m != [] {
      if IsEmpty(m[0]) {
        HeldEnds(m[1..], empty + 1);
      } else {
        HeldEnds(m[1..], 0);
        TextIsNotBlank(m[0]);
        hide Escaped, Unescaped, IsEmpty;
      }
    }
  }

  lemma TextIsNotBlank(l: Line)
    requires l != [] && !IsEmpty(l)
    ensures Unescaped(Escaped(l)) != EMPTY_LINE
  {
    if IsFrom(l) {
      assert ([GT] + l)[1..] == l;
    } else if IsQuotedFrom(l) {
      assert l[1] == FROM[0];
    }
  }

  /** The import drops one empty line at the end of a message. */
  function WithoutLastBlank(m: seq<Line>): seq<Line>
  {
    if m != [] && m[|m| - 1] == EMPTY_LINE then m[..|m| - 1] else m
  }

  /** What stands after the lines of a message: the end, or a separator and a header. */
  predicate Follows(rest: seq<Line>)
  {
    rest == [] || (|rest| >= 2 && IsFrom(rest[0]) && IsHeaderLine(rest[1]))
  }

  lemma AfterBody(rest: seq<Line>, held: nat)
    requires Follows(rest)
    ensures ReadBody(rest, held)
         == Body(Blanks(if held > 0 then held - 1 else 0), if rest == [] then End else NextMessage(rest[0], rest[1], rest[2..]))
  {
    if rest != [] {
      assert rest[0][0] == 70 && !IsEmpty(rest[0]);
      hide IsHeaderLine, IsEmpty, IsFrom;
      assert ReadBody(rest, held) == ReadSeparator(rest, held);
    }
  }

  lemma BlanksDropped(lines: seq<Line>, held: nat)
    requires lines == [] || lines[|lines| - 1] != EMPTY_LINE
    ensures WithoutLastBlank(lines + Blanks(held)) == lines + Blanks(if held > 0 then held - 1 else 0)
  {
    if held > 0 {
      assert Blanks(held) == Blanks(held - 1) + [EMPTY_LINE];
      assert lines + Blanks(held) == (lines + Blanks(held - 1)) + [EMPTY_LINE];
    } else {
      assert lines + Blanks(0) == lines;
    }
  }

  /** The lines of a message come back one by one, except that an empty last line is dropped. */
  lemma BodyIsRead(m: seq<Line>, rest: seq<Line>)
    requires Follows(rest) && forall i :: 0 <= i < |m| ==> m[i] != []
    ensures ReadBody(EscapedAll(m) + rest, 0)
         == Body(WithoutLastBlank(ReturnedAll(m)), if rest == [] then End else NextMessage(rest[0], rest[1], rest[2..]))
  {
    hide EscapedAll, ReadBody, ReturnedAll, Held, Blanks, Before, IsHeaderLine, IsFrom, WithoutLastBlank;
    var (lines, held) := Held(m, 0);
    var stop := if rest == [] then End else NextMessage(rest[0], rest[1], rest[2..]);
    BodyGoesThrough(m, rest, 0);
    AfterBody(rest, held);
    HeldIsReturned(m, 0);
    NoBlanks(ReturnedAll(m));
    HeldEnds(m, 0);
    BlanksDropped(lines, held);
    BeforeIs(lines, Body(Blanks(if held > 0 then held - 1 else 0), stop));
  }

  lemma NoBlanks(s: seq<Line>)
    ensures Blanks(0) + s == s
  {
  }

  lemma BeforeIs(lines: seq<Line>, b: Body)
    ensures Before(lines, b) == Body(lines + b.lines, b.stop)
  {
  }

  /**
   The lines that a message and the LF after it make: an empty line more, or an unended
   last line ended, unless that one fills the buffer.
   */
  function Closed(m: seq<Line>): (c: seq<Line>)
    ensures c != []
  {
    if m == [] || IsEnded(m[|m| - 1]) then m + [EMPTY_LINE]
    else m[..|m| - 1] + [m[|m| - 1] + [LF]]
  }

  /** An LF after it is read for itself. */
  predicate IsEnded(l: Line)
  {
    l == [] || l[|l| - 1] == LF || |l| >= BUFFSIZE - 1
  }

  /** Closed lines that are read as they were written, also with the '>' they may get; the first of them a header. */
  predicate Exportable(c: seq<Line>)
  {
    && c != [] && IsHeaderLine(c[0])
    && AreChunks(c) && AreChunks(EscapedAll(c))
  }

  predicate AllExportable(cs: seq<seq<Line>>)
  {
    forall i :: 0 <= i < |cs| ==> Exportable(cs[i])
  }

  function ExportLines(senders: seq<Sender>, cs: seq<seq<Line>>): seq<Line>
    requires |senders| == |cs|
  {
    if cs == [] then []
    else [FromLine(senders[0])] + EscapedAll(cs[0]) + ExportLines(senders[1..], cs[1..])
  }

  /** The text an import gives for one message: the added header, the first line as it was, the other lines as they return. */
  function ImportedText(sender: Sender, c: seq<Line>): seq<byte>
    requires c != [] && IsFrom(FromLine(sender))
  {
    Join([ReturnPath(FromLine(sender)), c[0]] + WithoutLastBlank(ReturnedAll(c[1..])))
  }

  function Imported(senders: seq<Sender>, cs: seq<seq<Line>>): seq<seq<byte>>
    requires |senders| == |cs| && AllExportable(cs)
  {
    if cs == [] then []
    else
      FromLineIsFrom(senders[0]);
      [ImportedText(senders[0], cs[0])] + Imported(senders[1..], cs[1..])
  }

  lemma FromIsNoHeader(l: Line)
    requires IsFrom(l)
    ensures !IsHeaderLine(l)
  {
    NoColonYet(l, 0);
    NoColonYet(l, 1);
    NoColonYet(l, 2);
    NoColonYet(l, 3);
    assert l[4] == FROM[4] == SPACE && l[0..] == l;
    assert !ColonFirst(l[4..]);
  }

  lemma NoColonYet(l: Line, i: nat)
    requires IsFrom(l) && i < 4
    ensures ColonFirst(l[i..]) == ColonFirst(l[i + 1..])
  {
    assert l[i] == FROM[i] && l[i..][1..] == l[i + 1..];
  }

  lemma EscapedStarts(m: seq<Line>)
    requires m != [] && IsHeaderLine(m[0])
    ensures EscapedAll(m) == [m[0]] + EscapedAll(m[1..])
  {
    if IsFrom(m[0]) {
      FromIsNoHeader(m[0]);
    }
    hide IsHeaderLine, IsFrom;
  }

  lemma ExportStarts(senders: seq<Sender>, cs: seq<seq<Line>>)
    requires |senders| == |cs| > 0 && Exportable(cs[0])
    ensures cs[0] != [] && IsHeaderLine(cs[0][0])
    ensures ExportLines(senders, cs) == [FromLine(senders[0]), cs[0][0]]
      + (EscapedAll(cs[0][1..]) + ExportLines(senders[1..], cs[1..]))
  {
    EscapedStarts(cs[0]);
    hide IsHeaderLine, EscapedAll, FromLine;
    Regroup(FromLine(senders[0]), cs[0][0], EscapedAll(cs[0][1..]), ExportLines(senders[1..], cs[1..]));
  }

  lemma Regroup(from: Line, first: Line, body: seq<Line>, more: seq<Line>)
    ensures [from] + ([first] + body) + more == [from, first] + (body + more)
  {
  }

  lemma FromLineIsFrom(s: Sender)
    ensures IsFrom(FromLine(s)) && !IsEmpty(FromLine(s))
  {
  }

  lemma ExportFollows(senders: seq<Sender>, cs: seq<seq<Line>>)
    requires |senders| == |cs| && AllExportable(cs)
    ensures Follows(ExportLines(senders, cs)) && (cs == [] <==> ExportLines(senders, cs) == [])
  {
    hide Exportable;
    if cs != [] {
      ExportStarts(senders, cs);
      FromLineIsFrom(senders[0]);
      hide ExportLines, IsHeaderLine, IsFrom, EscapedAll;
    }
  }

  lemma {:induction false} ImportsEach(senders: seq<Sender>, cs: seq<seq<Line>>)
    requires |senders| == |cs| > 0 && AllExportable(cs)
    ensures var e := ExportLines(senders, cs);
      |e| >= 2 && IsFrom(e[0]) && !IsEmpty(e[0]) && ImportFrom(e[0], e[1], e[2..]) == Imported(senders, cs)
    decreases |cs|
  {
    hide ReadBody, ReturnPath, ExportLines, EscapedAll, ReturnedAll, WithoutLastBlank, IsHeaderLine, FromLine, IsFrom, IsEmpty, Exportable, Join;
    var senders', cs' := senders[1..], cs[1..];
    var rest := ExportLines(senders', cs');
    ExportStarts(senders, cs);
    FromLineIsFrom(senders[0]);
    ExportFollows(senders', cs');
    NoneEmpty(cs[0]);
    BodyIsRead(cs[0][1..], rest);
    assert ExportLines(senders, cs)[2..] == EscapedAll(cs[0][1..]) + rest;
    if cs' != [] {
      ImportsEach(senders', cs');
    }
  }

  lemma NoneEmpty(c: seq<Line>)
    requires Exportable(c)
    ensures forall i :: 0 <= i < |c[1..]| ==> c[1..][i] != []
  {
    assert forall i :: 0 <= i < |c| ==> IsChunk(c[i]);
  }

  // ---- The round trip on bytes ----

  /**
   A message file without NUL whose first line is a header, and in which no quote shifts the
   places where long lines are cut: a line or piece of a line that starts with "From ", with
   the '>' it gets and the LF it may lack, is shorter than the buffer.
   */
  predicate FitsBuffer(text: seq<byte>)
  {
    var m := Lines(text);
    && NulFree(text) && m != [] && IsHeaderLine(m[0])
    && forall i :: 0 <= i < |m| ==> QuoteFits(m[i])
  }

  predicate QuoteFits(l: Line)
  {
    IsFrom(l) ==> |l| + (if IsEnded(l) then 1 else 2) < BUFFSIZE
  }

  /** Such a file is read by the import in the pieces in which the export wrote it. */
  lemma FittingIsExportable(text: seq<byte>)
    requires FitsBuffer(text)
    ensures Exportable(Closed(Lines(text)))
  {
    hide Lines, QuoteFits, IsChunk, IsRest, IsHeaderLine, EscapedAll, IsEnded;
    var m := Lines(text);
    LinesOfText(text);
    var c := Closed(m);
    forall i | 0 <= i < |c| ensures IsChunk(c[i]) && IsChunk(Escaped(c[i])) {
      if i < |m| {
        assert m[i] == Lines(text)[i];
        assert IsChunk(m[i]) || IsRest(m[i]);
        assert QuoteFits(m[i]);
        if IsChunk(m[i]) {
          ChunkIsEnded(m[i]);
        }
        PieceFits(m[i]);
      } else {
        EmptyFits();
      }
    }
    HeaderEnded(m[0]);
    EscapedEach(c);
  }

  lemma EmptyFits()
    ensures IsChunk(EMPTY_LINE) && IsChunk(Escaped(EMPTY_LINE))
  {
  }

  lemma ChunkIsEnded(l: Line)
    requires IsChunk(l)
    ensures IsEnded(l) && l != []
  {
  }

  lemma PieceFits(l: Line)
    requires (IsChunk(l) || IsRest(l)) && QuoteFits(l)
    ensures var c := if IsEnded(l) then l else l + [LF];
      IsChunk(c) && IsChunk(Escaped(c))
  {
    hide IsFrom;
    if IsEnded(l) {
      QuotedChunk(l);
    } else {
      var c := l + [LF];
      assert c[..|l|] == l;
      EscapedEnded(l);
      QuotedChunk(c);
    }
  }

  lemma QuotedChunk(l: Line)
    requires IsChunk(l) && (Escaped(l) == l || |l| + 1 < BUFFSIZE)
    ensures IsChunk(Escaped(l))
  {
    hide IsFrom;
    var q := [GT] + l;
    assert q[..|q| - 1] == [GT] + l[..|l| - 1];
  }

  lemma {:induction false} HeaderEnded(l: Line)
    requires IsHeaderLine(l)
    ensures IsHeaderLine(l + [LF])
  {
    ColonStays(l);
  }

  lemma {:induction false} ColonStays(l: Line)
    requires ColonFirst(l)
    ensures ColonFirst(l + [LF])
  {
    if l[0] != COLON {
      ColonStays(l[1..]);
      assert (l + [LF])[1..] == l[1..] + [LF];
    }
  }

  lemma {:induction false} EscapedEach(m: seq<Line>)
    ensures |EscapedAll(m)| == |m| && forall i :: 0 <= i < |m| ==> EscapedAll(m)[i] == Escaped(m[i])
    decreases |m|
  {
    hide Escaped;
    if m != [] {
      EscapedEach(m[1..]);
    }
  }

  lemma {:induction false} EscapedAdds(a: seq<Line>, b: seq<Line>)
    ensures EscapedAll(a + b) == EscapedAll(a) + EscapedAll(b)
  {
    if a == [] {
      assert a + b == b;
    } else {
      assert (a + b)[1..] == a[1..] + b;
      EscapedAdds(a[1..], b);
      hide Escaped;
    }
  }

  lemma EscapedEnded(l: Line)
    ensures Escaped(l + [LF]) == Escaped(l) + [LF]
  {
    if IsFrom(l + [LF]) {
      assert (l + [LF])[4] == SPACE;
      assert FROM <= l;
      assert [GT] + (l + [LF]) == [GT] + l + [LF];
    }
  }

  /** The LF after a message closes its lines. */
  lemma ClosedOnFile(m: seq<Line>)
    ensures Join(EscapedAll(m)) + [LF] == Join(EscapedAll(Closed(m)))
  {
    hide IsFrom, Join, EscapedAll;
    if Closed(m) == m + [EMPTY_LINE] {
      EscapedAdds(m, [EMPTY_LINE]);
      EscapedOne(EMPTY_LINE);
      JoinAdds(EscapedAll(m), [EMPTY_LINE]);
      JoinOne(EMPTY_LINE);
    } else {
      var init, l := m[..|m| - 1], m[|m| - 1];
      assert m == init + [l];
      EscapedAdds(init, [l]);
      EscapedAdds(init, [l + [LF]]);
      EscapedOne(l);
      EscapedOne(l + [LF]);
      JoinAdds(EscapedAll(init), [Escaped(l)]);
      JoinAdds(EscapedAll(init), [Escaped(l + [LF])]);
      JoinOne(Escaped(l));
      JoinOne(Escaped(l + [LF]));
      EscapedEnded(l);
      assert Join(EscapedAll(init)) + (Escaped(l) + [LF]) == (Join(EscapedAll(init)) + Escaped(l)) + [LF];
    }
  }

  lemma EscapedOne(l: Line)
    ensures EscapedAll([l]) == [Escaped(l)]
    ensures l == EMPTY_LINE ==> Escaped(l) == l
  {
    assert EscapedAll([l][1..]) == [];
  }

  function AllClosed(texts: seq<seq<byte>>): (cs: seq<seq<Line>>)
    ensures |cs| == |texts|
    ensures forall i :: 0 <= i < |texts| ==> cs[i] == Closed(Lines(texts[i]))
  {
    if texts == [] then [] else [Closed(Lines(texts[0]))] + AllClosed(texts[1..])
  }

  /** The bytes of an export are those lines one after the other. */
  lemma {:induction false} ExportIsJoin(senders: seq<Sender>, texts: seq<seq<byte>>)
    requires |senders| == |texts|
    ensures Export(senders, texts) == Join(ExportLines(senders, AllClosed(texts)))
  {
    hide EscapedAll, Lines, Closed, FromLine, Join;
    if texts == [] {
      NothingJoined();
    } else {
      var cs := AllClosed(texts);
      var from, c, more := FromLine(senders[0]), EscapedAll(cs[0]), ExportLines(senders[1..], cs[1..]);
      ExportIsJoin(senders[1..], texts[1..]);
      assert cs[1..] == AllClosed(texts[1..]);
      ClosedOnFile(Lines(texts[0]));
      JoinAdds([from] + c, more);
      JoinAdds([from], c);
      JoinOne(from);
      var text := Join(EscapedAll(Lines(texts[0])));
      assert from + text + [LF] == from + (text + [LF]);
      assert Export(senders, texts) == ExportedText(senders[0], texts[0]) + Export(senders[1..], texts[1..]);
    }
  }

  lemma NothingJoined()
    ensures Join([]) == []
  {
  }

  lemma {:induction false} ExportedAreChunks(senders: seq<Sender>, cs: seq<seq<Line>>)
    requires |senders| == |cs| && AllExportable(cs)
    requires forall i :: 0 <= i < |senders| ==> IsLine(FromLine(senders[i]))
    ensures AreChunks(ExportLines(senders, cs))
  {
    hide FromLine, IsLine, IsChunk, EscapedAll;
    if cs != [] {
      ExportedAreChunks(senders[1..], cs[1..]);
      assert Exportable(cs[0]);
      LinesAreChunks([FromLine(senders[0])]);
      ChunksAdd([FromLine(senders[0])], EscapedAll(cs[0]));
      ChunksAdd([FromLine(senders[0])] + EscapedAll(cs[0]), ExportLines(senders[1..], cs[1..]));
    }
  }

  lemma ChunksAdd(a: seq<Line>, b: seq<Line>)
    requires AreChunks(a) && AreChunks(b)
    ensures AreChunks(a + b)
  {
  }

  /** Every export is read back as the same number of messages, in order, whatever the lines of their bodies hold. */
  lemma ImportOfExport(senders: seq<Sender>, texts: seq<seq<byte>>)
    requires |senders| == |texts| > 0
    requires forall i :: 0 <= i < |texts| ==> FitsBuffer(texts[i])
    requires forall i :: 0 <= i < |senders| ==> IsLine(FromLine(senders[i]))
    ensures AllExportable(AllClosed(texts))
    ensures Import(Export(senders, texts)) == Some(Imported(senders, AllClosed(texts)))
  {
    hide IsLine, FromLine, Closed, Exportable, Lines, ImportFrom, Imported, IsFrom, IsEmpty, Join, ExportLines, Export, FitsBuffer;
    var cs := AllClosed(texts);
    assert AllExportable(cs) by {
      forall i | 0 <= i < |cs| ensures Exportable(cs[i]) {
        FittingIsExportable(texts[i]);
      }
    }
    ExportIsJoin(senders, texts);
    ExportedAreChunks(senders, cs);
    ChunksOfJoin(ExportLines(senders, cs));
    ImportsEach(senders, cs);
  }

  lemma {:induction false} ImportedIs(senders: seq<Sender>, cs: seq<seq<Line>>)
    requires |senders| == |cs| && AllExportable(cs)
    ensures |Imported(senders, cs)| == |cs|
    ensures forall i :: 0 <= i < |cs| ==>
      cs[i] != [] && IsFrom(FromLine(senders[i])) && Imported(senders, cs)[i] == ImportedText(senders[i], cs[i])
    decreases |cs|
  {
    hide ImportedText, FromLine, IsFrom, Exportable;
    if cs != [] {
      ImportedIs(senders[1..], cs[1..]);
      NotEmpty(cs[0]);
      FromLineIsFrom(senders[0]);
    }
  }

  lemma NotEmpty(c: seq<Line>)
    requires Exportable(c)
    ensures c != []
  {
  }

  lemma {:induction false} ReturnedSame(m: seq<Line>)
    ensures |ReturnedAll(m)| == |m| && forall i :: 0 <= i < |m| ==> ReturnedAll(m)[i] == Returned(m[i])
    decreases |m|
  {
    hide Returned;
    if m != [] {
      ReturnedSame(m[1..]);
    }
  }

  /** A chunk that does not survive comes back shorter. */
  lemma LostChunkIsShorter(l: Line)
    requires IsChunk(l)
    ensures if Survives(l) then Returned(l) == l else |Returned(l)| < |l|
  {
    LineSurvivesExactly(l);
    if IsEmpty(l) {
      if |l| > 1 {
        assert l[0] == l[..|l| - 1][0];
      }
    } else if IsFrom(l) {
      assert ([GT] + l)[1..] == l;
    }
  }

  lemma {:induction false} ReturnedShrinks(m: seq<Line>)
    requires AreChunks(m)
    ensures |Join(ReturnedAll(m))| <= |Join(m)|
    ensures Join(ReturnedAll(m)) == Join(m) <==> forall i :: 0 <= i < |m| ==> Survives(m[i])
    decreases |m|
  {
    hide Returned, Survives, IsChunk;
    if m != [] {
      var rest := m[1..];
      LostChunkIsShorter(m[0]);
      ReturnedShrinks(rest);
      ReturnedFirst(m);
      JoinFirst(m);
      assert (forall i :: 0 <= i < |m| ==> Survives(m[i])) <==> Survives(m[0]) && forall i :: 0 <= i < |rest| ==> Survives(rest[i]) by {
        assert forall i :: 0 <= i < |rest| ==> rest[i] == m[i + 1];
        assert forall i :: 1 <= i < |m| ==> m[i] == rest[i - 1];
      }
      hide Join, ReturnedAll;
      if Survives(m[0]) {
        SameBehind(m[0], Join(ReturnedAll(rest)), Join(rest));
      }
    }
  }

  lemma ReturnedFirst(m: seq<Line>)
    requires m != []
    ensures Join(ReturnedAll(m)) == Returned(m[0]) + Join(ReturnedAll(m[1..]))
  {
    hide Returned;
    JoinFirst(ReturnedAll(m));
  }

  /** The condition a caller can check: the last line is ended, or fills the buffer, and every line after the first survives. */
  predicate ComesBack(text: seq<byte>)
  {
    var m := Lines(text);
    && m != [] && IsEnded(m[|m| - 1])
    && forall i :: 1 <= i < |m| ==> Survives(m[i])
  }

  /** The text of a message behind its added header. */
  function ReturnedText(c: seq<Line>): seq<byte>
    requires c != []
  {
    Join([c[0]] + WithoutLastBlank(ReturnedAll(c[1..])))
  }

  lemma LastOfJoin(m: seq<Line>)
    requires m != [] && m[|m| - 1] != []
    ensures Join(m) != [] && Join(m)[|Join(m)| - 1] == m[|m| - 1][|m[|m| - 1]| - 1]
  {
    var init, l := m[..|m| - 1], m[|m| - 1];
    assert m == init + [l];
    JoinAdds(init, [l]);
    JoinOne(l);
  }

  lemma EndedReturns(m: seq<Line>)
    requires m != [] && AreChunks(m)
    ensures ReturnedText(m + [EMPTY_LINE]) == Join(m) <==> forall i :: 1 <= i < |m| ==> Survives(m[i])
  {
    hide *;
    var body := m[1..];
    assert m == [m[0]] + body;
    ReturnedShrinks(body) by {
      RestIsChunks(m);
    }
    EndedText(m);
    JoinFirst(m);
    SameBehind(m[0], Join(ReturnedAll(body)), Join(body));
    assert forall i :: 1 <= i < |m| ==> m[i] == body[i - 1];
    assert forall i :: 0 <= i < |body| ==> body[i] == m[i + 1];
  }

  lemma RestIsChunks(m: seq<Line>)
    requires m != [] && AreChunks(m)
    ensures AreChunks(m[1..])
  {
  }

  lemma EndedText(m: seq<Line>)
    requires m != []
    ensures ReturnedText(m + [EMPTY_LINE]) == m[0] + Join(ReturnedAll(m[1..]))
  {
    hide Join, ReturnedAll, Returned;
    var body := m[1..];
    assert (m + [EMPTY_LINE])[1..] == body + [EMPTY_LINE];
    ReturnedLast(body, EMPTY_LINE);
    EmptyReturns();
    var r := ReturnedAll(body);
    assert (r + [EMPTY_LINE])[..|r|] == r && ([m[0]] + r)[1..] == r;
    JoinFirst([m[0]] + r);
  }

  lemma EmptyReturns()
    ensures Returned(EMPTY_LINE) == EMPTY_LINE
  {
  }

  lemma {:induction false} ReturnedLast(m: seq<Line>, l: Line)
    ensures ReturnedAll(m + [l]) == ReturnedAll(m) + [Returned(l)]
    decreases |m|
  {
    hide Returned;
    if m == [] {
      assert m + [l] == [l] && ReturnedAll([l][1..]) == [];
    } else {
      assert (m + [l])[1..] == m[1..] + [l];
      ReturnedLast(m[1..], l);
    }
  }

  /** The lines before an unended one, and that line ended. */
  lemma UnendedNeverReturns(init: seq<Line>, l: Line)
    requires AreChunks(init + [l + [LF]]) && l != [] && l[|l| - 1] != LF
    ensures ReturnedText(init + [l + [LF]]) != Join(init + [l])
  {
    hide Join, ReturnedAll, IsChunk, Returned, IsEmpty;
    var c, text := init + [l + [LF]], Join(init + [l]);
    JoinAdds(init, [l]);
    JoinOne(l);
    if init == [] {
      assert c[1..] == [] && ReturnedAll([]) == [] by {
        NothingReturned();
      }
      assert [c[0]] + WithoutLastBlank([]) == [l + [LF]];
      JoinOne(l + [LF]);
      assert Join(init) == [] by {
        NothingJoined();
      }
    } else {
      var mid := init[1..];
      assert c[1..] == mid + [l + [LF]];
      ReturnedLast(mid, l + [LF]);
      assert AreChunks(mid) by {
        assert forall i :: 0 <= i < |mid| ==> mid[i] == c[i + 1];
      }
      ReturnedShrinks(mid);
      JoinFirst(init);
      UnendedBody(init[0], ReturnedAll(mid), l, text, Join(mid));
    }
  }

  lemma NothingReturned()
    ensures ReturnedAll([]) == []
  {
  }

  lemma UnendedBody(first: Line, r: seq<Line>, l: Line, text: seq<byte>, mid: seq<byte>)
    requires l != [] && l[|l| - 1] != LF && |Join(r)| <= |mid| && text == first + mid + l
    ensures Join([first] + WithoutLastBlank(r + [Returned(l + [LF])])) != text
  {
    var last := Returned(l + [LF]);
    var body := WithoutLastBlank(r + [last]);
    if last == EMPTY_LINE {
      assert body == r && ([first] + r)[1..] == r;
      hide Join;
      JoinFirst([first] + r);
    } else {
      EndedLineStaysEnded(l);
      hide Returned;
      assert body == r + [last];
      var all := [first] + (r + [last]);
      assert all[|all| - 1] == last;
      LastOfJoin(all);
      hide Join;
      assert text[|text| - 1] == l[|l| - 1];
    }
  }

  lemma EndedLineStaysEnded(l: Line)
    requires l != []
    ensures var r := Returned(l + [LF]); r != [] && r[|r| - 1] == LF
  {
    var e := l + [LF];
    if IsFrom(e) {
      assert ([GT] + e)[1..] == e;
    }
  }

  /** A message comes back as it was, after its Return-Path line, exactly when its last line is ended and all after the first survive. */
  lemma MessageReturnsExactly(text: seq<byte>)
    requires FitsBuffer(text)
    ensures ReturnedText(Closed(Lines(text))) == text <==> ComesBack(text)
  {
    hide Lines, Join, ReturnedText, Survives, IsHeaderLine, EscapedAll, IsEnded, QuoteFits, IsChunk;
    var m := Lines(text);
    JoinOfLines(text);
    FittingIsExportable(text);
    if IsEnded(m[|m| - 1]) {
      FrontChunks(m);
      EndedReturns(m);
    } else {
      var init, l := m[..|m| - 1], m[|m| - 1];
      assert m == init + [l];
      UnendedIsOpen(l);
      UnendedNeverReturns(init, l);
    }
  }

  lemma UnendedIsOpen(l: Line)
    requires !IsEnded(l)
    ensures l != [] && l[|l| - 1] != LF
  {
  }

  lemma FrontChunks(m: seq<Line>)
    requires AreChunks(m + [EMPTY_LINE])
    ensures AreChunks(m)
  {
    assert forall i :: 0 <= i < |m| ==> m[i] == (m + [EMPTY_LINE])[i];
  }

  /**
   The round trip on bytes: each message comes back behind a Return-Path line of its own,
   byte for byte the same exactly when its last line is ended and its lines survive.
   */
  lemma RoundTripExactly(senders: seq<Sender>, texts: seq<seq<byte>>)
    requires |senders| == |texts| > 0
    requires forall i :: 0 <= i < |texts| ==> FitsBuffer(texts[i])
    requires forall i :: 0 <= i < |senders| ==> IsLine(FromLine(senders[i]))
    ensures var r := Import(Export(senders, texts));
      && r.Some? && |r.value| == |texts|
      && forall i :: 0 <= i < |texts| ==>
        && IsFrom(FromLine(senders[i]))
        && (r.value[i] == ReturnPath(FromLine(senders[i])) + texts[i] <==> ComesBack(texts[i]))
  {
    hide *;
    var cs := AllClosed(texts);
    ImportOfExport(senders, texts);
    ImportedIs(senders, cs);
    forall i | 0 <= i < |texts|
      ensures Imported(senders, cs)[i] == ReturnPath(FromLine(senders[i])) + texts[i] <==> ComesBack(texts[i])
    {
      MessageReturnsExactly(texts[i]);
      TextBehindHeader(senders[i], cs[i]);
      SameBehind(ReturnPath(FromLine(senders[i])), ReturnedText(cs[i]), texts[i]);
    }
  }

  lemma TextBehindHeader(s: Sender, c: seq<Line>)
    requires c != [] && IsFrom(FromLine(s))
    ensures ImportedText(s, c) == ReturnPath(FromLine(s)) + ReturnedText(c)
  {
    hide ReturnPath, FromLine, IsFrom, ReturnedAll;
    var head, rest := ReturnPath(FromLine(s)), WithoutLastBlank(ReturnedAll(c[1..]));
    assert [head, c[0]] + rest == [head] + ([c[0]] + rest);
    JoinAdds([head], [c[0]] + rest);
    JoinOne(head);
  }

  lemma SameBehind(head: seq<byte>, a: seq<byte>, b: seq<byte>)
    ensures head + a == head + b <==> a == b
  {
    assert (head + a)[|head|..] == a && (head + b)[|head|..] == b;
  }

  lemma {:induction false} WordBeforeSpace(a: seq<byte>, rest: seq<byte>)
    requires SPACE !in a && rest != [] && rest[0] == SPACE
    ensures FirstWord(a + rest) == a
    decreases |a|
  {
    if a == [] {
      assert a + rest == rest;
    } else {
      assert (a + rest)[1..] == a[1..] + rest;
      WordBeforeSpace(a[1..], rest);
    }
  }

  /** The added line names the sender, when the address has no white space and fits the line buffer. */
  lemma ReturnPathNamesSender(s: Sender)
    requires (forall c :: c in s.address ==> !IsSpace(c)) && |RETURN_PATH| + |s.address| + 1 < BUFFSIZE
    ensures IsFrom(FromLine(s)) && ReturnPath(FromLine(s)) == RETURN_PATH + s.address + [LF]
  {
    var l := FromLine(s);
    assert l[5..] == s.address + ([SPACE] + s.date);
    assert IsSpace(SPACE);
    WordBeforeSpace(s.address, [SPACE] + s.date);
  }

  // ---- Messages that do not come back ----

  const HEADER: Line := [65, COLON, LF]

  /** "A:", then a line that starts with CR: it comes back as an empty line. */
  lemma CrLineIsLost()
    ensures FitsBuffer([65, COLON, LF, CR, 120, LF]) && !ComesBack([65, COLON, LF, CR, 120, LF])
  {
    hide FgetsLength, Lines;
    var l := [CR, 120, LF];
    assert HEADER + l == [65, COLON, LF, CR, 120, LF];
    TwoLines(l);
    assert Lines(HEADER + l)[1] == l;
  }

  /** "A:", then ">From x": the quote is taken away. */
  lemma QuoteIsLost()
    ensures var l := [GT] + FROM + [120, LF];
      FitsBuffer(HEADER + l) && !ComesBack(HEADER + l)
  {
    hide FgetsLength, Lines;
    var l := [GT] + FROM + [120, LF];
    assert l == [GT, 70, 114, 111, 109, SPACE, 120, LF] && l[1..] == FROM + [120, LF];
    assert l[0] != FROM[0] && IsLine(l);
    TwoLines(l);
    assert Lines(HEADER + l)[1] == l;
  }

  const UNENDED: Line := [98]

  /** "A:", then "b" without LF: it comes back as "b" with LF. */
  lemma UnendedLineIsEnded()
    ensures Lines(HEADER + UNENDED) == [HEADER, UNENDED] && !ComesBack(HEADER + UNENDED)
    ensures ReturnedText(Closed([HEADER, UNENDED])) == HEADER + UNENDED + [LF]
  {
    var text := HEADER + UNENDED;
    assert text == [65, COLON] + [LF] + UNENDED;
    FgetsTakesLine([65, COLON], UNENDED, BUFFSIZE);
    assert FgetsLength(UNENDED, BUFFSIZE) == 1 by {
      assert UNENDED[1..] == [];
    }
    hide FgetsLength, ReturnedText;
    LinesStep(text, 3);
    LinesStep(UNENDED, 1);
    assert text[..3] == HEADER && text[3..] == UNENDED && UNENDED[..1] == UNENDED && Lines(UNENDED[1..]) == [];
    assert CString(HEADER) == HEADER && CString(UNENDED) == UNENDED;
    assert text[|text| - 1..][0] == 98;
    ClosedUnended(HEADER, UNENDED);
    PlainTextReturns(UNENDED + [LF]);
  }

  lemma ClosedUnended(first: Line, l: Line)
    requires !IsEnded(l)
    ensures Closed([first, l]) == [first, l + [LF]]
  {
    assert [first, l][..1] == [first];
  }

  lemma PlainTextReturns(l: Line)
    requires IsLine(l) && Survives(l) && !IsEmpty(l)
    ensures ReturnedText([HEADER, l]) == HEADER + l
  {
    LineSurvivesExactly(l);
    hide Returned, Survives, IsLine;
    assert [HEADER, l][1..] == [l] && ReturnedAll([l]) == [l] by {
      ReturnedSame([l]);
    }
    assert Join([HEADER] + [l]) == HEADER + Join([l]) by {
      assert ([HEADER] + [l])[1..] == [l];
    }
    JoinOne(l);
  }

  lemma HeaderIsHeader()
    ensures IsLine(HEADER) && IsHeaderLine(HEADER) && !IsFrom(HEADER)
  {
    assert ColonFirst(HEADER[1..]);
  }

  lemma TwoLines(l: Line)
    requires IsLine(l) && !IsFrom(l)
    ensures Lines(HEADER + l) == [HEADER, l] && FitsBuffer(HEADER + l)
  {
    hide FgetsLength, Lines, IsFrom, IsHeaderLine, QuoteFits;
    HeaderIsHeader();
    var m := [HEADER, l];
    LinesAreChunks(m);
    assert m[1..] == [l];
    JoinFirst(m);
    JoinOne(l);
    ChunksOfJoin(m);
    NoQuoteFits(HEADER);
    NoQuoteFits(l);
    assert NulFree(HEADER + l);
  }

  lemma NoQuoteFits(l: Line)
    requires !IsFrom(l)
    ensures QuoteFits(l)
  {
  }

  /** A line longer than the buffer whose second piece starts with CR: that piece counts as an empty line. */
  lemma CrAtPieceStartIsLost(piece: Line, end: Line)
    requires IsChunk(piece) && |piece| == BUFFSIZE - 1 && LF !in piece && !IsFrom(piece)
    requires IsLine(end) && end[0] == CR
    ensures FitsBuffer(HEADER + piece + end) && !ComesBack(HEADER + piece + end)
  {
    hide IsFrom, Lines, IsHeaderLine;
    LinesAreChunks([end]);
    assert IsChunk([end][0]);
    CrIsNoFrom(end);
    ThreeChunks(piece, end);
    assert Lines(HEADER + piece + end)[2] == end;
  }

  lemma CrIsNoFrom(l: Line)
    requires l != [] && l[0] == CR
    ensures !IsFrom(l) && !Survives(l)
  {
  }

  lemma ThreeChunks(a: Line, b: Line)
    requires IsChunk(a) && IsChunk(b) && !IsFrom(a) && !IsFrom(b)
    ensures Lines(HEADER + a + b) == [HEADER, a, b] && FitsBuffer(HEADER + a + b)
  {
    hide Lines, IsFrom, IsHeaderLine, IsChunk, IsLine, QuoteFits;
    HeaderIsHeader();
    LinesAreChunks([HEADER]);
    assert IsChunk([HEADER][0]);
    var m := [HEADER, a, b];
    JoinOfThree(HEADER, a, b);
    ChunksOfJoin(m);
    NoQuoteFits(HEADER);
    NoQuoteFits(a);
    NoQuoteFits(b);
    ChunkIsSome(a);
    ChunkIsSome(b);
    assert NulFree(HEADER);
  }

  lemma JoinOfThree(a: Line, b: Line, c: Line)
    ensures Join([a, b, c]) == a + b + c
  {
    assert [a, b, c][1..] == [b, c] && [b, c][1..] == [c];
    JoinOne(c);
    assert a + (b + c) == a + b + c;
  }

  lemma EscapedFour(a: Line, b: Line, c: Line, d: Line)
    ensures EscapedAll([a, b, c, d]) == [Escaped(a), Escaped(b), Escaped(c), Escaped(d)]
  {
    hide Escaped;
    EscapedOne(d);
    assert [c, d][1..] == [d] && EscapedAll([c, d]) == [Escaped(c), Escaped(d)];
    assert [b, c, d][1..] == [c, d] && EscapedAll([b, c, d]) == [Escaped(b), Escaped(c), Escaped(d)];
    assert [a, b, c, d][1..] == [b, c, d];
  }

  const SECOND: Line := [66, COLON, LF]

  const TAIL: Line := [114, 111, 109, SPACE, 120, LF]
  const FROM_X: Line := [70, 114, 111, 109, SPACE, 120, LF]

  /**
   A line that starts with "From " and is longer than the buffer gets one '>', which moves
   the places where its later pieces begin by one byte. Here "From x" begins a piece only
   then, and is taken for a separator: one message exported, two imported.
   */
  lemma ShiftedPieceSplits(s: Sender, y: seq<byte>)
    requires IsLine(FromLine(s)) && |y| == BUFFSIZE - 2 - |FROM| && NulFree(y) && LF !in y
    ensures var i := Import(Export([s], [HEADER + (FROM + y + FROM_X) + SECOND]));
      i.Some? && |i.value| == 2
  {
    hide IsLine, IsFrom, Import, Export, FromLine, IsChunk;
    FromLineIsFrom(s);
    PiecesAreChunks(y);
    ExportSplit(s, y);
    ImportSplit(FromLine(s), [GT] + FROM + y);
  }

  lemma PiecesAreChunks(y: seq<byte>)
    requires |y| == BUFFSIZE - 2 - |FROM| && NulFree(y) && LF !in y
    ensures IsChunk(FROM + y + [70]) && IsFrom(FROM + y + [70])
    ensures IsChunk([GT] + FROM + y) && !IsFrom([GT] + FROM + y) && !IsEmpty([GT] + FROM + y)
  {
    assert FROM <= FROM + y + [70];
    assert ([GT] + FROM + y)[0] == GT;
  }

  lemma ShortLines()
    ensures IsLine(TAIL) && !IsFrom(TAIL) && IsLine(FROM_X) && IsFrom(FROM_X) && !IsEmpty(FROM_X)
    ensures IsLine(SECOND) && IsHeaderLine(SECOND) && !IsFrom(SECOND)
    ensures IsLine(EMPTY_LINE) && IsEmpty(EMPTY_LINE)
  {
    assert ColonFirst(SECOND[1..]);
    assert TAIL[0] != FROM[0] && SECOND[0] != FROM[0];
    assert FROM_X == FROM + [120, LF];
  }

  lemma FourLines(a: Line)
    requires IsChunk(a) && IsFrom(a)
    ensures Lines(HEADER + a + TAIL + SECOND) == [HEADER, a, TAIL, SECOND]
    ensures EscapedAll([HEADER, a, TAIL, SECOND]) == [HEADER, [GT] + a, TAIL, SECOND]
  {
    hide IsLine, IsFrom, IsChunk, Lines, IsHeaderLine, Join, EscapedAll;
    ShortLines();
    HeaderIsHeader();
    LinesAreChunks([HEADER, TAIL, SECOND]);
    assert IsChunk([HEADER, TAIL, SECOND][0]) && IsChunk([HEADER, TAIL, SECOND][1]) && IsChunk([HEADER, TAIL, SECOND][2]);
    ChunksOfJoin([HEADER, a, TAIL, SECOND]);
    JoinOfFour(HEADER, a, TAIL, SECOND);
    EscapedFour(HEADER, a, TAIL, SECOND);
  }

  lemma JoinOfFour(a: Line, b: Line, c: Line, d: Line)
    ensures Join([a, b, c, d]) == a + b + c + d
  {
    JoinOfThree(a, b, c);
    JoinOne(d);
    JoinAdds([a, b, c], [d]);
    hide Join;
    assert [a, b, c] + [d] == [a, b, c, d];
  }

  lemma NoMore(s: Sender, text: seq<byte>)
    ensures Export([s], [text]) == ExportedText(s, text)
  {
    hide ExportedText;
    var none: seq<byte> := [];
    assert Export([s][1..], [text][1..]) == none;
    assert ExportedText(s, text) + none == ExportedText(s, text);
  }

  /** The pieces that the export reads, and the bytes it writes. */
  lemma ExportSplit(s: Sender, y: seq<byte>)
    requires IsChunk(FROM + y + [70]) && IsFrom(FROM + y + [70])
    ensures Export([s], [HEADER + (FROM + y + FROM_X) + SECOND])
         == Join([FromLine(s), HEADER, [GT] + FROM + y, FROM_X, SECOND, EMPTY_LINE])
  {
    hide IsFrom, FromLine, IsChunk, Lines, EscapedAll, Join;
    var a, from, text := FROM + y + [70], FromLine(s), HEADER + (FROM + y + FROM_X) + SECOND;
    FourLines(a);
    assert text == HEADER + a + TAIL + SECOND;
    JoinOfFour(HEADER, [GT] + a, TAIL, SECOND);
    NoMore(s, text);
    hide ExportedText;
    JoinOfThree(from, HEADER, [GT] + FROM + y);
    JoinOfThree(FROM_X, SECOND, EMPTY_LINE);
    JoinAdds([from, HEADER, [GT] + FROM + y], [FROM_X, SECOND, EMPTY_LINE]);
    assert [from, HEADER, [GT] + FROM + y] + [FROM_X, SECOND, EMPTY_LINE]
        == [from, HEADER, [GT] + FROM + y, FROM_X, SECOND, EMPTY_LINE];
    assert Export([s], [text]) == from + (HEADER + ([GT] + a) + TAIL + SECOND) + [LF];
    assert ([GT] + a) + TAIL == ([GT] + FROM + y) + FROM_X;
    assert from + (HEADER + ([GT] + a) + TAIL + SECOND) + [LF]
        == from + HEADER + (([GT] + a) + TAIL) + SECOND + EMPTY_LINE;
  }

  lemma ImportSplit(from: Line, q: Line)
    requires IsLine(from) && IsFrom(from) && !IsEmpty(from)
    requires IsChunk(q) && !IsFrom(q) && !IsEmpty(q)
    ensures var i := Import(Join([from, HEADER, q, FROM_X, SECOND, EMPTY_LINE]));
      i.Some? && |i.value| == 2
  {
    hide IsLine, IsFrom, IsChunk, Lines, IsHeaderLine, Join, IsEmpty, ReadBody, ImportFrom;
    ShortLines();
    HeaderIsHeader();
    LinesAreChunks([from, HEADER, FROM_X, SECOND, EMPTY_LINE]);
    var ls := [from, HEADER, q, FROM_X, SECOND, EMPTY_LINE];
    assert AreChunks(ls) by {
      assert forall i :: 0 <= i < |ls| && i != 2 ==> ls[i] == [from, HEADER, FROM_X, SECOND, EMPTY_LINE][if i < 2 then i else i - 1];
    }
    ChunksOfJoin(ls);
    assert ls[2..] == [q, FROM_X, SECOND, EMPTY_LINE];
    ReadSplit(from, q);
  }

  lemma ReadSplit(from: Line, q: Line)
    requires IsFrom(from) && !IsFrom(q) && !IsEmpty(q)
    ensures |ImportFrom(from, HEADER, [q, FROM_X, SECOND, EMPTY_LINE])| == 2
  {
    hide IsFrom, IsHeaderLine, Join, IsEmpty, Unescaped, ReturnPath;
    ShortLines();
    var rest := [q, FROM_X, SECOND, EMPTY_LINE];
    assert rest[1..] == [FROM_X, SECOND, EMPTY_LINE] && rest[1..][2..] == [EMPTY_LINE];
    assert ReadBody(rest[1..], 0) == ReadSeparator(rest[1..], 0);
    assert ReadBody(rest, 0).stop == NextMessage(FROM_X, SECOND, [EMPTY_LINE]);
    assert [EMPTY_LINE][1..] == [];
    assert ReadBody([EMPTY_LINE], 0).stop == End;
    assert |ImportFrom(FROM_X, SECOND, [EMPTY_LINE])| == 1;
  }

  // ---- The code ----

  /** One exported message: each line is read, and written with a '>' before it where it needs one. */
  method ExportMessage(sender: Sender, text: seq<byte>, file: seq<byte>) returns (file': seq<byte>)
    ensures file' == file + ExportedText(sender, text)
  {
    hide IsFrom, FromLine, FgetsLength, Lines, EscapedAll;
    file' := file + FromLine(sender);
    ghost var start, body := file', Join(EscapedAll(Lines(text)));
    var rest := text;
    while rest != []
      invariant file' + Join(EscapedAll(Lines(rest))) == start + body
      decreases |rest|
    {
      var n := FgetsLength(rest, BUFFSIZE);
      var buf := CString(rest[..n]);
      ExportStep(rest, n, buf);
      ghost var before, more := file', Join(EscapedAll(Lines(rest[n..])));
      if IsFrom(buf) {
        file' := file' + [GT];
      }
      file' := file' + buf;
      assert before + (Escaped(buf) + more) == file' + more;
      rest := rest[n..];
    }
    assert Join(EscapedAll(Lines([]))) == [] by {
      NothingExported();
    }
    file' := file' + [LF];
    assert file + (FromLine(sender) + body + [LF]) == (file + FromLine(sender)) + body + [LF];
  }

  lemma NothingExported()
    ensures Join(EscapedAll(Lines([]))) == []
  {
  }

  lemma ExportStep(rest: seq<byte>, n: nat, buf: seq<byte>)
    requires rest != [] && n == FgetsLength(rest, BUFFSIZE) && buf == CString(rest[..n])
    ensures Join(EscapedAll(Lines(rest))) == Escaped(buf) + Join(EscapedAll(Lines(rest[n..])))
  {
    hide FgetsLength, CString, Lines, Escaped;
    LinesStep(rest, n);
    var more := Lines(rest[n..]);
    assert ([buf] + more)[1..] == more;
    assert ([Escaped(buf)] + EscapedAll(more))[1..] == EscapedAll(more);
  }

  /** export_msgs_to_mbox */
  method ExportMessages(senders: seq<Sender>, texts: seq<seq<byte>>) returns (file: seq<byte>)
    requires |senders| == |texts|
    ensures file == Export(senders, texts)
  {
    hide ExportedText;
    file := [];
    var i := 0;
    assert senders[0..] == senders && texts[0..] == texts;
    while i < |texts|
      invariant 0 <= i <= |texts| && file + Export(senders[i..], texts[i..]) == Export(senders, texts)
      decreases |texts| - i
    {
      assert senders[i..][1..] == senders[i + 1..] && texts[i..][1..] == texts[i + 1..];
      ghost var more := Export(senders[i + 1..], texts[i + 1..]);
      assert file + (ExportedText(senders[i], texts[i]) + more) == (file + ExportedText(senders[i], texts[i])) + more;
      file := ExportMessage(senders[i], texts[i], file);
      i := i + 1;
    }
  }

  /** The held-back empty lines, all of them or all but the last. */
  method PutBlanks(n: nat, out: seq<Line>) returns (out': seq<Line>)
    ensures out' == out + Blanks(n)
  {
    out' := out;
    var left: nat := n;
    while left > 0
      invariant left <= n && out' + Blanks(left) == out + Blanks(n)
    {
      assert Blanks(left) == [EMPTY_LINE] + Blanks(left - 1);
      assert out' + ([EMPTY_LINE] + Blanks(left - 1)) == (out' + [EMPTY_LINE]) + Blanks(left - 1);
      out' := out' + [EMPTY_LINE];
      left := left - 1;
    }
  }

  /** The inner loop over a run of lines that start with "From ": either a separator is found, or the last of them was text. */
  method ReadRun(lines: seq<Line>, at: nat, ghost empty: nat)
    returns (found: bool, fromLine: Line, buf: Line, pos: nat)
    requires at < |lines| && IsFrom(lines[at])
    ensures at < pos <= |lines| && IsFrom(fromLine)
    ensures ReadSeparator(lines[at..], empty)
      == if found then Body(Blanks(if empty > 0 then empty - 1 else 0), NextMessage(fromLine, buf, lines[pos..]))
         else Before(Blanks(empty) + [fromLine] + (if buf == [] then [] else [buf]), ReadBody(lines[pos..], 0))
    ensures !found ==> !IsQuotedFrom(buf)
  {
    hide IsFrom, IsHeaderLine, IsQuotedFrom, ReadBody, Blanks;
    found, buf, pos := false, [], at + 1;
    fromLine := lines[at];
    while true
      invariant at < pos <= |lines| && fromLine == lines[pos - 1] && IsFrom(fromLine)
      invariant ReadSeparator(lines[at..], empty) == ReadSeparator(lines[pos - 1..], empty)
      decreases |lines| - pos
    {
      SeparatorStep(lines, pos - 1, empty);
      if pos == |lines| {
        buf := [];
        NotQuoted();
        return;
      }
      buf := lines[pos];
      pos := pos + 1;
      if IsHeaderLine(buf) {
        found := true;
        return;
      } else if IsFrom(buf) {
        fromLine := buf;
        continue;
      } else if IsQuotedFrom(buf) {
        QuotedNotEmpty(buf);
        found, buf := true, buf[1..];
        return;
      } else {
        return;
      }
    }
  }

  lemma NotQuoted()
    ensures !IsQuotedFrom([])
  {
  }

  lemma QuotedNotEmpty(l: Line)
    requires IsQuotedFrom(l)
    ensures l != []
  {
  }

  /** The branches of ReadSeparator at a place in the file. */
  lemma SeparatorStep(lines: seq<Line>, i: nat, empty: nat)
    requires i < |lines|
    ensures var r := ReadSeparator(lines[i..], empty);
      if i + 1 == |lines| then r == Before(Blanks(empty) + [lines[i]] + [], ReadBody(lines[i + 1..], 0))
      else
        var next := lines[i + 1];
        if IsHeaderLine(next) then r == Body(Blanks(if empty > 0 then empty - 1 else 0), NextMessage(lines[i], next, lines[i + 2..]))
        else if IsFrom(next) then r == ReadSeparator(lines[i + 1..], empty)
        else if IsQuotedFrom(next) then
          r == Body(Blanks(if empty > 0 then empty - 1 else 0), NextMessage(lines[i], next[1..], lines[i + 2..]))
        else r == Before(Blanks(empty) + [lines[i]] + (if next == [] then [] else [next]), ReadBody(lines[i + 2..], 0))
  {
    hide IsHeaderLine, IsFrom;
    assert lines[i..][1..] == lines[i + 1..];
    if i + 1 == |lines| {
      assert lines[i + 1..] == [];
      assert (Blanks(empty) + [lines[i]] + []) + Blanks(0) == Blanks(empty) + [lines[i]];
    } else {
      assert lines[i..][2..] == lines[i + 2..];
    }
  }

  /** The loop over the lines of one message; `fromLine` stays empty at the end of the file. */
  method ReadMessage(lines: seq<Line>, at: nat) returns (out: seq<Line>, fromLine: Line, buf: Line, pos: nat)
    requires at <= |lines|
    ensures at <= pos <= |lines| && (fromLine != [] ==> at < pos && IsFrom(fromLine))
    ensures ReadBody(lines[at..], 0) == Body(out, if fromLine == [] then End else NextMessage(fromLine, buf, lines[pos..]))
  {
    hide IsFrom, IsEmpty, IsHeaderLine, IsQuotedFrom, ReadBody, ReadSeparator, Blanks;
    out, pos, fromLine, buf := [], at, [], [];
    var empty := 0;
    ghost var whole := ReadBody(lines[at..], 0);
    NothingBefore(whole);
    while pos < |lines|
      invariant at <= pos <= |lines| && Before(out, ReadBody(lines[pos..], empty)) == whole
      decreases |lines| - pos
    {
      BodyStep(lines, pos, empty, out, whole);
      if IsEmpty(lines[pos]) {
        empty := empty + 1;
        pos := pos + 1;
      } else if IsFrom(lines[pos]) {
        ghost var start := pos;
        var found, l, b, p := ReadRun(lines, pos, empty);
        if found {
          out := PutBlanks(if empty > 0 then empty - 1 else 0, out);
          FromIsSome(l);
          return out, l, b, p;
        }
        BeforeTwice(out, Blanks(empty) + [l] + (if b == [] then [] else [b]), ReadBody(lines[p..], 0));
        ghost var out0 := out;
        out := PutBlanks(empty, out);
        out := out + [l] + if b == [] then [] else [b];
        assert out == out0 + (Blanks(empty) + [l] + (if b == [] then [] else [b]));
        empty, pos := 0, p;
      } else {
        ghost var out0 := out;
        out := PutBlanks(empty, out);
        out := out + [Unescaped(lines[pos])];
        assert out == out0 + (Blanks(empty) + [Unescaped(lines[pos])]);
        empty, pos := 0, pos + 1;
      }
    }
    BodyAtEnd(lines[pos..], empty, out, whole);
    out := PutBlanks(if empty > 0 then empty - 1 else 0, out);
  }

  lemma FromIsSome(l: Line)
    requires IsFrom(l)
    ensures l != []
  {
  }

  lemma NothingBefore(b: Body)
    ensures Before([], b) == b
  {
    assert [] + b.lines == b.lines;
  }

  lemma BeforeTwice(a: seq<Line>, b: seq<Line>, c: Body)
    ensures Before(a, Before(b, c)) == Before(a + b, c)
  {
    assert a + (b + c.lines) == (a + b) + c.lines;
  }

  lemma BodyAtEnd(lines: seq<Line>, empty: nat, out: seq<Line>, whole: Body)
    requires lines == [] && Before(out, ReadBody(lines, empty)) == whole
    ensures whole == Body(out + Blanks(if empty > 0 then empty - 1 else 0), End)
  {
  }

  /** The branches of ReadBody at a place in the file. */
  lemma BodyStep(lines: seq<Line>, i: nat, empty: nat, out: seq<Line>, whole: Body)
    requires i < |lines| && Before(out, ReadBody(lines[i..], empty)) == whole
    ensures if IsEmpty(lines[i]) then Before(out, ReadBody(lines[i + 1..], empty + 1)) == whole
      else if IsFrom(lines[i]) then Before(out, ReadSeparator(lines[i..], empty)) == whole
      else Before(out + (Blanks(empty) + [Unescaped(lines[i])]), ReadBody(lines[i + 1..], 0)) == whole
  {
    hide IsEmpty, IsFrom, ReadSeparator, Unescaped;
    assert lines[i..][1..] == lines[i + 1..];
    if !IsEmpty(lines[i]) && !IsFrom(lines[i]) {
      BeforeTwice(out, Blanks(empty) + [Unescaped(lines[i])], ReadBody(lines[i + 1..], 0));
    }
  }

  /** proc_mbox_full: the messages stored, or nothing for a file that is not an mbox. */
  method ImportFile(file: seq<byte>) returns (texts: Option<seq<seq<byte>>>)
    ensures texts == Import(file)
  {
    hide IsEmpty, IsHeaderLine, ReadBody, ReturnPath, ImportFrom, FgetsLength, CString, Lines;
    var lines := ReadLines(file);
    var pos := 0;
    assert lines[0..] == lines;
    while pos < |lines| && IsEmpty(lines[pos])
      invariant 0 <= pos <= |lines| && ImportLines(lines[pos..]) == ImportLines(lines)
    {
      assert lines[pos..][1..] == lines[pos + 1..];
      pos := pos + 1;
    }
    if pos == |lines| || !IsFrom(lines[pos]) || pos + 1 == |lines| {
      return None;
    }
    assert lines[pos..][2..] == lines[pos + 2..];
    var stored := StoreMessages(lines, lines[pos], lines[pos + 1], pos + 2);
    texts := Some(stored);
  }

  /** The loop over the messages. */
  method StoreMessages(lines: seq<Line>, separator: Line, first: Line, at: nat) returns (texts: seq<seq<byte>>)
    requires at <= |lines| && IsFrom(separator)
    ensures texts == ImportFrom(separator, first, lines[at..])
  {
    hide IsFrom, ReadBody, ReturnPath, Join;
    texts := [];
    var fromLine, buf, pos := separator, first, at;
    ghost var whole := ImportFrom(separator, first, lines[at..]);
    assert [] + whole == whole;
    FromIsSome(fromLine);
    while fromLine != []
      invariant at <= pos <= |lines| && (fromLine != [] ==> IsFrom(fromLine))
      invariant texts + (if fromLine == [] then [] else ImportFrom(fromLine, buf, lines[pos..])) == whole
      decreases |lines| - pos, if fromLine == [] then 0 else 1
    {
      var out, l, b, p := ReadMessage(lines, pos);
      var text := Join([ReturnPath(fromLine), buf] + out);
      assert texts + ([text] + (if l == [] then [] else ImportFrom(l, b, lines[p..])))
          == (texts + [text]) + (if l == [] then [] else ImportFrom(l, b, lines[p..]));
      texts := texts + [text];
      fromLine, buf, pos := l, b, p;
    }
  }
}
