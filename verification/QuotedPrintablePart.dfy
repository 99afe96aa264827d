/** Reading the quoted-printable body of a MIME part up to its boundary (procmime_decode_content). */
module QuotedPrintablePart {
  import opened Bytes
  import opened Fgets
  import QP = QuotedPrintable

  const DASHES: seq<byte> := [45, 45]

  /** IS_BOUNDARY */
  predicate IsBoundary(l: seq<byte>, boundary: Option<seq<byte>>)
  {
    boundary.Some? && DASHES + boundary.value <= l
  }

  predicate IsEmptyLine(l: seq<byte>)
  {
    At(l, 0) == LF || (At(l, 0) == CR && At(l, 1) == LF)
  }

  /**
   What is written from here on; `held` is the empty line before, if there was one.  It is
   written when another line of the part follows, or at the end when there is no boundary.
   */
  function DecodedPart(ls: seq<seq<byte>>, boundary: Option<seq<byte>>, held: seq<byte>): seq<byte>
  {
    if ls == [] || IsBoundary(ls[0], boundary) then (if boundary == None then held else [])
    else if IsEmptyLine(ls[0]) then held + DecodedPart(ls[1..], boundary, ls[0])
    else held + QP.DecodeLine(ls[0]) + DecodedPart(ls[1..], boundary, [])
  }

  /** Every line decoded by itself. */
  function DecodedLines(ls: seq<seq<byte>>): seq<byte>
  {
    if ls == [] then [] else QP.DecodeLine(ls[0]) + DecodedLines(ls[1..])
  }

  // ---- Without a boundary, and up to one ----

  lemma EmptyLineStays(l: seq<byte>)
    requires IsLine(l) && IsEmptyLine(l)
    ensures QP.DecodeLine(l) == l && l != []
  {
    if l[0] == LF {
      assert l[..|l| - 1] == [];
    } else {
      forall i | 0 <= i < |l| - 1 ensures l[i] != LF {
        assert l[i] == l[..|l| - 1][i];
      }
      assert l == [CR, LF] && l[1..] == [LF];
      assert QP.DecodeLine([LF]) == [LF];
    }
  }

  lemma PartStep(ls: seq<seq<byte>>, boundary: Option<seq<byte>>, held: seq<byte>)
    requires ls != [] && !IsBoundary(ls[0], boundary)
    ensures DecodedPart(ls, boundary, held) ==
      if IsEmptyLine(ls[0]) then held + DecodedPart(ls[1..], boundary, ls[0])
      else held + QP.DecodeLine(ls[0]) + DecodedPart(ls[1..], boundary, [])
  {
    hide IsBoundary, IsEmptyLine, QP.DecodeLine;
  }

  /** The lines of a part with no boundary among them: all are decoded, and the last is held back if it is empty. */
  lemma {:induction false} LinesGoThrough(ls: seq<seq<byte>>, rest: seq<seq<byte>>, boundary: Option<seq<byte>>, held: seq<byte>)
    returns (written: seq<byte>, held': seq<byte>)
    requires AreLines(ls) && forall i :: 0 <= i < |ls| ==> !IsBoundary(ls[i], boundary)
    ensures DecodedPart(ls + rest, boundary, held) == written + DecodedPart(rest, boundary, held')
    ensures written + held' == held + DecodedLines(ls)
    decreases |ls|
  {
    hide IsBoundary, IsEmptyLine, IsLine, DecodedPart, QP.DecodeLine;
    if ls == [] {
      assert ls + rest == rest;
      written, held' := [], held;
      assert [] + held == held + [];
    } else {
      var l, more := ls[0], ls[1..];
      assert (ls + rest)[0] == l && (ls + rest)[1..] == more + rest;
      PartStep(ls + rest, boundary, held);
      if IsEmptyLine(l) {
        EmptyLineStays(l);
        var w, h := LinesGoThrough(more, rest, boundary, l);
        written, held' := held + w, h;
        assert (held + w) + h == held + (w + h);
        Assoc(held, w, DecodedPart(rest, boundary, h));
      } else {
        var d := QP.DecodeLine(l);
        var w, h := LinesGoThrough(more, rest, boundary, []);
        written, held' := held + d + w, h;
        assert [] + DecodedLines(more) == DecodedLines(more);
        assert held + d + w + h == held + (d + (w + h));
        Assoc(held + d, w, DecodedPart(rest, boundary, h));
      }
    }
  }

  /** Without a boundary every line is decoded. */
  lemma WholeIsDecoded(ls: seq<seq<byte>>)
    requires AreLines(ls)
    ensures DecodedPart(ls, None, []) == DecodedLines(ls)
  {
    var written, held := LinesGoThrough(ls, [], None, []);
    assert ls + [] == ls && [] + DecodedLines(ls) == DecodedLines(ls);
  }

  /** An empty line and a boundary after the lines: the empty line belongs to the boundary. */
  lemma EndsAtBoundary(ls: seq<seq<byte>>, boundary: seq<byte>, rest: seq<seq<byte>>)
    requires AreLines(ls) && forall i :: 0 <= i < |ls| ==> !IsBoundary(ls[i], Some(boundary))
    requires rest != [] && IsBoundary(rest[0], Some(boundary))
    ensures DecodedPart(ls + ([[LF]] + rest), Some(boundary), []) == DecodedLines(ls)
  {
    var written, held := LinesGoThrough(ls, [[LF]] + rest, Some(boundary), []);
    assert DASHES[0] != LF && !IsBoundary([LF], Some(boundary));
    assert ([[LF]] + rest)[1..] == rest;
    assert held + [] == held && [] + DecodedLines(ls) == DecodedLines(ls);
  }

  lemma {:induction false} DecodedAdds(a: seq<seq<byte>>, b: seq<seq<byte>>)
    ensures DecodedLines(a + b) == DecodedLines(a) + DecodedLines(b)
    decreases |a|
  {
    if a == [] {
      assert a + b == b;
    } else {
      assert (a + b)[1..] == a[1..] + b;
      DecodedAdds(a[1..], b);
      Assoc(QP.DecodeLine(a[0]), DecodedLines(a[1..]), DecodedLines(b));
    }
  }

  /** A boundary among the lines ends the part: less is written. */
  lemma CutAtBoundary(ls: seq<seq<byte>>, boundary: seq<byte>, rest: seq<seq<byte>>, k: nat)
    requires AreLines(ls) && k < |ls| && IsBoundary(ls[k], Some(boundary))
    requires forall i :: 0 <= i < k ==> !IsBoundary(ls[i], Some(boundary))
    ensures |DecodedPart(ls + rest, Some(boundary), [])| < |DecodedLines(ls)|
  {
    var front, back := ls[..k], ls[k..];
    assert ls + rest == front + (back + rest) && ls == front + back;
    var written, held := LinesGoThrough(front, back + rest, Some(boundary), []);
    assert (back + rest)[0] == ls[k];
    DecodedAdds(front, back);
    BoundaryIsSome(ls[k], boundary);
    assert back[0] == ls[k];
    hide IsBoundary, AreLines;
    assert DecodedPart(back + rest, Some(boundary), held) == [];
  }

  lemma BoundaryIsSome(l: seq<byte>, boundary: seq<byte>)
    requires IsBoundary(l, Some(boundary))
    ensures QP.DecodeLine(l) != []
  {
    assert l[0] == DASHES[0] && QP.DecodeNext(l) == QP.Next(1, l[0]);
  }

  // ---- The lines of an encoded text ----

  lemma {:induction false} FirstGoodLine(t: seq<byte>, column: nat, last: byte)
    requires t != [] && QP.GoodLines(t, column, last)
    ensures var n := LineLength(t);
      && 0 < n && t[n - 1] == LF && LF !in t[..n - 1] && column + n - 1 <= QP.MAX_LINELEN
      && QP.GoodLines(t[n..], 0, NUL)
    decreases |t|
  {
    if t[0] == LF {
      assert t[..0] == [];
    } else {
      assert t[1..] != [];
      FirstGoodLine(t[1..], column + 1, t[0]);
      var n := LineLength(t[1..]);
      assert t[1..][n..] == t[n + 1..] && t[..n] == [t[0]] + t[1..][..n - 1];
    }
  }

  lemma GoodLineIsLine(t: seq<byte>, n: nat)
    requires 0 < n <= |t| && n < BUFFSIZE && NulFree(t) && t[n - 1] == LF && LF !in t[..n - 1]
    ensures IsLine(t[..n]) && NulFree(t[n..])
  {
    assert t[..n][..n - 1] == t[..n - 1];
  }

  lemma GoodTextStarts(t: seq<byte>)
    requires NulFree(t) && QP.GoodLines(t, 0, NUL) && t != []
    ensures var n := LineLength(t);
      && 0 < n && IsLine(t[..n]) && NulFree(t[n..]) && QP.GoodLines(t[n..], 0, NUL)
      && QP.Decode(t) == QP.DecodeLine(t[..n]) + QP.Decode(t[n..])
  {
    hide LineLength, QP.GoodLines, QP.Decode, QP.DecodeLine, IsLine, NulFree;
    FirstGoodLine(t, 0, NUL);
    QP.DecodeFirstLine(t, LineLength(t));
    GoodLineIsLine(t, LineLength(t));
  }

  /** A text of good lines is read line by line, and decoding it is decoding these lines. */
  lemma {:induction false} GoodTextIsLines(t: seq<byte>) returns (ls: seq<seq<byte>>)
    requires NulFree(t) && QP.GoodLines(t, 0, NUL)
    ensures AreLines(ls) && Join(ls) == t && DecodedLines(ls) == QP.Decode(t)
    decreases |t|
  {
    hide LineLength, QP.GoodLines, QP.DecodeLine, IsLine, NulFree;
    ls := [];
    if t != [] {
      var n := LineLength(t);
      GoodTextStarts(t);
      var more := GoodTextIsLines(t[n..]);
      hide QP.Decode;
      ls := [t[..n]] + more;
      assert ls[1..] == more && t == t[..n] + t[n..];
    }
  }

  lemma {:induction false} EncodedNulFree(s: seq<byte>, len: nat)
    ensures NulFree(QP.Encode(s, len))
    decreases |s|
  {
    if s == [] {
    } else if QP.IsLBreak(s) {
      EncodedNulFree(QP.AfterBreak(s), 0);
    } else {
      UnitNulFree(s);
      EncodedNulFree(s[1..], if QP.NeedsBreak(s, len) then |QP.Unit(s)| else len + |QP.Unit(s)|);
    }
  }

  lemma UnitNulFree(s: seq<byte>)
    requires s != []
    ensures NulFree(QP.Unit(s))
  {
  }

  /** The file of a part: the encoded text, and the boundary on a line of its own after an empty one. */
  function PartFile(s: seq<byte>, boundary: seq<byte>, tail: seq<byte>): seq<byte>
  {
    QP.Encode(s, 0) + [LF] + DASHES + boundary + tail
  }

  lemma {:induction false} TakesAtLeast(s: seq<byte>, size: nat, n: nat)
    requires n < size && n <= |s| && LF !in s[..n]
    ensures FgetsLength(s, size) >= n
    decreases n
  {
    if n > 0 {
      assert s[0] == s[..n][0] && s[1..][..n - 1] == s[..n][1..];
      TakesAtLeast(s[1..], size - 1, n - 1);
    }
  }

  lemma {:induction false} CStringStarts(a: seq<byte>, b: seq<byte>)
    requires NulFree(a)
    ensures a <= CString(a + b)
    decreases |a|
  {
    if a != [] {
      assert (a + b)[1..] == a[1..] + b;
      CStringStarts(a[1..], b);
    }
  }

  lemma BoundaryIsRead(boundary: seq<byte>, tail: seq<byte>)
    requires NulFree(boundary) && LF !in boundary && |boundary| + 2 < BUFFSIZE
    ensures var ls := Lines(DASHES + boundary + tail); ls != [] && IsBoundary(ls[0], Some(boundary))
  {
    var a := DASHES + boundary;
    var s := a + tail;
    assert s[..|a|] == a;
    TakesAtLeast(s, BUFFSIZE, |a|);
    var n := FgetsLength(s, BUFFSIZE);
    LinesStep(s, n);
    hide FgetsLength, Lines;
    assert s[..n] == a + s[|a|..n];
    CStringStarts(a, s[|a|..n]);
  }

  /** How the lines of the file of a part are read. */
  lemma PartIsRead(s: seq<byte>, boundary: seq<byte>, tail: seq<byte>) returns (ls: seq<seq<byte>>, rest: seq<seq<byte>>)
    requires NulFree(boundary) && LF !in boundary && |boundary| + 2 < BUFFSIZE
    ensures AreLines(ls) && ls == Lines(QP.Encode(s, 0)) && rest != [] && IsBoundary(rest[0], Some(boundary))
    ensures Lines(PartFile(s, boundary, tail)) == ls + ([[LF]] + rest)
    ensures DecodedLines(ls) == QP.Decode(QP.Encode(s, 0))
  {
    hide QP.Encode, QP.Decode, Lines, Join, IsBoundary;
    QP.EncodedLinesAreGood(s, 0, NUL);
    EncodedNulFree(s, 0);
    ls := GoodTextIsLines(QP.Encode(s, 0));
    LinesAreChunks(ls);
    ChunksOfJoin(ls);
    BoundaryIsRead(boundary, tail);
    var end := DASHES + boundary + tail;
    rest := Lines(end);
    assert PartFile(s, boundary, tail) == Join(ls) + ([LF] + end);
    LinesBefore(ls, [LF] + end);
    JoinOne([LF]);
    LinesBefore([[LF]], end);
  }

  /**
   A text that was encoded into a part of a multipart comes back, with LF for CR LF and
   ended, exactly when no line of the encoding looks like the boundary.
   */
  lemma PartReturnsExactly(s: seq<byte>, boundary: seq<byte>, tail: seq<byte>)
    requires NulFree(boundary) && LF !in boundary && |boundary| + 2 < BUFFSIZE
    ensures DecodedPart(Lines(PartFile(s, boundary, tail)), Some(boundary), [])
         == QP.Local(s) + (if QP.OpenEnd(s, 0) then [LF] else [])
      <==> forall i :: 0 <= i < |Lines(QP.Encode(s, 0))| ==> !IsBoundary(Lines(QP.Encode(s, 0))[i], Some(boundary))
  {
    hide *;
    var ls, rest := PartIsRead(s, boundary, tail);
    QP.DecodeUndoesEncode(s, 0);
    if k :| 0 <= k < |ls| && IsBoundary(ls[k], Some(boundary)) {
      var first := FirstBoundary(ls, boundary, k);
      CutAtBoundary(ls, boundary, [[LF]] + rest, first);
    } else {
      EndsAtBoundary(ls, boundary, rest);
    }
  }

  lemma {:induction false} FirstBoundary(ls: seq<seq<byte>>, boundary: seq<byte>, k: nat) returns (first: nat)
    requires k < |ls| && IsBoundary(ls[k], Some(boundary))
    ensures first <= k && IsBoundary(ls[first], Some(boundary))
    ensures forall i :: 0 <= i < first ==> !IsBoundary(ls[i], Some(boundary))
    decreases k
  {
    hide IsBoundary;
    if i :| 0 <= i < k && IsBoundary(ls[i], Some(boundary)) {
      first := FirstBoundary(ls, boundary, i);
    } else {
      first := k;
    }
  }

  // ---- The code ----

  /** The loop over the lines of a part: read, held back when empty, decoded in the buffer otherwise. */
  method DecodePart(text: seq<byte>, boundary: Option<seq<byte>>) returns (out: seq<byte>)
    ensures out == DecodedPart(Lines(text), boundary, [])
  {
    hide IsBoundary, IsEmptyLine, Lines, QP.DecodeLine, FgetsLength, CString;
    out := [];
    var prevEmptyLine: seq<byte> := [];
    var rest := text;
    ghost var whole := DecodedPart(Lines(text), boundary, []);
    assert [] + whole == whole;
    while rest != []
      invariant out + DecodedPart(Lines(rest), boundary, prevEmptyLine) == whole
      decreases |rest|
    {
      var n := FgetsLength(rest, BUFFSIZE);
      LinesStep(rest, n);
      var buf := CString(rest[..n]);
      if IsBoundary(buf, boundary) {
        break;
      }
      ghost var before, more := out, Lines(rest[n..]);
      assert Lines(rest)[1..] == more;
      out := out + prevEmptyLine;
      if IsEmptyLine(buf) {
        Assoc(before, prevEmptyLine, DecodedPart(more, boundary, buf));
        prevEmptyLine := buf;
      } else {
        var str, len := DecodeBuffer(buf);
        Assoc(before, prevEmptyLine + QP.DecodeLine(buf), DecodedPart(more, boundary, []));
        Assoc(before, prevEmptyLine, QP.DecodeLine(buf));
        out := out + str[..len];
        prevEmptyLine := [];
      }
      rest := rest[n..];
    }
    if boundary == None {
      out := out + prevEmptyLine;
    }
    assert out + [] == out;
  }

  /** qp_decode_line on what fgets left in the buffer. */
  method DecodeBuffer(line: seq<byte>) returns (buf: array<byte>, len: nat)
    requires NulFree(line)
    ensures fresh(buf) && len <= buf.Length && buf[..len] == QP.DecodeLine(line)
  {
    hide QP.DecodeLine;
    buf := new byte[|line| + 1](k => if 0 <= k < |line| then line[k] else NUL);
    assert buf[..|line|] == line && NulFree(line);
    len := QP.DecodeLineInPlace(buf, |line|);
  }
}
