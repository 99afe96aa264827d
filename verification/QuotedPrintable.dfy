/** Quoted-printable (section 6.7 of RFC 2045) and the Q encoding of quoted-printable.c. */
module QuotedPrintable {
  import opened Bytes
  import opened HexDigits

  const EQ: byte := 61
  const UNDERSCORE: byte := 95
  const QUESTION: byte := 63
  const MAX_LINELEN := 76
  const SOFT_BREAK: seq<byte> := [EQ, LF]

  // ---- Encoding ----

  /** The macro IS_LBREAK: the end of the text, LF, or CR LF. */
  predicate IsLBreak(s: seq<byte>)
  {
    s == [] || s[0] == LF || (s[0] == CR && At(s, 1) == LF)
  }

  predicate IsBlank(c: byte)
  {
    c == TAB || c == SPACE
  }

  function Quoted(c: byte): (u: seq<byte>)
    ensures |u| == 3
  {
    [EQ, Hex(c / 16), Hex(c % 16)]
  }

  /** How the first character of s is written; a blank is quoted only before a line break. */
  function Unit(s: seq<byte>): (u: seq<byte>)
    requires s != []
    ensures |u| == 1 || |u| == 3
  {
    var c := s[0];
    if IsBlank(c) then (if IsLBreak(s[1..]) then Quoted(c) else [c])
    else if 33 <= c <= 60 || 62 <= c <= 126 then [c]
    else Quoted(c)
  }

  /** The macro SOFT_LBREAK_IF_REQUIRED. */
  predicate NeedsBreak(s: seq<byte>, len: nat)
    requires s != []
  {
    var n := |Unit(s)|;
    len + n > MAX_LINELEN || (len + n == MAX_LINELEN && !IsLBreak(s[1..]))
  }

  /** Where the text goes on after a line break. */
  function AfterBreak(s: seq<byte>): (r: seq<byte>)
    requires s != [] && IsLBreak(s)
    ensures |r| < |s|
  {
    if s[0] == CR then s[2..] else s[1..]
  }

  /** qp_encode_line, from a place in the text on, in column len of the output. */
  function Encode(s: seq<byte>, len: nat): seq<byte>
    decreases |s|
  {
    if s == [] then (if len > 0 then [LF] else [])
    else if IsLBreak(s) then [LF] + Encode(AfterBreak(s), 0)
    else if NeedsBreak(s, len) then SOFT_BREAK + Unit(s) + Encode(s[1..], |Unit(s)|)
    else Unit(s) + Encode(s[1..], len + |Unit(s)|)
  }

  // ---- Decoding ----

  /** What the decoder makes of the next bytes of a line: how many it reads and what it writes, or the end at a soft break. */
  datatype Next = Next(used: nat, c: byte) | Soft

  function DecodeNext(s: seq<byte>): (r: Next)
    requires s != []
    ensures r.Next? ==> 0 < r.used <= |s|
  {
    if s[0] != EQ then Next(1, s[0])
    else if IsHex(At(s, 1)) && IsHex(At(s, 2)) then Next(3, 16 * HexValue(s[1]) + HexValue(s[2]))
    else if |s| == 1 || IsSpace(s[1]) then Soft
    else Next(1, s[0])
  }

  /** qp_decode_line */
  function DecodeLine(s: seq<byte>): (r: seq<byte>)
    ensures |r| <= |s|
    decreases |s|
  {
    if s == [] then [] else
      match DecodeNext(s)
      case Soft => []
      case Next(used, c) => [c] + DecodeLine(s[used..])
  }

  /** Every line decoded by itself. */
  function Decode(s: seq<byte>): seq<byte>
    decreases |s|
  {
    if s == [] then [] else DecodeLine(s[..LineLength(s)]) + Decode(s[LineLength(s)..])
  }

  // ---- What comes back ----

  /** The text with LF for CR LF. */
  function Local(s: seq<byte>): seq<byte>
    decreases |s|
  {
    if s == [] then []
    else if IsLBreak(s) then [LF] + Local(AfterBreak(s))
    else [s[0]] + Local(s[1..])
  }

  /** The last line has no line break. */
  predicate OpenEnd(s: seq<byte>, len: nat)
    decreases |s|
  {
    if s == [] then len > 0
    else if IsLBreak(s) then OpenEnd(AfterBreak(s), 0)
    else OpenEnd(s[1..], 1)
  }

  lemma {:induction false} LineLengthAfter(u: seq<byte>, t: seq<byte>)
    requires forall i :: 0 <= i < |u| ==> u[i] != LF
    ensures LineLength(u + t) == |u| + LineLength(t)
    decreases |u|
  {
    if u == [] {
      assert u + t == t;
    } else {
      assert (u + t)[1..] == u[1..] + t;
      LineLengthAfter(u[1..], t);
    }
  }

  lemma UnitDecodesInLine(s: seq<byte>, t: seq<byte>)
    requires s != [] && !IsLBreak(s)
    ensures DecodeLine(Unit(s) + t) == [s[0]] + DecodeLine(t)
    ensures forall i :: 0 <= i < |Unit(s)| ==> Unit(s)[i] != LF
  {
    var u := Unit(s);
    assert (u + t)[|u|..] == t;
    UnitIsNext(s, t);
    hide DecodeNext, Unit;
  }

  lemma UnitIsNext(s: seq<byte>, t: seq<byte>)
    requires s != [] && !IsLBreak(s)
    ensures DecodeNext(Unit(s) + t) == Next(|Unit(s)|, s[0])
    ensures forall i :: 0 <= i < |Unit(s)| ==> Unit(s)[i] != LF
  {
    var u := Unit(s);
    if |u| == 3 {
      assert (u + t)[0] == u[0] && (u + t)[1] == u[1] && (u + t)[2] == u[2];
    }
  }

  lemma DecodeFirstLine(s: seq<byte>, n: nat)
    requires n == LineLength(s)
    ensures Decode(s) == DecodeLine(s[..n]) + Decode(s[n..])
  {
    hide LineLength;
    if s == [] {
      assert s[..n] == [] && s[n..] == [];
    }
  }

  lemma UnitDecodes(s: seq<byte>, t: seq<byte>)
    requires s != [] && !IsLBreak(s)
    ensures Decode(Unit(s) + t) == [s[0]] + Decode(t)
  {
    hide *;
    var u, n := Unit(s), LineLength(t);
    UnitDecodesInLine(s, t[..n]);
    LineLengthAfter(u, t);
    DecodeFirstLine(u + t, |u| + n);
    DecodeFirstLine(t, n);
    assert (u + t)[..|u| + n] == u + t[..n] && (u + t)[|u| + n..] == t[n..];
  }

  lemma BreaksDecode(t: seq<byte>)
    ensures Decode([LF] + t) == [LF] + Decode(t)
    ensures Decode(SOFT_BREAK + t) == Decode(t)
  {
    var a, b := [LF] + t, SOFT_BREAK + t;
    assert a[..1] == [LF] && a[1..] == t && LineLength(a) == 1;
    assert b[1..] == a && b[..2] == SOFT_BREAK && b[2..] == t && LineLength(b) == 2;
    assert DecodeLine(SOFT_BREAK) == [];
    assert DecodeLine([LF]) == [LF];
  }

  /** Decoding line by line gives the text back, with LF for CR LF and a line break at the end if there was none. */
  lemma {:induction false} DecodeUndoesEncode(s: seq<byte>, len: nat)
    ensures Decode(Encode(s, len)) == Local(s) + if OpenEnd(s, len) then [LF] else []
    decreases |s|
  {
    if s == [] {
      BreaksDecode([]);
      assert [LF] + [] == [LF];
    } else if IsLBreak(s) {
      DecodeUndoesEncode(AfterBreak(s), 0);
      BreaksDecode(Encode(AfterBreak(s), 0));
    } else {
      var len' := Column(s, len);
      DecodeUndoesEncode(s[1..], len');
      OpenEndSame(s[1..], len');
      CharacterDecodes(s, len);
      hide Encode, Decode, Column;
    }
  }

  /** The column after the first character. */
  function Column(s: seq<byte>, len: nat): (c: nat)
    requires s != []
    ensures c > 0
  {
    if NeedsBreak(s, len) then |Unit(s)| else len + |Unit(s)|
  }

  lemma CharacterDecodes(s: seq<byte>, len: nat)
    requires s != [] && !IsLBreak(s)
    ensures Decode(Encode(s, len)) == [s[0]] + Decode(Encode(s[1..], Column(s, len)))
  {
    hide Decode, Unit, IsLBreak;
    var u, more := Unit(s), Encode(s[1..], Column(s, len));
    UnitDecodes(s, more);
    if NeedsBreak(s, len) {
      assert SOFT_BREAK + u + more == SOFT_BREAK + (u + more);
      BreaksDecode(u + more);
    }
  }

  lemma OpenEndSame(s: seq<byte>, len: nat)
    requires len > 0
    ensures OpenEnd(s, len) == OpenEnd(s, 1)
  {
  }

  // ---- The lines ----

  /** Every line is ended, has at most 76 characters and does not end in a blank. */
  predicate GoodLines(t: seq<byte>, column: nat, last: byte)
  {
    if t == [] then column == 0
    else if t[0] == LF then column <= MAX_LINELEN && !IsBlank(last) && GoodLines(t[1..], 0, NUL)
    else GoodLines(t[1..], column + 1, t[0])
  }

  lemma {:induction false} GoodAlong(u: seq<byte>, t: seq<byte>, column: nat, last: byte)
    requires u != [] && forall i :: 0 <= i < |u| ==> u[i] != LF
    ensures GoodLines(u + t, column, last) == GoodLines(t, column + |u|, u[|u| - 1])
    decreases |u|
  {
    assert (u + t)[1..] == u[1..] + t;
    if |u| > 1 {
      GoodAlong(u[1..], t, column + 1, u[0]);
    } else {
      assert u[1..] + t == t;
    }
  }

  lemma LastOfUnit(s: seq<byte>)
    requires s != [] && !IsLBreak(s)
    ensures var u := Unit(s);
      (forall i :: 0 <= i < |u| ==> u[i] != LF) && (IsBlank(u[|u| - 1]) ==> !IsLBreak(s[1..]))
  {
  }

  lemma SoftBreakGood(t: seq<byte>, column: nat, last: byte)
    requires column < MAX_LINELEN
    ensures GoodLines(SOFT_BREAK + t, column, last) == GoodLines(t, 0, NUL)
  {
    assert SOFT_BREAK + t == [EQ] + ([LF] + t) && ([EQ] + ([LF] + t))[1..] == [LF] + t && ([LF] + t)[1..] == t;
  }

  /** What may stand in quoted-printable text: printable ASCII, blanks and line breaks. */
  predicate IsTextChar(c: byte)
  {
    33 <= c <= 126 || IsBlank(c) || c == LF
  }

  lemma {:induction false} EncodedIsPrintable(s: seq<byte>, len: nat)
    ensures forall i :: 0 <= i < |Encode(s, len)| ==> IsTextChar(Encode(s, len)[i])
    decreases |s|
  {
    if s != [] {
      if IsLBreak(s) {
        EncodedIsPrintable(AfterBreak(s), 0);
      } else {
        UnitIsPrintable(s);
        hide Unit, IsLBreak;
        EncodedIsPrintable(s[1..], if NeedsBreak(s, len) then |Unit(s)| else len + |Unit(s)|);
      }
    }
  }

  lemma UnitIsPrintable(s: seq<byte>)
    requires s != []
    ensures forall i :: 0 <= i < |Unit(s)| ==> IsTextChar(Unit(s)[i])
  {
  }

  /** A line of printable ASCII without equals signs that is short enough stays as it is. */
  lemma {:induction false} PlainLineIsKept(s: seq<byte>, len: nat)
    requires len + |s| <= MAX_LINELEN && len + |s| > 0
    requires forall i :: 0 <= i < |s| ==> 33 <= s[i] <= 126 && s[i] != EQ
    ensures Encode(s, len) == s + [LF]
    decreases |s|
  {
    if s == [] {
      assert s + [LF] == [LF];
    } else {
      PlainLineIsKept(s[1..], len + 1);
      assert Unit(s) == [s[0]] && !NeedsBreak(s, len) by {
        assert |s| > 1 ==> s[1..][0] == s[1];
      }
      assert s + [LF] == [s[0]] + (s[1..] + [LF]);
    }
  }

  lemma {:induction false} EncodedLinesAreGood(s: seq<byte>, len: nat, last: byte)
    requires len < MAX_LINELEN || (len == MAX_LINELEN && IsLBreak(s))
    requires IsLBreak(s) ==> !IsBlank(last)
    ensures GoodLines(Encode(s, len), len, last)
    decreases |s|
  {
    if s == [] {
    } else if IsLBreak(s) {
      EncodedLinesAreGood(AfterBreak(s), 0, NUL);
      assert ([LF] + Encode(AfterBreak(s), 0))[1..] == Encode(AfterBreak(s), 0);
    } else {
      var u := Unit(s);
      var len' := if NeedsBreak(s, len) then |u| else len + |u|;
      var more := Encode(s[1..], len');
      LastOfUnit(s);
      EncodedLinesAreGood(s[1..], len', u[|u| - 1]);
      if NeedsBreak(s, len) {
        GoodAlong(u, more, 0, NUL);
        SoftBreakGood(u + more, len, last);
        assert SOFT_BREAK + u + more == SOFT_BREAK + (u + more);
      } else {
        GoodAlong(u, more, len, last);
      }
    }
  }

  // ---- The code ----

  ghost predicate Part(text: seq<byte>, whole: seq<byte>, i: nat, out: seq<byte>, len: nat)
  {
    i <= |text| && out + Encode(text[i..], len) == whole
  }

  lemma BreakGrows(text: seq<byte>, whole: seq<byte>, i: nat, out: seq<byte>, len: nat, i': nat, out': seq<byte>)
    requires i < |text| && Part(text, whole, i, out, len) && IsLBreak(text[i..])
    requires i' == (if text[i] == CR then i + 2 else i + 1) && out' == out + [LF]
    ensures Part(text, whole, i', out', 0)
  {
    assert AfterBreak(text[i..]) == text[i'..];
    var more := Encode(text[i'..], 0);
    assert out + ([LF] + more) == out' + more;
  }

  lemma UnitGrows(text: seq<byte>, whole: seq<byte>, i: nat, out: seq<byte>, len: nat, out': seq<byte>)
    requires i < |text| && Part(text, whole, i, out, len) && !IsLBreak(text[i..])
    requires out' == out + (if NeedsBreak(text[i..], len) then SOFT_BREAK else []) + Unit(text[i..])
    ensures Part(text, whole, i + 1, out', Column(text[i..], len))
  {
    hide Unit, NeedsBreak, IsLBreak;
    var s, u := text[i..], Unit(text[i..]);
    assert s[1..] == text[i + 1..];
    var more := Encode(text[i + 1..], Column(s, len));
    if NeedsBreak(s, len) {
      assert out + (SOFT_BREAK + u + more) == out' + more;
    } else {
      assert out + (u + more) == out' + more;
    }
  }

  /** The soft break, and one character or its quoted form. */
  method PutUnit(text: seq<byte>, inp: nat, out: seq<byte>, len: nat) returns (out': seq<byte>, len': nat)
    requires inp < |text| && !IsLBreak(text[inp..])
    ensures out' == out + (if NeedsBreak(text[inp..], len) then SOFT_BREAK else []) + Unit(text[inp..])
    ensures len' == Column(text[inp..], len)
  {
    ghost var s := text[inp..];
    var ch, next := text[inp], text[inp + 1..];
    assert s[1..] == next;
    hide IsLBreak;
    out', len' := out, len;
    var quoted := if IsBlank(ch) then IsLBreak(next) else !(33 <= ch <= 60 || 62 <= ch <= 126);
    var n := if quoted then 3 else 1;
    if len + n > MAX_LINELEN || (len + n == MAX_LINELEN && !IsLBreak(next)) {
      out' := out' + SOFT_BREAK;
      len' := 0;
    } else {
      assert out' + [] == out';
    }
    out' := out' + if quoted then Quoted(ch) else [ch];
    len' := len' + n;
  }

  /** qp_encode_line */
  method EncodeLine(text: seq<byte>) returns (out: seq<byte>)
    ensures out == Encode(text, 0)
  {
    hide Encode, Unit, NeedsBreak, Column;
    ghost var whole := Encode(text, 0);
    out := [];
    var inp: nat, len: nat := 0, 0;
    assert text[0..] == text && [] + Encode(text, 0) == Encode(text, 0);
    while inp < |text|
      invariant inp <= |text| && Part(text, whole, inp, out, len)
    {
      ghost var out0, len0 := out, len;
      if IsLBreak(text[inp..]) {
        ghost var inp0 := inp;
        out := out + [LF];
        len := 0;
        if text[inp] == CR {
          inp := inp + 1;
        }
        inp := inp + 1;
        BreakGrows(text, whole, inp0, out0, len0, inp, out);
      } else {
        out, len := PutUnit(text, inp, out, len);
        UnitGrows(text, whole, inp, out0, len0, out);
        inp := inp + 1;
      }
    }
    EncodeEnd(text, out, len);
    if len > 0 {
      out := out + [LF];
    }
  }

  lemma EncodeEnd(text: seq<byte>, out: seq<byte>, len: nat)
    requires Part(text, Encode(text, 0), |text|, out, len)
    ensures out + (if len > 0 then [LF] else []) == Encode(text, 0) && (len == 0 ==> out == Encode(text, 0))
  {
    assert text[|text|..] == [];
  }

  /** qp_decode_line: the line is rewritten in its own array, the write position never passing the read position. */
  method DecodeLineInPlace(str: array<byte>, n: nat) returns (len: nat)
    requires n < str.Length && str[n] == NUL && NulFree(str[..n])
    modifies str
    ensures len <= n && str[..len] == DecodeLine(old(str[..n])) && str[len] == NUL
    ensures str[n + 1..] == old(str[n + 1..])
  {
    hide *;
    ghost var all := str[..n];
    ghost var before := str[..];
    var inp, outp := 0, 0;
    assert all[0..] == all && str[..0] + DecodeLine(all) == DecodeLine(all);
    while inp < n
      invariant 0 <= outp <= inp <= n
      invariant str[inp..] == before[inp..]
      invariant str[..outp] + DecodeLine(all[inp..]) == DecodeLine(all)
      decreases n - inp
    {
      ghost var so := str[..outp];
      assert all[inp..] == str[inp..n] by {
        assert all[inp..] == before[inp..][..n - inp] && str[inp..n] == str[inp..][..n - inp];
      }
      DecodeUnrolls(all[inp..], so, DecodeLine(all));
      var next := ReadNext(str, inp, n);
      if next.Soft? {
        break;
      }
      assert all[inp..][next.used..] == all[inp + next.used..];
      ghost var mid := str[..];
      assert mid[inp..] == before[inp..];
      assert mid[inp + next.used..] == mid[inp..][next.used..] && before[inp + next.used..] == before[inp..][next.used..];
      inp := Store(str, inp, outp, next);
      assert str[inp..] == mid[inp..];
      outp := outp + 1;
      assert str[..outp] == so + [next.c];
    }
    if inp == n {
      DecodeLineEnds(all, inp, str[..outp]);
    }
    assert str[n + 1..] == before[n + 1..] by {
      assert n + 1 - inp >= 0 && str[inp..][n + 1 - inp..] == before[inp..][n + 1 - inp..];
      assert str[inp..][n + 1 - inp..] == str[n + 1..] && before[inp..][n + 1 - inp..] == before[n + 1..];
    }
    str[outp] := NUL;
    len := outp;
  }

  /** One write; the bytes still to be read stay as they are. */
  method Store(str: array<byte>, inp: nat, outp: nat, next: Next) returns (inp': nat)
    requires next.Next? && outp <= inp < inp + next.used <= str.Length
    modifies str
    ensures inp' == inp + next.used && str[..outp + 1] == old(str[..outp]) + [next.c]
    ensures str[inp'..] == old(str[inp'..])
  {
    str[outp] := next.c;
    inp' := inp + next.used;
  }

  lemma DecodeUnrolls(s: seq<byte>, so: seq<byte>, whole: seq<byte>)
    requires s != [] && so + DecodeLine(s) == whole
    ensures var next := DecodeNext(s);
      if next.Soft? then so == whole else (so + [next.c]) + DecodeLine(s[next.used..]) == whole
  {
    hide DecodeNext;
    var next := DecodeNext(s);
    if next.Soft? {
      assert so + [] == so;
    } else {
      assert so + ([next.c] + DecodeLine(s[next.used..])) == (so + [next.c]) + DecodeLine(s[next.used..]);
    }
  }

  lemma DecodeLineEnds(all: seq<byte>, i: nat, so: seq<byte>)
    requires i == |all| && so + DecodeLine(all[i..]) == DecodeLine(all)
    ensures so == DecodeLine(all)
  {
    assert all[i..] == [] && so + [] == so;
  }

  /** The test on the bytes at the read position. */
  method ReadNext(str: array<byte>, inp: nat, n: nat) returns (next: Next)
    requires inp < n < str.Length
    ensures next == DecodeNext(str[inp..n])
  {
    ghost var s := str[inp..n];
    if str[inp] != EQ {
      next := Next(1, str[inp]);
    } else if inp + 2 < n && IsHex(str[inp + 1]) && IsHex(str[inp + 2]) {
      next := Next(3, 16 * HexValue(str[inp + 1]) + HexValue(str[inp + 2]));
    } else if inp + 1 == n || IsSpace(str[inp + 1]) {
      next := Soft;
    } else {
      next := Next(1, str[inp]);
    }
  }

  // ---- The Q encoding ----

  predicate IsQPlain(c: byte)
  {
    !(c == EQ || c == QUESTION || c == UNDERSCORE || c < 32 || c > 127 || IsSpace(c))
  }

  function QUnit(c: byte): (u: seq<byte>)
    ensures |u| == 1 || |u| == 3
  {
    if c == SPACE then [UNDERSCORE] else if IsQPlain(c) then [c] else Quoted(c)
  }

  function QEncode(s: seq<byte>): seq<byte>
  {
    if s == [] then [] else QUnit(s[0]) + QEncode(s[1..])
  }

  function QNext(s: seq<byte>): (r: Next)
    requires s != []
    ensures r.Next? && 0 < r.used <= |s|
  {
    if s[0] == EQ && |s| >= 3 && IsHex(s[1]) && IsHex(s[2]) then Next(3, 16 * HexValue(s[1]) + HexValue(s[2]))
    else Next(1, if s[0] == UNDERSCORE then SPACE else s[0])
  }

  /** qp_decode_q_encoding, of the bytes within the given length. */
  function QDecode(s: seq<byte>): seq<byte>
    decreases |s|
  {
    if s == [] then [] else
      var r := QNext(s);
      [r.c] + QDecode(s[r.used..])
  }

  const DEL: byte := 127

  /** What section 4.2 of RFC 2047 lets stand in an encoded word: printable ASCII without space and question mark. */
  predicate IsWordChar(c: byte)
  {
    33 <= c <= 126 && c != QUESTION
  }

  predicate AllWordChars(s: seq<byte>)
  {
    forall i :: 0 <= i < |s| ==> IsWordChar(s[i])
  }

  lemma WordCharsAdd(a: seq<byte>, b: seq<byte>)
    ensures AllWordChars(a + b) <==> AllWordChars(a) && AllWordChars(b)
  {
    var c := a + b;
    assert forall i :: 0 <= i < |a| ==> c[i] == a[i];
    assert forall i :: 0 <= i < |b| ==> c[|a| + i] == b[i];
  }

  lemma QUnitIsPrintable(c: byte)
    ensures AllWordChars(QUnit(c)) <==> c != DEL
  {
    if c == DEL {
      assert QUnit(c)[0] == DEL;
    }
  }

  /** The encoded text can stand in an encoded word exactly when no DEL is in it, which goes through as it is. */
  lemma {:induction false} QEncodeIsPrintableExactly(s: seq<byte>)
    ensures AllWordChars(QEncode(s)) <==> DEL !in s
    decreases |s|
  {
    if s != [] {
      QUnitIsPrintable(s[0]);
      QEncodeIsPrintableExactly(s[1..]);
      hide AllWordChars, QUnit;
      WordCharsAdd(QUnit(s[0]), QEncode(s[1..]));
      assert s == [s[0]] + s[1..];
    }
  }

  /** Letters, digits and the other signs stay as they are. */
  lemma {:induction false} QPlainIsKept(s: seq<byte>)
    requires forall i :: 0 <= i < |s| ==> IsWordChar(s[i]) && s[i] != EQ && s[i] != UNDERSCORE
    ensures QEncode(s) == s
    decreases |s|
  {
    if s != [] {
      QPlainIsKept(s[1..]);
      assert s == [s[0]] + s[1..];
    }
  }

  lemma QUnitDecodes(c: byte, t: seq<byte>)
    ensures QDecode(QUnit(c) + t) == [c] + QDecode(t)
  {
    var u := QUnit(c);
    assert (u + t)[|u|..] == t;
    if |u| == 3 {
      assert (u + t)[0] == u[0] && (u + t)[1] == u[1] && (u + t)[2] == u[2];
    }
  }

  lemma {:induction false} QDecodeUndoesQEncode(s: seq<byte>)
    ensures QDecode(QEncode(s)) == s
    decreases |s|
  {
    if s != [] {
      QUnitDecodes(s[0], QEncode(s[1..]));
      QDecodeUndoesQEncode(s[1..]);
    }
  }

  lemma {:induction false} QEncodeAdds(a: seq<byte>, b: seq<byte>)
    ensures QEncode(a + b) == QEncode(a) + QEncode(b)
    decreases |a|
  {
    hide QUnit;
    if a == [] {
      assert a + b == b;
    } else {
      assert (a + b)[0] == a[0] && (a + b)[1..] == a[1..] + b;
      QEncodeAdds(a[1..], b);
      assert QUnit(a[0]) + (QEncode(a[1..]) + QEncode(b)) == QEncode(a) + QEncode(b);
    }
  }

  lemma QOneMore(s: seq<byte>, i: nat)
    requires i < |s|
    ensures QEncode(s[..i + 1]) == QEncode(s[..i]) + QUnit(s[i])
  {
    hide QUnit;
    assert s[..i + 1] == s[..i] + [s[i]];
    QEncodeAdds(s[..i], [s[i]]);
    assert QEncode([s[i]]) == QUnit(s[i]) + QEncode([]);
  }

  /** qp_get_q_encoding_len: the length is known before anything is encoded. */
  method GetQEncodingLen(str: seq<byte>) returns (len: nat)
    ensures len == |QEncode(str)|
  {
    len := 0;
    var inp := 0;
    assert str[..0] == [];
    while inp < |str|
      invariant 0 <= inp <= |str| && len == |QEncode(str[..inp])|
    {
      QOneMore(str, inp);
      hide QEncode;
      if str[inp] == SPACE {
        len := len + 1;
      } else if !IsQPlain(str[inp]) {
        len := len + 3;
      } else {
        len := len + 1;
      }
      inp := inp + 1;
    }
    assert str[..inp] == str;
  }

  /** qp_q_encode, into a buffer of the predicted length and the NUL. */
  method QEncodeInto(str: seq<byte>) returns (out: array<byte>, len: nat)
    ensures fresh(out) && out.Length == |QEncode(str)| + 1 && len == |QEncode(str)|
    ensures out[..len] == QEncode(str) && out[len] == NUL
  {
    var size := GetQEncodingLen(str);
    out := new byte[size + 1];
    len := 0;
    var inp := 0;
    assert str[..0] == [] && str[0..] == str;
    while inp < |str|
      invariant 0 <= inp <= |str| && len + |QEncode(str[inp..])| == size && out[..len] == QEncode(str[..inp])
    {
      ghost var before := out[..len];
      QOneMore(str, inp);
      assert QEncode(str[inp..]) == QUnit(str[inp]) + QEncode(str[inp + 1..]) by {
        assert str[inp..][1..] == str[inp + 1..];
      }
      len := PutQUnit(out, len, str[inp]);
      inp := inp + 1;
    }
    assert str[..inp] == str && str[inp..] == [];
    out[len] := NUL;
  }

  method PutQUnit(out: array<byte>, outp: nat, c: byte) returns (outp': nat)
    requires outp + |QUnit(c)| <= out.Length
    modifies out
    ensures outp' == outp + |QUnit(c)| && out[..outp'] == old(out[..outp]) + QUnit(c)
  {
    if c == SPACE {
      out[outp] := UNDERSCORE;
      outp' := outp + 1;
    } else if !IsQPlain(c) {
      out[outp], out[outp + 1], out[outp + 2] := EQ, Hex(c / 16), Hex(c % 16);
      outp' := outp + 3;
    } else {
      out[outp] := c;
      outp' := outp + 1;
    }
  }

  /** qp_decode_q_encoding */
  method DecodeQEncoding(str: seq<byte>) returns (out: seq<byte>)
    ensures out == QDecode(str)
  {
    hide QDecode, IsHex, HexValue;
    out := [];
    var inp := 0;
    assert str[0..] == str && [] + QDecode(str) == QDecode(str);
    while inp < |str|
      invariant 0 <= inp <= |str| && out + QDecode(str[inp..]) == QDecode(str)
      decreases |str| - inp
    {
      QDecodeUnrolls(str[inp..], out, QDecode(str));
      ghost var rest := str[inp..];
      if str[inp] == EQ && inp + 3 <= |str| && IsHex(str[inp + 1]) && IsHex(str[inp + 2]) {
        out := out + [16 * HexValue(str[inp + 1]) + HexValue(str[inp + 2])];
        inp := inp + 3;
        assert rest[3..] == str[inp..];
      } else {
        out := out + [if str[inp] == UNDERSCORE then SPACE else str[inp]];
        inp := inp + 1;
        assert rest[1..] == str[inp..];
      }
    }
    QDecodeEnds(str, out);
  }

  lemma QDecodeUnrolls(s: seq<byte>, out: seq<byte>, whole: seq<byte>)
    requires s != [] && out + QDecode(s) == whole
    ensures (out + [QNext(s).c]) + QDecode(s[QNext(s).used..]) == whole
  {
    hide QNext;
    assert out + ([QNext(s).c] + QDecode(s[QNext(s).used..])) == whole;
  }

  lemma QDecodeEnds(str: seq<byte>, out: seq<byte>)
    requires out + QDecode(str[|str|..]) == QDecode(str)
    ensures out == QDecode(str)
  {
    assert str[|str|..] == [] && out + [] == out;
  }
}
