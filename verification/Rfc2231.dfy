/**
 Writing a file name as a MIME parameter: percent encoding, and continuation lines when
 it does not fit into one (sections 3 and 4 of RFC 2231).  The conversion to the outgoing
 character set is taken as done.
 */
module Rfc2231 {
  import opened Bytes
  import opened Decimal
  import opened HexDigits

  const PERCENT: byte := 37
  const QUOTE: byte := 34
  const APOSTROPHE: byte := 39
  const STAR: byte := 42
  const SEMICOLON: byte := 59
  const EQUALS: byte := 61
  const MAX_LINELEN := 76

  // ---- Percent encoding ----

  /** The macro IS_ESCAPE_CHAR; it lets 0x7f through. */
  predicate IsEscapeChar(c: byte)
  {
    || c < 0x20 || c > 0x7f
    || c in {32, 42, 39, 37, 33, 35, 36, 38, 126, 96, 44, 123, 124, 125, 40, 41,
             60, 62, 64, 59, 58, 92, 34, 47, 91, 93, 63, 61}
  }

  /** A letter, a digit, or one of + - . ^ _ */
  predicate IsSafe(c: byte)
  {
    48 <= c <= 57 || 65 <= c <= 90 || 97 <= c <= 122 || c == 43 || c == 45 || c == 46 || c == 94 || c == 95
  }

  /** What goes through as it is: the safe characters, all of which section 7 of RFC 2231 allows, and DEL, which it does not. */
  lemma SafeGoesThrough(c: byte)
    ensures !IsEscapeChar(c) <==> IsSafe(c) || c == 0x7f
  {
  }

  function EscapeOne(c: byte): (u: seq<byte>)
    ensures |u| == if IsEscapeChar(c) then 3 else 1
    ensures (u[0] == PERCENT) == IsEscapeChar(c)
  {
    if IsEscapeChar(c) then [PERCENT, Hex(c / 16), Hex(c % 16)] else [c]
  }

  function Escape(s: seq<byte>): (e: seq<byte>)
    ensures |s| <= |e| <= 3 * |s|
  {
    if s == [] then [] else EscapeOne(s[0]) + Escape(s[1..])
  }

  /** decode_xdigit_encoded_str: a percent sign without two hexadecimal digits is dropped. */
  function Unescape(s: seq<byte>): (r: seq<byte>)
    ensures |r| <= |s|
    decreases |s|
  {
    if s == [] then []
    else if s[0] != PERCENT then [s[0]] + Unescape(s[1..])
    else if IsHex(At(s, 1)) && IsHex(At(s, 2)) then [16 * HexValue(s[1]) + HexValue(s[2])] + Unescape(s[3..])
    else Unescape(s[1..])
  }

  lemma UnescapeOne(c: byte, rest: seq<byte>)
    ensures Unescape(EscapeOne(c) + rest) == [c] + Unescape(rest)
  {
    var s := EscapeOne(c) + rest;
    assert s[|EscapeOne(c)|..] == rest;
    if IsEscapeChar(c) {
      assert s[0] == PERCENT && s[1] == Hex(c / 16) && s[2] == Hex(c % 16);
    }
  }

  /** Decoding undoes encoding, for every byte text. */
  lemma {:induction false} UnescapeUndoesEscape(s: seq<byte>)
    ensures Unescape(Escape(s)) == s
    decreases |s|
  {
    if s != [] {
      UnescapeOne(s[0], Escape(s[1..]));
      UnescapeUndoesEscape(s[1..]);
    }
  }

  lemma {:induction false} EscapeAdds(a: seq<byte>, b: seq<byte>)
    ensures Escape(a + b) == Escape(a) + Escape(b)
    decreases |a|
  {
    if a == [] {
      assert a + b == b;
    } else {
      assert (a + b)[0] == a[0] && (a + b)[1..] == a[1..] + b;
      EscapeAdds(a[1..], b);
      assert EscapeOne(a[0]) + (Escape(a[1..]) + Escape(b)) == Escape(a) + Escape(b);
    }
  }

  lemma OneMore(s: seq<byte>, p: nat)
    requires p < |s|
    ensures Escape(s[..p + 1]) == Escape(s[..p]) + EscapeOne(s[p])
  {
    EscapeAdds(s[..p], [s[p]]);
    assert s[..p + 1] == s[..p] + [s[p]] && Escape([s[p]]) == EscapeOne(s[p]) + Escape([]);
  }

  lemma NothingToEscape()
    ensures Escape([]) == []
  {
  }

  lemma EscapeOneIs(c: byte)
    ensures EscapeOne(c) == if IsEscapeChar(c) then [PERCENT, Hex(c / 16), Hex(c % 16)] else [c]
  {
  }

  /** encode_rfc2231_filename, into a buffer of three bytes for each and the NUL. */
  method EncodeFilename(str: seq<byte>) returns (out: array<byte>, len: nat)
    ensures fresh(out) && out.Length == 3 * |str| + 1 && len < out.Length
    ensures out[..len] == Escape(str) && out[len] == NUL
  {
    hide Escape, EscapeOne, Hex, IsEscapeChar;
    out := new byte[3 * |str| + 1];
    var p := 0;
    len := 0;
    NothingToEscape();
    assert str[..0] == [];
    while p < |str|
      invariant 0 <= p <= |str| && len <= 3 * p && out[..len] == Escape(str[..p])
    {
      ghost var before := out[..len];
      OneMore(str, p);
      EscapeOneIs(str[p]);
      if IsEscapeChar(str[p]) {
        out[len], out[len + 1], out[len + 2] := PERCENT, Hex(str[p] / 16), Hex(str[p] % 16);
        assert out[..len + 3] == before + [PERCENT, Hex(str[p] / 16), Hex(str[p] % 16)];
        len := len + 3;
      } else {
        out[len] := str[p];
        assert out[..len + 1] == before + [str[p]];
        len := len + 1;
      }
      p := p + 1;
    }
    assert str[..p] == str;
    out[len] := NUL;
  }

  // ---- The parameter ----

  /** is_ascii_str */
  predicate IsAsciiStr(s: seq<byte>)
  {
    forall i :: 0 <= i < |s| ==> s[i] in {TAB, SPACE, CR, LF} || 32 <= s[i] < 127
  }

  /** " name*N*=" */
  function Head(name: seq<byte>, n: nat): (h: seq<byte>)
    ensures |h| == |name| + |Print(n)| + 4
  {
    [SPACE] + name + [STAR] + Print(n) + [STAR, EQUALS]
  }

  function CharsetPrefix(charset: seq<byte>): seq<byte>
  {
    charset + [APOSTROPHE, APOSTROPHE]
  }

  const LINE_BREAK: seq<byte> := [SEMICOLON, LF]

  /** The loop over the encoded text, from a character on, with `left` places left on line `count`. */
  function Continue(src: seq<byte>, name: seq<byte>, count: nat, left: int): seq<byte>
    decreases |src|
  {
    if src == [] then []
    else
      var u := EscapeOne(src[0]);
      if left < |u| + 1 then
        LINE_BREAK + Head(name, count + 1) + u + Continue(src[1..], name, count + 1, MAX_LINELEN - |Head(name, count + 1)| - |u|)
      else u + Continue(src[1..], name, count, left - |u|)
  }

  /** The extended parameter for any bytes: on one line, or on continuation lines. */
  function Extended(src: seq<byte>, name: seq<byte>, charset: seq<byte>): seq<byte>
  {
    if |Escape(src)| <= MAX_LINELEN - |name| - 3 then
      [SPACE] + name + [STAR, EQUALS] + CharsetPrefix(charset) + Escape(src)
    else
      var first := Head(name, 0) + CharsetPrefix(charset);
      first + Continue(src, name, 0, MAX_LINELEN - |first|)
  }

  /**
   conv_encode_filename, for a name in UTF-8 and what its conversion to the character set
   gave, which for ISO-2022-JP is all ASCII whatever the name; None for the null pointer.
   */
  function Encode(utf8: seq<byte>, converted: Option<seq<byte>>, name: seq<byte>, charset: seq<byte>): Option<seq<byte>>
  {
    if IsAsciiStr(utf8) then Some([SPACE] + name + [EQUALS, QUOTE] + utf8 + [QUOTE])
    else if converted == None then None
    else Some(Extended(converted.value, name, charset))
  }

  // ---- The lines ----

  /** How many characters of the text still go on the line. */
  function OnLine(src: seq<byte>, left: int): (m: nat)
    ensures m <= |src| && (m > 0 ==> |Escape(src[..m])| < left)
  {
    if src == [] || left < |EscapeOne(src[0])| + 1 then 0
    else
      var m := OnLine(src[1..], left - |EscapeOne(src[0])|);
      assert src[..m + 1][0] == src[0] && src[..m + 1][1..] == src[1..][..m];
      assert Escape(src[1..][..0]) == [];
      m + 1
  }

  lemma BreakNow(src: seq<byte>, name: seq<byte>, count: nat, left: int)
    requires src != [] && left < |EscapeOne(src[0])| + 1 && |Head(name, count + 1)| <= MAX_LINELEN - 4
    ensures Continue(src, name, count, left) == NextLine(src, name, count + 1)
  {
    hide Head, EscapeOne;
    var h, u := Head(name, count + 1), EscapeOne(src[0]);
    var more := Continue(src[1..], name, count + 1, MAX_LINELEN - |h| - |u|);
    assert Continue(src, name, count + 1, MAX_LINELEN - |h|) == u + more;
    assert Continue(src, name, count, left) == LINE_BREAK + h + u + more;
    assert (LINE_BREAK + h + u) + more == LINE_BREAK + h + (u + more);
  }

  /** The output is whole encoded characters for this line, then a break and the next line; no %XX is split. */
  lemma {:induction false} ContinueSplits(src: seq<byte>, name: seq<byte>, count: nat, left: int)
    requires |Head(name, count + 1)| <= MAX_LINELEN - 4
    ensures var m := OnLine(src, left);
      Continue(src, name, count, left) == Escape(src[..m]) + if m == |src| then [] else NextLine(src[m..], name, count + 1)
    decreases |src|
  {
    hide Head, EscapeOne, NextLine;
    var m := OnLine(src, left);
    if src == [] {
    } else if m == 0 {
      assert src[..0] == [] && src[0..] == src && Escape([]) == [];
      BreakNow(src, name, count, left);
    } else {
      ContinueSplits(src[1..], name, count, left - |EscapeOne(src[0])|);
      TakeOne(src, name, count, left, m);
    }
  }

  lemma FitsOne(src: seq<byte>, name: seq<byte>, count: nat, left: int)
    requires src != [] && left >= |EscapeOne(src[0])| + 1
    ensures Continue(src, name, count, left)
         == EscapeOne(src[0]) + Continue(src[1..], name, count, left - |EscapeOne(src[0])|)
  {
    hide Head, EscapeOne;
  }

  lemma EscapeOfPrefix(src: seq<byte>, m: nat)
    requires 0 < m <= |src|
    ensures Escape(src[..m]) == EscapeOne(src[0]) + Escape(src[1..][..m - 1])
  {
    hide EscapeOne;
    assert src[..m][0] == src[0] && src[..m][1..] == src[1..][..m - 1];
  }

  lemma TakeOne(src: seq<byte>, name: seq<byte>, count: nat, left: int, m: nat)
    requires src != [] && 0 < m <= |src| && left >= |EscapeOne(src[0])| + 1
    requires Continue(src[1..], name, count, left - |EscapeOne(src[0])|)
          == Escape(src[1..][..m - 1]) + if m == |src| then [] else NextLine(src[1..][m - 1..], name, count + 1)
    ensures Continue(src, name, count, left) == Escape(src[..m]) + if m == |src| then [] else NextLine(src[m..], name, count + 1)
  {
    hide *;
    var u, rest := EscapeOne(src[0]), src[1..];
    EscapeOfPrefix(src, m);
    FitsOne(src, name, count, left);
    var end := if m == |src| then [] else NextLine(rest[m - 1..], name, count + 1);
    assert rest[m - 1..] == src[m..];
    assert u + (Escape(rest[..m - 1]) + end) == (u + Escape(rest[..m - 1])) + end;
  }

  /** A break, the head of a line, and what follows. */
  function NextLine(src: seq<byte>, name: seq<byte>, count: nat): seq<byte>
  {
    LINE_BREAK + Head(name, count) + Continue(src, name, count, MAX_LINELEN - |Head(name, count)|)
  }

  /** Every line of the continuation form, with its semicolon, has at most 76 characters. */
  predicate LinesFit(text: seq<byte>, column: nat)
  {
    if text == [] then column <= MAX_LINELEN
    else if text[0] == LF then column <= MAX_LINELEN && LinesFit(text[1..], 0)
    else LinesFit(text[1..], column + 1)
  }

  lemma {:induction false} FitsAlong(a: seq<byte>, b: seq<byte>, column: nat)
    requires forall i :: 0 <= i < |a| ==> a[i] != LF
    ensures LinesFit(a + b, column) == LinesFit(b, column + |a|)
    decreases |a|
  {
    if a == [] {
      assert a + b == b;
    } else {
      assert (a + b)[0] == a[0] && (a + b)[1..] == a[1..] + b;
      FitsAlong(a[1..], b, column + 1);
    }
  }

  predicate NoLf(s: seq<byte>)
  {
    forall i :: 0 <= i < |s| ==> s[i] != LF
  }

  lemma {:induction false} EscapeNoLf(s: seq<byte>)
    ensures NoLf(Escape(s))
    decreases |s|
  {
    if s != [] {
      EscapeNoLf(s[1..]);
    }
  }

  /** No count of an int has more than 10 digits. */
  const MAX_COUNT := 10_000_000_000

  lemma HeadFits(name: seq<byte>, count: nat)
    requires |name| <= 58 && count < MAX_COUNT
    ensures |Head(name, count)| <= MAX_LINELEN - 4
  {
    assert Power10(3) == 1000 && Power10(6) == 1000 * Power10(3) && Power10(9) == 1000 * Power10(6);
    PrintLength(count, 10);
  }

  predicate Full(src: seq<byte>, column: nat)
  {
    src != [] && OnLine(src, MAX_LINELEN - column) == 0
  }

  lemma FreshLineNotFull(src: seq<byte>, column: nat)
    requires column <= MAX_LINELEN - 4
    ensures !Full(src, column)
  {
  }

  lemma OnLineFits(src: seq<byte>, column: nat)
    requires column < MAX_LINELEN && src != []
    ensures var m := OnLine(src, MAX_LINELEN - column);
      column + |Escape(src[..m])| + 1 <= MAX_LINELEN && (m == 0 ==> Full(src, column) && src[m..] == src)
  {
    var m := OnLine(src, MAX_LINELEN - column);
    assert m == 0 ==> src[..m] == [];
  }

  lemma {:induction false} ContinueFits(src: seq<byte>, name: seq<byte>, count: nat, column: nat)
    requires |name| <= 58 && NoLf(name) && column < MAX_LINELEN
    requires count + |src| + (if Full(src, column) then 1 else 0) < MAX_COUNT
    ensures LinesFit(Continue(src, name, count, MAX_LINELEN - column), column)
    decreases |src|, if Full(src, column) then 1 else 0
  {
    hide *;
    if src == [] {
      NothingContinues(name, count, MAX_LINELEN - column);
      LastLine([], column);
    } else {
      HeadFits(name, count + 1);
      var m := OnLine(src, MAX_LINELEN - column);
      var h := |Head(name, count + 1)|;
      OnLineFits(src, column);
      FreshLineNotFull(src[m..], h);
      ContinueSplits(src, name, count, MAX_LINELEN - column);
      if m == |src| {
        EscapeNoLf(src[..m]);
        assert Escape(src[..m]) + [] == Escape(src[..m]);
        LastLine(Escape(src[..m]), column);
      } else {
        ContinueFits(src[m..], name, count + 1, h);
        LineThenNext(src[..m], src[m..], name, count + 1, column);
      }
    }
  }

  lemma NothingContinues(name: seq<byte>, count: nat, left: int)
    ensures Continue([], name, count, left) == []
  {
  }

  lemma LastLine(s: seq<byte>, column: nat)
    requires NoLf(s) && column + |s| <= MAX_LINELEN
    ensures LinesFit(s, column)
  {
    assert s + [] == s;
    FitsAlong(s, [], column);
  }

  /** A line that fits, the break, and lines that fit. */
  lemma LineThenNext(src: seq<byte>, more: seq<byte>, name: seq<byte>, count: nat, column: nat)
    requires NoLf(name) && column + |Escape(src)| + 1 <= MAX_LINELEN
    requires LinesFit(Continue(more, name, count, MAX_LINELEN - |Head(name, count)|), |Head(name, count)|)
    ensures LinesFit(Escape(src) + NextLine(more, name, count), column)
  {
    hide Continue, Escape;
    var h := Head(name, count);
    assert NoLf(h);
    hide Head;
    var rest := Continue(more, name, count, MAX_LINELEN - |h|);
    var line := Escape(src) + [SEMICOLON];
    assert Escape(src) + NextLine(more, name, count) == line + ([LF] + (h + rest));
    EscapeNoLf(src);
    FitsAlong(line, [LF] + (h + rest), column);
    assert ([LF] + (h + rest))[1..] == h + rest;
    FitsAlong(h, rest, 0);
  }

  /** The continuation form of every name, with a parameter and a character set of usual length. */
  lemma EncodedLinesFit(src: seq<byte>, name: seq<byte>, charset: seq<byte>)
    requires |Escape(src)| > MAX_LINELEN - |name| - 3
    requires NoLf(name) && NoLf(charset) && |name| <= 58 && |name| + |charset| <= 68 && |src| < MAX_COUNT - 1
    ensures LinesFit(Extended(src, name, charset), 0)
  {
    var first := Head(name, 0) + CharsetPrefix(charset);
    assert |Print(0)| == 1 && NoLf(first);
    ContinueFits(src, name, 0, |first|);
    FitsAlong(first, Continue(src, name, 0, MAX_LINELEN - |first|), 0);
  }

  /** The one-line form is not measured with the character set: its length, semicolon included, is at most 76 exactly when this holds. */
  lemma OneLineFitsExactly(src: seq<byte>, name: seq<byte>, charset: seq<byte>)
    requires |Escape(src)| <= MAX_LINELEN - |name| - 3
    ensures |Extended(src, name, charset)| + 1 <= MAX_LINELEN <==> |name| + |charset| + |Escape(src)| <= 70
  {
  }

  /** Ten characters of EUC-JP in a filename parameter: 80 characters on the line. */
  lemma LongCharsetOverflows()
    ensures var name: seq<byte> := [102, 105, 108, 101, 110, 97, 109, 101];
      var charset: seq<byte> := [69, 85, 67, 45, 74, 80];
      var src: seq<byte> := seq(20, _ => 0xa4);
      && |Escape(src)| <= MAX_LINELEN - |name| - 3
      && |Extended(src, name, charset)| + 1 == 80
  {
    var src: seq<byte> := seq(20, _ => 0xa4);
    HighBytesTriple(src);
  }

  lemma {:induction false} HighBytesTriple(src: seq<byte>)
    requires forall i :: 0 <= i < |src| ==> src[i] >= 128
    ensures |Escape(src)| == 3 * |src|
    decreases |src|
  {
    if src != [] {
      HighBytesTriple(src[1..]);
    }
  }

  // ---- The code ----

  lemma EscapeStarts(src: seq<byte>, k: nat)
    requires k < |src|
    ensures Escape(src[k..]) == EscapeOne(src[k]) + Escape(src[k + 1..])
  {
    assert src[k..][1..] == src[k + 1..];
  }

  /** What is written so far, and what the loop will add. */
  ghost predicate Part(src: seq<byte>, name: seq<byte>, whole: seq<byte>, k: nat, text: seq<byte>, count: nat, left: int)
  {
    k <= |src| && text + Continue(src[k..], name, count, left) == whole
  }

  lemma PartGrows(src: seq<byte>, name: seq<byte>, whole: seq<byte>, k: nat, text: seq<byte>, count: nat, left: int,
                  text': seq<byte>, count': nat, left': int)
    requires k < |src| && Part(src, name, whole, k, text, count, left)
    requires var u := EscapeOne(src[k]);
      if left < |u| + 1
      then count' == count + 1 && left' == MAX_LINELEN - |Head(name, count')| - |u| && text' == text + LINE_BREAK + Head(name, count') + u
      else count' == count && left' == left - |u| && text' == text + u
    ensures Part(src, name, whole, k + 1, text', count', left')
  {
    hide Head, EscapeOne;
    var u := EscapeOne(src[k]);
    assert src[k..][1..] == src[k + 1..];
    var more := Continue(src[k + 1..], name, count', left');
    if left < |u| + 1 {
      assert Continue(src[k..], name, count, left) == LINE_BREAK + Head(name, count') + u + more;
      assert text + (LINE_BREAK + Head(name, count') + u + more) == text' + more;
    } else {
      assert Continue(src[k..], name, count, left) == u + more;
      assert text + (u + more) == text' + more;
    }
  }

  /** conv_encode_filename, for a parameter name that leaves room for its count in the 80 places of cur_param. */
  method ConvEncodeFilename(utf8: seq<byte>, converted: Option<seq<byte>>, name: seq<byte>, charset: seq<byte>)
    returns (ret: Option<seq<byte>>)
    requires |name| <= 58 && (converted.Some? ==> |converted.value| < MAX_COUNT - 1)
    ensures ret == Encode(utf8, converted, name, charset)
  {
    if IsAsciiStr(utf8) {
      return Some([SPACE] + name + [EQUALS, QUOTE] + utf8 + [QUOTE]);
    }
    if converted == None {
      return None;
    }
    var text := PrintExtended(converted.value, name, charset);
    return Some(text);
  }

  /** The encoded name on one line if it fits, and otherwise character by character on as many as it takes. */
  method PrintExtended(src: seq<byte>, name: seq<byte>, charset: seq<byte>) returns (ret: seq<byte>)
    requires |name| <= 58 && |src| < MAX_COUNT - 1
    ensures ret == Extended(src, name, charset)
  {
    var enc, len := EncodeFilename(src);
    if len <= MAX_LINELEN - |name| - 3 {
      return [SPACE] + name + [STAR, EQUALS] + CharsetPrefix(charset) + enc[..len];
    }
    var text := Head(name, 0) + CharsetPrefix(charset);
    var left := MAX_LINELEN - |text|;
    var p, count := 0, 0;
    ghost var k := 0;
    assert src[0..] == src && enc[0..len] == enc[..len];
    ghost var whole := Extended(src, name, charset);
    hide Extended, Head, Continue;
    while p < len
      invariant p <= len && k <= |src| && enc[p..len] == Escape(src[k..])
      invariant Part(src, name, whole, k, text, count, left)
      decreases len - p
    {
      EscapeStarts(src, k);
      ghost var text0, count0, left0 := text, count, left;
      p, text, count, left := AppendOne(enc, len, p, name, text, count, left, src, k);
      PartGrows(src, name, whole, k, text0, count0, left0, text, count, left);
      k := k + 1;
    }
    assert |src[k..]| <= |Escape(src[k..])| == 0;
    assert Continue(src[k..], name, count, left) == [];
    ret := text;
  }

  /** One round: a line break if the next character does not fit, then that character. */
  method AppendOne(enc: array<byte>, len: nat, p: nat, name: seq<byte>, text: seq<byte>, count: nat, left: int,
                   ghost src: seq<byte>, ghost k: nat)
    returns (p': nat, text': seq<byte>, count': nat, left': int)
    requires p < len <= enc.Length && k < |src|
    requires enc[p..len] == EscapeOne(src[k]) + Escape(src[k + 1..])
    ensures p < p' <= len && enc[p'..len] == Escape(src[k + 1..])
    ensures var u := EscapeOne(src[k]);
      if left < |u| + 1
      then count' == count + 1 && left' == MAX_LINELEN - |Head(name, count')| - |u| && text' == text + LINE_BREAK + Head(name, count') + u
      else count' == count && left' == left - |u| && text' == text + u
  {
    hide Head, Escape;
    ghost var u, rest := EscapeOne(src[k]), enc[p..len];
    assert rest[..|u|] == u && rest[|u|..] == Escape(src[k + 1..]) && enc[p] == rest[0];
    text', count', left' := text, count, left;
    if (enc[p] == PERCENT && left < 4) || (enc[p] != PERCENT && left < 2) {
      text' := text' + LINE_BREAK;
      count' := count' + 1;
      text' := text' + Head(name, count');
      left' := MAX_LINELEN - |Head(name, count')|;
    }
    if enc[p] == PERCENT {
      assert enc[p..p + 3] == rest[..3];
      text' := text' + enc[p..p + 3];
      p' := p + 3;
      left' := left' - 3;
    } else {
      assert [enc[p]] == rest[..1];
      text' := text' + [enc[p]];
      p' := p + 1;
      left' := left' - 1;
    }
    assert enc[p'..len] == rest[|u|..];
  }
}
