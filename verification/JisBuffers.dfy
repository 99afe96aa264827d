/**
 The conversions as codeconv.c runs them: a cursor in the input, a cursor in an output
 buffer of fixed size, and a shift state.  Each loop is proved to write exactly what its
 specification in Jis or Sjis says, and never past the end of the buffer.
 */
module JisBuffers {
  import opened Bytes
  import opened Jis
  import S = Sjis

  /** One byte through the output cursor. */
  method Put(outbuf: array<byte>, out: nat, c: byte) returns (out': nat)
    requires out < outbuf.Length
    modifies outbuf
    ensures out' == out + 1 && outbuf[..out'] == old(outbuf[..out]) + [c]
  {
    outbuf[out] := c;
    out' := out + 1;
  }

  /** The macros K_IN, K_OUT, HW_IN and AUX_IN. */
  method ShiftTo(outbuf: array<byte>, out: nat, state: State, to: State) returns (out': nat)
    requires to != UDC && out + |Shift(state, to)| <= outbuf.Length
    modifies outbuf
    ensures out' == out + |Shift(state, to)| && outbuf[..out'] == old(outbuf[..out]) + Shift(state, to)
  {
    out' := out;
    if state != to {
      out' := Put(outbuf, out', ESC);
      match to {
        case ASCII =>
          out' := Put(outbuf, out', 0x28);
          out' := Put(outbuf, out', 0x42);
        case KANJI =>
          out' := Put(outbuf, out', 0x24);
          out' := Put(outbuf, out', 0x42);
        case HWKANA =>
          out' := Put(outbuf, out', 0x28);
          out' := Put(outbuf, out', 0x49);
        case AUXKANJI =>
          out' := Put(outbuf, out', 0x24);
          out' := Put(outbuf, out', 0x28);
          out' := Put(outbuf, out', 0x44);
      }
    }
  }

  /** The last shift and the NUL. */
  method PutEnd(outbuf: array<byte>, out: nat, state: State) returns (len: nat)
    requires out + |Shift(state, ASCII)| < outbuf.Length
    modifies outbuf
    ensures len < outbuf.Length && outbuf[..len] == old(outbuf[..out]) + Shift(state, ASCII) && outbuf[len] == NUL
  {
    len := ShiftTo(outbuf, out, state, ASCII);
    outbuf[len] := NUL;
  }

  /** A shift and two characters. */
  method PutPair(outbuf: array<byte>, out: nat, state: State, to: State, a: byte, b: byte) returns (out': nat)
    requires to != UDC && out + |Shift(state, to)| + 2 <= outbuf.Length
    modifies outbuf
    ensures out' == out + |Shift(state, to)| + 2 && outbuf[..out'] == old(outbuf[..out]) + (Shift(state, to) + [a, b])
  {
    out' := ShiftTo(outbuf, out, state, to);
    out' := Put(outbuf, out', a);
    out' := Put(outbuf, out', b);
  }

  /** A shift and one character. */
  method PutOne(outbuf: array<byte>, out: nat, state: State, to: State, a: byte) returns (out': nat)
    requires to != UDC && out + |Shift(state, to)| + 1 <= outbuf.Length
    modifies outbuf
    ensures out' == out + |Shift(state, to)| + 1 && outbuf[..out'] == old(outbuf[..out]) + (Shift(state, to) + [a])
  {
    out' := ShiftTo(outbuf, out, state, to);
    out' := Put(outbuf, out', a);
  }

  /** The substitutes for bytes that cannot be used: `given` of them, and one more for a second bad byte. */
  method PutSubst(s: seq<byte>, i: nat, from: nat, given: nat, outbuf: array<byte>, out: nat, state: State) returns (i': nat, out': nat)
    requires i < i + from <= |s| && given <= 1
    requires out + |Written(Subst(s[i..], from, given).unit, state)| <= outbuf.Length
    modifies outbuf
    ensures var p := Subst(s[i..], from, given);
      i' == i + p.used && out' == out + |Written(p.unit, state)| && outbuf[..out'] == old(outbuf[..out]) + Written(p.unit, state)
  {
    i' := i + from;
    out' := ShiftTo(outbuf, out, state, ASCII);
    if given == 1 {
      out' := Put(outbuf, out', SUBST);
    }
    if i' < |s| && !IsAscii(s[i']) {
      out' := Put(outbuf, out', SUBST);
      i' := i' + 1;
    }
  }

  /** The branch for half-width kana. */
  method EucKanaRound(s: seq<byte>, i: nat, kana: bool, outbuf: array<byte>, out: nat, state: State)
    returns (i': nat, out': nat, state': State, ok: bool)
    requires i < |s| && s[i] == SS2 && out + |Written(EucStep(s[i..], kana).unit, state)| <= outbuf.Length
    modifies outbuf
    ensures var p := EucStep(s[i..], kana);
      && i' == i + p.used && state' == StateOf(p.unit) && ok == p.ok && out' == out + |Written(p.unit, state)|
      && outbuf[..out'] == old(outbuf[..out]) + Written(p.unit, state)
  {
    ghost var rest := s[i..];
    assert forall k | 0 <= k < 4 :: At(rest, k) == At(s, i + k);
    if IsHalfKana(At(s, i + 1)) {
      ok := true;
      if kana {
        out' := PutOne(outbuf, out, state, HWKANA, And7f(s[i + 1]));
        i', state' := i + 2, HWKANA;
      } else {
        var z := HanToZen(s[i + 1], if At(s, i + 2) == SS2 && IsHalfKana(At(s, i + 3)) then s[i + 3] else NUL);
        out' := PutPair(outbuf, out, state, KANJI, z.a, z.b);
        i', state' := i + 2 * z.len, KANJI;
      }
    } else {
      ok, state' := false, ASCII;
      i', out' := PutSubst(s, i, 1, 0, outbuf, out, state);
    }
  }

  /** The branch for JIS X 0212. */
  method EucAuxRound(s: seq<byte>, i: nat, kana: bool, outbuf: array<byte>, out: nat, state: State)
    returns (i': nat, out': nat, state': State, ok: bool)
    requires i < |s| && s[i] == SS3 && out + |Written(EucStep(s[i..], kana).unit, state)| <= outbuf.Length
    modifies outbuf
    ensures var p := EucStep(s[i..], kana);
      && i' == i + p.used && state' == StateOf(p.unit) && ok == p.ok && out' == out + |Written(p.unit, state)|
      && outbuf[..out'] == old(outbuf[..out]) + Written(p.unit, state)
  {
    ghost var rest := s[i..];
    assert forall k | 0 <= k < 4 :: At(rest, k) == At(s, i + k);
    if IsEucKanji(At(s, i + 1)) && IsEucKanji(At(s, i + 2)) {
      out' := PutPair(outbuf, out, state, AUXKANJI, And7f(s[i + 1]), And7f(s[i + 2]));
      i', state', ok := i + 3, AUXKANJI, true;
    } else {
      ok, state' := false, ASCII;
      if i + 1 < |s| && !IsAscii(s[i + 1]) {
        i', out' := PutSubst(s, i, 2, 1, outbuf, out, state);
      } else {
        out' := ShiftTo(outbuf, out, state, ASCII);
        i' := i + 1;
      }
    }
  }

  /** One round of the loop in conv_euctojis. */
  method EucRound(s: seq<byte>, i: nat, kana: bool, outbuf: array<byte>, out: nat, state: State)
    returns (i': nat, out': nat, state': State, ok: bool)
    requires i < |s| && out + |Written(EucStep(s[i..], kana).unit, state)| <= outbuf.Length
    modifies outbuf
    ensures var p := EucStep(s[i..], kana);
      && i' == i + p.used && state' == StateOf(p.unit) && ok == p.ok && out' == out + |Written(p.unit, state)|
      && outbuf[..out'] == old(outbuf[..out]) + Written(p.unit, state)
  {
    ghost var rest := s[i..];
    assert forall k | 0 <= k < 4 :: At(rest, k) == At(s, i + k);
    i', out', state', ok := i, out, ASCII, true;
    var c := s[i];
    if IsAscii(c) {
      out' := PutOne(outbuf, out, state, ASCII, c);
      i' := i + 1;
    } else if IsEucKanji(c) {
      if IsEucKanji(At(s, i + 1)) {
        out' := PutPair(outbuf, out, state, KANJI, And7f(c), And7f(s[i + 1]));
        i', state' := i + 2, KANJI;
      } else {
        ok := false;
        i', out' := PutSubst(s, i, 1, 1, outbuf, out, state);
      }
    } else if c == SS2 {
      i', out', state', ok := EucKanaRound(s, i, kana, outbuf, out, state);
    } else if c == SS3 {
      i', out', state', ok := EucAuxRound(s, i, kana, outbuf, out, state);
    } else {
      ok := false;
      out' := PutOne(outbuf, out, state, ASCII, SUBST);
      i' := i + 1;
    }
  }

  /** What is written, and what the rest of the input will add, make the whole. */
  ghost predicate EucPart(s: seq<byte>, i: nat, kana: bool, written: seq<byte>, state: State, error: bool)
  {
    && i <= |s|
    && written + Render(EucUnits(s[i..], kana), state) == EucToJis(s, kana)
    && (error || !EucOk(s[i..], kana)) == !EucOk(s, kana)
  }

  lemma EucPartStarts(s: seq<byte>, kana: bool)
    ensures EucPart(s, 0, kana, [], ASCII, false)
  {
    assert s[0..] == s && [] + EucToJis(s, kana) == EucToJis(s, kana);
  }

  lemma EucPartFits(s: seq<byte>, i: nat, kana: bool, written: seq<byte>, state: State, error: bool)
    requires i < |s| && EucPart(s, i, kana, written, state, error)
    ensures |written| + |Written(EucStep(s[i..], kana).unit, state)| < 3 * |s| + 4
  {
    EucToJisFits(s, kana, ASCII);
  }

  lemma EucPartGrows(s: seq<byte>, i: nat, kana: bool, written: seq<byte>, state: State, error: bool,
                     i': nat, written': seq<byte>, state': State, error': bool)
    requires i < |s| && EucPart(s, i, kana, written, state, error)
    requires var p := EucStep(s[i..], kana);
      i' == i + p.used && written' == written + Written(p.unit, state) && state' == StateOf(p.unit) && error' == (error || !p.ok)
    ensures i < i' && EucPart(s, i', kana, written', state', error')
  {
    var p := EucStep(s[i..], kana);
    assert s[i..][p.used..] == s[i'..];
    assert EucUnits(s[i..], kana)[1..] == EucUnits(s[i'..], kana);
    Longer(written, Written(p.unit, state), Render(EucUnits(s[i'..], kana), state'));
  }

  lemma EucPartEnds(s: seq<byte>, kana: bool, written: seq<byte>, state: State, error: bool)
    requires EucPart(s, |s|, kana, written, state, error)
    ensures written + Shift(state, ASCII) == EucToJis(s, kana) && error == !EucOk(s, kana)
    ensures |written| + |Shift(state, ASCII)| < 3 * |s| + 4
  {
    assert s[|s|..] == [];
    EucToJisFits(s, kana, ASCII);
  }

  method EucAdvance(s: seq<byte>, i: nat, kana: bool, outbuf: array<byte>, out: nat, state: State, error: bool)
    returns (i': nat, out': nat, state': State, error': bool)
    requires i < |s| && out <= outbuf.Length && outbuf.Length == 3 * |s| + 4
    requires EucPart(s, i, kana, outbuf[..out], state, error)
    modifies outbuf
    ensures i < i' <= |s| && out' <= outbuf.Length && EucPart(s, i', kana, outbuf[..out'], state', error')
  {
    ghost var before := outbuf[..out];
    EucPartFits(s, i, kana, before, state, error);
    var ok;
    i', out', state', ok := EucRound(s, i, kana, outbuf, out, state);
    error' := error || !ok;
    EucPartGrows(s, i, kana, before, state, error, i', outbuf[..out'], state', error');
  }

  /** conv_euctojis */
  method ConvEucToJis(s: seq<byte>, kana: bool) returns (outbuf: array<byte>, len: nat, error: bool)
    ensures fresh(outbuf) && outbuf.Length == 3 * |s| + 4
    ensures len < outbuf.Length && outbuf[..len] == EucToJis(s, kana) && outbuf[len] == NUL
    ensures error <==> !IsEuc(s)
  {
    NoErrorExactlyOnEuc(s, kana);
    outbuf := new byte[3 * |s| + 4];
    var i: nat, out: nat, state := 0, 0, ASCII;
    error := false;
    EucPartStarts(s, kana);
    assert outbuf[..0] == [];
    while i < |s|
      invariant i <= |s| && out <= outbuf.Length && EucPart(s, i, kana, outbuf[..out], state, error)
    {
      i, out, state, error := EucAdvance(s, i, kana, outbuf, out, state, error);
    }
    EucPartEnds(s, kana, outbuf[..out], state, error);
    len := PutEnd(outbuf, out, state);
  }

  lemma Longer(a: seq<byte>, b: seq<byte>, c: seq<byte>)
    ensures a + (b + c) == (a + b) + c
  {
  }

  // ---- conv_sjistojis ----

  /** The branch for a two-byte character. */
  method SjisPairRound(s: seq<byte>, i: nat, kana: bool, outbuf: array<byte>, out: nat, state: State)
    returns (i': nat, out': nat, state': State, ok: bool)
    requires i < |s| && S.IsLead(s[i]) && out + |Written(S.SjisStep(s[i..], kana).unit, state)| <= outbuf.Length
    modifies outbuf
    ensures var p := S.SjisStep(s[i..], kana);
      && i' == i + p.used && state' == StateOf(p.unit) && ok == p.ok && out' == out + |Written(p.unit, state)|
      && outbuf[..out'] == old(outbuf[..out]) + Written(p.unit, state)
  {
    ghost var rest := s[i..];
    assert At(rest, 1) == At(s, i + 1);
    if S.IsTrail(At(s, i + 1)) {
      S.IndexInTable(s[i], s[i + 1]);
      var idx := S.Index(s[i], s[i + 1]);
      out' := PutPair(outbuf, out, state, KANJI, idx / 94 + 0x21, idx % 94 + 0x21);
      i', state', ok := i + 2, KANJI, true;
    } else {
      ok, state' := false, ASCII;
      i', out' := PutSubst(s, i, 1, 1, outbuf, out, state);
    }
  }

  /** The branch for half-width kana. */
  method SjisKanaRound(s: seq<byte>, i: nat, kana: bool, outbuf: array<byte>, out: nat, state: State)
    returns (i': nat, out': nat, state': State, ok: bool)
    requires i < |s| && IsHalfKana(s[i]) && out + |Written(S.SjisStep(s[i..], kana).unit, state)| <= outbuf.Length
    modifies outbuf
    ensures var p := S.SjisStep(s[i..], kana);
      && i' == i + p.used && state' == StateOf(p.unit) && ok == p.ok && out' == out + |Written(p.unit, state)|
      && outbuf[..out'] == old(outbuf[..out]) + Written(p.unit, state)
  {
    ghost var rest := s[i..];
    assert At(rest, 1) == At(s, i + 1);
    ok := true;
    if kana {
      out' := PutOne(outbuf, out, state, HWKANA, And7f(s[i]));
      i', state' := i + 1, HWKANA;
    } else {
      var z := HanToZen(s[i], if IsHalfKana(At(s, i + 1)) then s[i + 1] else NUL);
      out' := PutPair(outbuf, out, state, KANJI, z.a, z.b);
      i', state' := i + z.len, KANJI;
    }
  }

  /** One round of the loop in conv_sjistojis. */
  method SjisRound(s: seq<byte>, i: nat, kana: bool, outbuf: array<byte>, out: nat, state: State)
    returns (i': nat, out': nat, state': State, ok: bool)
    requires i < |s| && out + |Written(S.SjisStep(s[i..], kana).unit, state)| <= outbuf.Length
    modifies outbuf
    ensures var p := S.SjisStep(s[i..], kana);
      && i' == i + p.used && state' == StateOf(p.unit) && ok == p.ok && out' == out + |Written(p.unit, state)|
      && outbuf[..out'] == old(outbuf[..out]) + Written(p.unit, state)
  {
    ghost var rest := s[i..];
    assert At(rest, 1) == At(s, i + 1);
    i', out', state', ok := i, out, ASCII, true;
    var c := s[i];
    if IsAscii(c) {
      out' := PutOne(outbuf, out, state, ASCII, c);
      i' := i + 1;
    } else if S.IsLead(c) {
      i', out', state', ok := SjisPairRound(s, i, kana, outbuf, out, state);
    } else if IsHalfKana(c) {
      i', out', state', ok := SjisKanaRound(s, i, kana, outbuf, out, state);
    } else if S.IsIbmExt(c, At(s, i + 1)) {
      S.IndexInTable(c, s[i + 1]);
      var idx := S.IbmToNec(S.Index(c, s[i + 1]));
      out' := PutPair(outbuf, out, state, KANJI, idx / 94 + 0x21, idx % 94 + 0x21);
      i', state' := i + 2, KANJI;
    } else if S.IsExt(c) {
      ok := false;
      i', out' := PutSubst(s, i, 1, 1, outbuf, out, state);
    } else {
      ok := false;
      out' := PutOne(outbuf, out, state, ASCII, SUBST);
      i' := i + 1;
    }
  }

  ghost predicate SjisPart(s: seq<byte>, i: nat, kana: bool, written: seq<byte>, state: State, error: bool)
  {
    && i <= |s|
    && written + Render(S.SjisUnits(s[i..], kana), state) == S.SjisToJis(s, kana)
    && (error || !S.SjisOk(s[i..], kana)) == !S.SjisOk(s, kana)
  }

  lemma SjisPartStarts(s: seq<byte>, kana: bool)
    ensures SjisPart(s, 0, kana, [], ASCII, false)
  {
    assert s[0..] == s && [] + S.SjisToJis(s, kana) == S.SjisToJis(s, kana);
  }

  lemma SjisPartFits(s: seq<byte>, i: nat, kana: bool, written: seq<byte>, state: State, error: bool)
    requires i < |s| && SjisPart(s, i, kana, written, state, error)
    ensures |written| + |Written(S.SjisStep(s[i..], kana).unit, state)| < 5 * |s| + 4
  {
    S.SjisToJisFits(s, kana, ASCII);
  }

  lemma SjisPartGrows(s: seq<byte>, i: nat, kana: bool, written: seq<byte>, state: State, error: bool,
                     i': nat, written': seq<byte>, state': State, error': bool)
    requires i < |s| && SjisPart(s, i, kana, written, state, error)
    requires var p := S.SjisStep(s[i..], kana);
      i' == i + p.used && written' == written + Written(p.unit, state) && state' == StateOf(p.unit) && error' == (error || !p.ok)
    ensures i < i' && SjisPart(s, i', kana, written', state', error')
  {
    var p := S.SjisStep(s[i..], kana);
    assert s[i..][p.used..] == s[i'..];
    assert S.SjisUnits(s[i..], kana)[1..] == S.SjisUnits(s[i'..], kana);
    Longer(written, Written(p.unit, state), Render(S.SjisUnits(s[i'..], kana), state'));
  }

  lemma SjisPartEnds(s: seq<byte>, kana: bool, written: seq<byte>, state: State, error: bool)
    requires SjisPart(s, |s|, kana, written, state, error)
    ensures written + Shift(state, ASCII) == S.SjisToJis(s, kana) && error == !S.SjisOk(s, kana)
    ensures |written| + |Shift(state, ASCII)| < 5 * |s| + 4
  {
    assert s[|s|..] == [];
    S.SjisToJisFits(s, kana, ASCII);
  }

  method SjisAdvance(s: seq<byte>, i: nat, kana: bool, outbuf: array<byte>, out: nat, state: State, error: bool)
    returns (i': nat, out': nat, state': State, error': bool)
    requires i < |s| && out <= outbuf.Length && outbuf.Length == 5 * |s| + 4
    requires SjisPart(s, i, kana, outbuf[..out], state, error)
    modifies outbuf
    ensures i < i' <= |s| && out' <= outbuf.Length && SjisPart(s, i', kana, outbuf[..out'], state', error')
  {
    ghost var before := outbuf[..out];
    SjisPartFits(s, i, kana, before, state, error);
    var ok;
    i', out', state', ok := SjisRound(s, i, kana, outbuf, out, state);
    error' := error || !ok;
    SjisPartGrows(s, i, kana, before, state, error, i', outbuf[..out'], state', error');
  }

  /** conv_sjistojis */
  method ConvSjisToJis(s: seq<byte>, kana: bool) returns (outbuf: array<byte>, len: nat, error: bool)
    ensures fresh(outbuf) && outbuf.Length == 5 * |s| + 4
    ensures len < outbuf.Length && outbuf[..len] == S.SjisToJis(s, kana) && outbuf[len] == NUL
    ensures error <==> !S.IsSjis(s, true)
  {
    S.NoErrorExactlyOnSjis(s, kana);
    outbuf := new byte[5 * |s| + 4];
    var i: nat, out: nat, state := 0, 0, ASCII;
    error := false;
    SjisPartStarts(s, kana);
    assert outbuf[..0] == [];
    while i < |s|
      invariant i <= |s| && out <= outbuf.Length && SjisPart(s, i, kana, outbuf[..out], state, error)
    {
      i, out, state, error := SjisAdvance(s, i, kana, outbuf, out, state, error);
    }
    SjisPartEnds(s, kana, outbuf[..out], state, error);
    len := PutEnd(outbuf, out, state);
  }

  // ---- Reading ISO-2022-JP ----

  /** The escape sequences; `third` and `extra` are what the decoder makes of the four-byte ones. */
  method EscapeRound(s: seq<byte>, i: nat, third: byte, extra: State) returns (i': nat, state': State, ok: bool)
    requires i < |s| && s[i] == ESC && third != NUL
    ensures var r := ReadEscape(s[i..], third, extra); i' == i + r.used && state' == r.state && ok == r.ok
  {
    ghost var rest := s[i..];
    assert forall k | 0 <= k < 4 :: At(rest, k) == At(s, i + k);
    i', state', ok := i + 1, ASCII, true;
    if At(s, i') == 0x24 {
      if At(s, i' + 1) == 0x40 || At(s, i' + 1) == 0x42 {
        i', state' := i' + 2, KANJI;
      } else if At(s, i' + 1) == 0x28 && At(s, i' + 2) == third {
        i', state' := i' + 3, extra;
      } else {
        ok := false;
      }
    } else if At(s, i') == 0x28 {
      if At(s, i' + 1) == 0x42 || At(s, i' + 1) == 0x4a {
        i' := i' + 2;
      } else if At(s, i' + 1) == 0x49 {
        i', state' := i' + 2, HWKANA;
      } else {
        ok := false;
      }
    } else {
      ok := false;
    }
  }

  /** One round of the loop in conv_jistoeuc. */
  method JisToEucRound(s: seq<byte>, i: nat, outbuf: array<byte>, out: nat, state: State)
    returns (i': nat, out': nat, state': State, ok: bool)
    requires i < |s| && out <= 2 * i && outbuf.Length == 2 * |s| + 1
    modifies outbuf
    ensures var r := EucRead(s[i..], state);
      && i' == i + r.used && state' == r.state && ok == r.ok && out' == out + |r.out|
      && outbuf[..out'] == old(outbuf[..out]) + r.out
  {
    i', out', state', ok := i, out, state, true;
    if s[i] == ESC {
      i', state', ok := EscapeRound(s, i, 0x44, AUXKANJI);
    } else if s[i] == SO {
      i', state' := i + 1, HWKANA;
    } else if s[i] == SI {
      i', state' := i + 1, ASCII;
    } else {
      match state {
        case KANJI =>
          out' := Put(outbuf, out', Or80(s[i']));
          i' := i' + 1;
          if i' < |s| {
            out' := Put(outbuf, out', Or80(s[i']));
            i' := i' + 1;
          }
        case HWKANA =>
          out' := Put(outbuf, out', SS2);
          out' := Put(outbuf, out', Or80(s[i']));
          i' := i' + 1;
        case AUXKANJI =>
          out' := Put(outbuf, out', SS3);
          out' := Put(outbuf, out', Or80(s[i']));
          i' := i' + 1;
          if i' < |s| {
            out' := Put(outbuf, out', Or80(s[i']));
            i' := i' + 1;
          }
        case _ =>
          out' := Put(outbuf, out', s[i']);
          i' := i' + 1;
      }
    }
  }

  ghost predicate JisToEucPart(s: seq<byte>, i: nat, written: seq<byte>, state: State, error: bool)
  {
    && i <= |s| && |written| <= 2 * i
    && written + JisToEuc(s[i..], state) == JisToEuc(s, ASCII)
    && (error || !JisOk(s[i..], state)) == !JisOk(s, ASCII)
  }

  lemma JisToEucPartStarts(s: seq<byte>)
    ensures JisToEucPart(s, 0, [], ASCII, false)
  {
    assert s[0..] == s && [] + JisToEuc(s, ASCII) == JisToEuc(s, ASCII);
  }

  lemma JisToEucPartGrows(s: seq<byte>, i: nat, written: seq<byte>, state: State, error: bool, i': nat, written': seq<byte>, state': State, error': bool)
    requires i < |s| && JisToEucPart(s, i, written, state, error)
    requires var r := EucRead(s[i..], state);
      i' == i + r.used && written' == written + r.out && state' == r.state && error' == (error || !r.ok)
    ensures i < i' && JisToEucPart(s, i', written', state', error')
  {
    var r := EucRead(s[i..], state);
    assert s[i..][r.used..] == s[i'..];
    Longer(written, r.out, JisToEuc(s[i'..], state'));
  }

  lemma JisToEucPartEnds(s: seq<byte>, written: seq<byte>, state: State, error: bool)
    requires JisToEucPart(s, |s|, written, state, error)
    ensures written == JisToEuc(s, ASCII) && error == !JisOk(s, ASCII) && |written| <= 2 * |s|
  {
    assert s[|s|..] == [] && written + [] == written;
  }

  method JisToEucAdvance(s: seq<byte>, i: nat, outbuf: array<byte>, out: nat, state: State, error: bool)
    returns (i': nat, out': nat, state': State, error': bool)
    requires i < |s| && out <= outbuf.Length == 2 * |s| + 1 && JisToEucPart(s, i, outbuf[..out], state, error)
    modifies outbuf
    ensures i < i' <= |s| && out' <= outbuf.Length && JisToEucPart(s, i', outbuf[..out'], state', error')
  {
    ghost var before := outbuf[..out];
    var ok;
    i', out', state', ok := JisToEucRound(s, i, outbuf, out, state);
    error' := error || !ok;
    JisToEucPartGrows(s, i, before, state, error, i', outbuf[..out'], state', error');
  }

  /** conv_jistoeuc */
  method ConvJisToEuc(s: seq<byte>) returns (outbuf: array<byte>, len: nat, error: bool)
    ensures fresh(outbuf) && outbuf.Length == 2 * |s| + 1
    ensures len < outbuf.Length && outbuf[..len] == JisToEuc(s, ASCII) && outbuf[len] == NUL
    ensures error <==> !JisOk(s, ASCII)
  {
    outbuf := new byte[2 * |s| + 1];
    var i: nat, out: nat, state := 0, 0, ASCII;
    error := false;
    JisToEucPartStarts(s);
    assert outbuf[..0] == [];
    while i < |s|
      invariant i <= |s| && out <= outbuf.Length && JisToEucPart(s, i, outbuf[..out], state, error)
    {
      i, out, state, error := JisToEucAdvance(s, i, outbuf, out, state, error);
    }
    JisToEucPartEnds(s, outbuf[..out], state, error);
    len := out;
    outbuf[len] := NUL;
  }

  /** The branches for a two-byte character, of JIS X 0208 or user-defined. */
  method RowRound(s: seq<byte>, i: nat, outbuf: array<byte>, out: nat, state: State) returns (i': nat, out': nat, ok: bool)
    requires i < |s| && out <= 2 * i && outbuf.Length == 2 * |s| + 1
    requires s[i] != ESC && s[i] != SO && s[i] != SI && (state == KANJI || state == UDC)
    modifies outbuf
    ensures var r := S.SjisRead(s[i..], state);
      && i' == i + r.used && state == r.state && ok == r.ok && out' == out + |r.out|
      && outbuf[..out'] == old(outbuf[..out]) + r.out
  {
    ghost var rest := s[i..];
    assert At(rest, 1) == At(s, i + 1);
    i', out', ok := i, out, true;
    if state == KANJI && (Graphic(s[i]) || 0x7f <= s[i] <= 0x97) && Graphic(At(s, i + 1)) {
      out' := Put(outbuf, out', S.LeadOf(s[i]));
      out' := Put(outbuf, out', S.TrailOf(s[i], s[i + 1]));
      i' := i + 2;
    } else if state == UDC && 0x21 <= s[i] <= 0x34 && Graphic(At(s, i + 1)) {
      out' := Put(outbuf, out', (s[i] - 0x21) / 2 + 0xf0);
      out' := Put(outbuf, out', S.TrailOf(s[i], s[i + 1]));
      i' := i + 2;
    } else {
      ok := false;
      out' := Put(outbuf, out', SUBST);
      i' := i + 1;
      if i' < |s| {
        out' := Put(outbuf, out', SUBST);
        i' := i' + 1;
      }
    }
  }

  /** One round of the loop in conv_jistosjis. */
  method JisToSjisRound(s: seq<byte>, i: nat, outbuf: array<byte>, out: nat, state: State)
    returns (i': nat, out': nat, state': State, ok: bool)
    requires i < |s| && out <= 2 * i && outbuf.Length == 2 * |s| + 1
    modifies outbuf
    ensures var r := S.SjisRead(s[i..], state);
      && i' == i + r.used && state' == r.state && ok == r.ok && out' == out + |r.out|
      && outbuf[..out'] == old(outbuf[..out]) + r.out
  {
    i', out', state', ok := i, out, state, true;
    if s[i] == ESC {
      i', state', ok := EscapeRound(s, i, 0x3f, UDC);
    } else if s[i] == SO {
      i', state' := i + 1, HWKANA;
    } else if s[i] == SI {
      i', state' := i + 1, ASCII;
    } else {
      match state {
        case HWKANA =>
          out' := Put(outbuf, out', Or80(s[i']));
          i' := i' + 1;
        case KANJI =>
          i', out', ok := RowRound(s, i, outbuf, out, state);
        case UDC =>
          i', out', ok := RowRound(s, i, outbuf, out, state);
        case _ =>
          out' := Put(outbuf, out', s[i']);
          i' := i' + 1;
      }
    }
  }

  ghost predicate JisToSjisPart(s: seq<byte>, i: nat, written: seq<byte>, state: State, error: bool)
  {
    && i <= |s| && |written| <= 2 * i
    && written + S.JisToSjis(s[i..], state) == S.JisToSjis(s, ASCII)
    && (error || !S.JisToSjisOk(s[i..], state)) == !S.JisToSjisOk(s, ASCII)
  }

  lemma JisToSjisPartStarts(s: seq<byte>)
    ensures JisToSjisPart(s, 0, [], ASCII, false)
  {
    assert s[0..] == s && [] + S.JisToSjis(s, ASCII) == S.JisToSjis(s, ASCII);
  }

  lemma JisToSjisPartGrows(s: seq<byte>, i: nat, written: seq<byte>, state: State, error: bool, i': nat, written': seq<byte>, state': State, error': bool)
    requires i < |s| && JisToSjisPart(s, i, written, state, error)
    requires var r := S.SjisRead(s[i..], state);
      i' == i + r.used && written' == written + r.out && state' == r.state && error' == (error || !r.ok)
    ensures i < i' && JisToSjisPart(s, i', written', state', error')
  {
    var r := S.SjisRead(s[i..], state);
    assert s[i..][r.used..] == s[i'..];
    Longer(written, r.out, S.JisToSjis(s[i'..], state'));
  }

  lemma JisToSjisPartEnds(s: seq<byte>, written: seq<byte>, state: State, error: bool)
    requires JisToSjisPart(s, |s|, written, state, error)
    ensures written == S.JisToSjis(s, ASCII) && error == !S.JisToSjisOk(s, ASCII) && |written| <= 2 * |s|
  {
    assert s[|s|..] == [] && written + [] == written;
  }

  method JisToSjisAdvance(s: seq<byte>, i: nat, outbuf: array<byte>, out: nat, state: State, error: bool)
    returns (i': nat, out': nat, state': State, error': bool)
    requires i < |s| && out <= outbuf.Length == 2 * |s| + 1 && JisToSjisPart(s, i, outbuf[..out], state, error)
    modifies outbuf
    ensures i < i' <= |s| && out' <= outbuf.Length && JisToSjisPart(s, i', outbuf[..out'], state', error')
  {
    ghost var before := outbuf[..out];
    var ok;
    i', out', state', ok := JisToSjisRound(s, i, outbuf, out, state);
    error' := error || !ok;
    JisToSjisPartGrows(s, i, before, state, error, i', outbuf[..out'], state', error');
  }

  /** conv_jistosjis */
  method ConvJisToSjis(s: seq<byte>) returns (outbuf: array<byte>, len: nat, error: bool)
    ensures fresh(outbuf) && outbuf.Length == 2 * |s| + 1
    ensures len < outbuf.Length && outbuf[..len] == S.JisToSjis(s, ASCII) && outbuf[len] == NUL
    ensures error <==> !S.JisToSjisOk(s, ASCII)
  {
    outbuf := new byte[2 * |s| + 1];
    var i: nat, out: nat, state := 0, 0, ASCII;
    error := false;
    JisToSjisPartStarts(s);
    assert outbuf[..0] == [];
    while i < |s|
      invariant i <= |s| && out <= outbuf.Length && JisToSjisPart(s, i, outbuf[..out], state, error)
    {
      i, out, state, error := JisToSjisAdvance(s, i, outbuf, out, state, error);
    }
    JisToSjisPartEnds(s, outbuf[..out], state, error);
    len := out;
    outbuf[len] := NUL;
  }

  // ---- conv_sjistoeuc ----

  /** One round of the loop in conv_sjistoeuc. */
  method SjisToEucRound(s: seq<byte>, i: nat, outbuf: array<byte>, out: nat) returns (i': nat, out': nat, ok: bool)
    requires i < |s| && out <= 2 * i && outbuf.Length == 2 * |s| + 1
    modifies outbuf
    ensures var r := S.DirectStep(s[i..]);
      && i' == i + r.used && ok == r.ok && out' == out + |r.out| && outbuf[..out'] == old(outbuf[..out]) + r.out
  {
    ghost var rest := s[i..];
    assert At(rest, 1) == At(s, i + 1);
    i', out', ok := i, out, true;
    var c := s[i];
    if IsAscii(c) {
      out' := Put(outbuf, out', c);
      i' := i + 1;
    } else if S.IsLead(c) && S.IsTrail(At(s, i + 1)) {
      var out1, out2, row := c, s[i + 1], if c < 0xa0 then 0x70 else 0xb0;
      if out2 < 0x9f {
        out1 := (out1 - row) * 2 - 1;
        out2 := out2 - (if out2 > 0x7f then 0x20 else 0x1f);
      } else {
        out1 := (out1 - row) * 2;
        out2 := out2 - 0x7e;
      }
      out' := Put(outbuf, out', Or80(out1));
      out' := Put(outbuf, out', Or80(out2));
      i' := i + 2;
    } else if !S.IsLead(c) && IsHalfKana(c) {
      out' := Put(outbuf, out', SS2);
      out' := Put(outbuf, out', c);
      i' := i + 1;
    } else {
      ok := false;
      out' := Put(outbuf, out', SUBST);
      i' := i + 1;
      if (S.IsLead(c) || S.IsExt(c)) && i' < |s| && !IsAscii(s[i']) {
        out' := Put(outbuf, out', SUBST);
        i' := i' + 1;
      }
    }
  }

  ghost predicate SjisToEucPart(s: seq<byte>, i: nat, written: seq<byte>, error: bool)
  {
    && i <= |s| && |written| <= 2 * i
    && written + S.SjisToEuc(s[i..]) == S.SjisToEuc(s)
    && (error || !S.DirectOk(s[i..])) == !S.DirectOk(s)
  }

  lemma SjisToEucPartStarts(s: seq<byte>)
    ensures SjisToEucPart(s, 0, [], false)
  {
    assert s[0..] == s && [] + S.SjisToEuc(s) == S.SjisToEuc(s);
  }

  lemma SjisToEucPartGrows(s: seq<byte>, i: nat, written: seq<byte>, error: bool, i': nat, written': seq<byte>, error': bool)
    requires i < |s| && SjisToEucPart(s, i, written, error)
    requires var r := S.DirectStep(s[i..]);
      i' == i + r.used && written' == written + r.out && error' == (error || !r.ok)
    ensures i < i' && SjisToEucPart(s, i', written', error')
  {
    var r := S.DirectStep(s[i..]);
    assert s[i..][r.used..] == s[i'..];
    Longer(written, r.out, S.SjisToEuc(s[i'..]));
  }

  lemma SjisToEucPartEnds(s: seq<byte>, written: seq<byte>, error: bool)
    requires SjisToEucPart(s, |s|, written, error)
    ensures written == S.SjisToEuc(s) && error == !S.DirectOk(s) && |written| <= 2 * |s|
  {
    assert s[|s|..] == [] && written + [] == written;
  }

  method SjisToEucAdvance(s: seq<byte>, i: nat, outbuf: array<byte>, out: nat, error: bool)
    returns (i': nat, out': nat, error': bool)
    requires i < |s| && out <= outbuf.Length == 2 * |s| + 1 && SjisToEucPart(s, i, outbuf[..out], error)
    modifies outbuf
    ensures i < i' <= |s| && out' <= outbuf.Length && SjisToEucPart(s, i', outbuf[..out'], error')
  {
    ghost var before := outbuf[..out];
    var ok;
    i', out', ok := SjisToEucRound(s, i, outbuf, out);
    error' := error || !ok;
    SjisToEucPartGrows(s, i, before, error, i', outbuf[..out'], error');
  }

  /** conv_sjistoeuc */
  method ConvSjisToEuc(s: seq<byte>) returns (outbuf: array<byte>, len: nat, error: bool)
    ensures fresh(outbuf) && outbuf.Length == 2 * |s| + 1
    ensures len < outbuf.Length && outbuf[..len] == S.SjisToEuc(s) && outbuf[len] == NUL
    ensures error <==> !S.DirectOk(s)
  {
    outbuf := new byte[2 * |s| + 1];
    var i: nat, out: nat := 0, 0;
    error := false;
    SjisToEucPartStarts(s);
    assert outbuf[..0] == [];
    while i < |s|
      invariant i <= |s| && out <= outbuf.Length && SjisToEucPart(s, i, outbuf[..out], error)
    {
      i, out, error := SjisToEucAdvance(s, i, outbuf, out, error);
    }
    SjisToEucPartEnds(s, outbuf[..out], error);
    len := out;
    outbuf[len] := NUL;
  }
}
