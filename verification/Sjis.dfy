/**
 Shift_JIS in codeconv.c: its conversion to and from ISO-2022-JP by way of an index, and its
 direct conversion to EUC-JP by a formula of its own.
 */
module Sjis {
  import opened Bytes
  import opened Jis

  predicate IsLead(c: byte)
  {
    0x81 <= c <= 0x9f || 0xe0 <= c <= 0xef
  }

  predicate IsTrail(c: byte)
  {
    0x40 <= c <= 0x7e || 0x80 <= c <= 0xfc
  }

  predicate IsExt(c: byte)
  {
    0xf0 <= c <= 0xfc
  }

  predicate IsIbmExt(c1: byte, c2: byte)
  {
    (0xfa <= c1 <= 0xfb && IsTrail(c2)) || (c1 == 0xfc && 0x40 <= c2 <= 0x4b)
  }

  // ---- Shift_JIS to units ----

  /** The macro sjistoidx. */
  function Index(c1: int, c2: int): int
  {
    (if c1 > 0x9f then c1 - 0xc1 else c1 - 0x81) * 188 + c2 - (if c2 > 0x7e then 0x41 else 0x40)
  }

  /** conv_idx_ibmtonec: the IBM extension at the end of the table moves to the place NEC gave it. */
  function IbmToNec(idx: int): int
  {
    if idx >= Index(0xfa, 0x5c) then idx - (Index(0xfa, 0x5c) - Index(0xed, 0x40))
    else if idx >= Index(0xfa, 0x55) then idx - (Index(0xfa, 0x55) - Index(0xee, 0xfa))
    else if idx >= Index(0xfa, 0x40) then idx - (Index(0xfa, 0x40) - Index(0xee, 0xef))
    else idx
  }

  /** The macros idxtojis1 and idxtojis2. */
  function FromIndex(idx: int): (u: Unit)
    requires 0 <= idx < 94 * 94
    ensures Clean(u)
  {
    Kanji(idx / 94 + 0x21, idx % 94 + 0x21)
  }

  lemma IndexInTable(c1: byte, c2: byte)
    requires IsTrail(c2)
    ensures IsLead(c1) ==> 0 <= Index(c1, c2) < 94 * 94
    ensures IsIbmExt(c1, c2) ==> 0 <= IbmToNec(Index(c1, c2)) < 94 * 94
  {
  }

  /** One round of conv_sjistojis. */
  function SjisStep(s: seq<byte>, kana: bool): (r: Step)
    requires s != []
    ensures 0 < r.used <= |s|
  {
    var c := s[0];
    if IsAscii(c) then Step(1, Text([c]), true)
    else if IsLead(c) then
      if IsTrail(At(s, 1)) then
        IndexInTable(c, s[1]);
        Step(2, FromIndex(Index(c, s[1])), true)
      else Subst(s, 1, 1)
    else if IsHalfKana(c) then
      if kana then Step(1, Kana(And7f(c)), true)
      else
        var z := HanToZen(c, if IsHalfKana(At(s, 1)) then s[1] else NUL);
        Step(z.len, Kanji(z.a, z.b), true)
    else if IsIbmExt(c, At(s, 1)) then
      IndexInTable(c, s[1]);
      Step(2, FromIndex(IbmToNec(Index(c, s[1]))), true)
    else if IsExt(c) then Subst(s, 1, 1)
    else Step(1, Text([SUBST]), false)
  }

  function SjisUnits(s: seq<byte>, kana: bool): seq<Unit>
  {
    if s == [] then [] else
      var p := SjisStep(s, kana);
      [p.unit] + SjisUnits(s[p.used..], kana)
  }

  predicate SjisOk(s: seq<byte>, kana: bool)
  {
    s == [] || (var p := SjisStep(s, kana); p.ok && SjisOk(s[p.used..], kana))
  }

  /** conv_sjistojis */
  function SjisToJis(s: seq<byte>, kana: bool): seq<byte>
  {
    Render(SjisUnits(s, kana), ASCII)
  }

  predicate Replaces(s: seq<byte>, used: nat, subst: nat, kana: bool)
  {
    && used <= |s| && s != []
    && SjisUnits(s, kana) == [Text(seq(subst, _ => SUBST))] + SjisUnits(s[used..], kana)
    && !SjisOk(s, kana)
  }

  /**
   A lead byte without its trail byte is replaced by one "_", and so is the byte behind it
   unless that is ASCII; and a byte that can begin no character is replaced by one.
   */
  lemma BadBytesAreReplaced(s: seq<byte>, kana: bool)
    requires s != [] && !IsAscii(s[0]) && !IsHalfKana(s[0])
    ensures (IsLead(s[0]) && !IsTrail(At(s, 1))) || (IsExt(s[0]) && !IsIbmExt(s[0], At(s, 1))) ==>
      if IsAscii(At(s, 1)) then Replaces(s, 1, 1, kana) else Replaces(s, 2, 2, kana)
    ensures !IsLead(s[0]) && !IsExt(s[0]) ==> Replaces(s, 1, 1, kana)
  {
    assert seq(1, _ => SUBST) == [SUBST];
    hide SjisUnits, HanToZen, FromIndex;
    UnitsStart(s, kana);
  }

  lemma UnitsStart(s: seq<byte>, kana: bool)
    requires s != []
    ensures SjisUnits(s, kana) == [SjisStep(s, kana).unit] + SjisUnits(s[SjisStep(s, kana).used..], kana)
    ensures !SjisStep(s, kana).ok ==> !SjisOk(s, kana)
  {
  }

  /** Somewhere a character of the IBM extension is read. */
  predicate HasIbmExt(s: seq<byte>)
  {
    s != [] && (IsIbmExt(s[0], At(s, 1)) || HasIbmExt(s[SjisStep(s, true).used..]))
  }

  // ---- ISO-2022-JP to Shift_JIS ----

  function LeadOf(a: byte): byte
    requires Graphic(a) || 0x7f <= a <= 0x97
  {
    if a < 0x5f then (a - 0x21) / 2 + 0x81 else (a - 0x21) / 2 + 0xc1
  }

  function TrailOf(a: byte, b: byte): byte
    requires Graphic(b)
  {
    if a % 2 == 1 then (if b < 0x60 then b + 0x1f else b + 0x20) else b + 0x7e
  }

  /** Two substitutes, or one at the end of the text. */
  function BadPair(s: seq<byte>, state: State): Read
    requires s != []
  {
    if |s| == 1 then Read(1, [SUBST], state, false) else Read(2, [SUBST, SUBST], state, false)
  }

  /** One round of conv_jistosjis. */
  function SjisRead(s: seq<byte>, state: State): (r: Read)
    requires s != []
    ensures 0 < r.used <= |s| && |r.out| <= r.used
  {
    if s[0] == ESC then ReadEscape(s, 0x3f, UDC)
    else if s[0] == SO then Read(1, [], HWKANA, true)
    else if s[0] == SI then Read(1, [], ASCII, true)
    else match state
      case HWKANA => Read(1, [Or80(s[0])], state, true)
      case KANJI =>
        if (Graphic(s[0]) || 0x7f <= s[0] <= 0x97) && Graphic(At(s, 1))
        then Read(2, [LeadOf(s[0]), TrailOf(s[0], s[1])], state, true)
        else BadPair(s, state)
      case UDC =>
        if 0x21 <= s[0] <= 0x34 && Graphic(At(s, 1))
        then Read(2, [(s[0] - 0x21) / 2 + 0xf0, TrailOf(s[0], s[1])], state, true)
        else BadPair(s, state)
      case _ => Read(1, [s[0]], state, true)
  }

  function JisToSjis(s: seq<byte>, state: State): seq<byte>
  {
    if s == [] then [] else
      var r := SjisRead(s, state);
      r.out + JisToSjis(s[r.used..], r.state)
  }

  /** No round of conv_jistosjis reported an error. */
  predicate JisToSjisOk(s: seq<byte>, state: State)
  {
    s == [] || (var r := SjisRead(s, state); r.ok && JisToSjisOk(s[r.used..], r.state))
  }

  function SjisBytes(u: Unit): seq<byte>
    requires Framed(u) && !u.Aux?
  {
    match u
    case Text(cs) => cs
    case Kanji(a, b) => [LeadOf(a), TrailOf(a, b)]
    case Kana(k) => [Or80(k)]
  }

  predicate Sjisable(us: seq<Unit>)
  {
    forall i :: 0 <= i < |us| ==> Framed(us[i]) && !us[i].Aux?
  }

  function SjisBytesAll(us: seq<Unit>): seq<byte>
    requires Sjisable(us)
  {
    if us == [] then [] else SjisBytes(us[0]) + SjisBytesAll(us[1..])
  }

  /** The escape sequences this reader knows: not that of JIS X 0212, but that of the user-defined characters. */
  function SjisSetOf(e: seq<byte>): (t: Option<State>)
    ensures t.Some? ==> 3 <= |e| <= 4 && e[0] == ESC
  {
    if e == [ESC, 0x24, 0x28, 0x3f] then Some(UDC)
    else if SetOf(e) == Some(AUXKANJI) then None
    else SetOf(e)
  }

  function SjisSetAt(s: seq<byte>, n: nat): Option<State>
  {
    if |s| < n then None else SjisSetOf(s[..n])
  }

  /** Each of them is read as that shift, whatever the state before. */
  lemma EscapeIsRead(e: seq<byte>, rest: seq<byte>, state: State)
    requires SjisSetOf(e).Some?
    ensures JisToSjis(e + rest, state) == JisToSjis(rest, SjisSetOf(e).value)
    ensures JisToSjisOk(e + rest, state) == JisToSjisOk(rest, SjisSetOf(e).value)
  {
    var s := e + rest;
    assert s[|e|..] == rest && s[0] == e[0] && s[1] == e[1] && s[2] == e[2];
    assert |e| == 4 ==> s[3] == e[3];
    assert SjisRead(s, state) == Read(|e|, [], SjisSetOf(e).value, true);
  }

  /** Any other ESC is passed over with an error, and leads to ASCII. */
  lemma UnknownEscapeIsDropped(s: seq<byte>, state: State)
    requires s != [] && s[0] == ESC && SjisSetAt(s, 3) == None && SjisSetAt(s, 4) == None
    ensures JisToSjis(s, state) == JisToSjis(s[1..], ASCII) && !JisToSjisOk(s, state)
  {
    if |s| >= 3 {
      assert s[..3] == [s[0], s[1], s[2]];
    }
    if |s| >= 4 {
      assert s[..4] == [s[0], s[1], s[2], s[3]];
    }
    assert SjisRead(s, state) == Read(1, [], ASCII, false);
  }

  /** SO shifts to kana and SI back. */
  lemma LockingShiftIsRead(rest: seq<byte>, state: State)
    ensures JisToSjis([SO] + rest, state) == JisToSjis(rest, HWKANA)
    ensures JisToSjis([SI] + rest, state) == JisToSjis(rest, ASCII)
  {
    assert ([SO] + rest)[1..] == rest && ([SI] + rest)[1..] == rest;
  }

  lemma ShiftIsRead(e: seq<byte>, from: State, to: State, rest: seq<byte>)
    requires Shifts(e, from, to) && to != AUXKANJI
    ensures JisToSjis(e + rest, from) == JisToSjis(rest, to)
  {
    if e == [] {
      assert e + rest == rest;
    } else {
      EscapeIsRead(e, rest, from);
    }
  }

  lemma {:induction false} TextIsRead(cs: seq<byte>, rest: seq<byte>)
    requires Plaintext(cs)
    ensures JisToSjis(cs + rest, ASCII) == cs + JisToSjis(rest, ASCII)
    decreases |cs|
  {
    if cs == [] {
      assert cs + rest == rest;
    } else {
      calc {
        JisToSjis(cs + rest, ASCII);
        { assert SjisRead(cs + rest, ASCII) == Read(1, [cs[0]], ASCII, true); }
        [cs[0]] + JisToSjis((cs + rest)[1..], ASCII);
        { assert (cs + rest)[1..] == cs[1..] + rest; TextIsRead(cs[1..], rest); }
        [cs[0]] + (cs[1..] + JisToSjis(rest, ASCII));
        { assert cs == [cs[0]] + cs[1..]; }
        cs + JisToSjis(rest, ASCII);
      }
    }
  }

  lemma CharsAreRead(u: Unit, rest: seq<byte>)
    requires Clean(u) && !u.Aux?
    ensures JisToSjis(Chars(u) + rest, StateOf(u)) == SjisBytes(u) + JisToSjis(rest, StateOf(u))
  {
    var s := Chars(u) + rest;
    if u.Text? {
      TextIsRead(u.cs, rest);
    } else {
      assert s[|Chars(u)|..] == rest;
      assert SjisRead(s, StateOf(u)) == Read(|Chars(u)|, SjisBytes(u), StateOf(u), true);
    }
  }

  lemma UnitIsRead(e: seq<byte>, u: Unit, state: State, rest: seq<byte>)
    requires Clean(u) && !u.Aux? && Shifts(e, state, StateOf(u))
    ensures JisToSjis(e + Chars(u) + rest, state) == SjisBytes(u) + JisToSjis(rest, StateOf(u))
  {
    hide JisToSjis, Shifts, Clean, SjisBytes;
    assert e + Chars(u) + rest == e + (Chars(u) + rest);
    ShiftIsRead(e, state, StateOf(u), Chars(u) + rest);
    CharsAreRead(u, rest);
  }

  /** Whichever escape sequences the writer chose, reading gives the Shift_JIS form of the units. */
  lemma {:induction false} WritingIsRead(us: seq<Unit>, es: seq<seq<byte>>, state: State)
    requires Sjisable(us) && AllClean(us) && Chosen(us, es, state)
    ensures JisToSjis(RenderAs(us, es), state) == SjisBytesAll(us)
    decreases |us|
  {
    hide JisToSjis, Clean, Shifts, SjisBytes;
    if us == [] {
      ShiftIsRead(es[0], state, ASCII, []);
      assert es[0] + [] == es[0];
      NothingIsRead();
    } else {
      UnitIsRead(es[0], us[0], state, RenderAs(us[1..], es[1..]));
      WritingIsRead(us[1..], es[1..], StateOf(us[0]));
    }
  }

  lemma NothingIsRead()
    ensures JisToSjis([], ASCII) == []
  {
  }

  lemma RenderedIsRead(us: seq<Unit>, state: State)
    requires Sjisable(us) && AllClean(us) && state != UDC
    ensures JisToSjis(Render(us, state), state) == SjisBytesAll(us)
  {
    RenderIsWriting(us, state);
    WritingIsRead(us, Choice(us, state), state);
  }

  // ---- Characters that the encoder does not write ----

  /** The rows beyond the 94 of JIS X 0208 stand for the lead bytes from 0xf0 on. */
  lemma HighRowIsRead(c1: byte, c2: byte, rest: seq<byte>)
    requires IsExt(c1) && IsTrail(c2) && Index(c1, c2) / 94 + 0x21 <= 0x97
    ensures var a, b := Index(c1, c2) / 94 + 0x21, Index(c1, c2) % 94 + 0x21;
      JisToSjis([a, b] + rest, KANJI) == [c1, c2] + JisToSjis(rest, KANJI)
  {
    var r := c2 - (if c2 > 0x7e then 0x41 else 0x40);
    var row := 2 * (c1 - 0xc1) + if r < 94 then 0 else 1;
    Split94(row, if r < 94 then r else r - 94);
    var a: byte, b: byte := Index(c1, c2) / 94 + 0x21, Index(c1, c2) % 94 + 0x21;
    var s := [a, b] + rest;
    assert s[2..] == rest && s[0] == a && s[1] == b;
    assert SjisRead(s, KANJI) == Read(2, [c1, c2], KANJI, true);
  }

  /** The 20 rows of user-defined characters stand for the lead bytes 0xf0 to 0xf9. */
  lemma UserDefinedIsRead(c1: byte, c2: byte, rest: seq<byte>)
    requires 0xf0 <= c1 <= 0xf9 && IsTrail(c2)
    ensures var i := (c1 - 0xf0) * 188 + c2 - (if c2 > 0x7e then 0x41 else 0x40);
      JisToSjis([i / 94 + 0x21, i % 94 + 0x21] + rest, UDC) == [c1, c2] + JisToSjis(rest, UDC)
  {
    var r := c2 - (if c2 > 0x7e then 0x41 else 0x40);
    var i := (c1 - 0xf0) * 188 + r;
    var row := 2 * (c1 - 0xf0) + if r < 94 then 0 else 1;
    Split94(row, if r < 94 then r else r - 94);
    var a: byte, b: byte := i / 94 + 0x21, i % 94 + 0x21;
    var s := [a, b] + rest;
    assert s[2..] == rest && s[0] == a && s[1] == b;
    assert SjisRead(s, UDC) == Read(2, [c1, c2], UDC, true);
  }

  lemma SjisStepFramed(s: seq<byte>, kana: bool)
    requires s != []
    ensures var u := SjisStep(s, kana).unit; Framed(u) && !u.Aux? && (Plaintext(s) ==> Clean(u))
  {
  }

  lemma {:induction false} SjisUnitsFramed(s: seq<byte>, kana: bool)
    ensures Sjisable(SjisUnits(s, kana)) && AllFramed(SjisUnits(s, kana))
    ensures Plaintext(s) ==> AllClean(SjisUnits(s, kana))
    decreases |s|
  {
    hide SjisStep, Framed, Clean;
    if s != [] {
      SjisStepFramed(s, kana);
      SjisUnitsFramed(s[SjisStep(s, kana).used..], kana);
    }
  }

  // ---- What the reader never puts out ----

  lemma SjisReadPlain(s: seq<byte>, state: State)
    requires s != []
    ensures Plaintext(SjisRead(s, state).out)
  {
  }

  /** No byte that means a shift comes out of conv_jistosjis, whatever goes in. */
  lemma {:induction false} JisToSjisPlain(s: seq<byte>, state: State)
    ensures Plaintext(JisToSjis(s, state))
    decreases |s|
  {
    hide SjisRead, Plaintext;
    if s == [] {
      NothingIsPlain();
    } else {
      var r := SjisRead(s, state);
      SjisReadPlain(s, state);
      JisToSjisPlain(s[r.used..], r.state);
      PlainAdds(r.out, JisToSjis(s[r.used..], r.state));
    }
  }

  lemma SjisStepPlain(s: seq<byte>, kana: bool)
    requires s != []
    ensures var p := SjisStep(s, kana);
      Framed(p.unit) && !p.unit.Aux? && (Plaintext(SjisBytes(p.unit)) <==> Plaintext(s[..p.used]))
  {
    SjisStepFramed(s, kana);
    var p := SjisStep(s, kana);
    if IsAscii(s[0]) {
      assert s[..p.used] == [s[0]];
    } else {
      HighFirstIsPlain(s, kana);
    }
  }

  /** A trail byte below 128 is no shift. */
  lemma HighFirstIsPlain(s: seq<byte>, kana: bool)
    requires s != [] && !IsAscii(s[0])
    ensures Plaintext(s[..SjisStep(s, kana).used])
  {
  }

  lemma {:induction false} SjisUnitsPlain(s: seq<byte>, kana: bool)
    ensures Sjisable(SjisUnits(s, kana))
    ensures Plaintext(SjisBytesAll(SjisUnits(s, kana))) <==> Plaintext(s)
    decreases |s|
  {
    hide SjisStep, Plaintext, SjisBytes, Framed;
    SjisUnitsFramed(s, kana);
    if s != [] {
      var p := SjisStep(s, kana);
      var rest := s[p.used..];
      SjisStepPlain(s, kana);
      SjisUnitsPlain(rest, kana);
      assert SjisUnits(s, kana)[1..] == SjisUnits(rest, kana);
      PlainAdds(SjisBytes(p.unit), SjisBytesAll(SjisUnits(rest, kana)));
      PlainAdds(s[..p.used], rest);
      assert s == s[..p.used] + rest;
    }
  }

  /** The reader gets what the writer meant exactly on text without bytes that mean a shift. */
  lemma SjisReadsAsMeantExactly(s: seq<byte>, kana: bool)
    ensures Sjisable(SjisUnits(s, kana))
    ensures JisToSjis(SjisToJis(s, kana), ASCII) == SjisBytesAll(SjisUnits(s, kana)) <==> Plaintext(s)
  {
    hide Plaintext;
    JisToSjisPlain(SjisToJis(s, kana), ASCII);
    SjisUnitsPlain(s, kana);
    if Plaintext(s) {
      SjisUnitsFramed(s, kana);
      RenderedIsRead(SjisUnits(s, kana), ASCII);
    }
  }

  // ---- The Shift_JIS round trip ----

  /** The index is a JIS row and column: two rows to a lead byte, the second from trail byte 0x9f on. */
  lemma RowAndColumn(c1: byte, c2: byte)
    requires IsLead(c1) && IsTrail(c2)
    ensures var row := 2 * (if c1 > 0x9f then c1 - 0xc1 else c1 - 0x81);
      FromIndex(Index(c1, c2)) == if c2 < 0x9f then Kanji(row + 0x21, c2 - (if c2 > 0x7e then 0x20 else 0x1f))
                                  else Kanji(row + 0x22, c2 - 0x7e)
  {
    IndexInTable(c1, c2);
    var row := 2 * (if c1 > 0x9f then c1 - 0xc1 else c1 - 0x81);
    if c2 < 0x9f {
      Split94(row, c2 - (if c2 > 0x7e then 0x41 else 0x40));
    } else {
      Split94(row + 1, c2 - 0x9f);
    }
  }

  /** The index arithmetic one way and the row arithmetic the other way are inverse. */
  lemma PairRoundTrips(c1: byte, c2: byte)
    requires IsLead(c1) && IsTrail(c2)
    ensures 0 <= Index(c1, c2) < 94 * 94 && SjisBytes(FromIndex(Index(c1, c2))) == [c1, c2]
  {
    IndexInTable(c1, c2);
    RowAndColumn(c1, c2);
  }

  lemma Split94(q: int, r: int)
    requires 0 <= r < 94
    ensures (94 * q + r) / 94 == q && (94 * q + r) % 94 == r
  {
  }

  /** An IBM extension character never comes back as it was. */
  lemma IbmExtMoves(c1: byte, c2: byte)
    requires IsIbmExt(c1, c2)
    ensures 0 <= IbmToNec(Index(c1, c2)) < 94 * 94
    ensures 0xed <= SjisBytes(FromIndex(IbmToNec(Index(c1, c2))))[0] <= 0xef
  {
    IndexInTable(c1, c2);
    var idx := IbmToNec(Index(c1, c2));
    assert 8272 <= idx < 8655;
    assert 88 <= idx / 94 <= 92;
  }

  /** Nor do all of them stay apart. */
  lemma IbmExtCollides()
    ensures IsIbmExt(0xfa, 0x4b) && IsIbmExt(0xfa, 0x55)
    ensures SjisToJis([0xfa, 0x4b], true) == SjisToJis([0xfa, 0x55], true)
  {
    var s: seq<byte>, t: seq<byte> := [0xfa, 0x4b], [0xfa, 0x55];
    assert s[2..] == [] && t[2..] == [];
    assert SjisStep(s, true) == SjisStep(t, true);
  }

  lemma SjisStepKeepsBytes(s: seq<byte>)
    requires s != []
    ensures var p := SjisStep(s, true);
      && Framed(p.unit) && !p.unit.Aux?
      && if p.ok && !IsIbmExt(s[0], At(s, 1)) then SjisBytes(p.unit) == s[..p.used]
         else SjisBytes(p.unit) != [] && SjisBytes(p.unit)[0] != s[0]
  {
    SjisStepFramed(s, true);
    var p := SjisStep(s, true);
    if IsLead(s[0]) && IsTrail(At(s, 1)) {
      PairRoundTrips(s[0], s[1]);
    } else if IsIbmExt(s[0], At(s, 1)) {
      IbmExtMoves(s[0], s[1]);
    }
  }

  lemma {:induction false} UnitsKeepBytes(s: seq<byte>)
    ensures Sjisable(SjisUnits(s, true))
    ensures SjisBytesAll(SjisUnits(s, true)) == s <==> SjisOk(s, true) && !HasIbmExt(s)
    decreases |s|
  {
    SjisUnitsFramed(s, true);
    if s != [] {
      var p := SjisStep(s, true);
      var rest := s[p.used..];
      SjisStepKeepsBytes(s);
      UnitsKeepBytes(rest);
      assert SjisUnits(s, true)[1..] == SjisUnits(rest, true);
      StepDecides(s, p.used, SjisBytes(p.unit), SjisBytesAll(SjisUnits(rest, true)), p.ok && !IsIbmExt(s[0], At(s, 1)));
    }
  }

  lemma StepDecides(s: seq<byte>, used: nat, out: seq<byte>, more: seq<byte>, good: bool)
    requires 0 < used <= |s|
    requires if good then out == s[..used] else out != [] && out[0] != s[0]
    ensures out + more == s <==> good && more == s[used..]
  {
    if good {
      assert s == s[..used] + s[used..];
      SameFront(out, more, s[used..]);
    } else {
      assert (out + more)[0] == out[0];
    }
  }

  // ---- The grammar of Shift_JIS ----

  /** One character: ASCII, half-width kana, a pair of the table, or, where it is allowed, one of the IBM extension. */
  predicate IsSjisChar(c: seq<byte>, ext: bool)
  {
    || (|c| == 1 && (IsAscii(c[0]) || IsHalfKana(c[0])))
    || (|c| == 2 && IsLead(c[0]) && IsTrail(c[1]))
    || (|c| == 2 && ext && IsIbmExt(c[0], c[1]))
  }

  predicate AreSjisChars(cs: seq<seq<byte>>, ext: bool)
  {
    forall i :: 0 <= i < |cs| ==> IsSjisChar(cs[i], ext)
  }

  /** Characters, one after another. */
  ghost predicate IsSjis(s: seq<byte>, ext: bool)
  {
    exists cs :: AreSjisChars(cs, ext) && Join(cs) == s
  }

  lemma SjisCharStep(c: seq<byte>, rest: seq<byte>, ext: bool)
    requires IsSjisChar(c, ext)
    ensures var p := SjisStep(c + rest, true);
      p.used == |c| && p.ok && (IsIbmExt((c + rest)[0], At(c + rest, 1)) ==> ext)
  {
    assert forall i :: 0 <= i < |c| ==> (c + rest)[i] == c[i];
  }

  lemma {:induction false} SjisCharsOk(cs: seq<seq<byte>>, ext: bool)
    requires AreSjisChars(cs, ext)
    ensures SjisOk(Join(cs), true) && (HasIbmExt(Join(cs)) ==> ext)
  {
    if cs != [] {
      var rest := Join(cs[1..]);
      SjisCharsOk(cs[1..], ext);
      SjisCharStep(cs[0], rest, ext);
      hide SjisStep, IsSjisChar, IsIbmExt;
      assert (cs[0] + rest)[|cs[0]|..] == rest;
    }
  }

  lemma SjisStepIsChar(s: seq<byte>, ext: bool)
    requires s != [] && SjisStep(s, true).ok && (IsIbmExt(s[0], At(s, 1)) ==> ext)
    ensures IsSjisChar(s[..SjisStep(s, true).used], ext)
  {
  }

  lemma {:induction false} SjisCharsOf(s: seq<byte>, ext: bool) returns (cs: seq<seq<byte>>)
    requires SjisOk(s, true) && (HasIbmExt(s) ==> ext)
    ensures AreSjisChars(cs, ext) && Join(cs) == s
    decreases |s|
  {
    hide IsSjisChar, IsIbmExt;
    cs := [];
    if s != [] {
      var n := SjisStep(s, true).used;
      SjisStepIsChar(s, ext);
      var more := SjisCharsOf(s[n..], ext);
      cs := [s[..n]] + more;
      hide SjisStep, SjisOk;
      assert cs[1..] == more;
    }
  }

  lemma PairIsTwo(s: seq<byte>)
    requires s != []
    ensures var p, q := SjisStep(s, false), SjisStep(s, true);
      && p.ok == q.ok
      && (p.used == q.used || (p.ok && p.used == q.used + 1 && SjisStep(s[q.used..], true).ok && SjisStep(s[q.used..], true).used == 1))
  {
  }

  /** Joining a kana with its sound mark does not hide an error. */
  lemma {:induction false} EitherKana(s: seq<byte>)
    ensures SjisOk(s, false) <==> SjisOk(s, true)
    decreases |s|
  {
    if s != [] {
      PairIsTwo(s);
      var p, q := SjisStep(s, false), SjisStep(s, true);
      EitherKana(s[p.used..]);
      hide SjisStep;
      if p.used != q.used {
        assert s[q.used..][1..] == s[p.used..];
      }
    }
  }

  /** The encoder reports no error exactly on Shift_JIS; it reads no IBM extension exactly when there is none in it. */
  lemma NoErrorExactlyOnSjis(s: seq<byte>, kana: bool)
    ensures SjisOk(s, kana) <==> IsSjis(s, true)
    ensures SjisOk(s, true) && !HasIbmExt(s) <==> IsSjis(s, false)
  {
    hide AreSjisChars, HasIbmExt, SjisOk;
    EitherKana(s);
    if SjisOk(s, true) {
      var cs := SjisCharsOf(s, true);
    }
    if SjisOk(s, true) && !HasIbmExt(s) {
      var cs := SjisCharsOf(s, false);
    }
    forall cs, ext | AreSjisChars(cs, ext) && Join(cs) == s ensures SjisOk(s, true) && (HasIbmExt(s) ==> ext) {
      SjisCharsOk(cs, ext);
    }
  }

  /** conv_jistosjis undoes conv_sjistojis exactly on Shift_JIS without IBM extension characters and bytes that mean a shift. */
  lemma SjisRoundTripsExactly(s: seq<byte>)
    ensures JisToSjis(SjisToJis(s, true), ASCII) == s <==> IsSjis(s, false) && Plaintext(s)
  {
    hide Plaintext, IsSjis, SjisOk, HasIbmExt, SjisToJis;
    JisToSjisPlain(SjisToJis(s, true), ASCII);
    SjisReadsAsMeantExactly(s, true);
    NoErrorExactlyOnSjis(s, true);
    UnitsKeepBytes(s);
  }

  /** For every byte string: the output has the formal syntax exactly when the runs of text in it do. */
  lemma SjisToJisWellFormedExactly(s: seq<byte>, kana: bool)
    ensures WellFormed(SjisToJis(s, kana), ASCII) <==> Settled(SjisUnits(s, kana), [])
  {
    SjisUnitsFramed(s, kana);
    SettledFrom(SjisUnits(s, kana), ASCII);
  }

  /** ASCII is written alike by both encoders, so an escape in it does the same harm. */
  lemma {:induction false} AsciiIsWrittenAlike(s: seq<byte>, kana: bool)
    requires forall i :: 0 <= i < |s| ==> IsAscii(s[i])
    ensures SjisUnits(s, kana) == EucUnits(s, kana) && SjisToJis(s, kana) == EucToJis(s, kana)
    decreases |s|
  {
    if s != [] {
      AsciiIsWrittenAlike(s[1..], kana);
      assert SjisStep(s, kana) == EucStep(s, kana) == Step(1, Text([s[0]]), true);
      hide SjisStep, EucStep;
    }
  }

  /** Without bytes that mean a shift it always has. */
  lemma SjisToJisIsWellFormed(s: seq<byte>, kana: bool)
    ensures Plaintext(s) ==> WellFormed(SjisToJis(s, kana), ASCII)
  {
    if Plaintext(s) {
      SjisUnitsFramed(s, kana);
      RenderIsWellFormed(SjisUnits(s, kana), ASCII);
    }
  }

  // ---- The length of the output ----

  lemma {:induction false} SjisToJisFits(s: seq<byte>, kana: bool, state: State)
    ensures |Render(SjisUnits(s, kana), state)| <= 5 * |s| + 3
    decreases |s|
  {
    if s != [] {
      var p := SjisStep(s, kana);
      SjisToJisFits(s[p.used..], kana, StateOf(p.unit));
      assert SjisUnits(s, kana)[1..] == SjisUnits(s[p.used..], kana);
      StepCost(s, kana, state);
    }
  }

  lemma StepCost(s: seq<byte>, kana: bool, state: State)
    requires s != []
    ensures |Written(SjisStep(s, kana).unit, state)| <= 5 * SjisStep(s, kana).used
  {
    var p := SjisStep(s, kana);
    assert !p.unit.Aux?;
    if p.unit.Text? {
      assert |p.unit.cs| <= p.used;
    }
  }

  // ---- Straight to EUC-JP ----

  /** The row and column formula of conv_sjistoeuc. */
  function EucPair(c1: byte, c2: byte): (r: seq<byte>)
    requires IsLead(c1) && IsTrail(c2)
    ensures |r| == 2
  {
    var row := if c1 < 0xa0 then 0x70 else 0xb0;
    if c2 < 0x9f then [Or80((c1 - row) * 2 - 1), Or80(c2 - (if c2 > 0x7f then 0x20 else 0x1f))]
    else [Or80((c1 - row) * 2), Or80(c2 - 0x7e)]
  }

  /** One round: how many bytes are read, what is written, and whether there was no error. */
  datatype Direct = Direct(used: nat, out: seq<byte>, ok: bool)

  function DirectStep(s: seq<byte>): (r: Direct)
    requires s != []
    ensures 0 < r.used <= |s| && |r.out| <= 2 * r.used
  {
    var c := s[0];
    if IsAscii(c) then Direct(1, [c], true)
    else if IsLead(c) && IsTrail(At(s, 1)) then Direct(2, EucPair(c, s[1]), true)
    else if !IsLead(c) && IsHalfKana(c) then Direct(1, [SS2, c], true)
    else if (IsLead(c) || IsExt(c)) && |s| > 1 && !IsAscii(s[1]) then Direct(2, [SUBST, SUBST], false)
    else Direct(1, [SUBST], false)
  }

  /** conv_sjistoeuc */
  function SjisToEuc(s: seq<byte>): seq<byte>
  {
    if s == [] then [] else
      var p := DirectStep(s);
      p.out + SjisToEuc(s[p.used..])
  }

  predicate DirectOk(s: seq<byte>)
  {
    s == [] || (var p := DirectStep(s); p.ok && DirectOk(s[p.used..]))
  }

  /** The two formulas agree on every pair. */
  lemma PairsAgree(c1: byte, c2: byte)
    requires IsLead(c1) && IsTrail(c2)
    ensures 0 <= Index(c1, c2) < 94 * 94 && EucPair(c1, c2) == EucBytes(FromIndex(Index(c1, c2)))
  {
    IndexInTable(c1, c2);
    RowAndColumn(c1, c2);
  }

  lemma StepsAgree(s: seq<byte>)
    requires s != []
    ensures var p, d := SjisStep(s, true), DirectStep(s);
      if IsIbmExt(s[0], At(s, 1)) then EucBytes(p.unit) != [] && EucBytes(p.unit)[0] != SUBST && d.out != [] && d.out[0] == SUBST
      else d == Direct(p.used, EucBytes(p.unit), p.ok)
  {
    if IsLead(s[0]) && IsTrail(At(s, 1)) {
      PairsAgree(s[0], s[1]);
    } else if IsIbmExt(s[0], At(s, 1)) {
      IbmExtMoves(s[0], s[1]);
    }
  }

  lemma {:induction false} DirectIsThroughUnits(s: seq<byte>)
    ensures SjisToEuc(s) == EucBytesAll(SjisUnits(s, true)) <==> !HasIbmExt(s)
    decreases |s|
  {
    if s != [] {
      var p, d := SjisStep(s, true), DirectStep(s);
      StepsAgree(s);
      assert SjisUnits(s, true)[1..] == SjisUnits(s[p.used..], true);
      var more := EucBytesAll(SjisUnits(s[p.used..], true));
      assert EucBytesAll(SjisUnits(s, true)) == EucBytes(p.unit) + more;
      if IsIbmExt(s[0], At(s, 1)) {
        assert SjisToEuc(s)[0] == SUBST && (EucBytes(p.unit) + more)[0] != SUBST;
      } else {
        DirectIsThroughUnits(s[p.used..]);
        SameFront(d.out, more, SjisToEuc(s[d.used..]));
      }
    }
  }

  lemma DirectStepPlain(s: seq<byte>)
    requires s != []
    ensures var d := DirectStep(s); Plaintext(d.out) ==> Plaintext(s[..d.used])
  {
    var d := DirectStep(s);
    if IsAscii(s[0]) {
      assert s[..d.used] == [s[0]];
    }
  }

  /** conv_sjistoeuc passes on the bytes that mean a shift. */
  lemma {:induction false} DirectPlain(s: seq<byte>)
    ensures Plaintext(SjisToEuc(s)) ==> Plaintext(s)
    decreases |s|
  {
    hide DirectStep, Plaintext;
    if s == [] {
      NothingIsPlain();
    } else {
      var d := DirectStep(s);
      DirectStepPlain(s);
      DirectPlain(s[d.used..]);
      PlainAdds(d.out, SjisToEuc(s[d.used..]));
      PlainAdds(s[..d.used], s[d.used..]);
      assert s == s[..d.used] + s[d.used..];
    }
  }

  /**
   conv_sjistoeuc and the way through ISO-2022-JP agree exactly where no IBM extension
   character and no byte that means a shift is read.
   */
  lemma SquareCommutesExactly(s: seq<byte>)
    ensures SjisToEuc(s) == JisToEuc(SjisToJis(s, true), ASCII) <==> !HasIbmExt(s) && Plaintext(s)
  {
    hide Plaintext, HasIbmExt;
    JisToEucPlain(SjisToJis(s, true), ASCII);
    DirectPlain(s);
    if Plaintext(s) {
      SjisUnitsFramed(s, true);
      Jis.RenderedIsRead(SjisUnits(s, true), ASCII);
      DirectIsThroughUnits(s);
    }
  }
}
