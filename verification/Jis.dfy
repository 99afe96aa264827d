/**
 The Japanese codecs of codeconv.c: ISO-2022-JP ("JIS", with half-width kana and JIS X 0212
 shift states), EUC-JP and Shift_JIS.  Each byte form is read as a sequence of units, the
 hub through which every conversion passes.
 */
module Jis {
  import opened Bytes

  const ESC: byte := 0x1b
  const SO: byte := 0x0e
  const SI: byte := 0x0f
  const SS2: byte := 0x8e
  const SS3: byte := 0x8f
  const SUBST: byte := 0x5f

  datatype State = ASCII | KANJI | HWKANA | AUXKANJI | UDC

  /** What one round of an encoder puts out: a shift to ASCII with some characters, or one character of a set. */
  datatype Unit = Text(cs: seq<byte>) | Kanji(a: byte, b: byte) | Kana(k: byte) | Aux(a: byte, b: byte)

  function StateOf(u: Unit): State
  {
    match u
    case Text(_) => ASCII
    case Kanji(_, _) => KANJI
    case Kana(_) => HWKANA
    case Aux(_, _) => AUXKANJI
  }

  function Or80(c: byte): byte
  {
    if c < 128 then c + 128 else c
  }

  function And7f(c: byte): byte
  {
    c % 128
  }

  predicate Graphic(c: byte)
  {
    0x21 <= c <= 0x7e
  }

  // ---- Writing ISO-2022-JP ----

  /** K_IN, K_OUT, HW_IN and AUX_IN: the escape sequence, if the state changes. */
  function Shift(from: State, to: State): (r: seq<byte>)
    ensures |r| <= 4 && (from == to ==> r == [])
  {
    if from == to then []
    else match to
      case ASCII => [ESC, 0x28, 0x42]
      case KANJI => [ESC, 0x24, 0x42]
      case HWKANA => [ESC, 0x28, 0x49]
      case AUXKANJI => [ESC, 0x24, 0x28, 0x44]
      case UDC => [ESC, 0x24, 0x28, 0x3f]
  }

  function Chars(u: Unit): seq<byte>
  {
    match u
    case Text(cs) => cs
    case Kanji(a, b) => [a, b]
    case Kana(k) => [k]
    case Aux(a, b) => [a, b]
  }

  function Written(u: Unit, state: State): seq<byte>
  {
    Shift(state, StateOf(u)) + Chars(u)
  }

  /** The units one after another, and back to ASCII at the end. */
  function Render(us: seq<Unit>, state: State): seq<byte>
  {
    if us == [] then Shift(state, ASCII)
    else Written(us[0], state) + Render(us[1..], StateOf(us[0]))
  }

  // ---- Reading EUC-JP ----

  datatype Step = Step(used: nat, unit: Unit, ok: bool)

  predicate IsEucKanji(c: byte)
  {
    0xa1 <= c <= 0xfe
  }

  predicate IsHalfKana(c: byte)
  {
    0xa1 <= c <= 0xdf
  }

  /** What an encoder does with bytes it cannot use: one or two substitutes. */
  function Subst(s: seq<byte>, i: nat, given: nat): (r: Step)
    requires i <= |s|
  {
    if i < |s| && !IsAscii(s[i])
    then Step(i + 1, Text(seq(given + 1, _ => SUBST)), false)
    else Step(i, Text(seq(given, _ => SUBST)), false)
  }

  /** One round of conv_euctojis. */
  function EucStep(s: seq<byte>, kana: bool): (r: Step)
    requires s != []
    ensures 0 < r.used <= |s|
  {
    var c := s[0];
    if IsAscii(c) then Step(1, Text([c]), true)
    else if IsEucKanji(c) then
      if IsEucKanji(At(s, 1)) then Step(2, Kanji(And7f(c), And7f(s[1])), true)
      else Subst(s, 1, 1)
    else if c == SS2 then
      if IsHalfKana(At(s, 1)) then
        if kana then Step(2, Kana(And7f(s[1])), true)
        else
          var pair := At(s, 2) == SS2 && IsHalfKana(At(s, 3));
          var z := HanToZen(s[1], if pair then s[3] else NUL);
          Step(2 * z.len, Kanji(z.a, z.b), true)
      else Subst(s, 1, 0)
    else if c == SS3 then
      if IsEucKanji(At(s, 1)) && IsEucKanji(At(s, 2)) then Step(3, Aux(And7f(s[1]), And7f(s[2])), true)
      else
        if 1 < |s| && !IsAscii(s[1]) then Subst(s, 2, 1) else Step(1, Text([]), false)
    else Step(1, Text([SUBST]), false)
  }

  function EucUnits(s: seq<byte>, kana: bool): seq<Unit>
  {
    if s == [] then [] else
      var p := EucStep(s, kana);
      [p.unit] + EucUnits(s[p.used..], kana)
  }

  /** No round reported an error. */
  predicate EucOk(s: seq<byte>, kana: bool)
  {
    s == [] || (var p := EucStep(s, kana); p.ok && EucOk(s[p.used..], kana))
  }

  /** conv_euctojis */
  function EucToJis(s: seq<byte>, kana: bool): seq<byte>
  {
    Render(EucUnits(s, kana), ASCII)
  }

  /** What stands in for bytes that are no character. */
  predicate Replaces(s: seq<byte>, used: nat, subst: nat, kana: bool)
  {
    && used <= |s| && s != []
    && EucUnits(s, kana) == [Text(seq(subst, _ => SUBST))] + EucUnits(s[used..], kana)
    && !EucOk(s, kana)
  }

  /**
   A lead byte before ASCII or the end is replaced by one "_", or by nothing if it is a
   shift; with another byte behind it that makes no character with it, both are replaced,
   by two or by one; and a byte that can begin no character is replaced by one.
   */
  lemma BadBytesAreReplaced(s: seq<byte>, kana: bool)
    requires s != [] && !IsAscii(s[0])
    ensures IsEucKanji(s[0]) && IsAscii(At(s, 1)) ==> Replaces(s, 1, 1, kana)
    ensures IsEucKanji(s[0]) && !IsAscii(At(s, 1)) && !IsEucKanji(At(s, 1)) ==> Replaces(s, 2, 2, kana)
    ensures s[0] in {SS2, SS3} && IsAscii(At(s, 1)) ==> Replaces(s, 1, 0, kana)
    ensures s[0] == SS2 && !IsAscii(At(s, 1)) && !IsHalfKana(At(s, 1)) ==> Replaces(s, 2, 1, kana)
    ensures !IsEucKanji(s[0]) && s[0] !in {SS2, SS3} ==> Replaces(s, 1, 1, kana)
  {
    var none: seq<byte> := [];
    assert seq(0, _ => SUBST) == none;
    assert seq(1, _ => SUBST) == [SUBST];
    hide EucUnits, HanToZen;
    UnitsStart(s, kana);
  }

  lemma UnitsStart(s: seq<byte>, kana: bool)
    requires s != []
    ensures EucUnits(s, kana) == [EucStep(s, kana).unit] + EucUnits(s[EucStep(s, kana).used..], kana)
    ensures !EucStep(s, kana).ok ==> !EucOk(s, kana)
  {
  }

  // ---- Half-width to full-width kana ----

  datatype Zenkaku = Zenkaku(a: byte, b: byte, len: nat)

  /** A two-byte JIS X 0208 code held in one number. */
  type Code = x: int | Graphic16(x) witness 0x2121

  predicate Graphic16(x: int)
  {
    0x21 <= x / 256 <= 0x7e && 0x21 <= x % 256 <= 0x7e
  }

  /** The tables, with None where a kana has no voiced form. */
  const H2Z_21: seq<Code> := [
    0x2123, 0x2156, 0x2157, 0x2122, 0x2126, 0x2572, 0x2521,
    0x2523, 0x2525, 0x2527, 0x2529, 0x2563, 0x2565, 0x2567, 0x2543]
  const H2Z_30: seq<Code> := [
    0x213c, 0x2522, 0x2524, 0x2526, 0x2528, 0x252a, 0x252b, 0x252d,
    0x252f, 0x2531, 0x2533, 0x2535, 0x2537, 0x2539, 0x253b, 0x253d]
  const H2Z_40: seq<Code> := [
    0x253f, 0x2541, 0x2544, 0x2546, 0x2548, 0x254a, 0x254b, 0x254c,
    0x254d, 0x254e, 0x254f, 0x2552, 0x2555, 0x2558, 0x255b, 0x255e]
  const H2Z_50: seq<Code> := [
    0x255f, 0x2560, 0x2561, 0x2562, 0x2564, 0x2566, 0x2568, 0x2569,
    0x256a, 0x256b, 0x256c, 0x256d, 0x256f, 0x2573, 0x212b, 0x212c]

  const DAKUTEN: seq<Option<Code>> := [
    None, None, None, None, None, None, Some(0x252c), Some(0x252e),
    Some(0x2530), Some(0x2532), Some(0x2534), Some(0x2536), Some(0x2538), Some(0x253a), Some(0x253c), Some(0x253e),
    Some(0x2540), Some(0x2542), Some(0x2545), Some(0x2547), Some(0x2549), None, None, None,
    None, None, Some(0x2550), Some(0x2553), Some(0x2556), Some(0x2559), Some(0x255c), None]

  const HANDAKUTEN: seq<Code> := [0x2551, 0x2554, 0x2557, 0x255a, 0x255d]

  function Plain(c: byte): Code
    requires 0x21 <= c <= 0x5f
  {
    if c < 0x30 then H2Z_21[c - 0x21]
    else if c < 0x40 then H2Z_30[c - 0x30]
    else if c < 0x50 then H2Z_40[c - 0x40]
    else H2Z_50[c - 0x50]
  }

  function Voiced(c: byte): Option<Code>
    requires 0x36 <= c <= 0x4e
  {
    DAKUTEN[c - 0x30]
  }

  function HalfVoiced(c: byte): Code
    requires 0x4a <= c <= 0x4e
  {
    HANDAKUTEN[c - 0x4a]
  }

  /** The tables agree: a voiced kana is the code after the plain one, a half-voiced one the code after that. */
  lemma VoicedFollowsPlain(c: byte)
    requires 0x36 <= c <= 0x4e && Voiced(c).Some?
    ensures Voiced(c).value == Plain(c) + 1
  {
  }

  lemma HalfVoicedFollowsVoiced(c: byte)
    requires 0x4a <= c <= 0x4e
    ensures HalfVoiced(c) == Plain(c) + 2
  {
  }

  /** The full-size kana that a small one comes before. */
  function FullSize(c: byte): byte
    requires 0x27 <= c <= 0x2f
  {
    if c <= 0x2b then c + 0x0a else if c <= 0x2e then c + 0x28 else 0x42
  }

  lemma SmallPrecedesFull(c: byte)
    requires 0x27 <= c <= 0x2f
    ensures Plain(FullSize(c)) == Plain(c) + 1
  {
  }

  predicate HasSmall(c: byte)
  {
    0x32 <= c <= 0x35 || c == 0x42 || 0x54 <= c <= 0x56 || c == 0x5c
  }

  /** How many codes of row 5 of JIS X 0208 belong to a kana and come after it. */
  function Variants(c: byte): nat
    requires 0x31 <= c < 0x5c
  {
    (if 0x36 <= c <= 0x4e && Voiced(c).Some? then 1 else 0) + if 0x4a <= c <= 0x4e then 1 else 0
  }

  /**
   The plain table follows row 5 of JIS X 0208: from "a" on each kana comes after the voiced
   forms of the one before and its own small form; after "wa" come two kana without a
   half-width form, then "wo" and "n".
   */
  lemma KanaInOrder(c: byte)
    requires 0x31 <= c < 0x5c
    ensures Plain(0x31) == 0x2522
    ensures Plain(c + 1) == Plain(c) + 1 + Variants(c) + if HasSmall(c + 1) then 1 else 0
  {
    hide *;
    FirstKana();
    if c < 0x40 {
      EarlyKana(c);
    } else {
      LateKana(c);
    }
  }

  lemma FirstKana()
    ensures Plain(0x31) == 0x2522
  {
  }

  lemma EarlyKana(c: byte)
    requires 0x31 <= c < 0x40
    ensures Plain(c + 1) == Plain(c) + 1 + Variants(c) + if HasSmall(c + 1) then 1 else 0
  {
  }

  lemma LateKana(c: byte)
    requires 0x40 <= c < 0x5c
    ensures Plain(c + 1) == Plain(c) + 1 + Variants(c) + if HasSmall(c + 1) then 1 else 0
  {
  }

  lemma LastKana()
    ensures Plain(0x26) == Plain(0x5c) + 3 && Plain(0x5d) == Plain(0x5c) + 4
  {
  }

  /** Full stop, brackets, comma, middle dot, long vowel and the two sound marks, in row 1. */
  lemma MarksInRowOne()
    ensures Plain(0x21) == 0x2123 && Plain(0x22) == 0x2156 && Plain(0x23) == 0x2157 && Plain(0x24) == 0x2122
    ensures Plain(0x25) == 0x2126 && Plain(0x30) == 0x213c && Plain(0x5e) == 0x212b && Plain(0x5f) == 0x212c
  {
  }

  function Split(x: int, len: nat): (z: Zenkaku)
    requires Graphic16(x)
    ensures Graphic(z.a) && Graphic(z.b) && z.len == len
  {
    Zenkaku(x / 256, x % 256, len)
  }

  /** conv_jis_hantozen, for a kana and what may be its sound mark; len is how many of the two it used. */
  function HanToZen(code: byte, sound: byte): (z: Zenkaku)
    requires IsHalfKana(code)
    ensures z.len == 1 || (z.len == 2 && (And7f(sound) == 0x5e || And7f(sound) == 0x5f))
    ensures Graphic(z.a) && Graphic(z.b)
  {
    var c, m := And7f(code), And7f(sound);
    if m == 0x5e && 0x36 <= c <= 0x4e && Voiced(c).Some? then Split(Voiced(c).value, 2)
    else if m == 0x5f && 0x4a <= c <= 0x4e then Split(HalfVoiced(c), 2)
    else Split(Plain(c), 1)
  }

  /** A kana of the rows ka, sa, ta and ha, with a voiced form. */
  predicate HasVoiced(c: byte)
  {
    0x36 <= c <= 0x44 || 0x4a <= c <= 0x4e
  }

  /**
   What becomes of a half-width kana: with a voiced sound mark behind it the code after its
   own, with a half-voiced one after ha to ho the second code after its own, and both are
   used up; otherwise its own code, and only the kana is.
   */
  lemma HanToZenIs(code: byte, sound: byte)
    requires IsHalfKana(code)
    ensures var c, m, z := code - 0x80, And7f(sound), HanToZen(code, sound);
      if m == 0x5e && HasVoiced(c) then 256 * z.a + z.b == Plain(c) + 1 && z.len == 2
      else if m == 0x5f && 0x4a <= c <= 0x4e then 256 * z.a + z.b == Plain(c) + 2 && z.len == 2
      else 256 * z.a + z.b == Plain(c) && z.len == 1
  {
    hide Plain, Voiced, HalfVoiced, Split;
    var c := And7f(code);
    if 0x36 <= c <= 0x4e {
      VoicedIsThere(c);
      if Voiced(c).Some? {
        VoicedFollowsPlain(c);
        SplitIs(Voiced(c).value, 2);
      }
    }
    if 0x4a <= c <= 0x4e {
      HalfVoicedFollowsVoiced(c);
      SplitIs(HalfVoiced(c), 2);
    }
    SplitIs(Plain(c), 1);
  }

  lemma SplitIs(x: int, len: nat)
    requires Graphic16(x)
    ensures 256 * Split(x, len).a + Split(x, len).b == x
  {
  }

  lemma VoicedIsThere(c: byte)
    requires 0x36 <= c <= 0x4e
    ensures Voiced(c).Some? <==> HasVoiced(c)
  {
  }

  // ---- Reading ISO-2022-JP ----

  /** One round of a decoder. */
  datatype Read = Read(used: nat, out: seq<byte>, state: State, ok: bool)

  /** An escape sequence; the two decoders know different four-byte ones.  An unknown one is passed over as a lone ESC. */
  function ReadEscape(s: seq<byte>, third: byte, extra: State): (r: Read)
    requires s != [] && s[0] == ESC
    ensures 0 < r.used <= |s| && r.out == []
  {
    if At(s, 1) == 0x24 && (At(s, 2) == 0x40 || At(s, 2) == 0x42) then Read(3, [], KANJI, true)
    else if At(s, 1) == 0x24 && At(s, 2) == 0x28 && third != NUL && At(s, 3) == third then Read(4, [], extra, true)
    else if At(s, 1) == 0x28 && (At(s, 2) == 0x42 || At(s, 2) == 0x4a) then Read(3, [], ASCII, true)
    else if At(s, 1) == 0x28 && At(s, 2) == 0x49 then Read(3, [], HWKANA, true)
    else Read(1, [], ASCII, false)
  }

  /** One round of conv_jistoeuc. */
  function EucRead(s: seq<byte>, state: State): (r: Read)
    requires s != []
    ensures 0 < r.used <= |s| && |r.out| <= 2 * r.used
  {
    if s[0] == ESC then ReadEscape(s, 0x44, AUXKANJI)
    else if s[0] == SO then Read(1, [], HWKANA, true)
    else if s[0] == SI then Read(1, [], ASCII, true)
    else match state
      case KANJI =>
        if |s| == 1 then Read(1, [Or80(s[0])], state, true) else Read(2, [Or80(s[0]), Or80(s[1])], state, true)
      case HWKANA => Read(1, [SS2, Or80(s[0])], state, true)
      case AUXKANJI =>
        if |s| == 1 then Read(1, [SS3, Or80(s[0])], state, true) else Read(2, [SS3, Or80(s[0]), Or80(s[1])], state, true)
      case _ => Read(1, [s[0]], state, true)
  }

  function JisToEuc(s: seq<byte>, state: State): seq<byte>
  {
    if s == [] then [] else
      var r := EucRead(s, state);
      r.out + JisToEuc(s[r.used..], r.state)
  }

  /** No round of conv_jistoeuc reported an error. */
  predicate JisOk(s: seq<byte>, state: State)
  {
    s == [] || (var r := EucRead(s, state); r.ok && JisOk(s[r.used..], r.state))
  }

  function EucBytes(u: Unit): seq<byte>
  {
    match u
    case Text(cs) => cs
    case Kanji(a, b) => [Or80(a), Or80(b)]
    case Kana(k) => [SS2, Or80(k)]
    case Aux(a, b) => [SS3, Or80(a), Or80(b)]
  }

  function EucBytesAll(us: seq<Unit>): seq<byte>
  {
    if us == [] then [] else EucBytes(us[0]) + EucBytesAll(us[1..])
  }

  // ---- What survives ISO-2022-JP ----

  /** Text without the bytes that mean a shift. */
  predicate Plaintext(s: seq<byte>)
  {
    forall i :: 0 <= i < |s| ==> s[i] != ESC && s[i] != SO && s[i] != SI
  }

  predicate Clean(u: Unit)
  {
    match u
    case Text(cs) => Plaintext(cs) && forall i :: 0 <= i < |cs| ==> IsAscii(cs[i])
    case Kanji(a, b) => Graphic(a) && Graphic(b)
    case Kana(k) => 0x21 <= k <= 0x5f
    case Aux(a, b) => Graphic(a) && Graphic(b)
  }

  predicate AllClean(us: seq<Unit>)
  {
    forall i :: 0 <= i < |us| ==> Clean(us[i])
  }

  // ---- Escape sequences ----

  /**
   The character set that an escape sequence designates: those of section 4 of RFC 1468,
   with JIS X 0201 Roman taken for ASCII and the older edition of JIS X 0208 for the newer,
   and those of JIS X 0201 kana and JIS X 0212.
   */
  function SetOf(e: seq<byte>): (t: Option<State>)
    ensures t.Some? ==> 3 <= |e| <= 4 && e[0] == ESC
  {
    if e == [ESC, 0x28, 0x42] || e == [ESC, 0x28, 0x4a] then Some(ASCII)
    else if e == [ESC, 0x24, 0x40] || e == [ESC, 0x24, 0x42] then Some(KANJI)
    else if e == [ESC, 0x28, 0x49] then Some(HWKANA)
    else if e == [ESC, 0x24, 0x28, 0x44] then Some(AUXKANJI)
    else None
  }

  /** The set that is designated at the start of the text by as many bytes. */
  function SetAt(s: seq<byte>, n: nat): Option<State>
  {
    if |s| < n then None else SetOf(s[..n])
  }

  /** Each of them is read as that shift, whatever the state before. */
  lemma EscapeIsRead(e: seq<byte>, rest: seq<byte>, state: State)
    requires SetOf(e).Some?
    ensures JisToEuc(e + rest, state) == JisToEuc(rest, SetOf(e).value)
    ensures JisOk(e + rest, state) == JisOk(rest, SetOf(e).value)
  {
    var s := e + rest;
    assert s[|e|..] == rest && s[0] == e[0] && s[1] == e[1] && s[2] == e[2];
    assert |e| == 4 ==> s[3] == e[3];
    assert EucRead(s, state) == Read(|e|, [], SetOf(e).value, true);
  }

  /** Any other ESC is passed over with an error, and leads to ASCII. */
  lemma UnknownEscapeIsDropped(s: seq<byte>, state: State)
    requires s != [] && s[0] == ESC && SetAt(s, 3) == None && SetAt(s, 4) == None
    ensures JisToEuc(s, state) == JisToEuc(s[1..], ASCII) && !JisOk(s, state)
  {
    if |s| >= 3 {
      assert s[..3] == [s[0], s[1], s[2]];
    }
    if |s| >= 4 {
      assert s[..4] == [s[0], s[1], s[2], s[3]];
    }
    assert EucRead(s, state) == Read(1, [], ASCII, false);
  }

  /** SO shifts to kana and SI back. */
  lemma LockingShiftIsRead(rest: seq<byte>, state: State)
    ensures JisToEuc([SO] + rest, state) == JisToEuc(rest, HWKANA)
    ensures JisToEuc([SI] + rest, state) == JisToEuc(rest, ASCII)
  {
    assert ([SO] + rest)[1..] == rest && ([SI] + rest)[1..] == rest;
  }

  // ---- Reading what a writer wrote ----

  /** What a writer may put between two states: any escape sequence for the new one, or nothing if it is the old one. */
  predicate Shifts(e: seq<byte>, from: State, to: State)
  {
    SetOf(e) == Some(to) || (e == [] && from == to)
  }

  predicate Chosen(us: seq<Unit>, es: seq<seq<byte>>, state: State)
  {
    && |es| == |us| + 1
    && if us == [] then Shifts(es[0], state, ASCII)
       else Shifts(es[0], state, StateOf(us[0])) && Chosen(us[1..], es[1..], StateOf(us[0]))
  }

  /** The units written by a writer that chose these escape sequences. */
  function RenderAs(us: seq<Unit>, es: seq<seq<byte>>): seq<byte>
    requires |es| == |us| + 1
  {
    if us == [] then es[0] else es[0] + Chars(us[0]) + RenderAs(us[1..], es[1..])
  }

  lemma ShiftIsRead(e: seq<byte>, from: State, to: State, rest: seq<byte>)
    requires Shifts(e, from, to)
    ensures JisToEuc(e + rest, from) == JisToEuc(rest, to)
  {
    if e == [] {
      assert e + rest == rest;
    } else {
      EscapeIsRead(e, rest, from);
    }
  }

  lemma {:induction false} TextIsRead(cs: seq<byte>, rest: seq<byte>)
    requires Plaintext(cs)
    ensures JisToEuc(cs + rest, ASCII) == cs + JisToEuc(rest, ASCII)
    decreases |cs|
  {
    if cs == [] {
      assert cs + rest == rest;
    } else {
      calc {
        JisToEuc(cs + rest, ASCII);
        { assert EucRead(cs + rest, ASCII) == Read(1, [cs[0]], ASCII, true); }
        [cs[0]] + JisToEuc((cs + rest)[1..], ASCII);
        { assert (cs + rest)[1..] == cs[1..] + rest; TextIsRead(cs[1..], rest); }
        [cs[0]] + (cs[1..] + JisToEuc(rest, ASCII));
        { assert cs == [cs[0]] + cs[1..]; }
        cs + JisToEuc(rest, ASCII);
      }
    }
  }

  lemma CharsAreRead(u: Unit, rest: seq<byte>)
    requires Clean(u)
    ensures JisToEuc(Chars(u) + rest, StateOf(u)) == EucBytes(u) + JisToEuc(rest, StateOf(u))
  {
    var s := Chars(u) + rest;
    if u.Text? {
      TextIsRead(u.cs, rest);
    } else {
      assert s[|Chars(u)|..] == rest;
      assert EucRead(s, StateOf(u)) == Read(|Chars(u)|, EucBytes(u), StateOf(u), true);
    }
  }

  lemma UnitIsRead(e: seq<byte>, u: Unit, state: State, rest: seq<byte>)
    requires Clean(u) && Shifts(e, state, StateOf(u))
    ensures JisToEuc(e + Chars(u) + rest, state) == EucBytes(u) + JisToEuc(rest, StateOf(u))
  {
    hide JisToEuc, Shifts, Clean, EucBytes;
    assert e + Chars(u) + rest == e + (Chars(u) + rest);
    ShiftIsRead(e, state, StateOf(u), Chars(u) + rest);
    CharsAreRead(u, rest);
  }

  /** Whichever escape sequences the writer chose, reading gives the EUC form of the units. */
  lemma {:induction false} WritingIsRead(us: seq<Unit>, es: seq<seq<byte>>, state: State)
    requires AllClean(us) && Chosen(us, es, state)
    ensures JisToEuc(RenderAs(us, es), state) == EucBytesAll(us)
    decreases |us|
  {
    hide JisToEuc, Clean, Shifts;
    if us == [] {
      ShiftIsRead(es[0], state, ASCII, []);
      assert es[0] + [] == es[0];
      NothingIsRead();
    } else {
      UnitIsRead(es[0], us[0], state, RenderAs(us[1..], es[1..]));
      WritingIsRead(us[1..], es[1..], StateOf(us[0]));
    }
  }

  lemma NothingIsRead()
    ensures JisToEuc([], ASCII) == []
  {
  }

  /** The escape sequences that the encoders choose. */
  function Choice(us: seq<Unit>, state: State): (es: seq<seq<byte>>)
    ensures |es| == |us| + 1
  {
    if us == [] then [Shift(state, ASCII)]
    else [Shift(state, StateOf(us[0]))] + Choice(us[1..], StateOf(us[0]))
  }

  lemma {:induction false} RenderIsWriting(us: seq<Unit>, state: State)
    requires state != UDC
    ensures Chosen(us, Choice(us, state), state) && RenderAs(us, Choice(us, state)) == Render(us, state)
    decreases |us|
  {
    if us != [] {
      var to := StateOf(us[0]);
      RenderIsWriting(us[1..], to);
      assert Choice(us, state)[1..] == Choice(us[1..], to);
      ShiftShifts(state, to);
    }
  }

  lemma ShiftShifts(from: State, to: State)
    requires to != UDC
    ensures Shifts(Shift(from, to), from, to)
  {
  }

  /** Reading back what was written gives the EUC form of the units. */
  lemma RenderedIsRead(us: seq<Unit>, state: State)
    requires AllClean(us) && state != UDC
    ensures JisToEuc(Render(us, state), state) == EucBytesAll(us)
  {
    RenderIsWriting(us, state);
    WritingIsRead(us, Choice(us, state), state);
  }

  lemma EucStepClean(s: seq<byte>, kana: bool)
    requires s != [] && Plaintext(s)
    ensures Clean(EucStep(s, kana).unit)
  {
  }

  lemma {:induction false} EucUnitsClean(s: seq<byte>, kana: bool)
    requires Plaintext(s)
    ensures AllClean(EucUnits(s, kana))
    decreases |s|
  {
    if s != [] {
      EucStepClean(s, kana);
      EucUnitsClean(s[EucStep(s, kana).used..], kana);
    }
  }

  // ---- What the reader never puts out ----

  lemma PlainAdds(a: seq<byte>, b: seq<byte>)
    ensures Plaintext(a + b) <==> Plaintext(a) && Plaintext(b)
  {
    var c := a + b;
    if Plaintext(c) {
      assert forall i :: 0 <= i < |a| ==> a[i] == c[i];
      assert forall i :: 0 <= i < |b| ==> b[i] == c[|a| + i];
    }
  }

  lemma EucReadPlain(s: seq<byte>, state: State)
    requires s != []
    ensures Plaintext(EucRead(s, state).out)
  {
  }

  /** No byte that means a shift comes out of conv_jistoeuc, whatever goes in. */
  lemma {:induction false} JisToEucPlain(s: seq<byte>, state: State)
    ensures Plaintext(JisToEuc(s, state))
    decreases |s|
  {
    hide EucRead, Plaintext;
    if s == [] {
      NothingIsPlain();
    } else {
      var r := EucRead(s, state);
      EucReadPlain(s, state);
      JisToEucPlain(s[r.used..], r.state);
      PlainAdds(r.out, JisToEuc(s[r.used..], r.state));
    }
  }

  lemma NothingIsPlain()
    ensures Plaintext([])
  {
  }

  /** A round passes on the bytes that mean a shift, each as a text of its own. */
  lemma EucStepPlain(s: seq<byte>, kana: bool)
    requires s != []
    ensures var p := EucStep(s, kana); Plaintext(EucBytes(p.unit)) <==> Plaintext(s[..p.used])
  {
    var p := EucStep(s, kana);
    if IsAscii(s[0]) {
      assert s[..p.used] == [s[0]];
    } else {
      HighIsPlain(s[..p.used]);
    }
  }

  lemma HighIsPlain(s: seq<byte>)
    requires forall i :: 0 <= i < |s| ==> !IsAscii(s[i])
    ensures Plaintext(s)
  {
  }

  lemma {:induction false} EucUnitsPlain(s: seq<byte>, kana: bool)
    ensures Plaintext(EucBytesAll(EucUnits(s, kana))) <==> Plaintext(s)
    decreases |s|
  {
    hide EucStep, Plaintext, EucBytes;
    if s != [] {
      var p := EucStep(s, kana);
      var rest := s[p.used..];
      EucStepPlain(s, kana);
      EucUnitsPlain(rest, kana);
      assert EucUnits(s, kana)[1..] == EucUnits(rest, kana);
      PlainAdds(EucBytes(p.unit), EucBytesAll(EucUnits(rest, kana)));
      PlainAdds(s[..p.used], rest);
      assert s == s[..p.used] + rest;
    }
  }

  /** The reader gets what the writer meant exactly on text without bytes that mean a shift. */
  lemma EucReadsAsMeantExactly(s: seq<byte>, kana: bool)
    ensures JisToEuc(EucToJis(s, kana), ASCII) == EucBytesAll(EucUnits(s, kana)) <==> Plaintext(s)
  {
    hide Plaintext;
    JisToEucPlain(EucToJis(s, kana), ASCII);
    EucUnitsPlain(s, kana);
    if Plaintext(s) {
      EucUnitsClean(s, kana);
      RenderedIsRead(EucUnits(s, kana), ASCII);
    }
  }

  // ---- The EUC round trip ----

  /** A good round keeps its bytes; a bad one puts out something else, starting with an ASCII character or nothing. */
  lemma EucStepKeepsBytes(s: seq<byte>)
    requires s != []
    ensures var p := EucStep(s, true);
      if p.ok then EucBytes(p.unit) == s[..p.used]
      else !IsAscii(s[0]) && p.unit.Text? && (forall c :: c in p.unit.cs ==> c == SUBST)
           && (p.unit.cs == [] ==> p.used == |s| || IsAscii(s[p.used]))
  {
  }

  lemma SameFront(a: seq<byte>, x: seq<byte>, y: seq<byte>)
    ensures a + x == a + y <==> x == y
  {
    assert (a + x)[|a|..] == x && (a + y)[|a|..] == y;
  }

  lemma AsciiFirst(s: seq<byte>)
    requires s != [] && IsAscii(s[0])
    ensures EucBytesAll(EucUnits(s, true)) != [] && EucBytesAll(EucUnits(s, true))[0] == s[0]
  {
    assert EucStep(s, true).unit == Text([s[0]]);
  }

  lemma {:induction false} UnitsKeepBytes(s: seq<byte>)
    ensures EucBytesAll(EucUnits(s, true)) == s <==> EucOk(s, true)
    decreases |s|
  {
    if s != [] {
      var p := EucStep(s, true);
      var rest := s[p.used..];
      EucStepKeepsBytes(s);
      UnitsKeepBytes(rest);
      var out, more := EucBytesAll(EucUnits(s, true)), EucBytesAll(EucUnits(rest, true));
      assert EucUnits(s, true)[1..] == EucUnits(rest, true);
      assert out == EucBytes(p.unit) + more;
      if p.ok {
        assert s == s[..p.used] + rest;
        SameFront(s[..p.used], more, rest);
      } else if p.unit.cs != [] {
        assert out[0] == SUBST;
      } else if rest != [] {
        AsciiFirst(rest);
        assert out[0] == rest[0];
      }
    }
  }

  // ---- The grammar of EUC-JP ----

  /** One character: ASCII, JIS X 0208, half-width kana after SS2, or JIS X 0212 after SS3. */
  predicate IsEucChar(c: seq<byte>)
  {
    || (|c| == 1 && IsAscii(c[0]))
    || (|c| == 2 && IsEucKanji(c[0]) && IsEucKanji(c[1]))
    || (|c| == 2 && c[0] == SS2 && IsHalfKana(c[1]))
    || (|c| == 3 && c[0] == SS3 && IsEucKanji(c[1]) && IsEucKanji(c[2]))
  }

  predicate AreEucChars(cs: seq<seq<byte>>)
  {
    forall i :: 0 <= i < |cs| ==> IsEucChar(cs[i])
  }

  /** Characters, one after another. */
  ghost predicate IsEuc(s: seq<byte>)
  {
    exists cs :: AreEucChars(cs) && Join(cs) == s
  }

  lemma EucCharStep(c: seq<byte>, rest: seq<byte>)
    requires IsEucChar(c)
    ensures var p := EucStep(c + rest, true); p.used == |c| && p.ok
  {
    assert forall i :: 0 <= i < |c| ==> (c + rest)[i] == c[i];
  }

  lemma {:induction false} EucCharsOk(cs: seq<seq<byte>>)
    requires AreEucChars(cs)
    ensures EucOk(Join(cs), true)
  {
    if cs != [] {
      var rest := Join(cs[1..]);
      EucCharsOk(cs[1..]);
      EucCharStep(cs[0], rest);
      hide EucStep, IsEucChar;
      assert (cs[0] + rest)[|cs[0]|..] == rest;
    }
  }

  lemma EucStepIsChar(s: seq<byte>)
    requires s != [] && EucStep(s, true).ok
    ensures IsEucChar(s[..EucStep(s, true).used])
  {
  }

  lemma {:induction false} EucCharsOf(s: seq<byte>) returns (cs: seq<seq<byte>>)
    requires EucOk(s, true)
    ensures AreEucChars(cs) && Join(cs) == s
    decreases |s|
  {
    hide IsEucChar, EucStep;
    cs := [];
    if s != [] {
      var n := EucStep(s, true).used;
      EucStepIsChar(s);
      var more := EucCharsOf(s[n..]);
      cs := [s[..n]] + more;
      hide EucOk;
      assert cs[1..] == more;
    }
  }

  lemma PairIsTwo(s: seq<byte>)
    requires s != []
    ensures var p, q := EucStep(s, false), EucStep(s, true);
      && p.ok == q.ok
      && (p.used == q.used || (p.ok && p.used == q.used + 2 && EucStep(s[q.used..], true).ok && EucStep(s[q.used..], true).used == 2))
  {
  }

  /** Joining a kana with its sound mark does not hide an error. */
  lemma {:induction false} EitherKana(s: seq<byte>)
    ensures EucOk(s, false) <==> EucOk(s, true)
    decreases |s|
  {
    if s != [] {
      PairIsTwo(s);
      var p, q := EucStep(s, false), EucStep(s, true);
      EitherKana(s[p.used..]);
      hide EucStep;
      if p.used != q.used {
        assert s[q.used..][2..] == s[p.used..];
      }
    }
  }

  /** The encoder reports no error exactly on EUC-JP. */
  lemma NoErrorExactlyOnEuc(s: seq<byte>, kana: bool)
    ensures EucOk(s, kana) <==> IsEuc(s)
  {
    EitherKana(s);
    if EucOk(s, true) {
      var cs := EucCharsOf(s);
    }
    if IsEuc(s) {
      var cs :| AreEucChars(cs) && Join(cs) == s;
      EucCharsOk(cs);
    }
  }

  /** conv_jistoeuc undoes conv_euctojis exactly on EUC-JP without bytes that mean a shift. */
  lemma EucRoundTripsExactly(s: seq<byte>)
    ensures JisToEuc(EucToJis(s, true), ASCII) == s <==> IsEuc(s) && Plaintext(s)
  {
    hide Plaintext, IsEuc, EucOk, EucToJis;
    JisToEucPlain(EucToJis(s, true), ASCII);
    EucReadsAsMeantExactly(s, true);
    NoErrorExactlyOnEuc(s, true);
    UnitsKeepBytes(s);
  }

  // ---- The form of the output ----

  /**
   The formal syntax of RFC 1468, with JIS X 0201 kana and JIS X 0212: outside the ASCII
   state only graphic characters, so every line break is in it, and the text ends in it.
   */
  predicate WellFormed(s: seq<byte>, state: State)
  {
    if s == [] then state == ASCII
    else if s[0] == ESC then
      || (SetAt(s, 3).Some? && WellFormed(s[3..], SetAt(s, 3).value))
      || (SetAt(s, 4).Some? && WellFormed(s[4..], SetAt(s, 4).value))
    else match state
      case ASCII => IsAscii(s[0]) && s[0] != SO && s[0] != SI && WellFormed(s[1..], state)
      case HWKANA => 0x21 <= s[0] <= 0x5f && WellFormed(s[1..], state)
      case _ => |s| >= 2 && Graphic(s[0]) && Graphic(s[1]) && WellFormed(s[2..], state)
  }

  lemma {:induction false} TextIsWellFormed(cs: seq<byte>, rest: seq<byte>)
    requires Clean(Text(cs))
    ensures WellFormed(cs + rest, ASCII) == WellFormed(rest, ASCII)
    decreases |cs|
  {
    if cs == [] {
      assert cs + rest == rest;
    } else {
      TextIsWellFormed(cs[1..], rest);
      assert (cs + rest)[1..] == cs[1..] + rest;
    }
  }

  /** No escape sequence begins with another. */
  lemma OneEscape(s: seq<byte>, n: nat)
    requires SetAt(s, n).Some?
    ensures n == 3 || n == 4
    ensures SetAt(s, 7 - n) == None
  {
    if |s| >= 4 {
      assert s[..3] == [s[0], s[1], s[2]] && s[..4] == [s[0], s[1], s[2], s[3]];
    }
  }

  lemma ShiftIsWellFormed(from: State, to: State, rest: seq<byte>)
    requires to != UDC
    ensures WellFormed(Shift(from, to) + rest, from) == WellFormed(rest, to)
  {
    var e, s := Shift(from, to), Shift(from, to) + rest;
    if from == to {
      assert s == rest;
    } else {
      assert s[|e|..] == rest && s[..|e|] == e;
      OneEscape(s, |e|);
    }
  }

  lemma CharsAreWellFormed(u: Unit, rest: seq<byte>)
    requires Clean(u)
    ensures WellFormed(Chars(u) + rest, StateOf(u)) == WellFormed(rest, StateOf(u))
  {
    if u.Text? {
      TextIsWellFormed(u.cs, rest);
    } else {
      assert (Chars(u) + rest)[|Chars(u)|..] == rest;
    }
  }

  lemma UnitIsWellFormed(u: Unit, state: State, rest: seq<byte>)
    requires Clean(u)
    ensures WellFormed(Written(u, state) + rest, state) == WellFormed(rest, StateOf(u))
  {
    calc {
      WellFormed(Written(u, state) + rest, state);
      { assert Written(u, state) + rest == Shift(state, StateOf(u)) + (Chars(u) + rest); }
      WellFormed(Shift(state, StateOf(u)) + (Chars(u) + rest), state);
      { ShiftIsWellFormed(state, StateOf(u), Chars(u) + rest); }
      WellFormed(Chars(u) + rest, StateOf(u));
      { CharsAreWellFormed(u, rest); }
      WellFormed(rest, StateOf(u));
    }
  }

  lemma {:induction false} RenderIsWellFormed(us: seq<Unit>, state: State)
    requires AllClean(us) && state != UDC
    ensures WellFormed(Render(us, state), state)
    decreases |us|
  {
    if us == [] {
      ShiftIsWellFormed(state, ASCII, []);
      assert Shift(state, ASCII) + [] == Shift(state, ASCII);
    } else {
      UnitIsWellFormed(us[0], state, Render(us[1..], StateOf(us[0])));
      RenderIsWellFormed(us[1..], StateOf(us[0]));
    }
  }

  // ---- When the output has that form ----

  /** What any encoder puts out: text of any bytes, or a character of a set. */
  predicate Framed(u: Unit)
  {
    u.Text? || Clean(u)
  }

  predicate AllFramed(us: seq<Unit>)
  {
    forall i :: 0 <= i < |us| ==> Framed(us[i])
  }

  lemma EucStepFramed(s: seq<byte>, kana: bool)
    requires s != []
    ensures Framed(EucStep(s, kana).unit)
  {
  }

  lemma {:induction false} EucUnitsFramed(s: seq<byte>, kana: bool)
    ensures AllFramed(EucUnits(s, kana))
    decreases |s|
  {
    hide Framed, EucStep;
    if s != [] {
      EucStepFramed(s, kana);
      EucUnitsFramed(s[EucStep(s, kana).used..], kana);
    }
  }

  /** The formal syntax up to a place where any state will do, because a shift follows. */
  predicate Readable(s: seq<byte>, state: State)
  {
    s == [] ||
    if s[0] == ESC then
      || (SetAt(s, 3).Some? && Readable(s[3..], SetAt(s, 3).value))
      || (SetAt(s, 4).Some? && Readable(s[4..], SetAt(s, 4).value))
    else match state
      case ASCII => IsAscii(s[0]) && s[0] != SO && s[0] != SI && Readable(s[1..], state)
      case HWKANA => 0x21 <= s[0] <= 0x5f && Readable(s[1..], state)
      case _ => |s| >= 2 && Graphic(s[0]) && Graphic(s[1]) && Readable(s[2..], state)
  }

  /** An escape sequence is not continued by another one. */
  lemma EscapeInRun(run: seq<byte>, rest: seq<byte>, n: nat)
    requires (n == 3 || n == 4) && run != [] && rest != [] && rest[0] == ESC
    ensures SetAt(run + rest, n) == SetAt(run, n)
  {
    var s := run + rest;
    if |run| >= n {
      assert s[..n] == run[..n];
    } else if |s| >= n {
      assert s[..n][|run|] == ESC;
      EscapeStays(s[..n], |run|);
    }
  }

  lemma EscapeStays(e: seq<byte>, i: nat)
    requires 0 < i < |e| && e[i] == ESC
    ensures SetOf(e) == None
  {
  }

  /** A run of text before a shift. */
  lemma {:induction false} RunThenShift(run: seq<byte>, rest: seq<byte>, state: State)
    requires rest != [] && rest[0] == ESC
    ensures WellFormed(run + rest, state) <==> Readable(run, state) && WellFormed(rest, ASCII)
    decreases |run|, 1
  {
    hide SetAt, SetOf;
    var s := run + rest;
    if run == [] {
      assert s == rest;
    } else if run[0] == ESC {
      EscapeThenShift(run, rest, state);
    } else {
      assert s[0] == run[0];
      if |run| > 1 {
        assert s[2..] == run[2..] + rest && s[1] == run[1];
        RunThenShift(run[2..], rest, state);
      } else {
        assert s[1] == ESC;
      }
      assert s[1..] == run[1..] + rest;
      RunThenShift(run[1..], rest, state);
    }
  }

  lemma {:induction false} EscapeThenShift(run: seq<byte>, rest: seq<byte>, state: State)
    requires run != [] && run[0] == ESC && rest != [] && rest[0] == ESC
    ensures WellFormed(run + rest, state) <==> Readable(run, state) && WellFormed(rest, ASCII)
    decreases |run|, 0
  {
    hide SetAt, SetOf;
    var s := run + rest;
    assert s[0] == ESC;
    EscapeInRun(run, rest, 3);
    EscapeInRun(run, rest, 4);
    if SetAt(run, 3).Some? {
      AfterEscape(run, rest, 3);
      RunThenShift(run[3..], rest, SetAt(run, 3).value);
    }
    if SetAt(run, 4).Some? {
      AfterEscape(run, rest, 4);
      RunThenShift(run[4..], rest, SetAt(run, 4).value);
    }
  }

  lemma AfterEscape(run: seq<byte>, rest: seq<byte>, n: nat)
    requires SetAt(run, n).Some?
    ensures |run| >= n && (run + rest)[n..] == run[n..] + rest
  {
  }

  /**
   The texts between the characters of the sets, joined into runs: each run before a shift
   can be read from the ASCII state, and the last one also ends in it.
   */
  predicate Settled(us: seq<Unit>, run: seq<byte>)
    decreases |us|
  {
    if us == [] then WellFormed(run, ASCII)
    else if us[0].Text? then Settled(us[1..], run + us[0].cs)
    else Readable(run, ASCII) && Settled(us[1..], [])
  }

  /** From the ASCII state, after a run of text. */
  lemma {:induction false} RunsDecide(us: seq<Unit>, run: seq<byte>)
    requires AllFramed(us)
    ensures WellFormed(run + Render(us, ASCII), ASCII) <==> Settled(us, run)
    decreases |us|
  {
    hide WellFormed, Readable, Clean;
    if us == [] {
      assert run + Shift(ASCII, ASCII) == run;
    } else {
      var u, more := us[0], Render(us[1..], StateOf(us[0]));
      assert Framed(u);
      if u.Text? {
        assert run + (Shift(ASCII, ASCII) + u.cs + more) == (run + u.cs) + more;
        RunsDecide(us[1..], run + u.cs);
      } else {
        var rest := Written(u, ASCII) + more;
        assert rest[0] == ESC;
        RunThenShift(run, rest, ASCII);
        UnitIsWellFormed(u, ASCII, more);
        SettledFrom(us[1..], StateOf(u));
      }
    }
  }

  lemma {:induction false} SettledFrom(us: seq<Unit>, state: State)
    requires AllFramed(us) && state != UDC
    ensures WellFormed(Render(us, state), state) <==> Settled(us, [])
    decreases |us|
  {
    hide WellFormed, Readable, Clean;
    if us == [] {
      ShiftIsWellFormed(state, ASCII, []);
      assert Shift(state, ASCII) + [] == Shift(state, ASCII);
    } else {
      var u, more := us[0], Render(us[1..], StateOf(us[0]));
      assert Framed(u);
      if u.Text? {
        ShiftIsWellFormed(state, ASCII, u.cs + more);
        assert Shift(state, ASCII) + u.cs + more == Shift(state, ASCII) + (u.cs + more);
        assert [] + u.cs == u.cs;
        RunsDecide(us[1..], u.cs);
      } else {
        UnitIsWellFormed(u, state, more);
        SettledFrom(us[1..], StateOf(u));
        EmptyIsReadable();
      }
    }
  }

  lemma EmptyIsReadable()
    ensures Readable([], ASCII)
  {
  }

  /** For every byte string: the output has the formal syntax exactly when the runs of text in it do. */
  lemma EucToJisWellFormedExactly(s: seq<byte>, kana: bool)
    ensures WellFormed(EucToJis(s, kana), ASCII) <==> Settled(EucUnits(s, kana), [])
  {
    EucUnitsFramed(s, kana);
    SettledFrom(EucUnits(s, kana), ASCII);
  }

  /** Without bytes that mean a shift it always has, valid or not, and whatever the kana preference. */
  lemma EucToJisIsWellFormed(s: seq<byte>, kana: bool)
    ensures Plaintext(s) ==> WellFormed(EucToJis(s, kana), ASCII)
  {
    if Plaintext(s) {
      EucUnitsClean(s, kana);
      RenderIsWellFormed(EucUnits(s, kana), ASCII);
    }
  }

  /** An escape in the input goes through as it is, and can leave the reader in another state. */
  lemma EscapesPassThrough()
    ensures var s := [ESC, 0x24, 0x42]; EucToJis(s, true) == s && !WellFormed(s, ASCII)
  {
    var s: seq<byte> := [ESC, 0x24, 0x42];
    var us := [Text([s[0]]), Text([s[1]]), Text([s[2]])];
    assert s[1..] == [s[1], s[2]] && s[2..] == [s[2]];
    assert EucUnits(s[2..], true) == us[2..] && EucUnits(s[1..], true) == us[1..] && EucUnits(s, true) == us;
    assert Render(us[2..], ASCII) == s[2..] && Render(us[1..], ASCII) == s[1..] && Render(us, ASCII) == s;
    assert s[..3] == s && SetAt(s, 4) == None;
  }

  /** An escape that goes back to ASCII does no harm to the form, but the reader drops it. */
  lemma SomeEscapesAreHarmless()
    ensures var s: seq<byte> := [ESC, 0x28, 0x42];
      && EucToJis(s, true) == s && WellFormed(s, ASCII) && JisToEuc(s, ASCII) == []
  {
    var s: seq<byte> := [ESC, 0x28, 0x42];
    var us := [Text([s[0]]), Text([s[1]]), Text([s[2]])];
    assert s[1..] == [s[1], s[2]] && s[2..] == [s[2]] && s[3..] == [];
    assert EucUnits(s[2..], true) == us[2..] && EucUnits(s[1..], true) == us[1..] && EucUnits(s, true) == us;
    assert Render(us[2..], ASCII) == s[2..] && Render(us[1..], ASCII) == s[1..] && Render(us, ASCII) == s;
    assert s[..3] == s && s + [] == s;
    EscapeIsRead(s, [], ASCII);
  }

  // ---- The length of the output ----

  /** A text that starts outside the ASCII state has one byte in hand. */
  lemma {:induction false} EucToJisFits(s: seq<byte>, kana: bool, state: State)
    ensures |Render(EucUnits(s, kana), state)| <= 3 * |s| + (if state == ASCII then 2 else 3)
    decreases |s|
  {
    if s != [] {
      var p := EucStep(s, kana);
      EucToJisFits(s[p.used..], kana, StateOf(p.unit));
      assert EucUnits(s, kana)[1..] == EucUnits(s[p.used..], kana);
      StepCost(s, kana, state);
    }
  }

  lemma StepCost(s: seq<byte>, kana: bool, state: State)
    requires s != []
    ensures var p := EucStep(s, kana);
      |Written(p.unit, state)| + (if p.unit.Text? then 2 else 3) <= 3 * p.used + (if state == ASCII then 2 else 3)
  {
    var p := EucStep(s, kana);
    if p.unit.Text? {
      assert |p.unit.cs| <= p.used;
    }
  }
}
