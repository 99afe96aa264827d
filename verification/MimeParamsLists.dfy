/**
 Whole lists of MIME parameters: plain and quoted values, extended ones, and values
 continued over several parameters, in any mixture; when the parser gives such a list back.
 */
module MimeParamsLists {
  import opened Bytes
  import opened Decimal
  import opened HexDigits
  import opened Rfc2231
  import opened MimeParams
  import opened MimeParamsRoundTrip

  // ---- What is written ----

  /** How a value is written: as it is, in quotes, or with its bytes percent encoded. */
  datatype Form = Token | Quoted | Percent

  function Raw(form: Form, text: seq<byte>): seq<byte>
  {
    match form
    case Token => text
    case Quoted => [QUOTE] + text + [QUOTE]
    case Percent => Escape(text)
  }

  predicate CanWrite(form: Form, text: seq<byte>)
  {
    match form
    case Token => ValueChars(text)
    case Quoted => QUOTE !in text
    case Percent => true
  }

  /** One part of a continued value, and the white space before its field. */
  datatype Piece = Piece(gap: seq<byte>, form: Form, text: seq<byte>)

  /** name=value; name*=charset''value; and name*0=..., name*1=... with a character set or without one. */
  datatype Item =
    | Plain(gap: seq<byte>, name: seq<byte>, form: Form, text: seq<byte>)
    | Extended(gap: seq<byte>, name: seq<byte>, charset: seq<byte>, text: seq<byte>)
    | Series(name: seq<byte>, set': Option<seq<byte>>, pieces: seq<Piece>)

  predicate IsGap(s: seq<byte>)
  {
    forall i :: 0 <= i < |s| ==> IsSpace(s[i])
  }

  predicate ValidPiece(p: Piece)
  {
    IsGap(p.gap) && CanWrite(p.form, p.text)
  }

  predicate ValidItem(item: Item)
  {
    && IsToken(item.name)
    && match item
       case Plain(gap, _, form, text) => IsGap(gap) && form != Percent && CanWrite(form, text)
       case Extended(gap, _, charset, _) => IsGap(gap) && IsToken(charset)
       case Series(_, set', pieces) =>
         && pieces != []
         && (forall i :: 0 <= i < |pieces| ==> ValidPiece(pieces[i]))
         && (set'.Some? ==> IsToken(set'.value) && pieces[0].form == Percent)
  }

  predicate ValidItems(items: seq<Item>)
  {
    forall i :: 0 <= i < |items| ==> ValidItem(items[i])
  }

  function Line(gap: seq<byte>, field: seq<byte>, raw: seq<byte>): seq<byte>
  {
    [SEMICOLON] + gap + field + [EQUALS] + raw
  }

  /** The field of part n of a continued value. */
  function PieceField(name: seq<byte>, n: nat, form: Form): seq<byte>
  {
    name + [STAR] + Print(n) + if form == Percent then [STAR] else []
  }

  function Prefix(set': Option<seq<byte>>): seq<byte>
  {
    if set'.Some? then CharsetPrefix(set'.value) else []
  }

  function PrintPieces(name: seq<byte>, set': Option<seq<byte>>, pieces: seq<Piece>, n: nat): seq<byte>
    decreases |pieces|
  {
    if pieces == [] then [] else
      var p := pieces[0];
      Line(p.gap, PieceField(name, n, p.form), Prefix(set') + Raw(p.form, p.text)) + PrintPieces(name, None, pieces[1..], n + 1)
  }

  function PrintItem(item: Item): seq<byte>
  {
    match item
    case Plain(gap, name, form, text) => Line(gap, name, Raw(form, text))
    case Extended(gap, name, charset, text) => Line(gap, name + [STAR], CharsetPrefix(charset) + Escape(text))
    case Series(name, set', pieces) => PrintPieces(name, set', pieces, 0)
  }

  function PrintItems(items: seq<Item>): seq<byte>
  {
    if items == [] then [] else PrintItem(items[0]) + PrintItems(items[1..])
  }

  // ---- What should be read ----

  function Texts(pieces: seq<Piece>): seq<byte>
  {
    if pieces == [] then [] else pieces[0].text + Texts(pieces[1..])
  }

  /** The same letters, in any case. */
  predicate SameName(name: seq<byte>, lower: string)
  {
    |name| == |lower| && forall k :: 0 <= k < |name| ==> var c: int := name[k]; c == lower[k] as int || c + 32 == lower[k] as int
  }

  /** The value of name and filename is still to be decoded as a header word. */
  predicate NamesFile(name: seq<byte>)
  {
    SameName(name, "name") || SameName(name, "filename")
  }

  function Meant(item: Item): Param
  {
    match item
    case Plain(_, name, _, text) => Param(name, text, None, NamesFile(name))
    case Extended(_, name, charset, text) => Param(name, text, Some(charset), false)
    case Series(name, set', pieces) => Param(name, Texts(pieces), set', false)
  }

  function AllMeant(items: seq<Item>): (ps: seq<Param>)
    ensures |ps| == |items|
  {
    if items == [] then [] else [Meant(items[0])] + AllMeant(items[1..])
  }

  // ---- What is read ----

  /** A continued value that has not come to its end. */
  datatype Open = Open(name: seq<byte>, value: seq<byte>)

  /** It is closed with the character set that is known by then. */
  function Closed(open: Option<Open>, charset: Option<seq<byte>>): seq<Param>
  {
    if open.Some? then [Param(open.value.name, open.value.value, charset, false)] else []
  }

  /**
   The list that the parser gives: it keeps one character set for all parameters, closes a
   continued value only at the next parameter that is not numbered, and gives up at a
   number that does not follow.
   */
  function Got(items: seq<Item>, charset: Option<seq<byte>>, open: Option<Open>): seq<Param>
  {
    if items == [] then Closed(open, charset)
    else match items[0]
      case Plain(_, _, _, _) => Closed(open, charset) + [Meant(items[0])] + Got(items[1..], charset, None)
      case Extended(_, _, set', _) => Closed(open, Some(set')) + [Meant(items[0])] + Got(items[1..], Some(set'), None)
      case Series(name, set', pieces) =>
        if open.Some? then Closed(open, charset)
        else Got(items[1..], if set'.Some? then set' else charset, Some(Open(name, Texts(pieces))))
  }

  /** The character set in which a value that is continued up to here will be converted. */
  function UsedSet(own: Option<seq<byte>>, before: Option<seq<byte>>, next: seq<Item>): Option<seq<byte>>
  {
    if next != [] && next[0].Extended? then Some(next[0].charset) else if own.Some? then own else before
  }

  /**
   When a list comes back: no continued value directly follows another, and none is
   converted in a character set from a parameter before it or right behind it.
   */
  predicate ComesBack(items: seq<Item>, before: Option<seq<byte>>)
  {
    items == [] ||
    match items[0]
    case Plain(_, _, _, _) => ComesBack(items[1..], before)
    case Extended(_, _, set', _) => ComesBack(items[1..], Some(set'))
    case Series(_, set', _) =>
      && (|items| > 1 ==> !items[1].Series?)
      && UsedSet(set', before, items[1..]) == set'
      && ComesBack(items[1..], if set'.Some? then set' else before)
  }

  lemma SameHead(a: Param, b: Param, x: seq<Param>, y: seq<Param>)
    ensures [a] + x == [b] + y <==> a == b && x == y
  {
    assert ([a] + x)[1..] == x && ([b] + y)[1..] == y;
    assert ([a] + x)[0] == a && ([b] + y)[0] == b;
  }

  lemma {:induction false} GotIsMeantExactly(items: seq<Item>, charset: Option<seq<byte>>)
    ensures Got(items, charset, None) == AllMeant(items) <==> ComesBack(items, charset)
    decreases |items|, 1
  {
    if items != [] {
      var m, rest := Meant(items[0]), items[1..];
      match items[0]
      case Plain(_, _, _, _) =>
        assert [] + [m] + Got(rest, charset, None) == [m] + Got(rest, charset, None);
        SameHead(m, m, Got(rest, charset, None), AllMeant(rest));
        GotIsMeantExactly(rest, charset);
      case Extended(_, _, set', _) =>
        assert [] + [m] + Got(rest, Some(set'), None) == [m] + Got(rest, Some(set'), None);
        SameHead(m, m, Got(rest, Some(set'), None), AllMeant(rest));
        GotIsMeantExactly(rest, Some(set'));
      case Series(name, set', pieces) =>
        OpenIsMeantExactly(rest, name, Texts(pieces), set', charset);
    }
  }

  lemma {:induction false} OpenIsMeantExactly(
    items: seq<Item>, name: seq<byte>, value: seq<byte>, own: Option<seq<byte>>, before: Option<seq<byte>>)
    ensures var known := if own.Some? then own else before;
      Got(items, known, Some(Open(name, value))) == [Param(name, value, own, false)] + AllMeant(items) <==>
        && (items != [] ==> !items[0].Series?)
        && UsedSet(own, before, items) == own
        && ComesBack(items, known)
    decreases |items|, 0
  {
    var known, p := if own.Some? then own else before, Param(name, value, own, false);
    if items == [] {
      SameHead(p.(charset := known), p, [], []);
      assert [p] + [] == [p];
    } else if items[0].Series? {
      assert |[p] + AllMeant(items)| >= 2;
    } else {
      var m, rest := Meant(items[0]), items[1..];
      var known' := if items[0].Extended? then Some(items[0].charset) else known;
      var q := p.(charset := known');
      assert [q] + [m] + Got(rest, known', None) == [q] + ([m] + Got(rest, known', None));
      SameHead(q, p, [m] + Got(rest, known', None), [m] + AllMeant(rest));
      SameHead(m, m, Got(rest, known', None), AllMeant(rest));
      GotIsMeantExactly(rest, known');
    }
  }

  // ---- One parameter is cut ----

  lemma RawIsFound(field: seq<byte>, form: Form, text: seq<byte>, pre: seq<byte>, rest: seq<byte>)
    requires FieldChars(field) && CanWrite(form, text) && (rest == [] || rest[0] == SEMICOLON)
    requires pre == [] || (form == Percent && ValueChars(pre))
    ensures var raw := pre + Raw(form, text); var s := field + [EQUALS] + raw + rest;
      Delimiter(s) == Cut(Some(|field|), if rest == [] then None else Some(|field| + 1 + |raw|))
  {
    hide Delimiter, ValueChars, FieldChars, Escape;
    var raw := pre + Raw(form, text);
    if form == Quoted {
      assert raw == [QUOTE] + text + [QUOTE];
      QuotedIsFound(field, text, rest);
    } else {
      RawIsPlain(form, text, pre);
      FieldIsFound(field, raw, rest);
    }
  }

  lemma RawIsPlain(form: Form, text: seq<byte>, pre: seq<byte>)
    requires form != Quoted && CanWrite(form, text) && (pre == [] || (form == Percent && ValueChars(pre)))
    ensures ValueChars(pre + Raw(form, text))
  {
    EscapeIsEscaped(text);
    assert ValueChars(Raw(form, text));
  }

  lemma QuotedIsFound(field: seq<byte>, text: seq<byte>, rest: seq<byte>)
    requires FieldChars(field) && QUOTE !in text && (rest == [] || rest[0] == SEMICOLON)
    ensures var s := field + [EQUALS] + ([QUOTE] + text + [QUOTE]) + rest;
      Delimiter(s) == Cut(Some(|field|), if rest == [] then None else Some(|field| + 3 + |text|))
  {
    var s := field + [EQUALS] + ([QUOTE] + text + [QUOTE]) + rest;
    var n := |field|;
    var q := n + 2 + |text|;
    assert forall j :: 0 <= j < n ==> s[j] == field[j];
    assert s[n] == EQUALS && s[n + 1] == QUOTE && s[q] == QUOTE;
    assert forall j :: n + 2 <= j < q ==> s[j] == text[j - n - 2];
    assert rest != [] ==> s[q + 1] == SEMICOLON;
    NameEndAt(s, 0, n);
    assert SkipSpaces(s, n + 1) == n + 1;
    QuotesClose(s, n + 2, q);
    ValueEndAt(s, q + 1, q + 1);
  }

  lemma NoSpaceOutside(form: Form, text: seq<byte>, pre: seq<byte>)
    requires CanWrite(form, text) && (pre == [] || (form == Percent && ValueChars(pre)))
    ensures var raw := pre + Raw(form, text); Strip(raw) == raw
  {
    var raw := pre + Raw(form, text);
    if form != Quoted {
      RawIsPlain(form, text, pre);
    } else {
      assert raw[0] == QUOTE && raw[|raw| - 1] == QUOTE;
    }
    NothingToStrip(raw);
  }

  lemma FieldIsBare(field: seq<byte>)
    requires field != [] && FieldChars(field)
    ensures Chomp(field) == field && field[0] != SEMICOLON && !IsSpace(field[0])
  {
    NothingToStrip(field);
  }

  /** One round of the parser's loop, whether or not it gives up. */
  lemma RoundAt(p: seq<byte>, st: State, eq: nat, end: nat)
    requires p != [] && p[0] != SEMICOLON && !IsSpace(p[0]) && eq < end <= |p|
    requires Delimiter(p) == Cut(Some(eq), if end == |p| then None else Some(end))
    ensures var (ok, next) := Update(Chomp(p[..eq]), Strip(p[eq + 1..end]), st);
      ParseFrom(p, st) == if ok && end < |p| then ParseFrom(p[end + 1..], next) else Flush(next).plist
  {
    hide Update, Flush, Delimiter, Chomp, Strip;
    assert SkipSeparators(p) == p;
  }

  lemma NothingMore(st: State)
    ensures ParseFrom([], st) == Flush(st).plist
  {
  }

  lemma Round(p: seq<byte>, field: seq<byte>, raw: seq<byte>, rest: seq<byte>, st: State)
    requires p == field + [EQUALS] + raw + rest && field != [] && field[0] != SEMICOLON && !IsSpace(field[0])
    requires Delimiter(p) == Cut(Some(|field|), if rest == [] then None else Some(|field| + 1 + |raw|))
    requires Chomp(field) == field && Strip(raw) == raw && (rest == [] || rest[0] == SEMICOLON)
    ensures var (ok, next) := Update(field, raw, st);
      ParseFrom(p, st) == if ok then ParseFrom(rest, next) else Flush(next).plist
  {
    hide *;
    var end := |field| + 1 + |raw|;
    assert p[0] == field[0] && p[..|field|] == field && p[|field| + 1..end] == raw;
    RoundAt(p, st, |field|, end);
    var (ok, next) := Update(field, raw, st);
    if rest == [] {
      NothingMore(next);
    } else {
      assert p[end + 1..] == rest[1..];
      SemicolonIsSkipped(rest);
      SameSkip(rest, rest[1..], next);
    }
  }

  lemma SemicolonIsSkipped(s: seq<byte>)
    requires s != [] && s[0] == SEMICOLON
    ensures SkipSeparators(s) == SkipSeparators(s[1..])
  {
  }

  lemma {:induction false} GapIsSkipped(gap: seq<byte>, p: seq<byte>)
    requires IsGap(gap)
    ensures SkipSeparators(gap + p) == SkipSeparators(p)
    decreases |gap|
  {
    if gap == [] {
      assert gap + p == p;
    } else {
      assert (gap + p)[1..] == gap[1..] + p;
      GapIsSkipped(gap[1..], p);
    }
  }

  lemma SeparatorIsSkipped(gap: seq<byte>, p: seq<byte>)
    requires IsGap(gap)
    ensures SkipSeparators([SEMICOLON] + gap + p) == SkipSeparators(p)
  {
    GapIsSkipped(gap, p);
    assert ([SEMICOLON] + gap + p)[1..] == gap + p;
  }

  /** A line of the list, from its semicolon on. */
  lemma LineParses(
    gap: seq<byte>, field: seq<byte>, form: Form, text: seq<byte>, pre: seq<byte>, rest: seq<byte>, st: State)
    requires IsGap(gap) && field != [] && FieldChars(field) && CanWrite(form, text) && (rest == [] || rest[0] == SEMICOLON)
    requires pre == [] || (form == Percent && ValueChars(pre))
    ensures var raw := pre + Raw(form, text);
      var (ok, next) := Update(field, raw, st);
      ParseFrom(Line(gap, field, raw) + rest, st) == if ok then ParseFrom(rest, next) else Flush(next).plist
  {
    hide *;
    var raw := pre + Raw(form, text);
    var p := field + [EQUALS] + raw + rest;
    RawIsFound(field, form, text, pre, rest);
    NoSpaceOutside(form, text, pre);
    FieldIsBare(field);
    Round(p, field, raw, rest, st);
    LineIs(gap, field, raw, rest);
    SeparatorIsSkipped(gap, p);
    SameSkip([SEMICOLON] + gap + p, p, st);
  }

  lemma LineIs(gap: seq<byte>, field: seq<byte>, raw: seq<byte>, rest: seq<byte>)
    ensures Line(gap, field, raw) + rest == [SEMICOLON] + gap + (field + [EQUALS] + raw + rest)
  {
  }

  // ---- What each line does to the state ----

  /** The state of the parser behind a list: no value is continued, or this one. */
  predicate Stands(st: State, charset: Option<seq<byte>>, open: Option<Open>)
  {
    && st.charset == charset
    && if open.Some? then st.contName == Some(open.value.name) && st.contValue == Some(open.value.value) && st.prev >= 0
       else st.contName == None && st.contValue == None && st.prev == -1
  }

  lemma FlushIsClosed(st: State, charset: Option<seq<byte>>, open: Option<Open>)
    requires Stands(st, charset, open)
    ensures Flush(st).plist == st.plist + Closed(open, charset)
    ensures var f := Flush(st); f == f.(contName := None, contValue := None, prev := st.prev, charset := charset)
  {
    assert st.plist + [] == st.plist;
  }

  function LowerAll(name: seq<byte>): (l: seq<int>)
    ensures |l| == |name| && forall k :: 0 <= k < |name| ==> l[k] == if 65 <= name[k] <= 90 then name[k] + 32 else name[k] as int
  {
    seq(|name|, i requires 0 <= i < |name| => if 65 <= name[i] <= 90 then name[i] + 32 else name[i] as int)
  }

  lemma SameNameIs(name: seq<byte>, lower: string)
    requires forall k :: 0 <= k < |lower| ==> 'a' <= lower[k] <= 'z'
    ensures SameName(name, lower) <==> |name| == |lower| && forall k :: 0 <= k < |name| ==> LowerAll(name)[k] == lower[k] as int
  {
  }

  lemma FileNames(name: seq<byte>)
    ensures IsFileName(name) == NamesFile(name)
  {
    var l := LowerAll(name);
    assert IsFileName(name) <==> l == [110, 97, 109, 101] || l == [102, 105, 108, 101, 110, 97, 109, 101] by {
      assert l == seq(|name|, i requires 0 <= i < |name| => if 65 <= name[i] <= 90 then name[i] + 32 else name[i] as int);
    }
    hide IsFileName, LowerAll, SameName;
    SameNameIs(name, "name");
    SameNameIs(name, "filename");
    ShortWord(l);
    LongWord(l);
  }

  lemma ShortWord(l: seq<int>)
    ensures l == [110, 97, 109, 101] <==> |l| == |"name"| && forall k :: 0 <= k < |l| ==> l[k] == "name"[k] as int
  {
    assert forall k :: 0 <= k < 4 ==> [110, 97, 109, 101][k] == "name"[k] as int;
  }

  lemma LongWord(l: seq<int>)
    ensures l == [102, 105, 108, 101, 110, 97, 109, 101]
       <==> |l| == |"filename"| && forall k :: 0 <= k < |l| ==> l[k] == "filename"[k] as int
  {
    assert forall k :: 0 <= k < 8 ==> [102, 105, 108, 101, 110, 97, 109, 101][k] == "filename"[k] as int;
  }

  lemma RawStarts(form: Form, text: seq<byte>)
    requires CanWrite(form, text) && form != Percent
    ensures var raw := Raw(form, text);
      (if At(raw, 0) == QUOTE then ExtractQuote(raw) else raw) == text
  {
    var raw := Raw(form, text);
    if form == Quoted {
      assert forall j :: 1 <= j < |text| + 1 ==> raw[j] == text[j - 1];
      IndexIs(raw, QUOTE, 1, |text| + 1);
      assert raw[1..|text| + 1] == text;
    }
  }

  lemma PlainUpdates(name: seq<byte>, form: Form, text: seq<byte>, st: State, charset: Option<seq<byte>>, open: Option<Open>)
    requires IsToken(name) && CanWrite(form, text) && form != Percent && Stands(st, charset, open)
    ensures var (ok, next) := Update(name, Raw(form, text), st);
      && ok && Stands(next, charset, None)
      && next.plist == st.plist + Closed(open, charset) + [Param(name, text, None, NamesFile(name))]
  {
    PlainName(name);
    RawStarts(form, text);
    FileNames(name);
    FlushIsClosed(st, charset, open);
    hide ParseName, ExtractQuote, IsFileName, NamesFile, Raw, Flush;
  }

  lemma ExtendedUpdates(name: seq<byte>, set': seq<byte>, text: seq<byte>, st: State, charset: Option<seq<byte>>, open: Option<Open>)
    requires IsToken(name) && IsToken(set') && Stands(st, charset, open)
    ensures var (ok, next) := Update(name + [STAR], CharsetPrefix(set') + Escape(text), st);
      && ok && Stands(next, Some(set'), None)
      && next.plist == st.plist + Closed(open, Some(set')) + [Param(name, text, Some(set'), false)]
  {
    EscapeIsEscaped(text);
    StarName(name);
    PrefixIsSplit(set', Escape(text), st.charset);
    UnescapeUndoesEscape(text);
    NoQuoteFirst(set', text);
    FlushIsClosed(st.(charset := Some(set')), Some(set'), open);
    hide Escape, Unescape, SplitValue, ParseName, Flush, CharsetPrefix, IsToken;
  }

  lemma NoQuoteFirst(set': seq<byte>, text: seq<byte>)
    requires IsToken(set')
    ensures At(CharsetPrefix(set') + Escape(text), 0) != QUOTE
  {
    assert (CharsetPrefix(set') + Escape(text))[0] == set'[0];
  }

  lemma PieceName(name: seq<byte>, n: nat, form: Form)
    requires IsToken(name)
    ensures ParseName(PieceField(name, n, form)) == Name(name, true, form == Percent, n)
  {
    var more: seq<byte> := if form == Percent then [STAR] else [];
    var s := PieceField(name, n, form);
    assert s == name + [STAR] + (Print(n) + more);
    TokenHasNoStar(name, Print(n) + more);
    ScanPrinted(n, more);
    assert s[|name| + 1..] == Print(n) + more && s[..|name|] == name;
  }

  /** The value of a piece, after its quotes, its character set and its encoding have been taken away. */
  lemma PieceValue(form: Form, text: seq<byte>, set': Option<seq<byte>>, charset: Option<seq<byte>>)
    requires CanWrite(form, text) && (set'.Some? ==> IsToken(set'.value) && form == Percent)
    ensures var raw := Prefix(set') + Raw(form, text);
      var value := if At(raw, 0) == QUOTE then ExtractQuote(raw) else raw;
      if form == Percent then
        && SplitValue(value, charset).0 == (if set'.Some? then set' else charset)
        && Unescape(SplitValue(value, charset).1) == text
      else value == text
  {
    if form == Percent {
      EscapeIsEscaped(text);
      UnescapeUndoesEscape(text);
      if set'.Some? {
        PrefixIsSplit(set'.value, Escape(text), charset);
        NoQuoteFirst(set'.value, text);
      } else {
        assert [] + Escape(text) == Escape(text);
        NothingToSplit(Escape(text), charset);
      }
      hide Escape, Unescape, SplitValue, CharsetPrefix;
    } else {
      assert [] + Raw(form, text) == Raw(form, text);
      RawStarts(form, text);
    }
  }

  lemma FirstPieceUpdates(
    name: seq<byte>, form: Form, text: seq<byte>, set': Option<seq<byte>>, st: State, charset: Option<seq<byte>>)
    requires IsToken(name) && CanWrite(form, text) && (set'.Some? ==> IsToken(set'.value) && form == Percent)
    requires Stands(st, charset, None)
    ensures var (ok, next) := Update(PieceField(name, 0, form), Prefix(set') + Raw(form, text), st);
      && ok && next.prev == 0 && next.plist == st.plist
      && Stands(next, if set'.Some? then set' else charset, Some(Open(name, text)))
  {
    hide ParseName, SplitValue, Unescape, ExtractQuote, Raw, Prefix, PieceField, CanWrite, IsToken, Flush, IsFileName;
    PieceName(name, 0, form);
    PieceValue(form, text, set', charset);
    assert [] + text == text;
  }

  lemma NextPieceUpdates(name: seq<byte>, form: Form, text: seq<byte>, value: seq<byte>, st: State, charset: Option<seq<byte>>)
    requires IsToken(name) && CanWrite(form, text) && Stands(st, charset, Some(Open(name, value)))
    ensures var (ok, next) := Update(PieceField(name, st.prev + 1, form), Prefix(None) + Raw(form, text), st);
      && ok && next.prev == st.prev + 1 && next.plist == st.plist
      && Stands(next, charset, Some(Open(name, value + text)))
  {
    hide ParseName, SplitValue, Unescape, ExtractQuote, Raw, Prefix, PieceField, CanWrite, IsToken, Flush, IsFileName;
    PieceName(name, st.prev + 1, form);
    PieceValue(form, text, None, charset);
  }

  /** A continued value that directly follows another begins again with 0, where the next number is expected. */
  lemma SecondSeriesFails(name: seq<byte>, form: Form, raw: seq<byte>, st: State, charset: Option<seq<byte>>, open: Option<Open>)
    requires IsToken(name) && Stands(st, charset, open) && open.Some?
    ensures Update(PieceField(name, 0, form), raw, st) == (false, st)
  {
    PieceName(name, 0, form);
    hide ParseName, PieceField;
  }

  // ---- Whole lists ----

  lemma FieldsAreBare(name: seq<byte>, n: nat, form: Form)
    requires IsToken(name)
    ensures FieldChars(name) && FieldChars(name + [STAR]) && FieldChars(PieceField(name, n, form))
    ensures PieceField(name, n, form) != [] && name != []
  {
    assert forall i :: 0 <= i < |Print(n)| ==> IsDigit(Print(n)[i]);
  }

  lemma PrefixIsValue(set': seq<byte>)
    requires IsToken(set')
    ensures ValueChars(CharsetPrefix(set'))
  {
  }

  lemma {:induction false} PiecesStart(name: seq<byte>, set': Option<seq<byte>>, pieces: seq<Piece>, n: nat, rest: seq<byte>)
    requires rest == [] || rest[0] == SEMICOLON
    ensures var s := PrintPieces(name, set', pieces, n) + rest; s == [] || s[0] == SEMICOLON
  {
    hide PieceField, Raw, Prefix;
  }

  /** The later parts of a continued value. */
  lemma {:induction false} PiecesParse(
    name: seq<byte>, pieces: seq<Piece>, rest: seq<byte>, st: State, charset: Option<seq<byte>>, value: seq<byte>)
    returns (next: State)
    requires IsToken(name) && (rest == [] || rest[0] == SEMICOLON)
    requires forall i :: 0 <= i < |pieces| ==> ValidPiece(pieces[i])
    requires Stands(st, charset, Some(Open(name, value)))
    ensures Stands(next, charset, Some(Open(name, value + Texts(pieces)))) && next.plist == st.plist
    ensures ParseFrom(PrintPieces(name, None, pieces, st.prev + 1) + rest, st) == ParseFrom(rest, next)
    decreases |pieces|
  {
    hide ParseFrom, Update, PieceField, Raw, Prefix, CanWrite, IsToken, Line, FieldChars;
    if pieces == [] {
      next := st;
      assert [] + rest == rest && value + [] == value;
    } else {
      var p, n := pieces[0], st.prev + 1;
      assert ValidPiece(p);
      FieldsAreBare(name, n, p.form);
      var field, more := PieceField(name, n, p.form), PrintPieces(name, None, pieces[1..], n + 1);
      PiecesStart(name, None, pieces[1..], n + 1, rest);
      NextPieceUpdates(name, p.form, p.text, value, st, charset);
      NoPrefix();
      LineParses(p.gap, field, p.form, p.text, Prefix(None), more + rest, st);
      var line := Line(p.gap, field, Prefix(None) + Raw(p.form, p.text));
      var st' := Update(field, Prefix(None) + Raw(p.form, p.text), st).1;
      next := PiecesParse(name, pieces[1..], rest, st', charset, value + p.text);
      assert (line + more) + rest == line + (more + rest);
      assert (value + p.text) + Texts(pieces[1..]) == value + (p.text + Texts(pieces[1..]));
    }
  }

  lemma NoPrefix()
    ensures Prefix(None) == []
  {
  }

  /** A whole continued value behind a list that is not continued itself. */
  lemma SeriesParses(item: Item, rest: seq<byte>, st: State, charset: Option<seq<byte>>) returns (next: State)
    requires item.Series? && ValidItem(item) && (rest == [] || rest[0] == SEMICOLON) && Stands(st, charset, None)
    ensures Stands(next, if item.set'.Some? then item.set' else charset, Some(Open(item.name, Texts(item.pieces))))
    ensures next.plist == st.plist
    ensures ParseFrom(PrintItem(item) + rest, st) == ParseFrom(rest, next)
  {
    hide ParseFrom, Update, PieceField, Raw, CanWrite, IsToken, Line, FieldChars, CharsetPrefix;
    var name, set', p := item.name, item.set', item.pieces[0];
    assert ValidPiece(p);
    FieldsAreBare(name, 0, p.form);
    var field, raw, more := PieceField(name, 0, p.form), Prefix(set') + Raw(p.form, p.text), PrintPieces(name, None, item.pieces[1..], 1);
    PiecesStart(name, None, item.pieces[1..], 1, rest);
    FirstPieceUpdates(name, p.form, p.text, set', st, charset);
    if set'.Some? {
      PrefixIsValue(set'.value);
    }
    LineParses(p.gap, field, p.form, p.text, Prefix(set'), more + rest, st);
    var st' := Update(field, raw, st).1;
    next := PiecesParse(name, item.pieces[1..], rest, st', if set'.Some? then set' else charset, p.text);
    assert (Line(p.gap, field, raw) + more) + rest == Line(p.gap, field, raw) + (more + rest);
  }

  /** The parser gives up at a continued value that directly follows another. */
  lemma SecondSeriesParses(item: Item, rest: seq<byte>, st: State, charset: Option<seq<byte>>, open: Option<Open>)
    requires item.Series? && ValidItem(item) && (rest == [] || rest[0] == SEMICOLON) && Stands(st, charset, open) && open.Some?
    ensures ParseFrom(PrintItem(item) + rest, st) == st.plist + Closed(open, charset)
  {
    hide ParseFrom, Update, PieceField, Raw, CanWrite, IsToken, Line, FieldChars, CharsetPrefix, Flush, Closed;
    var name, set', p := item.name, item.set', item.pieces[0];
    assert ValidPiece(p);
    FieldsAreBare(name, 0, p.form);
    var field, raw, more := PieceField(name, 0, p.form), Prefix(set') + Raw(p.form, p.text), PrintPieces(name, None, item.pieces[1..], 1);
    PiecesStart(name, None, item.pieces[1..], 1, rest);
    SecondSeriesFails(name, p.form, raw, st, charset, open);
    if set'.Some? {
      PrefixIsValue(set'.value);
    }
    LineParses(p.gap, field, p.form, p.text, Prefix(set'), more + rest, st);
    FlushIsClosed(st, charset, open);
    assert (Line(p.gap, field, raw) + more) + rest == Line(p.gap, field, raw) + (more + rest);
  }

  lemma PlainParses(item: Item, rest: seq<byte>, st: State, charset: Option<seq<byte>>, open: Option<Open>) returns (next: State)
    requires item.Plain? && ValidItem(item) && (rest == [] || rest[0] == SEMICOLON) && Stands(st, charset, open)
    ensures Stands(next, charset, None) && next.plist == st.plist + Closed(open, charset) + [Meant(item)]
    ensures ParseFrom(PrintItem(item) + rest, st) == ParseFrom(rest, next)
  {
    hide ParseFrom, Update, Raw, CanWrite, IsToken, Line, FieldChars, Closed, NamesFile;
    FieldsAreBare(item.name, 0, item.form);
    PlainUpdates(item.name, item.form, item.text, st, charset, open);
    LineParses(item.gap, item.name, item.form, item.text, [], rest, st);
    assert [] + Raw(item.form, item.text) == Raw(item.form, item.text);
    next := Update(item.name, Raw(item.form, item.text), st).1;
  }

  lemma ExtendedParses(item: Item, rest: seq<byte>, st: State, charset: Option<seq<byte>>, open: Option<Open>) returns (next: State)
    requires item.Extended? && ValidItem(item) && (rest == [] || rest[0] == SEMICOLON) && Stands(st, charset, open)
    ensures Stands(next, Some(item.charset), None)
    ensures next.plist == st.plist + Closed(open, Some(item.charset)) + [Meant(item)]
    ensures ParseFrom(PrintItem(item) + rest, st) == ParseFrom(rest, next)
  {
    hide ParseFrom, Update, IsToken, Line, FieldChars, Closed, CharsetPrefix, Escape;
    FieldsAreBare(item.name, 0, Token);
    PrefixIsValue(item.charset);
    ExtendedUpdates(item.name, item.charset, item.text, st, charset, open);
    LineParses(item.gap, item.name + [STAR], Percent, item.text, CharsetPrefix(item.charset), rest, st);
    next := Update(item.name + [STAR], CharsetPrefix(item.charset) + Escape(item.text), st).1;
  }

  lemma {:induction false} ItemsStart(items: seq<Item>)
    requires ValidItems(items)
    ensures PrintItems(items) == [] || PrintItems(items)[0] == SEMICOLON
    ensures items != [] ==> PrintItems(items) != []
    decreases |items|
  {
    hide Raw, PieceField, Prefix, CharsetPrefix, IsToken, CanWrite, Escape;
    if items != [] {
      assert ValidItem(items[0]);
      ItemsStart(items[1..]);
      if items[0].Series? {
        PiecesStart(items[0].name, items[0].set', items[0].pieces, 0, []);
        assert PrintItem(items[0]) + [] == PrintItem(items[0]);
      }
    }
  }

  /** What the parser reads from a printed list, from any state on. */
  lemma {:induction false} ItemsParse(items: seq<Item>, st: State, charset: Option<seq<byte>>, open: Option<Open>)
    requires ValidItems(items) && Stands(st, charset, open)
    ensures ParseFrom(PrintItems(items), st) == st.plist + Got(items, charset, open)
    decreases |items|
  {
    hide ParseFrom, Flush, PrintItem, ValidItem, Closed, Meant, Stands, Texts;
    if items == [] {
      NothingMore(st);
      FlushIsClosed(st, charset, open);
    } else {
      var item, rest := items[0], PrintItems(items[1..]);
      ItemsStart(items[1..]);
      match item
      case Plain(_, _, _, _) =>
        var next := PlainParses(item, rest, st, charset, open);
        ItemsParse(items[1..], next, charset, None);
        Regroup(st.plist, Closed(open, charset), [Meant(item)], Got(items[1..], charset, None));
      case Extended(_, _, set', _) =>
        var next := ExtendedParses(item, rest, st, charset, open);
        ItemsParse(items[1..], next, Some(set'), None);
        Regroup(st.plist, Closed(open, Some(set')), [Meant(item)], Got(items[1..], Some(set'), None));
      case Series(name, set', pieces) =>
        if open.Some? {
          SecondSeriesParses(item, rest, st, charset, open);
        } else {
          var next := SeriesParses(item, rest, st, charset);
          ItemsParse(items[1..], next, if set'.Some? then set' else charset, Some(Open(name, Texts(pieces))));
        }
    }
  }

  lemma Regroup(a: seq<Param>, b: seq<Param>, c: seq<Param>, d: seq<Param>)
    ensures (a + b + c) + d == a + (b + c + d)
  {
  }

  /**
   A header of any list of parameters: the parser gives back exactly those that were
   meant, in order, with their values and character sets, if and only if no continued
   value directly follows another or is converted in a character set of its neighbours.
   */
  lemma ListReturnsExactly(head: seq<byte>, items: seq<Item>)
    requires SEMICOLON !in head && ValidItems(items)
    ensures Parse(head + PrintItems(items)) == Params(Strip(head), AllMeant(items)) <==> ComesBack(items, None)
  {
    hide *;
    ListIsGot(head, items);
    GotIsMeantExactly(items, None);
  }

  lemma ListIsGot(head: seq<byte>, items: seq<Item>)
    requires SEMICOLON !in head && ValidItems(items)
    ensures Parse(head + PrintItems(items)) == Params(Strip(head), Got(items, None, None))
  {
    hide *;
    StartStands();
    ItemsParse(items, START, None, None);
    StartIsEmpty(Got(items, None, None));
    ItemsStart(items);
    if items == [] {
      NoItems(head);
    } else {
      var t := PrintItems(items)[1..];
      assert PrintItems(items) == [SEMICOLON] + t;
      assert head + PrintItems(items) == head + [SEMICOLON] + t;
      HeadEnds(head, t);
      SemicolonIsSkipped(PrintItems(items));
      SameSkip(PrintItems(items), t, START);
    }
  }

  lemma StartStands()
    ensures Stands(START, None, None)
  {
  }

  lemma StartIsEmpty(ps: seq<Param>)
    ensures START.plist + ps == ps
  {
  }

  lemma NoItems(head: seq<byte>)
    requires SEMICOLON !in head
    ensures Parse(head + PrintItems([])) == Params(Strip(head), Got([], None, None))
  {
    assert head + PrintItems([]) == head;
    IndexIs(head, SEMICOLON, 0, |head|);
    hide Strip, IndexOf;
  }

  /** A list without continued values always comes back. */
  lemma {:induction false} WithoutSeries(items: seq<Item>, before: Option<seq<byte>>)
    requires forall i :: 0 <= i < |items| ==> !items[i].Series?
    ensures ComesBack(items, before)
    decreases |items|
  {
    if items != [] {
      WithoutSeries(items[1..], if items[0].Extended? then Some(items[0].charset) else before);
    }
  }

  lemma PlainListReturns(head: seq<byte>, items: seq<Item>)
    requires SEMICOLON !in head && ValidItems(items) && forall i :: 0 <= i < |items| ==> !items[i].Series?
    ensures Parse(head + PrintItems(items)) == Params(Strip(head), AllMeant(items))
  {
    hide Parse, PrintItems, AllMeant, ComesBack, ValidItems;
    WithoutSeries(items, None);
    ListReturnsExactly(head, items);
  }

  /** Two continued values in a row, as for a long name and a long file name: the second is lost, with all behind it. */
  lemma SecondSeriesIsLost(head: seq<byte>, a: Item, b: Item, more: seq<Item>)
    requires SEMICOLON !in head && a.Series? && b.Series? && ValidItems([a, b] + more)
    ensures Parse(head + PrintItems([a, b] + more)) == Params(Strip(head), [Meant(a)])
  {
    hide Parse, PrintItems, ValidItems, Strip, Texts;
    var items := [a, b] + more;
    GotOne(a, b, more);
    ListIsGot(head, items);
  }

  lemma GotOne(a: Item, b: Item, more: seq<Item>)
    requires a.Series? && b.Series?
    ensures Got([a, b] + more, None, None) == [Meant(a)]
  {
    hide Texts;
    var items := [a, b] + more;
    var rest := items[1..];
    assert items[0] == a && rest[0] == b;
    assert Got(rest, a.set', Some(Open(a.name, Texts(a.pieces)))) == [Meant(a)];
  }

  /** A continued value in one character set, then an extended parameter in another: both get the second. */
  lemma CharsetIsTakenOver(head: seq<byte>, a: Item, b: Item)
    requires SEMICOLON !in head && a.Series? && b.Extended? && ValidItems([a, b])
    ensures Parse(head + PrintItems([a, b])) == Params(Strip(head), [Meant(a).(charset := Some(b.charset)), Meant(b)])
  {
    hide Parse, PrintItems, ValidItems, Strip, Texts;
    GotTwo(a, b);
    ListIsGot(head, [a, b]);
  }

  lemma GotTwo(a: Item, b: Item)
    requires a.Series? && b.Extended?
    ensures Got([a, b], None, None) == [Meant(a).(charset := Some(b.charset)), Meant(b)]
  {
    hide Texts;
    var none: seq<Item> := [];
    assert [a, b][1..] == [b] && [b][1..] == none;
    assert Got(none, Some(b.charset), None) == [];
    assert Got([b], a.set', Some(Open(a.name, Texts(a.pieces)))) == [Meant(a).(charset := Some(b.charset)), Meant(b)];
  }
}
