/** Parsing what Rfc2231 prints gives the name back. */
module MimeParamsRoundTrip {
  import opened Bytes
  import opened Decimal
  import opened HexDigits
  import opened Rfc2231
  import opened MimeParams

  /** A character of a parameter name or of the name of a character set. */
  predicate IsTokenChar(c: byte)
  {
    0x21 <= c <= 0x7e && c != EQUALS && c != SEMICOLON && c != STAR && c != APOSTROPHE && c != QUOTE
  }

  predicate IsToken(s: seq<byte>)
  {
    s != [] && forall i :: 0 <= i < |s| ==> IsTokenChar(s[i])
  }

  /** Bytes that stand in a field name: no stop, no equals sign, no space. */
  predicate FieldChars(s: seq<byte>)
  {
    forall i :: 0 <= i < |s| ==> !IsStop(s[i]) && s[i] != EQUALS && !IsSpace(s[i])
  }

  /** Bytes that stand in a value without quotes. */
  predicate ValueChars(s: seq<byte>)
  {
    forall i :: 0 <= i < |s| ==> !IsStop(s[i]) && s[i] != QUOTE && !IsSpace(s[i])
  }

  predicate EscapedChars(s: seq<byte>)
  {
    forall i :: 0 <= i < |s| ==> !IsStop(s[i]) && s[i] != QUOTE && !IsSpace(s[i]) && s[i] != APOSTROPHE
  }

  lemma {:induction false} EscapeIsEscaped(s: seq<byte>)
    ensures EscapedChars(Escape(s))
    decreases |s|
  {
    if s != [] {
      EscapeIsEscaped(s[1..]);
    }
  }

  // ---- One line of the printed form ----

  lemma {:induction false} NameEndAt(s: seq<byte>, i: nat, n: nat)
    requires i <= n < |s| && s[n] == EQUALS
    requires forall j :: i <= j < n ==> s[j] != EQUALS && !IsStop(s[j])
    ensures NameEnd(s, i) == n
    decreases n - i
  {
    if i < n {
      NameEndAt(s, i + 1, n);
    }
  }

  lemma {:induction false} ValueEndAt(s: seq<byte>, i: nat, n: nat)
    requires i <= n <= |s| && (n < |s| ==> IsStop(s[n]))
    requires forall j :: i <= j < n ==> !IsStop(s[j])
    ensures ValueEnd(s, i, false) == n
    decreases n - i
  {
    if i < n {
      ValueEndAt(s, i + 1, n);
    }
  }

  /** field=value, and the end or a semicolon. */
  lemma FieldIsFound(field: seq<byte>, value: seq<byte>, rest: seq<byte>)
    requires FieldChars(field) && ValueChars(value) && (rest == [] || rest[0] == SEMICOLON)
    ensures var s := field + [EQUALS] + value + rest;
      Delimiter(s) == Cut(Some(|field|), if rest == [] then None else Some(|field| + 1 + |value|))
  {
    var s := field + [EQUALS] + value + rest;
    var n := |field|;
    assert forall j :: 0 <= j < n ==> s[j] == field[j];
    assert forall j :: n + 1 <= j < n + 1 + |value| ==> s[j] == value[j - n - 1];
    assert rest != [] ==> s[n + 1 + |value|] == rest[0];
    NameEndAt(s, 0, n);
    assert SkipSpaces(s, n + 1) == n + 1;
    ValueEndAt(s, n + 1, n + 1 + |value|);
  }

  lemma NothingToStrip(s: seq<byte>)
    requires s == [] || (!IsSpace(s[0]) && !IsSpace(s[|s| - 1]))
    ensures Strip(s) == s && Chomp(s) == s
  {
    assert SkipSpaces(s, 0) == 0;
  }

  /** One round of the parser's loop. */
  lemma ParseOnce(p: seq<byte>, st: State, eq: nat, end: nat)
    requires p != [] && p[0] != SEMICOLON && !IsSpace(p[0]) && eq < end <= |p|
    requires Delimiter(p) == Cut(Some(eq), if end == |p| then None else Some(end))
    requires Update(Chomp(p[..eq]), Strip(p[eq + 1..end]), st).0
    ensures var next := Update(Chomp(p[..eq]), Strip(p[eq + 1..end]), st).1;
      ParseFrom(p, st) == if end == |p| then Flush(next).plist else ParseFrom(p[end + 1..], next)
  {
    hide Update, Flush, Delimiter, Chomp, Strip;
    assert SkipSeparators(p) == p;
  }

  /** One step of the parser over field=value. */
  lemma FieldIsParsed(field: seq<byte>, value: seq<byte>, rest: seq<byte>, st: State)
    requires field != [] && FieldChars(field) && ValueChars(value) && (rest == [] || rest[0] == SEMICOLON)
    requires Update(field, value, st).0
    ensures var s := field + [EQUALS] + value + rest; var next := Update(field, value, st).1;
      ParseFrom(s, st) == if rest == [] then Flush(next).plist else ParseFrom(rest[1..], next)
  {
    hide Update, Flush, Delimiter, Chomp, Strip, ParseFrom;
    var s := field + [EQUALS] + value + rest;
    FieldIsFound(field, value, rest);
    NothingToStrip(field);
    NothingToStrip(value);
    var end := |field| + 1 + |value|;
    assert s[0] == field[0] && s[..|field|] == field && s[|field| + 1..end] == value;
    ParseOnce(s, st, |field|, end);
    assert rest != [] ==> s[end + 1..] == rest[1..];
  }

  // ---- The names of the printed form ----

  lemma TokenHasNoStar(name: seq<byte>, rest: seq<byte>)
    requires IsToken(name)
    ensures IndexOf(name + [STAR] + rest, STAR, 0) == |name|
  {
    var s := name + [STAR] + rest;
    assert forall j :: 0 <= j < |name| ==> s[j] == name[j];
    var k := IndexOf(s, STAR, 0);
    assert s[|name|] == STAR;
    assert k < |name| ==> IsTokenChar(s[k]);
  }

  lemma StarName(name: seq<byte>)
    requires IsToken(name)
    ensures ParseName(name + [STAR]) == Name(name, true, true, -1)
  {
    var s := name + [STAR];
    assert name + [STAR] + [] == s;
    TokenHasNoStar(name, []);
    assert s[|name| + 1..] == [] && s[..|name|] == name;
  }

  lemma CountedName(name: seq<byte>, n: nat)
    requires IsToken(name)
    ensures ParseName(name + [STAR] + Print(n) + [STAR]) == Name(name, true, true, n)
  {
    var s := name + [STAR] + (Print(n) + [STAR]);
    assert name + [STAR] + Print(n) + [STAR] == s;
    TokenHasNoStar(name, Print(n) + [STAR]);
    ScanPrinted(n, [STAR]);
    assert s[|name| + 1..] == Print(n) + [STAR] && s[..|name|] == name;
  }

  lemma {:induction false} IndexIs(s: seq<byte>, c: byte, i: nat, k: nat)
    requires i <= k <= |s| && (k < |s| ==> s[k] == c) && forall j :: i <= j < k ==> s[j] != c
    ensures IndexOf(s, c, i) == k
    decreases k - i
  {
    if i < k {
      IndexIs(s, c, i + 1, k);
    }
  }

  lemma PrefixIsSplit(set': seq<byte>, text: seq<byte>, old': Option<seq<byte>>)
    requires IsToken(set') && EscapedChars(text)
    ensures SplitValue(CharsetPrefix(set') + text, old') == (Some(set'), text)
  {
    var v := CharsetPrefix(set') + text;
    var n := |set'|;
    assert forall j :: 0 <= j < n ==> v[j] == set'[j];
    assert forall j :: n + 2 <= j < |v| ==> v[j] == text[j - n - 2];
    IndexIs(v, APOSTROPHE, 0, n);
    IndexIs(v, APOSTROPHE, n + 1, n + 1);
    assert v[..n] == set' && v[n + 2..] == text;
  }

  lemma NothingToSplit(text: seq<byte>, old': Option<seq<byte>>)
    requires EscapedChars(text)
    ensures SplitValue(text, old') == (old', text)
  {
    IndexIs(text, APOSTROPHE, 0, |text|);
  }

  // ---- Separators ----

  lemma SameSkip(a: seq<byte>, b: seq<byte>, st: State)
    requires SkipSeparators(a) == SkipSeparators(b)
    ensures ParseFrom(a, st) == ParseFrom(b, st)
  {
    hide Flush, Delimiter, Update, Chomp, Strip, SkipSeparators;
  }

  lemma BreakAndSpace(t: seq<byte>, st: State)
    ensures ParseFrom([SPACE] + t, st) == ParseFrom(t, st)
    ensures ParseFrom([LF] + ([SPACE] + t), st) == ParseFrom(t, st)
  {
    hide ParseFrom;
    assert ([SPACE] + t)[1..] == t && ([LF] + ([SPACE] + t))[1..] == [SPACE] + t;
    SameSkip([SPACE] + t, t, st);
    SameSkip([LF] + ([SPACE] + t), t, st);
  }

  // ---- What each line does to the state ----

  function Field(name: seq<byte>, n: nat): seq<byte>
  {
    name + [STAR] + Print(n) + [STAR]
  }

  lemma FieldOk(name: seq<byte>, n: nat)
    requires IsToken(name)
    ensures FieldChars(Field(name, n)) && Field(name, n) != []
  {
    assert forall i :: 0 <= i < |Print(n)| ==> IsDigit(Print(n)[i]);
  }

  lemma ValueOk(charset: seq<byte>, src: seq<byte>)
    ensures ValueChars(Escape(src))
    ensures IsToken(charset) ==> ValueChars(CharsetPrefix(charset) + Escape(src))
  {
    EscapeIsEscaped(src);
  }

  /** The state after the lines up to n: what they held so far. */
  function After(name: seq<byte>, n: int, value: seq<byte>, charset: seq<byte>): State
  {
    State(n, Some(name), Some(value), Some(charset), [])
  }

  /** The one parameter that was printed. */
  function Result(name: seq<byte>, value: seq<byte>, charset: seq<byte>): seq<Param>
  {
    [Param(name, value, Some(charset), false)]
  }

  lemma FlushAfter(name: seq<byte>, n: int, value: seq<byte>, charset: seq<byte>)
    ensures Flush(After(name, n, value, charset)).plist == Result(name, value, charset)
  {
    assert [] + Result(name, value, charset) == Result(name, value, charset);
  }

  lemma StarNameUpdates(name: seq<byte>, charset: seq<byte>, src: seq<byte>)
    requires IsToken(name) && IsToken(charset)
    ensures Update(name + [STAR], CharsetPrefix(charset) + Escape(src), START)
         == (true, State(-1, None, None, Some(charset), Result(name, src, charset)))
  {
    EscapeIsEscaped(src);
    StarName(name);
    PrefixIsSplit(charset, Escape(src), None);
    UnescapeUndoesEscape(src);
    hide Escape, Unescape, SplitValue, ParseName;
    assert [] + Result(name, src, charset) == Result(name, src, charset);
  }

  lemma FirstLineUpdates(name: seq<byte>, charset: seq<byte>, src: seq<byte>)
    requires IsToken(name) && IsToken(charset)
    ensures Update(Field(name, 0), CharsetPrefix(charset) + Escape(src), START) == (true, After(name, 0, src, charset))
  {
    hide Escape, Unescape, SplitValue, ParseName;
    EscapeIsEscaped(src);
    CountedName(name, 0);
    PrefixIsSplit(charset, Escape(src), None);
    UnescapeUndoesEscape(src);
    assert [] + src == src;
  }

  lemma NextLineUpdates(name: seq<byte>, charset: seq<byte>, n: nat, so: seq<byte>, src: seq<byte>)
    requires IsToken(name)
    ensures Update(Field(name, n + 1), Escape(src), After(name, n, so, charset)) == (true, After(name, n + 1, so + src, charset))
  {
    hide Escape, Unescape, SplitValue, ParseName;
    EscapeIsEscaped(src);
    CountedName(name, n + 1);
    NothingToSplit(Escape(src), Some(charset));
    UnescapeUndoesEscape(src);
  }

  // ---- The one-line form ----

  lemma OneLineParses(src: seq<byte>, name: seq<byte>, charset: seq<byte>)
    requires IsToken(name) && IsToken(charset)
    ensures ParseFrom((name + [STAR]) + [EQUALS] + (CharsetPrefix(charset) + Escape(src)), START) == Result(name, src, charset)
  {
    hide *;
    StarFieldOk(name, src, charset);
    var field, value := name + [STAR], CharsetPrefix(charset) + Escape(src);
    StarNameUpdates(name, charset, src);
    ValueOk(charset, src);
    assert field + [EQUALS] + value + [] == field + [EQUALS] + value;
    FieldIsParsed(field, value, [], START);
  }

  lemma StarFieldOk(name: seq<byte>, src: seq<byte>, charset: seq<byte>)
    requires IsToken(name)
    ensures FieldChars(name + [STAR])
    ensures Flush(State(-1, None, None, Some(charset), Result(name, src, charset))).plist == Result(name, src, charset)
  {
  }

  // ---- The continuation form ----

  lemma FirstLineParses(src: seq<byte>, name: seq<byte>, charset: seq<byte>, rest: seq<byte>)
    requires IsToken(name) && IsToken(charset) && (rest == [] || rest[0] == SEMICOLON)
    ensures ParseFrom(Field(name, 0) + [EQUALS] + (CharsetPrefix(charset) + Escape(src)) + rest, START)
         == if rest == [] then Result(name, src, charset) else ParseFrom(rest[1..], After(name, 0, src, charset))
  {
    hide *;
    FirstLineUpdates(name, charset, src);
    ValueOk(charset, src);
    FieldOk(name, 0);
    FlushAfter(name, 0, src, charset);
    FieldIsParsed(Field(name, 0), CharsetPrefix(charset) + Escape(src), rest, START);
  }

  lemma LineParses(src: seq<byte>, name: seq<byte>, charset: seq<byte>, n: nat, so: seq<byte>, rest: seq<byte>)
    requires IsToken(name) && (rest == [] || rest[0] == SEMICOLON)
    ensures ParseFrom(Field(name, n + 1) + [EQUALS] + Escape(src) + rest, After(name, n, so, charset))
         == if rest == [] then Result(name, so + src, charset) else ParseFrom(rest[1..], After(name, n + 1, so + src, charset))
  {
    hide *;
    NextLineUpdates(name, charset, n, so, src);
    ValueOk(charset, src);
    FieldOk(name, n + 1);
    FlushAfter(name, n + 1, so + src, charset);
    FieldIsParsed(Field(name, n + 1), Escape(src), rest, After(name, n, so, charset));
  }

  lemma HeadIsField(name: seq<byte>, n: nat, value: seq<byte>, rest: seq<byte>)
    ensures Head(name, n) + (value + rest) == [SPACE] + (Field(name, n) + [EQUALS] + value + rest)
  {
  }

  lemma NextLineStarts(src: seq<byte>, name: seq<byte>, n: nat)
    ensures var t := NextLine(src, name, n);
      t != [] && t[0] == SEMICOLON
      && t[1..] == [LF] + (Head(name, n) + Continue(src, name, n, MAX_LINELEN - |Head(name, n)|))
  {
    hide Continue, Head;
  }

  function Tail(src: seq<byte>, m: nat, name: seq<byte>, n: nat): (t: seq<byte>)
    requires m <= |src|
    ensures t == [] || t[0] == SEMICOLON
    ensures t == [] <==> m == |src|
  {
    NextLineStarts(src[m..], name, n);
    if m == |src| then [] else NextLine(src[m..], name, n)
  }

  /** All lines from number n + 1 on: each adds its part of the name. */
  lemma {:induction false} LinesParse(src: seq<byte>, name: seq<byte>, charset: seq<byte>, n: nat, so: seq<byte>)
    requires IsToken(name) && |name| <= 58 && src != [] && n + 1 + |src| < MAX_COUNT
    ensures ParseFrom(NextLine(src, name, n + 1)[1..], After(name, n, so, charset)) == Result(name, so + src, charset)
    decreases |src|
  {
    hide *;
    var m := FirstLineOf(src, name, n + 1, MAX_LINELEN - |Head(name, n + 1)|);
    HeadFits(name, n + 1);
    FreshLineTakes(src, |Head(name, n + 1)|);
    NextLineStarts(src, name, n + 1);
    var rest := Tail(src, m, name, n + 2);
    var st := After(name, n, so, charset);
    HeadIsField(name, n + 1, Escape(src[..m]), rest);
    BreakAndSpace(Field(name, n + 1) + [EQUALS] + Escape(src[..m]) + rest, st);
    LineParses(src[..m], name, charset, n, so, rest);
    if m < |src| {
      LinesParse(src[m..], name, charset, n + 1, so + src[..m]);
      TailIs(src, m, name, n + 2);
      assert (so + src[..m]) + src[m..] == so + src;
    } else {
      assert src[..m] == src;
    }
  }

  lemma TailIs(src: seq<byte>, m: nat, name: seq<byte>, n: nat)
    requires m < |src|
    ensures Tail(src, m, name, n) == NextLine(src[m..], name, n)
  {
    hide NextLine;
  }

  lemma FreshLineTakes(src: seq<byte>, column: nat)
    requires src != [] && column <= MAX_LINELEN - 4
    ensures OnLine(src, MAX_LINELEN - column) > 0
  {
  }

  /** How much of the text goes on this line, and what follows. */
  lemma FirstLineOf(src: seq<byte>, name: seq<byte>, n: nat, left: int) returns (m: nat)
    requires |name| <= 58 && n + 1 < MAX_COUNT
    ensures m == OnLine(src, left) <= |src|
    ensures Continue(src, name, n, left) == Escape(src[..m]) + Tail(src, m, name, n + 1)
  {
    hide NextLine, Escape, Continue, Head;
    HeadFits(name, n + 1);
    ContinueSplits(src, name, n, left);
    m := OnLine(src, left);
  }

  lemma ContinuationParses(src: seq<byte>, name: seq<byte>, charset: seq<byte>)
    requires IsToken(name) && IsToken(charset) && |name| <= 58 && |src| < MAX_COUNT - 1
    ensures var first := Head(name, 0) + CharsetPrefix(charset);
      ParseFrom([LF] + (first + Continue(src, name, 0, MAX_LINELEN - |first|)), START) == Result(name, src, charset)
  {
    hide *;
    var first := Head(name, 0) + CharsetPrefix(charset);
    var m := FirstLineOf(src, name, 0, MAX_LINELEN - |first|);
    var rest := Tail(src, m, name, 1);
    var value := CharsetPrefix(charset) + Escape(src[..m]);
    assert first + (Escape(src[..m]) + rest) == Head(name, 0) + (value + rest);
    HeadIsField(name, 0, value, rest);
    BreakAndSpace(Field(name, 0) + [EQUALS] + value + rest, START);
    FirstLineParses(src[..m], name, charset, rest);
    if m < |src| {
      LinesParse(src[m..], name, charset, 0, src[..m]);
      TailIs(src, m, name, 1);
      assert src[..m] + src[m..] == src;
    } else {
      assert src[..m] == src;
    }
  }

  // ---- The whole header ----

  lemma EncodedText(src: seq<byte>, name: seq<byte>, charset: seq<byte>)
    ensures var first := Head(name, 0) + CharsetPrefix(charset);
      Extended(src, name, charset) == if |Escape(src)| <= MAX_LINELEN - |name| - 3
        then [SPACE] + ((name + [STAR]) + [EQUALS] + (CharsetPrefix(charset) + Escape(src)))
        else first + Continue(src, name, 0, MAX_LINELEN - |first|)
  {
    hide Escape, Continue, Head;
    assert [SPACE] + name + [STAR, EQUALS] + CharsetPrefix(charset) + Escape(src)
        == [SPACE] + ((name + [STAR]) + [EQUALS] + (CharsetPrefix(charset) + Escape(src)));
  }

  /**
   A header whose text before the parameters has no semicolon, then the parameter on a line
   of its own: the parser gives back the name, byte for byte, with its character set.
   */
  lemma ParsingUndoesPrinting(head: seq<byte>, src: seq<byte>, name: seq<byte>, charset: seq<byte>)
    requires SEMICOLON !in head
    requires IsToken(name) && IsToken(charset) && |name| <= 58 && |src| < MAX_COUNT - 1
    ensures Parse(head + [SEMICOLON] + ([LF] + Extended(src, name, charset)))
         == Params(Strip(head), Result(name, src, charset))
  {
    hide *;
    HeadEnds(head, [LF] + Extended(src, name, charset));
    EncodedText(src, name, charset);
    if |Escape(src)| <= MAX_LINELEN - |name| - 3 {
      OneLineParses(src, name, charset);
      BreakAndSpace((name + [STAR]) + [EQUALS] + (CharsetPrefix(charset) + Escape(src)), START);
    } else {
      ContinuationParses(src, name, charset);
    }
  }

  lemma HeadEnds(head: seq<byte>, rest: seq<byte>)
    requires SEMICOLON !in head
    ensures Parse(head + [SEMICOLON] + rest) == Params(Strip(head), ParseFrom(rest, START))
  {
    hide Strip, ParseFrom;
    var s := head + [SEMICOLON] + rest;
    assert forall j :: 0 <= j < |head| ==> s[j] == head[j] && head[j] in head;
    IndexIs(s, SEMICOLON, 0, |head|);
    assert s[..|head|] == head && s[|head| + 1..] == rest;
  }

  // ---- ASCII names ----

  /** The part of a name before its first quote. */
  function BeforeQuote(src: seq<byte>): seq<byte>
  {
    src[..IndexOf(src, QUOTE, 0)]
  }

  lemma {:induction false} QuotesClose(s: seq<byte>, i: nat, q: nat)
    requires i <= q < |s| && s[q] == QUOTE && forall j :: i <= j < q ==> s[j] != QUOTE
    ensures ValueEnd(s, i, true) == ValueEnd(s, q + 1, false)
    decreases q - i
  {
    if i < q {
      QuotesClose(s, i + 1, q);
    }
  }

  lemma {:induction false} ChompKeeps(s: seq<byte>, j: nat)
    requires j < |s| && !IsSpace(s[j])
    ensures |Chomp(s)| > j
    decreases |s|
  {
    if IsSpace(s[|s| - 1]) {
      ChompKeeps(s[..|s| - 1], j);
    }
  }

  /** A quoted value, whatever stands after its closing quote. */
  lemma QuoteIsExtracted(w: seq<byte>, k: nat)
    requires k + 1 < |w| && w[0] == QUOTE && w[k + 1] == QUOTE && forall j :: 1 <= j <= k ==> w[j] != QUOTE
    ensures var raw := Strip(w); At(raw, 0) == QUOTE && raw != [] && ExtractQuote(raw) == w[1..k + 1]
  {
    assert SkipSpaces(w, 0) == 0 && w[0..] == w;
    ChompKeeps(w, k + 1);
    var raw := Chomp(w);
    assert raw == w[..|raw|];
    IndexIs(raw, QUOTE, 1, k + 1);
    hide Chomp, SkipSpaces, IndexOf;
    assert raw[1..k + 1] == w[1..k + 1];
  }

  lemma QuotedDelimiter(name: seq<byte>, src: seq<byte>, k: nat, p: seq<byte>, end: nat)
    requires IsToken(name) && k == IndexOf(src, QUOTE, 0)
    requires p == name + [EQUALS, QUOTE] + src + [QUOTE] && end == ValueEnd(p, |name| + 3 + k, false)
    ensures Delimiter(p) == Cut(Some(|name|), Place(end, p))
    ensures |name| + 3 + k <= end <= |p| && (k == |src| ==> end == |p|)
  {
    var eq := |name|;
    assert forall j :: 0 <= j < eq ==> p[j] == name[j];
    assert forall j :: eq + 2 <= j < eq + 2 + k ==> p[j] == src[j - eq - 2];
    assert p[eq + 2 + k] == QUOTE;
    NameEndAt(p, 0, eq);
    assert SkipSpaces(p, eq + 1) == eq + 1;
    QuotesClose(p, eq + 2, eq + 2 + k);
    hide ValueEnd, NameEnd, SkipSpaces;
  }

  lemma QuotedRaw(name: seq<byte>, src: seq<byte>, k: nat, p: seq<byte>, end: nat)
    requires k == IndexOf(src, QUOTE, 0) && p == name + [EQUALS, QUOTE] + src + [QUOTE] && |name| + 3 + k <= end <= |p|
    ensures var raw := Strip(p[|name| + 1..end]); At(raw, 0) == QUOTE && raw != [] && ExtractQuote(raw) == src[..k]
  {
    hide ExtractQuote, Strip, IndexOf;
    var w := p[|name| + 1..end];
    assert forall j :: 0 <= j < |w| ==> w[j] == p[|name| + 1 + j];
    assert forall j :: 1 <= j <= k ==> w[j] == src[j - 1];
    QuoteIsExtracted(w, k);
    assert w[1..k + 1] == src[..k];
  }

  lemma PlainName(name: seq<byte>)
    requires IsToken(name)
    ensures ParseName(name) == Name(name, false, false, -1)
  {
    IndexIs(name, STAR, 0, |name|);
  }

  function AsciiResult(name: seq<byte>, value: seq<byte>): seq<Param>
  {
    [Param(name, value, None, IsFileName(name))]
  }

  lemma QuotedUpdates(name: seq<byte>, raw: seq<byte>)
    requires IsToken(name) && raw != [] && At(raw, 0) == QUOTE
    ensures Update(name, raw, START) == (true, START.(plist := AsciiResult(name, ExtractQuote(raw))))
  {
    PlainName(name);
    hide ParseName, ExtractQuote, IsFileName;
    assert [] + AsciiResult(name, ExtractQuote(raw)) == AsciiResult(name, ExtractQuote(raw));
  }

  lemma UpdateKeeps(field: seq<byte>, raw: seq<byte>, st: State)
    ensures st.plist <= Flush(st).plist && st.plist <= Update(field, raw, st).1.plist
  {
    hide ParseName, ExtractQuote, IsFileName, SplitValue, Unescape;
  }

  /** What has been read stays at the front of the list. */
  lemma {:induction false} ParseKeeps(s: seq<byte>, st: State)
    ensures st.plist <= ParseFrom(s, st)
    decreases |s|
  {
    hide Flush, Update, Delimiter, Chomp, Strip;
    var p := SkipSeparators(s);
    UpdateKeeps([], [], st);
    if p != [] && Delimiter(p).eq.Some? {
      var cut := Delimiter(p);
      var end := if cut.delim.Some? then cut.delim.value else |p|;
      var field, raw := Chomp(p[..cut.eq.value]), Strip(p[cut.eq.value + 1..end]);
      var (ok, next) := Update(field, raw, st);
      UpdateKeeps(field, raw, st);
      UpdateKeeps([], [], next);
      if ok && cut.delim.Some? {
        ParseKeeps(p[cut.delim.value + 1..], next);
      }
    }
  }

  lemma AsciiParses(src: seq<byte>, name: seq<byte>)
    requires IsToken(name)
    ensures var r := ParseFrom(name + [EQUALS, QUOTE] + src + [QUOTE], START);
      && AsciiResult(name, BeforeQuote(src)) <= r
      && (QUOTE !in src ==> r == AsciiResult(name, src))
  {
    hide *;
    var p, eq, k := name + [EQUALS, QUOTE] + src + [QUOTE], |name|, IndexOf(src, QUOTE, 0);
    var end := ValueEnd(p, eq + 3 + k, false);
    QuotedDelimiter(name, src, k, p, end);
    QuotedRaw(name, src, k, p, end);
    TokenNotSpace(name);
    NothingToStrip(name);
    QuotedUpdates(name, Strip(p[eq + 1..end]));
    var next := START.(plist := AsciiResult(name, src[..k]));
    assert p[0] == name[0] && p[..eq] == name;
    PlaceIs(end, p);
    ParseOnce(p, START, eq, end);
    FlushNothing(AsciiResult(name, src[..k]));
    if end < |p| {
      ParseKeeps(p[end + 1..], next);
    }
    BeforeQuoteIs(src, k);
  }

  lemma TokenNotSpace(name: seq<byte>)
    requires IsToken(name)
    ensures name != [] && !IsSpace(name[0]) && !IsSpace(name[|name| - 1]) && name[0] != SEMICOLON
  {
  }

  lemma PlaceIs(end: nat, p: seq<byte>)
    requires end <= |p|
    ensures Place(end, p) == if end == |p| then None else Some(end)
  {
  }

  lemma FlushNothing(plist: seq<Param>)
    ensures Flush(START.(plist := plist)) == START.(plist := plist)
  {
  }

  lemma BeforeQuoteIs(src: seq<byte>, k: nat)
    requires k == IndexOf(src, QUOTE, 0)
    ensures BeforeQuote(src) == src[..k] && (QUOTE !in src <==> k == |src|)
    ensures BeforeQuote(src) == src <==> QUOTE !in src
  {
  }

  /** An ASCII name is printed in quotes as it is: it comes back exactly when it holds no quote, and otherwise up to its first one. */
  lemma AsciiReturnsExactly(head: seq<byte>, src: seq<byte>, converted: Option<seq<byte>>, name: seq<byte>, charset: seq<byte>)
    requires SEMICOLON !in head && IsAsciiStr(src) && IsToken(name)
    ensures Encode(src, converted, name, charset).Some?
    ensures var r := Parse(head + [SEMICOLON] + ([LF] + Encode(src, converted, name, charset).value));
      && r.hvalue == Strip(head) && AsciiResult(name, BeforeQuote(src)) <= r.plist
      && (r.plist == AsciiResult(name, src) <==> QUOTE !in src)
  {
    hide *;
    AsciiText(src, converted, name, charset);
    var e := Encode(src, converted, name, charset).value;
    HeadEnds(head, [LF] + e);
    BreakAndSpace(name + [EQUALS, QUOTE] + src + [QUOTE], START);
    AsciiParses(src, name);
    BeforeQuoteIs(src, IndexOf(src, QUOTE, 0));
    var r := Parse(head + [SEMICOLON] + ([LF] + e)).plist;
    if r == AsciiResult(name, src) {
      FirstValue(name, src, r);
    }
  }

  lemma AsciiText(src: seq<byte>, converted: Option<seq<byte>>, name: seq<byte>, charset: seq<byte>)
    requires IsAsciiStr(src)
    ensures Encode(src, converted, name, charset) == Some([SPACE] + (name + [EQUALS, QUOTE] + src + [QUOTE]))
  {
    assert [SPACE] + name + [EQUALS, QUOTE] + src + [QUOTE] == [SPACE] + (name + [EQUALS, QUOTE] + src + [QUOTE]);
  }

  lemma FirstValue(name: seq<byte>, src: seq<byte>, r: seq<Param>)
    requires AsciiResult(name, BeforeQuote(src)) <= r && r == AsciiResult(name, src)
    ensures BeforeQuote(src) == src
  {
    hide BeforeQuote;
    assert r[0] == AsciiResult(name, BeforeQuote(src))[0];
  }

  /** "a", a quote, "b": the name comes back as "a". */
  lemma QuoteCutsName(head: seq<byte>, converted: Option<seq<byte>>, name: seq<byte>, charset: seq<byte>)
    requires SEMICOLON !in head && IsToken(name)
    ensures IsAsciiStr([97, QUOTE, 98]) && Encode([97, QUOTE, 98], converted, name, charset).Some?
    ensures var r := Parse(head + [SEMICOLON] + ([LF] + Encode([97, QUOTE, 98], converted, name, charset).value));
      r.plist != [] && r.plist[0].value == [97]
  {
    var src: seq<byte> := [97, QUOTE, 98];
    IndexIs(src, QUOTE, 0, 1);
    assert IsAsciiStr(src) && BeforeQuote(src) == [97];
    hide Parse, Encode, BeforeQuote;
    AsciiReturnsExactly(head, src, converted, name, charset);
    assert AsciiResult(name, BeforeQuote(src))[0].value == [97];
  }
}
