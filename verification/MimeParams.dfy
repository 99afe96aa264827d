/**
 The parser of MIME parameters in procmime.c, and its round trip with the printer in
 Rfc2231.  Character-set conversion is recorded in the result and not performed.
 */
module MimeParams {
  import opened Bytes
  import opened Decimal
  import opened HexDigits
  import opened Rfc2231

  /** A parameter with the conversions that its value still goes through. */
  datatype Param = Param(name: seq<byte>, value: seq<byte>, charset: Option<seq<byte>>, unmime: bool)

  predicate IsStop(c: byte)
  {
    c == SEMICOLON || c == CR || c == LF
  }

  // ---- One parameter and its end ----

  /** The first '=', or the stop before it, or the end. */
  function NameEnd(s: seq<byte>, i: nat): (n: nat)
    requires i <= |s|
    ensures i <= n <= |s|
    decreases |s| - i
  {
    if i == |s| || s[i] == EQUALS || IsStop(s[i]) then i else NameEnd(s, i + 1)
  }

  /** The first stop outside quotes. */
  function ValueEnd(s: seq<byte>, i: nat, quoted: bool): (n: nat)
    requires i <= |s|
    ensures i <= n <= |s|
    decreases |s| - i
  {
    if i == |s| then i
    else if quoted then ValueEnd(s, i + 1, s[i] != QUOTE)
    else if IsStop(s[i]) then i
    else ValueEnd(s, i + 1, false)
  }

  datatype Cut = Cut(eq: Option<nat>, delim: Option<nat>)

  function Place(i: nat, s: seq<byte>): Option<nat>
  {
    if i < |s| then Some(i) else None
  }

  function Delimiter(s: seq<byte>): (r: Cut)
    ensures r.eq.Some? ==> r.eq.value < |s|
    ensures r.delim.Some? ==> r.delim.value < |s|
    ensures r.eq.Some? && r.delim.Some? ==> r.eq.value < r.delim.value
  {
    var n := NameEnd(s, 0);
    if n == |s| || s[n] != EQUALS then Cut(None, Place(n, s))
    else
      var v := SkipSpaces(s, n + 1);
      var quoted := At(s, v) == QUOTE;
      Cut(Some(n), Place(ValueEnd(s, if quoted then v + 1 else v, quoted), s))
  }

  /** procmime_find_parameter_delimiter */
  method FindParameterDelimiter(param: seq<byte>) returns (delim: Option<nat>, eq: Option<nat>)
    ensures Cut(eq, delim) == Delimiter(param)
  {
    var p := 0;
    while p < |param| && param[p] != EQUALS && !IsStop(param[p])
      invariant 0 <= p <= |param| && NameEnd(param, p) == NameEnd(param, 0)
    {
      p := p + 1;
    }
    if p == |param| || param[p] != EQUALS {
      return Place(p, param), None;
    }
    eq := Some(p);
    p := p + 1;
    while p < |param| && IsSpace(param[p])
      invariant 0 <= p <= |param| && SkipSpaces(param, p) == SkipSpaces(param, eq.value + 1)
    {
      p := p + 1;
    }
    var quoted := p < |param| && param[p] == QUOTE;
    if quoted {
      p := p + 1;
    }
    ghost var end := ValueEnd(param, p, quoted);
    while p < |param|
      invariant 0 <= p <= |param| && ValueEnd(param, p, quoted) == end
    {
      if quoted {
        if param[p] == QUOTE {
          quoted := false;
        }
      } else if IsStop(param[p]) {
        break;
      }
      p := p + 1;
    }
    delim := Place(p, param);
  }

  /** The loop of decode_xdigit_encoded_str. */
  method DecodeXdigits(encoded: seq<byte>) returns (decoded: seq<byte>)
    ensures decoded == Unescape(encoded)
  {
    decoded := [];
    var enc := encoded;
    while enc != []
      invariant decoded + Unescape(enc) == Unescape(encoded)
      decreases |enc|
    {
      ghost var before, rest := decoded, Unescape(enc);
      if enc[0] == PERCENT {
        if IsHex(At(enc, 1)) && IsHex(At(enc, 2)) {
          decoded := decoded + [16 * HexValue(enc[1]) + HexValue(enc[2])];
          enc := enc[3..];
        } else {
          enc := enc[1..];
        }
      } else {
        decoded := decoded + [enc[0]];
        enc := enc[1..];
      }
      assert before + rest == decoded + Unescape(enc);
    }
  }

  // ---- Name and value ----

  function IndexOf(s: seq<byte>, c: byte, i: nat): (k: nat)
    requires i <= |s|
    ensures i <= k <= |s| && (k < |s| ==> s[k] == c)
    ensures forall j :: i <= j < k ==> s[j] != c
    decreases |s| - i
  {
    if i == |s| || s[i] == c then i else IndexOf(s, c, i + 1)
  }

  /** extract_quote on a string that starts with the quote: what stands before the closing one, if there is one. */
  function ExtractQuote(s: seq<byte>): seq<byte>
    requires s != []
  {
    var p := IndexOf(s, QUOTE, 1);
    if p < |s| then s[1..p] else s
  }

  /** What the stars in a name say: count is -1 without a number. */
  datatype Name = Name(base: seq<byte>, star: bool, encoded: bool, count: int) | BadName

  function ParseName(name: seq<byte>): Name
  {
    var ast := IndexOf(name, STAR, 0);
    if ast == 0 || ast == |name| then Name(name, false, false, -1)
    else
      var next := name[ast + 1..];
      if next == [] then Name(name[..ast], true, true, -1)
      else if IsDigit(next[0]) then
        var n := DigitCount(next);
        Name(name[..ast], true, At(next, n) == STAR, Value(next[..n]))
      else BadName
  }

  /** charset'language'text: the character set, when given, and the text after it. */
  function SplitValue(value: seq<byte>, charset: Option<seq<byte>>): (Option<seq<byte>>, seq<byte>)
  {
    var sq1 := IndexOf(value, APOSTROPHE, 0);
    if sq1 == |value| then (charset, value)
    else
      var set' := if sq1 > 0 then Some(value[..sq1]) else charset;
      var sq2 := IndexOf(value, APOSTROPHE, sq1 + 1);
      (set', if sq2 < |value| then value[sq2 + 1..] else value)
  }

  // ---- The parser ----

  datatype State = State(prev: int, contName: Option<seq<byte>>, contValue: Option<seq<byte>>,
                         charset: Option<seq<byte>>, plist: seq<Param>)

  const START := State(-1, None, None, None, [])

  function Flush(st: State): State
  {
    if st.contName.Some? && st.contValue.Some?
    then st.(contName := None, contValue := None,
             plist := st.plist + [Param(st.contName.value, st.contValue.value, st.charset, false)])
    else st
  }

  predicate IsFileName(name: seq<byte>)
  {
    var lower := seq(|name|, i requires 0 <= i < |name| => if 65 <= name[i] <= 90 then name[i] + 32 else name[i] as int);
    lower == [110, 97, 109, 101] || lower == [102, 105, 108, 101, 110, 97, 109, 101]
  }

  /** What one parameter does to the state; false when the parser gives up. */
  function Update(field: seq<byte>, raw: seq<byte>, st: State): (bool, State)
  {
    var name := ParseName(field);
    if name.BadName? || (name.count >= 0 && st.prev + 1 != name.count) then (false, st)
    else
      var value := if At(raw, 0) == QUOTE then ExtractQuote(raw) else raw;
      var (charset, begin) := if name.encoded then SplitValue(value, st.charset) else (st.charset, value);
      var s := st.(charset := charset);
      var text := if name.encoded then Unescape(begin) else begin;
      if name.count >= 0 then
        if name.count > 0 && s.contName.Some? && s.contName.value != name.base then (false, s)
        else
          (true, s.(prev := name.count,
                    contName := if name.count > 0 && s.contName.Some? then s.contName else Some(name.base),
                    contValue := Some((if s.contValue.Some? then s.contValue.value else []) + text)))
      else
        var f := Flush(s);
        var unmime := !name.encoded && !name.star && IsFileName(name.base);
        (true, f.(prev := -1, plist := f.plist + [Param(name.base, text, if name.encoded then charset else None, unmime)]))
  }

  function SkipSeparators(s: seq<byte>): (r: seq<byte>)
    ensures |r| <= |s|
  {
    if s != [] && (s[0] == SEMICOLON || IsSpace(s[0])) then SkipSeparators(s[1..]) else s
  }

  /** The loop over the parameters. */
  function ParseFrom(s: seq<byte>, st: State): seq<Param>
    decreases |s|
  {
    var p := SkipSeparators(s);
    if p == [] then Flush(st).plist
    else
      var cut := Delimiter(p);
      if cut.eq == None then Flush(st).plist
      else
        var end := if cut.delim.Some? then cut.delim.value else |p|;
        var (ok, next) := Update(Chomp(p[..cut.eq.value]), Strip(p[cut.eq.value + 1..end]), st);
        if ok && cut.delim.Some? then ParseFrom(p[cut.delim.value + 1..], next)
        else Flush(next).plist
  }

  datatype Params = Params(hvalue: seq<byte>, plist: seq<Param>)

  function Parse(str: seq<byte>): Params
  {
    var p := IndexOf(str, SEMICOLON, 0);
    if p == |str| then Params(Strip(str), []) else Params(Strip(str[..p]), ParseFrom(str[p + 1..], START))
  }

  // ---- The code ----

  /** The branch for an encoded value: its character set and where its text begins. */
  method TakeCharset(value: seq<byte>, charset: Option<seq<byte>>) returns (charset': Option<seq<byte>>, begin: seq<byte>)
    ensures (charset', begin) == SplitValue(value, charset)
  {
    charset', begin := charset, value;
    var sq1 := IndexOf(value, APOSTROPHE, 0);
    if sq1 < |value| {
      if sq1 > 0 {
        charset' := Some(value[..sq1]);
      }
      var sq2 := IndexOf(value, APOSTROPHE, sq1 + 1);
      if sq2 < |value| {
        begin := value[sq2 + 1..];
      }
    }
  }

  /** The body of the loop for one name and value. */
  method TakeParameter(field: seq<byte>, raw: seq<byte>, st: State) returns (ok: bool, st': State)
    ensures (ok, st') == Update(field, raw, st)
  {
    hide Flush, SplitValue, Unescape, ExtractQuote, IsFileName;
    var count: int, encoded := -1, false;
    var name, star := field, false;
    var ast := IndexOf(field, STAR, 0);
    if 0 < ast < |field| {
      var next := field[ast + 1..];
      if next == [] {
        encoded := true;
      } else if IsDigit(next[0]) {
        var n := DigitCount(next);
        count := Value(next[..n]);
        encoded := At(next, n) == STAR;
        if st.prev + 1 != count {
          return false, st;
        }
      } else {
        return false, st;
      }
      name, star := field[..ast], true;
    }
    var value := raw;
    if At(value, 0) == QUOTE {
      value := ExtractQuote(value);
    }
    var begin := value;
    var charset := st.charset;
    if encoded {
      charset, begin := TakeCharset(value, charset);
      begin := DecodeXdigits(begin);
    }
    st' := st.(charset := charset);
    if count >= 0 {
      if count > 0 && st'.contName.Some? {
        if st'.contName.value != name {
          return false, st';
        }
      } else {
        st' := st'.(contName := Some(name));
      }
      st' := st'.(contValue := Some(if st'.contValue.Some? then st'.contValue.value + begin else begin));
      assert [] + begin == begin;
    } else {
      st' := Flush(st');
      var unmime := !encoded && !star && IsFileName(name);
      st' := st'.(plist := st'.plist + [Param(name, begin, if encoded then charset else None, unmime)]);
    }
    st' := st'.(prev := count);
    ok := true;
  }

  /** procmime_parse_mime_parameter, without the repair of raw ISO-2022-JP. */
  method ParseMimeParameter(str: seq<byte>) returns (mparams: Params)
    ensures mparams == Parse(str)
  {
    hide Update, Delimiter, Chomp, Strip, Flush;
    var semi := IndexOf(str, SEMICOLON, 0);
    if semi == |str| {
      return Params(Strip(str), []);
    }
    var p, st := str[semi + 1..], START;
    ghost var all := ParseFrom(p, st);
    while true
      invariant ParseFrom(p, st) == all
      decreases |p|
    {
      p := SkipSeparators(p);
      if p == [] {
        break;
      }
      var delim, eq := FindParameterDelimiter(p);
      assert Cut(eq, delim) == Delimiter(p);
      if eq == None {
        break;
      }
      var param := if delim.Some? then p[..delim.value] else p;
      assert p[eq.value + 1..|param|] == param[eq.value + 1..];
      var ok;
      ok, st := TakeParameter(Chomp(p[..eq.value]), Strip(param[eq.value + 1..]), st);
      if !ok || delim == None {
        p := [];
        break;
      }
      p := p[delim.value + 1..];
    }
    mparams := Params(Strip(str[..semi]), Flush(st).plist);
  }
}
