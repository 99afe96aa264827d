/** Base64 (section 6.8 of RFC 2045): the encoder, the decoder, and the decoder that is fed in pieces. */
module Base64 {
  import opened Bytes

  const PAD: byte := 61

  // ---- The alphabet ----

  /** base64char */
  function Char(v: nat): (c: byte)
    requires v < 64
    ensures Val(c) == v && c != PAD
  {
    if v < 26 then 65 + v else if v < 52 then 71 + v else if v < 62 then v - 4 else if v == 62 then 43 else 47
  }

  /** BASE64VAL */
  function Val(c: byte): (v: int)
    ensures -1 <= v < 64
  {
    if 65 <= c <= 90 then c - 65
    else if 97 <= c <= 122 then c - 71
    else if 48 <= c <= 57 then c + 4
    else if c == 43 then 62
    else if c == 47 then 63
    else -1
  }

  const UPPER := "ABCDEFGHIJKLMNOPQRSTUVWXYZ"
  const LOWER := "abcdefghijklmnopqrstuvwxyz"
  const DIGITS := "0123456789"

  /** Table 1 of section 6.8 of RFC 2045. */
  lemma AlphabetIsTable(v: nat)
    requires v < 64
    ensures Char(v) == (if v < 26 then UPPER[v] else if v < 52 then LOWER[v - 26] else if v < 62 then DIGITS[v - 52]
                        else if v == 62 then '+' else '/') as int
  {
    if v < 26 {
      UpperIs(v);
    } else if v < 52 {
      LowerIs(v - 26);
    } else if v < 62 {
      DigitIs(v - 52);
    }
  }

  lemma UpperIs(v: nat)
    requires v < 26
    ensures UPPER[v] as int == 65 + v
  {
  }

  lemma LowerIs(v: nat)
    requires v < 26
    ensures LOWER[v] as int == 97 + v
  {
  }

  lemma DigitIs(v: nat)
    requires v < 10
    ensures DIGITS[v] as int == 48 + v
  {
  }

  /** No other character has a value. */
  lemma OnlyTheAlphabetIsRead(c: byte)
    ensures Val(c) != -1 <==> exists v: nat :: v < 64 && Char(v) == c
  {
    if Val(c) != -1 {
      assert Char(Val(c)) == c;
    }
  }

  // ---- Whole texts ----

  /** One group of four characters for up to three bytes. */
  function Group(s: seq<byte>): (g: seq<byte>)
    requires s != []
    ensures |g| == 4
  {
    var a := s[0];
    if |s| == 1 then [Char(a / 4), Char(a % 4 * 16), PAD, PAD]
    else
      var b := s[1];
      if |s| == 2 then [Char(a / 4), Char(a % 4 * 16 + b / 16), Char(b % 16 * 4), PAD]
      else [Char(a / 4), Char(a % 4 * 16 + b / 16), Char(b % 16 * 4 + s[2] / 64), Char(s[2] % 64)]
  }

  /** The characters of a group are the digits, to the base 64, of the number that its bytes are to the base 256. */
  lemma GroupIsNumber(s: seq<byte>)
    requires 0 < |s| <= 3
    ensures var g := Group(s);
      var a: int := s[0];
      if |s| == 3 then
        var b: int, c: int := s[1], s[2];
        Val(g[0]) * 0x4_0000 + Val(g[1]) * 0x1000 + Val(g[2]) * 0x40 + Val(g[3]) == a * 0x1_0000 + b * 0x100 + c
      else if |s| == 2 then
        var b: int := s[1];
        Val(g[0]) * 0x1000 + Val(g[1]) * 0x40 + Val(g[2]) == (a * 0x100 + b) * 4 && g[3] == PAD
      else Val(g[0]) * 0x40 + Val(g[1]) == a * 16 && g[2] == PAD && g[3] == PAD
  {
    hide Char, Val;
  }

  function Encode(s: seq<byte>): seq<byte>
  {
    if s == [] then []
    else if |s| <= 3 then Group(s)
    else Group(s[..3]) + Encode(s[3..])
  }

  predicate IsCode(s: seq<byte>)
  {
    forall c :: c in s ==> c == PAD || Val(c) != -1
  }

  predicate ValidGroup(g: seq<byte>)
    requires |g| == 4
  {
    Val(g[0]) != -1 && Val(g[1]) != -1 && (g[2] == PAD || Val(g[2]) != -1) && (g[3] == PAD || Val(g[3]) != -1)
  }

  /** The bytes of a group: one or two when it is padded. */
  function Ungroup(g: seq<byte>): (s: seq<byte>)
    requires |g| == 4 && ValidGroup(g)
    ensures 1 <= |s| <= 3
  {
    var v0, v1 := Val(g[0]), Val(g[1]);
    [v0 * 4 + v1 / 16]
    + if g[2] == PAD then [] else
      [v1 % 16 * 16 + Val(g[2]) / 4]
      + if g[3] == PAD then [] else [Val(g[2]) % 4 * 64 + Val(g[3])]
  }

  /** base64_decode stops at the first group it cannot read. */
  function Decode(s: seq<byte>): seq<byte>
    decreases |s|
  {
    if |s| < 4 || !ValidGroup(s[..4]) then [] else Ungroup(s[..4]) + Decode(s[4..])
  }

  lemma UngroupUndoesGroup(s: seq<byte>)
    requires 1 <= |s| <= 3
    ensures ValidGroup(Group(s)) && Ungroup(Group(s)) == s
    ensures Group(s)[0] != PAD && Group(s)[1] != PAD
    ensures IsCode(Group(s))
  {
    hide Char, Val;
    var g := Group(s);
    if |s| == 1 {
      OneByte(s[0]);
    } else if |s| == 2 {
      TwoBytes(s[0], s[1]);
    } else {
      TwoBytes(s[0], s[1]);
      ThirdByte(s[1], s[2]);
    }
  }

  lemma OneByte(a: byte)
    ensures a / 4 * 4 + a % 4 * 16 / 16 == a
  {
  }

  lemma TwoBytes(a: byte, b: byte)
    ensures a / 4 * 4 + (a % 4 * 16 + b / 16) / 16 == a
    ensures (a % 4 * 16 + b / 16) % 16 * 16 + b % 16 * 4 / 4 == b
  {
  }

  lemma ThirdByte(b: byte, c: byte)
    ensures (b % 16 * 4 + c / 64) / 4 == b % 16
    ensures (b % 16 * 4 + c / 64) % 4 * 64 + c % 64 == c
  {
  }

  /** The first group of an encoded text, and the rest. */
  function Front(s: seq<byte>): (f: seq<byte>)
    requires s != []
    ensures 1 <= |f| <= 3 && f <= s && (|f| < 3 ==> f == s)
  {
    if |s| <= 3 then s else s[..3]
  }

  lemma EncodeStarts(s: seq<byte>)
    requires s != []
    ensures Encode(s) == Group(Front(s)) + Encode(s[|Front(s)|..])
  {
    hide Group;
    if |s| <= 3 {
      assert s[|s|..] == [] && Group(s) + [] == Group(s);
    }
  }

  /** Decoding undoes encoding, for every byte string. */
  lemma {:induction false} DecodeUndoesEncode(s: seq<byte>)
    ensures Decode(Encode(s)) == s
    decreases |s|
  {
    hide Group, Ungroup, ValidGroup, Encode;
    if s != [] {
      var f, rest := Front(s), s[|Front(s)|..];
      EncodeStarts(s);
      UngroupUndoesGroup(f);
      assert Encode(s)[..4] == Group(f) && Encode(s)[4..] == Encode(rest);
      DecodeUndoesEncode(rest);
      assert f + rest == s;
    } else {
      EmptyText();
    }
  }

  lemma EmptyText()
    ensures Encode([]) == []
  {
  }

  lemma {:induction false} EncodeLength(s: seq<byte>)
    ensures |Encode(s)| == (|s| + 2) / 3 * 4
    decreases |s|
  {
    hide Group;
    if |s| > 3 {
      EncodeLength(s[3..]);
      assert (|s| + 2) / 3 == (|s[3..]| + 2) / 3 + 1;
    }
  }

  // ---- The decoder that is fed in pieces ----

  function Filter(s: seq<byte>): seq<byte>
  {
    if s == [] then [] else (if s[0] == CR || s[0] == LF then [] else [s[0]]) + Filter(s[1..])
  }

  /** What one call does: None for an invalid character, else the output and what is kept for the next call. */
  datatype Fed = Bad | Fed(out: seq<byte>, buf: seq<byte>)

  function Emit(out: seq<byte>, f: Fed): Fed
  {
    if f.Bad? then Bad else Fed(out + f.out, f.buf)
  }

  function Feed(buf: seq<byte>, s: seq<byte>): (f: Fed)
    requires |buf| <= 4 && IsCode(buf)
    ensures f.Fed? ==> |f.buf| <= 4 && IsCode(f.buf)
    decreases |s|, |buf|
  {
    if |buf| < 4 then
      if s == [] then Fed([], buf)
      else if s[0] == CR || s[0] == LF then Feed(buf, s[1..])
      else if s[0] != PAD && Val(s[0]) == -1 then Bad
      else Feed(buf + [s[0]], s[1..])
    else if buf[0] == PAD || buf[1] == PAD then Fed([], buf)
    else
      var out := Ungroup(buf);
      if |out| < 3 then Fed(out, []) else Emit(out, Feed([], s))
  }

  /** Calls one after another, as long as none fails. */
  function FeedAll(buf: seq<byte>, chunks: seq<seq<byte>>): Fed
    requires |buf| <= 4 && IsCode(buf)
    decreases |chunks|
  {
    if chunks == [] then Fed([], buf)
    else
      var f := Feed(buf, chunks[0]);
      if f.Bad? then Bad else Emit(f.out, FeedAll(f.buf, chunks[1..]))
  }

  lemma {:induction false} FilterAdds(a: seq<byte>, b: seq<byte>)
    ensures Filter(a + b) == Filter(a) + Filter(b)
    decreases |a|
  {
    if a == [] {
      assert a + b == b;
    } else {
      assert (a + b)[1..] == a[1..] + b;
      FilterAdds(a[1..], b);
    }
  }

  /** What waits, the rest of this piece, and all later pieces make the encoding of what is still to come out. */
  ghost predicate Expects(buf: seq<byte>, s: seq<byte>, later: seq<byte>, x: seq<byte>)
  {
    |buf| <= 4 && IsCode(buf) && buf + Filter(s) + later == Encode(x)
  }

  /** How one call divides the output: what it gives, and what the later calls will. */
  ghost predicate Divides(f: Fed, later: seq<byte>, x: seq<byte>)
  {
    f.Fed? && f.out <= x && |f.buf| < 4 && IsCode(f.buf) && f.buf + later == Encode(x[|f.out|..])
  }

  lemma {:induction false} EncodeIsCode(s: seq<byte>)
    ensures IsCode(Encode(s))
    decreases |s|
  {
    if s != [] {
      EncodeStarts(s);
      UngroupUndoesGroup(Front(s));
      EncodeIsCode(s[|Front(s)|..]);
      hide Encode, Group;
    }
  }

  /** A whole group waits. */
  lemma GroupWaits(buf: seq<byte>, rest: seq<byte>, x: seq<byte>)
    requires |buf| == 4 && buf + rest == Encode(x)
    ensures x != [] && buf == Group(Front(x)) && rest == Encode(x[|Front(x)|..])
  {
    hide Group;
    if x != [] {
      EncodeStarts(x);
      assert buf == (buf + rest)[..4] && rest == (buf + rest)[4..];
      assert Group(Front(x)) == Encode(x)[..4] && Encode(x[|Front(x)|..]) == Encode(x)[4..];
    }
  }

  lemma {:induction false} FeedDivides(buf: seq<byte>, s: seq<byte>, later: seq<byte>, x: seq<byte>)
    requires Expects(buf, s, later, x)
    ensures Divides(Feed(buf, s), later, x)
    decreases |s|, |buf|
  {
    hide Encode, Group, Ungroup, ValidGroup, Val;
    if |buf| < 4 {
      if s == [] {
        assert buf + Filter(s) + later == buf + later && x[0..] == x;
      } else if s[0] == CR || s[0] == LF {
        assert Filter(s) == Filter(s[1..]);
        FeedDivides(buf, s[1..], later, x);
      } else {
        EncodeIsCode(x);
        assert Filter(s) == [s[0]] + Filter(s[1..]);
        assert buf + Filter(s) + later == (buf + [s[0]]) + Filter(s[1..]) + later;
        assert Encode(x)[|buf|] == s[0];
        FeedDivides(buf + [s[0]], s[1..], later, x);
      }
    } else {
      assert buf + (Filter(s) + later) == Encode(x);
      GroupWaits(buf, Filter(s) + later, x);
      UngroupUndoesGroup(Front(x));
      EmptyText();
      if |Front(x)| == 3 {
        assert [] + Filter(s) + later == Filter(s) + later;
        FeedDivides([], s, later, x[3..]);
        EmitDivides(x, Feed([], s), later);
      } else {
        assert x[|x|..] == [];
      }
    }
  }

  lemma EmitDivides(x: seq<byte>, f: Fed, later: seq<byte>)
    requires |x| >= 3 && Divides(f, later, x[3..])
    ensures Divides(Emit(x[..3], f), later, x)
  {
    hide Encode, IsCode;
    assert x == x[..3] + x[3..];
    assert x[3..][|f.out|..] == x[3 + |f.out|..];
  }

  /**
   Text with line breaks anywhere, fed in pieces cut anywhere: no call fails, and the
   outputs put together are the original bytes, with nothing left over.
   */
  lemma {:induction false} StreamingDecodes(buf: seq<byte>, chunks: seq<seq<byte>>, x: seq<byte>)
    requires |buf| < 4 && IsCode(buf) && buf + Filter(Join(chunks)) == Encode(x)
    ensures FeedAll(buf, chunks) == Fed(x, [])
    decreases |chunks|
  {
    hide Encode, Feed, IsCode;
    if chunks == [] {
      assert buf + [] == buf;
      EncodeLength(x);
    } else {
      var later := Filter(Join(chunks[1..]));
      FilterAdds(chunks[0], Join(chunks[1..]));
      assert buf + (Filter(chunks[0]) + later) == buf + Filter(chunks[0]) + later;
      FeedDivides(buf, chunks[0], later, x);
      var f := Feed(buf, chunks[0]);
      StreamingDecodes(f.buf, chunks[1..], x[|f.out|..]);
      assert f.out + x[|f.out|..] == x;
    }
  }

  // ---- The code ----

  /** base64_encode */
  method EncodeText(text: seq<byte>) returns (out: seq<byte>)
    ensures out == Encode(text)
  {
    hide *;
    out := [];
    var inp := 0;
    assert text[0..] == text && [] + Encode(text) == Encode(text);
    while |text| - inp >= 3
      invariant 0 <= inp <= |text|
      invariant out + Encode(text[inp..]) == Encode(text)
      decreases |text| - inp
    {
      var a, b, c := text[inp], text[inp + 1], text[inp + 2];
      GroupTaken(text[inp..], out, Encode(text));
      ThreeBytes(text[inp..]);
      out := out + [Char(a / 4), Char(a % 4 * 16 + b / 16), Char(b % 16 * 4 + c / 64), Char(c % 64)];
      assert text[inp..][3..] == text[inp + 3..];
      inp := inp + 3;
    }
    LastGroup(text[inp..], out, Encode(text));
    if |text| - inp == 1 {
      out := out + [Char(text[inp] / 4), Char(text[inp] % 4 * 16), PAD, PAD];
    } else if |text| - inp == 2 {
      out := out + [Char(text[inp] / 4), Char(text[inp] % 4 * 16 + text[inp + 1] / 16), Char(text[inp + 1] % 16 * 4), PAD];
    }
  }

  lemma GroupTaken(s: seq<byte>, out: seq<byte>, whole: seq<byte>)
    requires |s| >= 3 && out + Encode(s) == whole
    ensures (out + Group(s[..3])) + Encode(s[3..]) == whole
  {
    hide *;
    EncodeStarts(s);
    FrontOfThree(s);
    var g, t := Group(s[..3]), Encode(s[3..]);
    assert Encode(s) == g + t;
    assert out + (g + t) == (out + g) + t;
  }

  lemma FrontOfThree(s: seq<byte>)
    requires |s| >= 3
    ensures Front(s) == s[..3]
  {
  }

  lemma ThreeBytes(s: seq<byte>)
    requires |s| >= 3
    ensures Group(s[..3]) == [Char(s[0] / 4), Char(s[0] % 4 * 16 + s[1] / 16), Char(s[1] % 16 * 4 + s[2] / 64), Char(s[2] % 64)]
  {
    hide Char;
  }

  lemma LastGroup(s: seq<byte>, out: seq<byte>, whole: seq<byte>)
    requires |s| < 3 && out + Encode(s) == whole
    ensures s == [] ==> out == whole
    ensures |s| == 1 ==> out + [Char(s[0] / 4), Char(s[0] % 4 * 16), PAD, PAD] == whole
    ensures |s| == 2 ==> out + [Char(s[0] / 4), Char(s[0] % 4 * 16 + s[1] / 16), Char(s[1] % 16 * 4), PAD] == whole
  {
    hide Char;
    if s == [] {
      assert out + [] == out;
    }
  }

  /** base64_decode, of the bytes within the given length. */
  method DecodeText(text: seq<byte>) returns (out: seq<byte>)
    ensures out == Decode(text)
  {
    hide Decode, ValidGroup, Ungroup;
    out := [];
    var inp := 0;
    assert text[0..] == text && [] + Decode(text) == Decode(text);
    while |text| - inp >= 4
      invariant 0 <= inp <= |text|
      invariant out + Decode(text[inp..]) == Decode(text)
      decreases |text| - inp
    {
      var buf := text[inp..inp + 4];
      DecodeUnrolls(text[inp..], out, Decode(text));
      assert text[inp..][..4] == buf && text[inp..][4..] == text[inp + 4..];
      if !ValidGroup(buf) {
        return;
      }
      out := PutGroup(buf, out);
      inp := inp + 4;
    }
    DecodeUnrolls(text[inp..], out, Decode(text));
  }

  /** The bytes of one group. */
  method PutGroup(buf: seq<byte>, out: seq<byte>) returns (out': seq<byte>)
    requires |buf| == 4 && ValidGroup(buf)
    ensures out' == out + Ungroup(buf)
  {
    hide Val;
    out' := out + [Val(buf[0]) * 4 + Val(buf[1]) / 16];
    if buf[2] != PAD {
      out' := out' + [Val(buf[1]) % 16 * 16 + Val(buf[2]) / 4];
      if buf[3] != PAD {
        out' := out' + [Val(buf[2]) % 4 * 64 + Val(buf[3])];
      }
    }
  }

  lemma DecodeUnrolls(s: seq<byte>, out: seq<byte>, whole: seq<byte>)
    requires out + Decode(s) == whole
    ensures if |s| < 4 || !ValidGroup(s[..4]) then out == whole else (out + Ungroup(s[..4])) + Decode(s[4..]) == whole
  {
    hide ValidGroup, Ungroup;
    if |s| < 4 || !ValidGroup(s[..4]) {
      assert out + [] == out;
    } else {
      assert out + (Ungroup(s[..4]) + Decode(s[4..])) == (out + Ungroup(s[..4])) + Decode(s[4..]);
    }
  }

  class Base64Decoder {
    const buf: array<byte>
    var bufLen: nat

    ghost predicate Valid()
      reads this, buf
    {
      buf.Length == 4 && bufLen <= 4 && IsCode(buf[..bufLen])
    }

    /** base64_decoder_new */
    constructor ()
      ensures Valid() && bufLen == 0 && fresh(buf)
    {
      buf := new byte[4](_ => NUL);
      bufLen := 0;
    }

    method Save(b: seq<byte>)
      requires buf.Length == 4 && |b| <= 4
      modifies this`bufLen, buf
      ensures bufLen == |b| && buf[..bufLen] == b
    {
      forall i | 0 <= i < |b| {
        buf[i] := b[i];
      }
      bufLen := |b|;
    }

    /** base64_decoder_decode; None stands for -1, and then nothing is kept of the call. */
    method Decode(text: seq<byte>) returns (out: Option<seq<byte>>)
      requires Valid()
      modifies this`bufLen, buf
      ensures Valid()
      ensures var f := Feed(old(buf[..bufLen]), text);
        if f.Bad? then out == None && buf[..] == old(buf[..]) && bufLen == old(bufLen)
        else out == Some(f.out) && buf[..bufLen] == f.buf
    {
      hide Feed, Ungroup, ValidGroup, IsCode, Emit;
      var b, total := buf[..bufLen], [];
      var i := 0;
      assert text[0..] == text;
      EmitNothing(Feed(b, text));
      ghost var f := Feed(b, text);
      while true
        invariant 0 <= i <= |text| && |b| <= 4 && IsCode(b)
        invariant Emit(total, Feed(b, text[i..])) == f
        invariant buf[..] == old(buf[..]) && bufLen == old(bufLen)
        decreases |text| - i, |b|
      {
        var bad;
        i, b, bad := FillGroup(text, i, b, total);
        if bad {
          BadStays(total);
          return None;
        }
        if |b| < 4 || b[0] == PAD || b[1] == PAD {
          FeedEnds(b, text[i..], total);
          Save(b);
          return Some(total);
        }
        CodeGroup(b);
        FeedGroup(b, text[i..], total);
        var bytes := DecodeText(b);
        total := total + bytes;
        if |bytes| < 3 {
          Save([]);
          return Some(total);
        }
        NoCode();
        b := [];
      }
    }

    /** The inner loop: characters until the group is complete, or the text ends, or one is invalid. */
    method FillGroup(text: seq<byte>, i: nat, b: seq<byte>, ghost total: seq<byte>) returns (i': nat, b': seq<byte>, bad: bool)
      requires i <= |text| && |b| <= 4 && IsCode(b)
      ensures i <= i' <= |text| && |b'| <= 4 && IsCode(b')
      ensures bad ==> Feed(b, text[i..]) == Bad
      ensures !bad ==> Feed(b, text[i..]) == Feed(b', text[i'..]) && (if |b'| < 4 then i' == |text| else |b| < 4 ==> i' > i)
    {
      hide Val, Ungroup, ValidGroup;
      i', b', bad := i, b, false;
      while |b'| < 4
        invariant i <= i' <= |text| && |b'| <= 4 && IsCode(b')
        invariant Feed(b, text[i..]) == Feed(b', text[i'..]) && |b'| - |b| <= i' - i
        decreases |text| - i'
      {
        if i' == |text| {
          return;
        }
        var c := text[i'];
        assert text[i'..][1..] == text[i' + 1..];
        i' := i' + 1;
        if c == CR || c == LF {
          continue;
        }
        if c != PAD && Val(c) == -1 {
          bad := true;
          return;
        }
        b' := b' + [c];
      }
    }
  }

  lemma EmitNothing(f: Fed)
    ensures Emit([], f) == f
  {
    assert f.Fed? ==> [] + f.out == f.out;
  }

  lemma BadStays(total: seq<byte>)
    ensures Emit(total, Bad) == Bad
  {
  }

  lemma FeedEnds(b: seq<byte>, s: seq<byte>, total: seq<byte>)
    requires |b| <= 4 && IsCode(b) && if |b| < 4 then s == [] else b[0] == PAD || b[1] == PAD
    ensures Emit(total, Feed(b, s)) == Fed(total, b)
  {
    assert total + [] == total;
  }

  lemma FeedGroup(b: seq<byte>, s: seq<byte>, total: seq<byte>)
    requires |b| == 4 && IsCode(b) && b[0] != PAD && b[1] != PAD && ValidGroup(b)
    ensures var out := Ungroup(b);
      IsCode([]) && Emit(total, Feed(b, s)) == if |out| < 3 then Fed(total + out, []) else Emit(total + out, Feed([], s))
  {
    hide Ungroup, ValidGroup;
    var f := Feed([], s);
    if f.Fed? {
      assert total + (Ungroup(b) + f.out) == total + Ungroup(b) + f.out;
    }
  }

  lemma CodeGroup(b: seq<byte>)
    requires |b| == 4 && IsCode(b) && b[0] != PAD && b[1] != PAD
    ensures ValidGroup(b) && Decode(b) == Ungroup(b)
  {
    assert b[..4] == b && b[4..] == [] && Decode([]) == [];
  }

  /** The text of one part fed to one decoder piece by piece. */
  method DecodePieces(chunks: seq<seq<byte>>, ghost s: seq<byte>) returns (out: seq<byte>)
    requires Filter(Join(chunks)) == Encode(s)
    ensures out == s
  {
    var decoder := new Base64Decoder();
    out := [];
    var i := 0;
    hide Feed, FeedAll, IsCode, Emit, Encode, Filter, Join;
    assert [] + Filter(Join(chunks)) == Filter(Join(chunks)) && chunks[0..] == chunks;
    NoCode();
    StreamingDecodes([], chunks, s);
    EmitNothing(FeedAll([], chunks));
    while i < |chunks|
      invariant 0 <= i <= |chunks| && decoder.Valid() && fresh(decoder) && fresh(decoder.buf)
      invariant Emit(out, FeedAll(decoder.buf[..decoder.bufLen], chunks[i..])) == Fed(s, [])
    {
      assert chunks[i..][0] == chunks[i] && chunks[i..][1..] == chunks[i + 1..];
      FeedFirst(decoder.buf[..decoder.bufLen], chunks[i..], out, Fed(s, []));
      var piece := decoder.Decode(chunks[i]);
      out := out + piece.value;
      i := i + 1;
    }
    AllFed(decoder.buf[..decoder.bufLen], chunks[i..], out, s);
  }

  lemma NoCode()
    ensures IsCode([])
  {
  }

  lemma FeedFirst(buf: seq<byte>, chunks: seq<seq<byte>>, out: seq<byte>, whole: Fed)
    requires |buf| <= 4 && IsCode(buf) && chunks != [] && whole.Fed?
    requires Emit(out, FeedAll(buf, chunks)) == whole
    ensures var f := Feed(buf, chunks[0]);
      f.Fed? && Emit(out + f.out, FeedAll(f.buf, chunks[1..])) == whole
  {
    hide Feed, IsCode;
    var f := Feed(buf, chunks[0]);
    var rest := FeedAll(f.buf, chunks[1..]);
    assert out + (f.out + rest.out) == (out + f.out) + rest.out;
  }

  lemma AllFed(buf: seq<byte>, chunks: seq<seq<byte>>, out: seq<byte>, s: seq<byte>)
    requires |buf| <= 4 && IsCode(buf) && chunks == [] && Emit(out, FeedAll(buf, chunks)) == Fed(s, [])
    ensures out == s
  {
    assert out + [] == out;
  }
}
