/** Bytes and NUL-terminated strings, shared by every other module. */
module Bytes {
  datatype Option<+T> = None | Some(value: T)

  type byte = x: int | 0 <= x < 256

  const NUL: byte := 0
  const TAB: byte := 9
  const LF: byte := 10
  const CR: byte := 13
  const SPACE: byte := 32
  const DOT: byte := 46
  const CRLF: seq<byte> := [CR, LF]

  /** Reading a C string at an offset: the terminating NUL sits just past the end. */
  function At(s: seq<byte>, i: nat): byte
  {
    if i < |s| then s[i] else NUL
  }

  predicate IsAscii(c: byte)
  {
    c < 128
  }

  predicate NulFree(s: seq<byte>)
  {
    forall i :: 0 <= i < |s| ==> s[i] != NUL
  }

  /** The part of a byte string a C string function sees. */
  function CString(s: seq<byte>): (r: seq<byte>)
    ensures r <= s && NulFree(r)
    ensures NulFree(s) ==> r == s
  {
    if s == [] || s[0] == NUL then [] else [s[0]] + CString(s[1..])
  }

  /** g_ascii_isspace: not the vertical tab. */
  predicate IsSpace(c: byte)
  {
    c == 9 || c == 10 || c == 12 || c == 13 || c == 32
  }

  function Join(ls: seq<seq<byte>>): seq<byte>
  {
    if ls == [] then [] else ls[0] + Join(ls[1..])
  }

  lemma {:induction false} JoinAdds(a: seq<seq<byte>>, b: seq<seq<byte>>)
    ensures Join(a + b) == Join(a) + Join(b)
  {
    if a == [] {
      assert a + b == b;
    } else {
      assert (a + b)[1..] == a[1..] + b;
      JoinAdds(a[1..], b);
      assert a[0] + (Join(a[1..]) + Join(b)) == (a[0] + Join(a[1..])) + Join(b);
    }
  }

  lemma JoinOne(l: seq<byte>)
    ensures Join([l]) == l
  {
    assert Join([l][1..]) == [];
  }

  lemma JoinNone(pieces: seq<seq<byte>>)
    ensures Join(pieces[..0]) == []
  {
  }

  /** The joined pieces up to and including the one at i. */
  lemma JoinNext(pieces: seq<seq<byte>>, i: nat)
    requires i < |pieces|
    ensures Join(pieces[..i + 1]) == Join(pieces[..i]) + pieces[i]
  {
    assert pieces[..i + 1] == pieces[..i] + [pieces[i]];
    JoinAdds(pieces[..i], [pieces[i]]);
    JoinOne(pieces[i]);
  }

  /** Where the first byte that is no space is, from i on. */
  function SkipSpaces(s: seq<byte>, i: nat): (n: nat)
    requires i <= |s|
    ensures i <= n <= |s|
    decreases |s| - i
  {
    if i == |s| || !IsSpace(s[i]) then i else SkipSpaces(s, i + 1)
  }

  /** g_strchomp */
  function Chomp(s: seq<byte>): (r: seq<byte>)
    ensures r <= s
  {
    if s != [] && IsSpace(s[|s| - 1]) then Chomp(s[..|s| - 1]) else s
  }

  /** g_strstrip */
  function Strip(s: seq<byte>): seq<byte>
  {
    Chomp(s[SkipSpaces(s, 0)..])
  }

  /** The length of the first line with its LF, or of everything when there is none. */
  function LineLength(s: seq<byte>): (n: nat)
    ensures n <= |s|
    ensures s != [] ==> n > 0
    ensures n < |s| ==> s[n - 1] == LF
    ensures forall i :: 0 <= i < n - 1 ==> s[i] != LF
  {
    if s == [] then 0
    else if s[0] == LF then 1
    else 1 + LineLength(s[1..])
  }

  lemma Assoc(a: seq<byte>, b: seq<byte>, c: seq<byte>)
    ensures a + (b + c) == (a + b) + c
  {
  }

  predicate EndsWith(s: seq<byte>, t: seq<byte>)
  {
    |t| <= |s| && s[|s| - |t|..] == t
  }
}
