/** Reading a file line by line with fgets and a buffer of BUFFSIZE bytes. */
module Fgets {
  import opened Bytes

  const BUFFSIZE: nat := 8192

  /** How much one fgets with a buffer of `size` bytes takes. */
  function FgetsLength(s: seq<byte>, size: nat): (n: nat)
    requires size >= 1
    ensures n <= |s| && n < size
    ensures s != [] && size >= 2 ==> n > 0
    decreases size
  {
    if s == [] || size == 1 then 0
    else if s[0] == LF then 1
    else 1 + FgetsLength(s[1..], size - 1)
  }

  /** What the calls of fgets give, as C strings: the lines, a long one in pieces. */
  function Lines(s: seq<byte>): (ls: seq<seq<byte>>)
    ensures s == [] <==> ls == []
    decreases |s|
  {
    if s == [] then [] else
      var n := FgetsLength(s, BUFFSIZE);
      [CString(s[..n])] + Lines(s[n..])
  }

  /** A line one fgets takes whole: its only LF at its end, and no NUL. */
  predicate IsLine(l: seq<byte>)
  {
    l != [] && l[|l| - 1] == LF && LF !in l[..|l| - 1] && NulFree(l) && |l| < BUFFSIZE
  }

  predicate AreLines(ls: seq<seq<byte>>)
  {
    forall i :: 0 <= i < |ls| ==> IsLine(ls[i])
  }

  /** What one fgets gives of a text without NUL: a whole line, or a full buffer without LF. */
  predicate IsChunk(l: seq<byte>)
  {
    && l != [] && NulFree(l) && |l| < BUFFSIZE && LF !in l[..|l| - 1]
    && (l[|l| - 1] == LF || |l| == BUFFSIZE - 1)
  }

  predicate AreChunks(ls: seq<seq<byte>>)
  {
    forall i :: 0 <= i < |ls| ==> IsChunk(ls[i])
  }

  lemma LinesAreChunks(ls: seq<seq<byte>>)
    requires AreLines(ls)
    ensures AreChunks(ls)
  {
    forall i | 0 <= i < |ls| ensures IsChunk(ls[i]) {
      assert IsLine(ls[i]);
    }
  }

  lemma {:induction false} FgetsTakesLine(text: seq<byte>, rest: seq<byte>, size: nat)
    requires LF !in text && |text| + 2 <= size
    ensures FgetsLength(text + [LF] + rest, size) == |text| + 1
  {
    if text == [] {
      assert (text + [LF] + rest)[0] == LF;
    } else {
      assert (text + [LF] + rest)[1..] == text[1..] + [LF] + rest;
      FgetsTakesLine(text[1..], rest, size - 1);
    }
  }

  /** Without an LF within its reach fgets fills its buffer. */
  lemma {:induction false} NoLineEnd(src: seq<byte>, size: nat)
    requires size >= 1 && |src| >= size && LF !in src[..size - 1]
    ensures FgetsLength(src, size) == size - 1
  {
    if size > 1 {
      assert src[0] == src[..size - 1][0];
      assert src[1..][..size - 2] == src[..size - 1][1..];
      NoLineEnd(src[1..], size - 1);
    }
  }

  /** A text without LF that fits is taken whole. */
  lemma {:induction false} WholeText(text: seq<byte>, size: nat)
    requires size >= 1 && LF !in text && |text| + 1 <= size
    ensures FgetsLength(text, size) == |text|
  {
    if text != [] {
      WholeText(text[1..], size - 1);
    }
  }

  lemma ChunkIsTaken(l: seq<byte>, rest: seq<byte>)
    requires IsChunk(l)
    ensures FgetsLength(l + rest, BUFFSIZE) == |l|
  {
    if l[|l| - 1] == LF {
      var text := l[..|l| - 1];
      assert l == text + [LF];
      FgetsTakesLine(text, rest, BUFFSIZE);
    } else {
      OpenChunkIsTaken(l, rest);
    }
  }

  lemma OpenChunkIsTaken(l: seq<byte>, rest: seq<byte>)
    requires |l| == BUFFSIZE - 1 && LF !in l[..|l| - 1] && l[|l| - 1] != LF
    ensures FgetsLength(l + rest, BUFFSIZE) == |l|
  {
    assert forall i :: 0 <= i < |l| ==> l[i] == if i < |l| - 1 then l[..|l| - 1][i] else l[|l| - 1];
    assert LF !in l;
    if rest == [] {
      assert l + rest == l;
      WholeText(l, BUFFSIZE);
    } else {
      assert (l + rest)[..BUFFSIZE - 1] == l;
      NoLineEnd(l + rest, BUFFSIZE);
    }
  }

  /** The end of a text whose last line is not ended. */
  predicate IsRest(l: seq<byte>)
  {
    l != [] && NulFree(l) && |l| < BUFFSIZE - 1 && LF !in l
  }

  lemma {:induction false} FgetsTakes(s: seq<byte>, size: nat)
    requires s != [] && size >= 2
    ensures var n := FgetsLength(s, size);
      && n > 0 && LF !in s[..n - 1]
      && (s[n - 1] == LF || (LF !in s[..n] && (n == size - 1 || n == |s|)))
  {
    if s[0] != LF && size > 2 && |s| > 1 {
      FgetsTakes(s[1..], size - 1);
      var n := FgetsLength(s, size);
      assert s[..n] == [s[0]] + s[1..][..n - 1];
      assert s[..n - 1] == [s[0]] + s[1..][..n - 2];
    } else if s[0] != LF {
      assert size == 2 || s[1..] == [];
      assert FgetsLength(s, size) == 1;
    }
  }

  /** What is read from a text without NUL: chunks, and after them at most one line that is not ended. */
  lemma {:induction false} LinesOfText(s: seq<byte>)
    requires NulFree(s)
    ensures var ls := Lines(s);
      forall i :: 0 <= i < |ls| ==> IsChunk(ls[i]) || (i == |ls| - 1 && IsRest(ls[i]))
    decreases |s|
  {
    hide FgetsLength, CString, Lines, IsChunk, IsRest;
    if s != [] {
      var n := FgetsLength(s, BUFFSIZE);
      LinesStep(s, n);
      FirstOfText(s, n);
      LinesOfText(s[n..]);
      var more := Lines(s[n..]);
      assert forall i :: 1 <= i < |Lines(s)| ==> Lines(s)[i] == more[i - 1];
    }
  }

  lemma FirstOfText(s: seq<byte>, n: nat)
    requires s != [] && NulFree(s) && n == FgetsLength(s, BUFFSIZE)
    ensures CString(s[..n]) == s[..n] && (IsChunk(s[..n]) || (s[n..] == [] && IsRest(s[..n])))
  {
    hide FgetsLength, CString, IsChunk, IsRest;
    FgetsTakes(s, BUFFSIZE);
    var l := s[..n];
    assert l[..n - 1] == s[..n - 1] && l[n - 1] == s[n - 1];
    TakenIsPiece(l, n == |s|);
  }

  lemma TakenIsPiece(l: seq<byte>, all: bool)
    requires l != [] && NulFree(l) && |l| < BUFFSIZE && LF !in l[..|l| - 1]
    requires l[|l| - 1] == LF || (LF !in l && (|l| == BUFFSIZE - 1 || all))
    ensures IsChunk(l) || (all && IsRest(l))
  {
  }

  /** The lines of a text make up the text again. */
  lemma {:induction false} JoinOfLines(s: seq<byte>)
    requires NulFree(s)
    ensures Join(Lines(s)) == s
    decreases |s|
  {
    hide FgetsLength, CString, Lines;
    if s != [] {
      var n := FgetsLength(s, BUFFSIZE);
      LinesStep(s, n);
      JoinOfLines(s[n..]);
      assert Lines(s)[1..] == Lines(s[n..]);
      assert s == s[..n] + s[n..];
    }
  }

  /** Chunks written one after the other are read back as they are, whatever follows. */
  lemma {:induction false} ChunksBefore(ls: seq<seq<byte>>, rest: seq<byte>)
    requires AreChunks(ls)
    ensures Lines(Join(ls) + rest) == ls + Lines(rest)
    decreases |ls|
  {
    hide FgetsLength, CString, Lines, IsChunk;
    if ls == [] {
      assert Join(ls) + rest == rest && ls + Lines(rest) == Lines(rest);
    } else {
      var l, more := ls[0], Join(ls[1..]) + rest;
      ChunkIsTaken(l, more);
      ChunkIsSome(l);
      ChunksBefore(ls[1..], rest);
      hide Join;
      var s := l + more;
      assert s[..|l|] == l && s[|l|..] == more;
      LinesStep(s, |l|);
      assert ls + Lines(rest) == [l] + (ls[1..] + Lines(rest));
      assert Join(ls) + rest == s by {
        JoinFirst(ls);
      }
    }
  }

  lemma ChunkIsSome(l: seq<byte>)
    requires IsChunk(l)
    ensures l != [] && NulFree(l)
  {
  }

  lemma LinesBefore(ls: seq<seq<byte>>, rest: seq<byte>)
    requires AreLines(ls)
    ensures Lines(Join(ls) + rest) == ls + Lines(rest)
  {
    LinesAreChunks(ls);
    ChunksBefore(ls, rest);
  }

  lemma JoinFirst(ls: seq<seq<byte>>)
    requires ls != []
    ensures Join(ls) == ls[0] + Join(ls[1..])
  {
  }

  lemma ChunksOfJoin(ls: seq<seq<byte>>)
    requires AreChunks(ls)
    ensures Lines(Join(ls)) == ls
  {
    ChunksBefore(ls, []);
    assert Join(ls) + [] == Join(ls) && ls + [] == ls;
  }

  lemma LinesStep(s: seq<byte>, n: nat)
    requires s != [] && n == FgetsLength(s, BUFFSIZE)
    ensures Lines(s) == [CString(s[..n])] + Lines(s[n..])
  {
  }

  /** The loop of calls of fgets. */
  method ReadLines(s: seq<byte>) returns (ls: seq<seq<byte>>)
    ensures ls == Lines(s)
  {
    ls := [];
    var rest := s;
    while rest != []
      invariant ls + Lines(rest) == Lines(s)
      decreases |rest|
    {
      var n := FgetsLength(rest, BUFFSIZE);
      hide FgetsLength, CString, Lines;
      LinesStep(rest, n);
      assert ls + ([CString(rest[..n])] + Lines(rest[n..])) == (ls + [CString(rest[..n])]) + Lines(rest[n..]);
      ls := ls + [CString(rest[..n])];
      rest := rest[n..];
    }
  }
}
