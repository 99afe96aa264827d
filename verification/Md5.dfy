/**
 Incremental MD5 (RFC 1321) and HMAC-MD5 (RFC 2104), for a little-endian host, on which
 the byte reversal of md5.c does nothing.
 */
module Md5 {
  import opened Bytes
  import opened Md5Transform

  const TWO32 := 0x1_0000_0000
  const TWO64 := 0x1_0000_0000_0000_0000

  // ---- The digest of a whole message ----

  function Init(): Chain
  {
    Chain(0x67452301, 0xefcdab89, 0x98badcfe, 0x10325476)
  }

  function Word(s: seq<byte>): bv32
    requires |s| == 4
  {
    var b0: int, b1: int, b2: int, b3: int := s[0], s[1], s[2], s[3];
    (b0 + 0x100 * b1 + 0x1_0000 * b2 + 0x100_0000 * b3) as bv32
  }

  function Words(s: seq<byte>): (w: seq<bv32>)
    requires |s| % 4 == 0
    ensures |w| == |s| / 4
  {
    if s == [] then [] else [Word(s[..4])] + Words(s[4..])
  }

  function Block(v: Chain, s: seq<byte>): Chain
    requires |s| == 64
  {
    Transform(v, Words(s))
  }

  /** The chaining value after all complete blocks. */
  function Fold(v: Chain, s: seq<byte>): Chain
    decreases |s|
  {
    if |s| < 64 then v else Fold(Block(v, s[..64]), s[64..])
  }

  function Zeros(n: nat): (z: seq<byte>)
    ensures |z| == n
  {
    seq(n, _ => NUL)
  }

  /** A number below 2^32, low-order byte first. */
  function Bytes32(x: nat): (r: seq<byte>)
    requires x < TWO32
    ensures |r| == 4
  {
    [x % 0x100, x / 0x100 % 0x100, x / 0x1_0000 % 0x100, x / 0x100_0000]
  }

  function Bytes64(x: nat): (r: seq<byte>)
    requires x < TWO64
    ensures |r| == 8
  {
    Bytes32(x % TWO32) + Bytes32(x / TWO32)
  }

  /** Sections 3.1 and 3.2 of RFC 1321: one bit, zeros up to 56 bytes modulo 64, and the length in bits modulo 2^64. */
  function Padding(n: nat): (p: seq<byte>)
    ensures (n + |p|) % 64 == 0
  {
    var zeros := if n % 64 < 56 then 55 - n % 64 else 119 - n % 64;
    assert n + 1 + zeros + 8 == 64 * (n / 64 + if n % 64 < 56 then 1 else 2);
    [0x80 as byte] + Zeros(zeros) + Bytes64(8 * n % TWO64)
  }

  function WordBytes(w: bv32): (r: seq<byte>)
    ensures |r| == 4
  {
    Bytes32(w as int)
  }

  function Output(v: Chain): (r: seq<byte>)
    ensures |r| == 16
  {
    WordBytes(v.a) + WordBytes(v.b) + WordBytes(v.c) + WordBytes(v.d)
  }

  function Digest(s: seq<byte>): (r: seq<byte>)
    ensures |r| == 16
  {
    Output(Fold(Init(), s + Padding(|s|)))
  }

  lemma {:induction false} FoldAppends(v: Chain, a: seq<byte>, b: seq<byte>)
    requires |a| % 64 == 0
    ensures Fold(v, a + b) == Fold(Fold(v, a), b)
    decreases |a|
  {
    hide Block;
    if a == [] {
      assert a + b == b;
    } else {
      assert (a + b)[..64] == a[..64] && (a + b)[64..] == a[64..] + b;
      FoldAppends(Block(v, a[..64]), a[64..], b);
    }
  }

  lemma FoldOne(v: Chain, a: seq<byte>, b: seq<byte>)
    requires |a| % 64 == 0 && |b| == 64
    ensures Fold(v, a + b) == Block(Fold(v, a), b)
  {
    hide Block;
    FoldAppends(v, a, b);
    assert b[..64] == b;
  }

  // ---- The bit counter ----

  /** Two words that count 8 * n modulo 2^64. */
  ghost predicate CountsTo(lo: nat, hi: nat, n: nat)
  {
    lo < TWO32 && hi < TWO32 && lo + TWO32 * hi == 8 * n % TWO64
  }

  /** A 32-bit word. */
  function Wrap(x: nat): (w: nat)
    ensures w < TWO32
  {
    x % TWO32
  }

  /** The update of the counter with its carry. */
  lemma CounterAdds(lo: nat, hi: nat, n: nat, len: nat, lo': nat, hi': nat)
    requires CountsTo(lo, hi, n) && len < TWO32
    requires lo' == Wrap(lo + Wrap(8 * len))
    requires hi' == Wrap((if lo' < lo then Wrap(hi + 1) else hi) + len / 0x2000_0000)
    ensures CountsTo(lo', hi', n + len)
  {
    hide Wrap;
    var low, high := Wrap(8 * len), len / 0x2000_0000;
    var carry := if lo + low >= TWO32 then 1 else 0;
    LowWord(lo, low, carry, lo');
    Bits(len);
    var k := CarryInto(hi, carry, high, hi');
    Combine(lo, hi, n, len, low, high, carry, k, 8 * n / TWO64, lo', hi');
  }

  lemma Bits(len: nat)
    ensures 8 * len == Wrap(8 * len) + TWO32 * (len / 0x2000_0000)
  {
  }

  lemma LowWord(lo: nat, low: nat, carry: nat, lo': nat)
    requires lo < TWO32 && low < TWO32 && lo' == Wrap(lo + low) && carry == if lo + low >= TWO32 then 1 else 0
    ensures lo + low == lo' + TWO32 * carry && (lo' < lo <==> carry == 1)
  {
  }

  lemma Combine(lo: nat, hi: nat, n: nat, len: nat, low: nat, high: nat, carry: nat, k: nat, q: nat, lo': nat, hi': nat)
    requires 8 * n == TWO64 * q + (lo + TWO32 * hi) && 8 * len == low + TWO32 * high
    requires lo + low == lo' + TWO32 * carry && hi + carry + high == hi' + TWO32 * k
    requires lo' < TWO32 && hi' < TWO32
    ensures CountsTo(lo', hi', n + len)
  {
    Residue(8 * (n + len), q + k, lo' + TWO32 * hi');
  }

  lemma CarryInto(hi: nat, carry: nat, high: nat, hi': nat) returns (k: nat)
    requires carry <= 1 && hi < TWO32
    requires hi' == Wrap((if carry == 1 then Wrap(hi + 1) else hi) + high)
    ensures hi + carry + high == hi' + TWO32 * k
  {
    k := (hi + carry + high) / TWO32;
  }

  lemma Residue(x: nat, q: int, r: nat)
    requires r < TWO64 && x == TWO64 * q + r
    ensures x % TWO64 == r
  {
  }

  /** How many bytes wait in the buffer. */
  lemma CounterGivesRest(lo: nat, hi: nat, n: nat)
    requires CountsTo(lo, hi, n)
    ensures lo / 8 % 64 == n % 64
  {
    var q := 8 * n / TWO64;
    assert 8 * n == TWO64 * q + TWO32 * hi + lo;
    Eighth(lo / 8, 0x80_0000_0000_0000 * q + 0x80_0000 * hi, n, lo);
  }

  lemma Eighth(b: nat, m: nat, n: nat, lo: nat)
    requires 8 * n == 512 * m + lo && b == lo / 8
    ensures b % 64 == n % 64
  {
    assert n == 64 * m + b;
  }

  // ---- The padding, block by block ----

  lemma FoldRest(v: Chain, a: seq<byte>, b: seq<byte>)
    requires |a| % 64 == 0 && |b| < 64
    ensures Fold(v, a + b) == Fold(v, a)
  {
    hide Block;
    FoldAppends(v, a, b);
  }

  /** The bytes that wait for a complete block. */
  function Rest(d: seq<byte>): (r: seq<byte>)
    ensures |r| == |d| % 64
  {
    d[|d| - |d| % 64..]
  }

  function Whole(d: seq<byte>): (r: seq<byte>)
    ensures |r| % 64 == 0 && r + Rest(d) == d
  {
    d[..|d| - |d| % 64]
  }

  lemma FoldOfWhole(v: Chain, d: seq<byte>)
    ensures Fold(v, Whole(d)) == Fold(v, d)
  {
    hide Fold;
    FoldRest(v, Whole(d), Rest(d));
  }

  function LastBlock(start: seq<byte>, lo: nat, hi: nat): (r: seq<byte>)
    requires |start| <= 56 && lo < TWO32 && hi < TWO32
    ensures |r| == 64
  {
    start + Zeros(56 - |start|) + (Bytes32(lo) + Bytes32(hi))
  }

  lemma LengthBytes(lo: nat, hi: nat, n: nat)
    requires CountsTo(lo, hi, n)
    ensures Bytes64(8 * n % TWO64) == Bytes32(lo) + Bytes32(hi)
  {
    hide Bytes32;
    TwoWords(8 * n % TWO64, lo, hi);
  }

  lemma TwoWords(x: nat, lo: nat, hi: nat)
    requires lo < TWO32 && x == lo + TWO32 * hi
    ensures x % TWO32 == lo && x / TWO32 == hi
  {
  }

  lemma EndsInOneBlock(d: seq<byte>, lo: nat, hi: nat)
    requires CountsTo(lo, hi, |d|) && |d| % 64 < 56
    ensures Digest(d) == Output(Block(Fold(Init(), d), LastBlock(Rest(d) + [0x80], lo, hi)))
  {
    hide Block, Fold, Output, Init, Bytes64, Bytes32;
    var last := LastBlock(Rest(d) + [0x80], lo, hi);
    LengthBytes(lo, hi, |d|);
    assert d + Padding(|d|) == Whole(d) + last;
    FoldOne(Init(), Whole(d), last);
    FoldOfWhole(Init(), d);
  }

  lemma TwoBlockPadding(d: seq<byte>, lo: nat, hi: nat)
    requires CountsTo(lo, hi, |d|) && |d| % 64 >= 56
    ensures var first := Rest(d) + [0x80] + Zeros(63 - |d| % 64);
      d + Padding(|d|) == (Whole(d) + first) + LastBlock([], lo, hi) && |Whole(d) + first| % 64 == 0
  {
    hide Bytes64, Bytes32, Rest, Whole;
    var r := |d| % 64;
    LengthBytes(lo, hi, |d|);
    assert Padding(|d|) == [0x80] + Zeros(63 - r + 56) + (Bytes32(lo) + Bytes32(hi));
    SplitPadding(Whole(d), Rest(d), 63 - r, Bytes32(lo) + Bytes32(hi));
    ModAdd(|Whole(d)|, 64);
  }

  lemma EndsInTwoBlocks(d: seq<byte>, r: nat, lo: nat, hi: nat)
    requires CountsTo(lo, hi, |d|) && r == |d| % 64 >= 56
    ensures var first := (Rest(d) + [0x80]) + Zeros(64 - (r + 1));
      Digest(d) == Output(Block(Block(Fold(Init(), d), first), LastBlock([], lo, hi)))
  {
    hide Block, Fold, Output, Init, Bytes64, Bytes32, Rest, Whole, Padding, Zeros, LastBlock;
    var first, last := Rest(d) + [0x80] + Zeros(63 - |d| % 64), LastBlock([], lo, hi);
    TwoBlockPadding(d, lo, hi);
    FoldOne(Init(), Whole(d) + first, last);
    FoldOne(Init(), Whole(d), first);
    FoldOfWhole(Init(), d);
  }

  lemma ModAdd(n: nat, k: nat)
    requires n % 64 + k <= 64
    ensures (n + k) % 64 == if n % 64 + k == 64 then 0 else n % 64 + k
  {
    assert n + k == 64 * (n / 64) + (n % 64 + k);
  }

  lemma SplitPadding(whole: seq<byte>, rest: seq<byte>, zeros: nat, end: seq<byte>)
    ensures (whole + rest) + ([0x80 as byte] + Zeros(zeros + 56) + end)
         == (whole + (rest + [0x80] + Zeros(zeros))) + ([] + Zeros(56) + end)
  {
    assert Zeros(zeros + 56) == Zeros(zeros) + Zeros(56);
  }

  class MD5Context {
    var buf: Chain
    var lo: nat  // bits[0]
    var hi: nat  // bits[1]
    const block: array<byte>  // in
    ghost var data: seq<byte>

    /** The context stands for the bytes it has been given. */
    ghost predicate Valid()
      reads this, block
    {
      && block.Length == 64 && lo < TWO32 && hi < TWO32 && CountsTo(lo, hi, |data|)
      && buf == Fold(Init(), data) && block[..|data| % 64] == Rest(data)
    }

    /** MD5Init */
    constructor ()
      ensures Valid() && data == [] && fresh(block)
    {
      block := new byte[64];
      buf, lo, hi, data := Init(), 0, 0, [];
    }

    method Copy(at: nat, bytes: seq<byte>)
      requires at + |bytes| <= block.Length
      modifies block
      ensures block[..at + |bytes|] == old(block[..at]) + bytes
      ensures block[at + |bytes|..] == old(block[at + |bytes|..])
    {
      forall i | 0 <= i < |bytes| {
        block[at + i] := bytes[i];
      }
    }

    /** MD5Transform on the buffer. */
    method Absorb()
      requires block.Length == 64
      modifies this`buf
      ensures buf == Block(old(buf), block[..])
    {
      hide Transform;
      buf := MD5Transform(buf, Words(block[..]));
    }

    method Count(len: nat, ghost n: nat)
      requires len < TWO32 && lo < TWO32 && hi < TWO32 && CountsTo(lo, hi, n)
      modifies this`lo, this`hi
      ensures lo < TWO32 && hi < TWO32 && CountsTo(lo, hi, n + len)
    {
      hide CountsTo, Wrap;
      var t := lo;
      ghost var h := hi;
      lo := Wrap(t + Wrap(8 * len));
      if lo < t {
        hi := Wrap(hi + 1);
      }
      hi := Wrap(hi + len / 0x2000_0000);
      CounterAdds(t, h, n, len, lo, hi);
    }

    /** The leading bytes that complete the waiting block. */
    method FillUp(bytes: seq<byte>, ghost before: seq<byte>)
      requires block.Length == 64 && |before| % 64 + |bytes| == 64 && block[..|before| % 64] == Rest(before)
      requires buf == Fold(Init(), before)
      modifies this`buf, block
      ensures buf == Fold(Init(), before + bytes) && (|before| + |bytes|) % 64 == 0
    {
      hide Block, Fold, Init, Rest;
      Copy(64 - |bytes|, bytes);
      BlockFills(before, bytes);
      assert block[..64] == block[..];
      Absorb();
    }

    /** The complete blocks, and the rest into the buffer. */
    method TakeBlocks(bytes: seq<byte>, start: nat, ghost before: seq<byte>)
      requires block.Length == 64 && start <= |bytes| && (|before| + start) % 64 == 0
      requires buf == Fold(Init(), before + bytes[..start])
      modifies this`buf, block
      ensures buf == Fold(Init(), before + bytes) && block[..|before + bytes| % 64] == Rest(before + bytes)
    {
      hide Block, Fold, Init, Rest;
      var i := start;
      while |bytes| - i >= 64
        invariant i <= |bytes| && (|before| + i) % 64 == 0
        invariant buf == Fold(Init(), before + bytes[..i])
        decreases |bytes| - i
      {
        Copy(0, bytes[i..i + 64]);
        assert block[..64] == block[..] && block[..0] + bytes[i..i + 64] == bytes[i..i + 64];
        OneMoreBlock(before, bytes, i);
        Absorb();
        i := i + 64;
      }
      Copy(0, bytes[i..]);
      RestIs(before, bytes, i);
    }

    /** MD5Update: fill up the waiting block, take complete blocks, keep the rest. */
    method Update(bytes: seq<byte>)
      requires Valid() && |bytes| < TWO32
      modifies this, block
      ensures Valid() && data == old(data) + bytes
    {
      hide Fold, Init, Rest, CountsTo;
      ghost var before := data;
      CounterGivesRest(lo, hi, |data|);
      var t := lo / 8 % 64;
      Count(|bytes|, |data|);
      data := data + bytes;
      if t == 0 {
        assert before + bytes[..0] == before;
        TakeBlocks(bytes, 0, before);
      } else if |bytes| < 64 - t {
        Copy(t, bytes);
        RestGrows(before, bytes);
      } else {
        FillUp(bytes[..64 - t], before);
        TakeBlocks(bytes, 64 - t, before);
      }
    }

    /** Zeros after what is there, and the counter in the last 8 bytes. */
    method Close(ghost start: seq<byte>, len: nat)
      requires block.Length == 64 && |start| == len <= 56 && block[..len] == start && lo < TWO32 && hi < TWO32
      modifies block
      ensures block[..] == LastBlock(start, lo, hi)
    {
      hide Bytes32, Zeros;
      Copy(len, Zeros(56 - len));
      Copy(56, Bytes32(lo) + Bytes32(hi));
      assert block[..64] == block[..];
    }

    /** Zeros to the end of the block, which is taken. */
    method CloseFirst(ghost start: seq<byte>, len: nat)
      requires block.Length == 64 && |start| == len <= 64 && block[..len] == start
      modifies this`buf, block
      ensures buf == Block(old(buf), start + Zeros(64 - len))
    {
      hide Block, Zeros;
      Copy(len, Zeros(64 - len));
      assert block[..64] == block[..];
      Absorb();
    }

    /** A block with nothing but zeros and the counter. */
    method CloseLast()
      requires block.Length == 64 && lo < TWO32 && hi < TWO32
      modifies this`buf, block
      ensures buf == Block(old(buf), LastBlock([], lo, hi))
    {
      hide *;
      assert block[..0] == [];
      Close([], 0);
      Absorb();
    }

    /** The padding needs a second block. */
    method FinishInTwo(count: nat)
      requires Valid() && count == |data| % 64 >= 56
      modifies this`buf, block
      ensures Output(buf) == Digest(data)
    {
      hide Block, Fold, Init, Rest, CountsTo, Output, Digest, LastBlock, Zeros;
      ghost var start := Rest(data) + [0x80];
      Copy(count, [0x80]);
      assert block[..count + 1] == start;
      CloseFirst(start, count + 1);
      CloseLast();
      EndsInTwoBlocks(data, count, lo, hi);
    }

    /** The padding fits into the waiting block. */
    method FinishInOne(count: nat)
      requires Valid() && count == |data| % 64 < 56
      modifies this`buf, block
      ensures Output(buf) == Digest(data)
    {
      hide Block, Fold, Init, Rest, CountsTo, Output, Digest, LastBlock, Zeros;
      ghost var start := Rest(data) + [0x80];
      Copy(count, [0x80]);
      assert block[..count + 1] == start;
      Close(start, count + 1);
      Absorb();
      EndsInOneBlock(data, lo, hi);
    }

    /** MD5Final: the padding, the digest, and the context cleared. */
    method Final() returns (digest: seq<byte>)
      requires Valid()
      modifies this, block
      ensures digest == Digest(old(data))
      ensures buf == Chain(0, 0, 0, 0) && lo == hi == 0 && forall i :: 0 <= i < 64 ==> block[i] == NUL
    {
      hide Digest, Output, Block, Fold, Init, Rest, CountsTo;
      CounterGivesRest(lo, hi, |data|);
      var count := lo / 8 % 64;
      if 63 - count < 8 {
        FinishInTwo(count);
      } else {
        FinishInOne(count);
      }
      digest := Output(buf);
      buf, lo, hi := Chain(0, 0, 0, 0), 0, 0;
      forall i | 0 <= i < 64 {
        block[i] := NUL;
      }
    }
  }

  lemma RestOfSum(d: seq<byte>, more: seq<byte>)
    requires |d| % 64 + |more| < 64
    ensures Rest(d + more) == Rest(d) + more
  {
    ModAdd(|d|, |more|);
  }

  lemma RestGrows(d: seq<byte>, more: seq<byte>)
    requires |d| % 64 + |more| < 64
    ensures Rest(d + more) == Rest(d) + more && Fold(Init(), d + more) == Fold(Init(), d)
  {
    hide Block, Fold, Init, Rest, Whole;
    RestOfSum(d, more);
    assert d + more == Whole(d) + (Rest(d) + more);
    FoldRest(Init(), Whole(d), Rest(d) + more);
    FoldOfWhole(Init(), d);
  }

  lemma BlockFills(d: seq<byte>, more: seq<byte>)
    requires |d| % 64 + |more| == 64
    ensures (|d| + |more|) % 64 == 0
    ensures Fold(Init(), d + more) == Block(Fold(Init(), d), Rest(d) + more)
  {
    hide Block, Fold, Init, Rest, Whole;
    ModAdd(|d|, |more|);
    assert d + more == Whole(d) + (Rest(d) + more);
    FoldOne(Init(), Whole(d), Rest(d) + more);
    FoldOfWhole(Init(), d);
  }

  lemma OneMoreBlock(d: seq<byte>, bytes: seq<byte>, i: nat)
    requires i + 64 <= |bytes| && (|d| + i) % 64 == 0
    ensures Fold(Init(), d + bytes[..i + 64]) == Block(Fold(Init(), d + bytes[..i]), bytes[i..i + 64])
  {
    hide Block, Fold, Init;
    assert d + bytes[..i + 64] == (d + bytes[..i]) + bytes[i..i + 64];
    FoldOne(Init(), d + bytes[..i], bytes[i..i + 64]);
  }

  lemma RestIs(d: seq<byte>, bytes: seq<byte>, i: nat)
    requires i <= |bytes| < i + 64 && (|d| + i) % 64 == 0
    ensures Rest(d + bytes) == bytes[i..] && |d + bytes| % 64 == |bytes| - i
    ensures Fold(Init(), d + bytes) == Fold(Init(), d + bytes[..i])
  {
    hide Block, Fold, Init;
    ModAdd(|d| + i, |bytes| - i);
    assert d + bytes == (d + bytes[..i]) + bytes[i..];
    FoldRest(Init(), d + bytes[..i], bytes[i..]);
  }

  /** s_gnet_md5_new: the digest of one buffer. */
  method New(bytes: seq<byte>) returns (digest: seq<byte>)
    requires |bytes| < TWO32
    ensures digest == Digest(bytes)
  {
    hide Digest, Block, Fold, Init, Rest, CountsTo;
    var md5 := new MD5Context();
    md5.Update(bytes);
    assert [] + bytes == bytes;
    digest := md5.Final();
  }

  /** Any sequence of updates, of any lengths, gives the digest of the bytes put together. */
  method DigestInPieces(pieces: seq<seq<byte>>) returns (digest: seq<byte>)
    requires forall k :: 0 <= k < |pieces| ==> |pieces[k]| < TWO32
    ensures digest == Digest(Join(pieces))
  {
    hide Join, Digest, Block, Fold, Init, Rest, CountsTo;
    var md5 := new MD5Context();
    var i := 0;
    JoinNone(pieces);
    while i < |pieces|
      invariant 0 <= i <= |pieces| && fresh(md5) && fresh(md5.block)
      invariant md5.Valid() && md5.data == Join(pieces[..i])
    {
      JoinNext(pieces, i);
      md5.Update(pieces[i]);
      i := i + 1;
    }
    assert pieces[..i] == pieces;
    digest := md5.Final();
  }

  // ---- HMAC ----

  function Xor(a: byte, b: byte): byte
  {
    (a as bv8 ^ b as bv8) as int
  }

  function XorAll(s: seq<byte>, b: byte): (r: seq<byte>)
    ensures |r| == |s|
  {
    seq(|s|, i requires 0 <= i < |s| => Xor(s[i], b))
  }

  /** The key as one block: longer keys are hashed first, then zeros follow. */
  function KeyBlock(key: seq<byte>): (k: seq<byte>)
    ensures |k| == 64
  {
    var k := if |key| > 64 then Digest(key) else key;
    k + Zeros(64 - |k|)
  }

  /** Section 2 of RFC 2104: H(K XOR opad, H(K XOR ipad, text)). */
  function Hmac(key: seq<byte>, text: seq<byte>): seq<byte>
  {
    Digest(XorAll(KeyBlock(key), 0x5c) + Digest(XorAll(KeyBlock(key), 0x36) + text))
  }

  /** One pass: the pad, then the message, through one context. */
  method Pass(pad: array<byte>, message: seq<byte>) returns (digest: seq<byte>)
    requires pad.Length == 64 && |message| < TWO32
    ensures digest == Digest(pad[..] + message)
  {
    hide Digest, Block, Fold, Init, Rest, CountsTo;
    var md5 := new MD5Context();
    md5.Update(pad[..]);
    md5.Update(message);
    assert ([] + pad[..]) + message == pad[..] + message;
    digest := md5.Final();
  }

  method StoreKey(pad: array<byte>, key: seq<byte>)
    requires pad.Length == 64 && |key| < TWO32
    modifies pad
    ensures pad[..] == KeyBlock(key)
  {
    hide Digest;
    var k := key;
    if |key| > 64 {
      k := New(key);
    }
    forall i | 0 <= i < 64 {
      pad[i] := if i < |k| then k[i] else NUL;
    }
    assert pad[..] == k + Zeros(64 - |k|);
  }

  method XorPad(pad: array<byte>, b: byte, other: array<byte>, c: byte)
    requires pad.Length == other.Length == 64 && pad != other
    modifies pad, other
    ensures pad[..] == XorAll(old(pad[..]), b) && other[..] == XorAll(old(other[..]), c)
  {
    hide Xor;
    var i := 0;
    while i < 64
      invariant 0 <= i <= 64
      invariant forall k :: 0 <= k < i ==> pad[k] == Xor(old(pad[k]), b) && other[k] == Xor(old(other[k]), c)
      invariant forall k :: i <= k < 64 ==> pad[k] == old(pad[k]) && other[k] == old(other[k])
    {
      pad[i] := Xor(pad[i], b);
      other[i] := Xor(other[i], c);
      i := i + 1;
    }
  }

  /** md5_hmac_get, for keys and texts of any length an update takes. */
  method HmacGet(text: seq<byte>, key: seq<byte>) returns (digest: seq<byte>)
    requires |text| < TWO32 && |key| < TWO32
    ensures digest == Hmac(key, text)
  {
    hide Digest, KeyBlock, XorAll;
    var ipad, opad := new byte[64], new byte[64];
    StoreKey(ipad, key);
    StoreKey(opad, key);
    XorPad(ipad, 0x36, opad, 0x5c);
    var inner := Pass(ipad, text);
    digest := Pass(opad, inner);
  }
}
