/** The four core functions of MD5, section 3.4 of RFC 1321. */
module Md5Functions {
  function F(x: bv32, y: bv32, z: bv32): bv32
  {
    (x & y) | (!x & z)
  }

  function G(x: bv32, y: bv32, z: bv32): bv32
  {
    (x & z) | (y & !z)
  }

  function H(x: bv32, y: bv32, z: bv32): bv32
  {
    x ^ y ^ z
  }

  function I(x: bv32, y: bv32, z: bv32): bv32
  {
    y ^ (x | !z)
  }

  /** The macros F1 and F2 save an operation; F3 and F4 are written as H and I. */
  function F1(x: bv32, y: bv32, z: bv32): bv32
  {
    z ^ (x & (y ^ z))
  }

  function F2(x: bv32, y: bv32, z: bv32): bv32
  {
    F1(z, x, y)
  }

  lemma F1IsF(x: bv32, y: bv32, z: bv32)
    ensures F1(x, y, z) == F(x, y, z)
  {
    Choose(x, y, z);
  }

  lemma F2IsG(x: bv32, y: bv32, z: bv32)
    ensures F2(x, y, z) == G(x, y, z)
  {
    Choose(z, x, y);
  }

  /** Bit by bit, y where x is set and z elsewhere. */
  lemma Choose(x: bv32, y: bv32, z: bv32)
    ensures z ^ (x & (y ^ z)) == (x & y) | (!x & z)
  {
  }
}

/** The 64 steps of MD5. */
module Md5Transform {
  import opened Md5Functions

  datatype Chain = Chain(a: bv32, b: bv32, c: bv32, d: bv32)

  // ---- The operations in table form ----

  /** The element of the table T for operation i, counted from 0. */
  function T(i: nat): bv32
    requires i < 64
  {
    if i < 16 then T1(i) else if i < 32 then T2(i - 16) else if i < 48 then T3(i - 32) else T4(i - 48)
  }

  function T1(i: nat): bv32
    requires i < 16
  {
    match i
    case 0 => 0xd76aa478
    case 1 => 0xe8c7b756
    case 2 => 0x242070db
    case 3 => 0xc1bdceee
    case 4 => 0xf57c0faf
    case 5 => 0x4787c62a
    case 6 => 0xa8304613
    case 7 => 0xfd469501
    case 8 => 0x698098d8
    case 9 => 0x8b44f7af
    case 10 => 0xffff5bb1
    case 11 => 0x895cd7be
    case 12 => 0x6b901122
    case 13 => 0xfd987193
    case 14 => 0xa679438e
    case _ => 0x49b40821
  }

  function T2(i: nat): bv32
    requires i < 16
  {
    match i
    case 0 => 0xf61e2562
    case 1 => 0xc040b340
    case 2 => 0x265e5a51
    case 3 => 0xe9b6c7aa
    case 4 => 0xd62f105d
    case 5 => 0x02441453
    case 6 => 0xd8a1e681
    case 7 => 0xe7d3fbc8
    case 8 => 0x21e1cde6
    case 9 => 0xc33707d6
    case 10 => 0xf4d50d87
    case 11 => 0x455a14ed
    case 12 => 0xa9e3e905
    case 13 => 0xfcefa3f8
    case 14 => 0x676f02d9
    case _ => 0x8d2a4c8a
  }

  function T3(i: nat): bv32
    requires i < 16
  {
    match i
    case 0 => 0xfffa3942
    case 1 => 0x8771f681
    case 2 => 0x6d9d6122
    case 3 => 0xfde5380c
    case 4 => 0xa4beea44
    case 5 => 0x4bdecfa9
    case 6 => 0xf6bb4b60
    case 7 => 0xbebfbc70
    case 8 => 0x289b7ec6
    case 9 => 0xeaa127fa
    case 10 => 0xd4ef3085
    case 11 => 0x04881d05
    case 12 => 0xd9d4d039
    case 13 => 0xe6db99e5
    case 14 => 0x1fa27cf8
    case _ => 0xc4ac5665
  }

  function T4(i: nat): bv32
    requires i < 16
  {
    match i
    case 0 => 0xf4292244
    case 1 => 0x432aff97
    case 2 => 0xab9423a7
    case 3 => 0xfc93a039
    case 4 => 0x655b59c3
    case 5 => 0x8f0ccc92
    case 6 => 0xffeff47d
    case 7 => 0x85845dd1
    case 8 => 0x6fa87e4f
    case 9 => 0xfe2ce6e0
    case 10 => 0xa3014314
    case 11 => 0x4e0811a1
    case 12 => 0xf7537e82
    case 13 => 0xbd3af235
    case 14 => 0x2ad7d2bb
    case _ => 0xeb86d391
  }

  /** Which word of the block operation i uses. */
  function K(i: nat): (k: nat)
    requires i < 64
    ensures k < 16
  {
    if i < 16 then i
    else if i < 32 then (1 + 5 * i) % 16
    else if i < 48 then (5 + 3 * i) % 16
    else 7 * i % 16
  }

  /** How far operation i rotates. */
  function Turn(i: nat): (s: bv32)
    requires i < 64
    ensures 0 < s < 32
  {
    if i < 16 then Pick(i, 7, 12, 17, 22)
    else if i < 32 then Pick(i, 5, 9, 14, 20)
    else if i < 48 then Pick(i, 4, 11, 16, 23)
    else Pick(i, 6, 10, 15, 21)
  }

  /** The rotations of a round come round every four operations. */
  function Pick(i: nat, s0: bv32, s1: bv32, s2: bv32, s3: bv32): bv32
  {
    var j := i % 4;
    if j == 0 then s0 else if j == 1 then s1 else if j == 2 then s2 else s3
  }

  function Mix(i: nat, x: bv32, y: bv32, z: bv32): bv32
    requires i < 64
  {
    if i < 16 then F(x, y, z) else if i < 32 then G(x, y, z) else if i < 48 then H(x, y, z) else I(x, y, z)
  }

  function Add(x: bv32, y: bv32): bv32
  {
    x + y
  }

  /** The macro MD5STEP, given the value of its function. */
  function Step(f: bv32, w: bv32, x: bv32, data: bv32, s: bv32): bv32
    requires 0 < s < 32
  {
    var w' := w + (f + data);
    ((w' << s) | (w' >> (32 - s))) + x
  }

  /** The operation [abcd k s i] of the standard. */
  function Operation(i: nat, words: seq<bv32>, w: bv32, x: bv32, y: bv32, z: bv32): bv32
    requires i < 64 && |words| == 16
  {
    Step(Mix(i, x, y, z), w, x, Add(words[K(i)], T(i)), Turn(i))
  }

  /** Operations i to 63, the registers moving on by one each time. */
  function Operations(v: Chain, words: seq<bv32>, i: nat): Chain
    requires i <= 64 && |words| == 16
    decreases 64 - i
  {
    if i == 64 then v
    else Operations(Chain(v.d, Operation(i, words, v.a, v.b, v.c, v.d), v.b, v.c), words, i + 1)
  }

  function AddChains(v: Chain, r: Chain): Chain
  {
    Chain(v.a + r.a, v.b + r.b, v.c + r.c, v.d + r.d)
  }

  /** What one block of 16 words does to the chaining value. */
  function Transform(v: Chain, words: seq<bv32>): Chain
    requires |words| == 16
  {
    AddChains(v, Operations(v, words, 0))
  }

  // ---- The code ----

  /** Four operations, the registers back in place. */
  lemma FourOperations(v: Chain, words: seq<bv32>, i: nat)
    requires i <= 60 && |words| == 16
    ensures var a := Operation(i, words, v.a, v.b, v.c, v.d);
      var d := Operation(i + 1, words, v.d, a, v.b, v.c);
      var c := Operation(i + 2, words, v.c, d, a, v.b);
      var b := Operation(i + 3, words, v.b, c, d, a);
      Operations(v, words, i) == Operations(Chain(a, b, c, d), words, i + 4)
  {
    hide Operation;
    var a := Operation(i, words, v.a, v.b, v.c, v.d);
    var d := Operation(i + 1, words, v.d, a, v.b, v.c);
    var c := Operation(i + 2, words, v.c, d, a, v.b);
    var b := Operation(i + 3, words, v.b, c, d, a);
    assert Operations(v, words, i) == Operations(Chain(v.d, a, v.b, v.c), words, i + 1);
    assert Operations(Chain(v.d, a, v.b, v.c), words, i + 1) == Operations(Chain(v.c, d, a, v.b), words, i + 2);
    assert Operations(Chain(v.c, d, a, v.b), words, i + 2) == Operations(Chain(v.b, c, d, a), words, i + 3);
  }

  /** The macro MD5STEP with F1, as operation i. */
  method StepF(ghost i: nat, words: seq<bv32>, w: bv32, x: bv32, y: bv32, z: bv32, k: nat, t: bv32, s: bv32) returns (r: bv32)
    requires |words| == 16 && 0 <= i < 16
    requires k == i && t == T1(i - 0) && s == Pick(i, 7, 12, 17, 22)
    ensures r == Operation(i, words, w, x, y, z)
  {
    hide Step, Add, F, F1;
    F1IsF(x, y, z);
    r := Step(F1(x, y, z), w, x, Add(words[k], t), s);
  }

  /** The macro MD5STEP with F2, as operation i. */
  method StepG(ghost i: nat, words: seq<bv32>, w: bv32, x: bv32, y: bv32, z: bv32, k: nat, t: bv32, s: bv32) returns (r: bv32)
    requires |words| == 16 && 16 <= i < 32
    requires k == (1 + 5 * i) % 16 && t == T2(i - 16) && s == Pick(i, 5, 9, 14, 20)
    ensures r == Operation(i, words, w, x, y, z)
  {
    hide Step, Add, G, F2;
    F2IsG(x, y, z);
    r := Step(F2(x, y, z), w, x, Add(words[k], t), s);
  }

  /** The macro MD5STEP with F3, as operation i. */
  method StepH(ghost i: nat, words: seq<bv32>, w: bv32, x: bv32, y: bv32, z: bv32, k: nat, t: bv32, s: bv32) returns (r: bv32)
    requires |words| == 16 && 32 <= i < 48
    requires k == (5 + 3 * i) % 16 && t == T3(i - 32) && s == Pick(i, 4, 11, 16, 23)
    ensures r == Operation(i, words, w, x, y, z)
  {
    hide Step, Add, H;
    r := Step(H(x, y, z), w, x, Add(words[k], t), s);
  }

  /** The macro MD5STEP with F4, as operation i. */
  method StepI(ghost i: nat, words: seq<bv32>, w: bv32, x: bv32, y: bv32, z: bv32, k: nat, t: bv32, s: bv32) returns (r: bv32)
    requires |words| == 16 && 48 <= i < 64
    requires k == 7 * i % 16 && t == T4(i - 48) && s == Pick(i, 6, 10, 15, 21)
    ensures r == Operation(i, words, w, x, y, z)
  {
    hide Step, Add, I;
    r := Step(I(x, y, z), w, x, Add(words[k], t), s);
  }

  method FirstHalfOf1(v: Chain, words: seq<bv32>) returns (r: Chain)
    requires |words| == 16
    ensures Operations(v, words, 0) == Operations(r, words, 8)
  {
    hide Operation, Operations, K, T, Turn;
    var a, b, c, d := v.a, v.b, v.c, v.d;
    FourOperations(Chain(a, b, c, d), words, 0);
    a := StepF(0, words, a, b, c, d, 0, 0xd76aa478, 7);
    d := StepF(1, words, d, a, b, c, 1, 0xe8c7b756, 12);
    c := StepF(2, words, c, d, a, b, 2, 0x242070db, 17);
    b := StepF(3, words, b, c, d, a, 3, 0xc1bdceee, 22);
    FourOperations(Chain(a, b, c, d), words, 4);
    a := StepF(4, words, a, b, c, d, 4, 0xf57c0faf, 7);
    d := StepF(5, words, d, a, b, c, 5, 0x4787c62a, 12);
    c := StepF(6, words, c, d, a, b, 6, 0xa8304613, 17);
    b := StepF(7, words, b, c, d, a, 7, 0xfd469501, 22);
    r := Chain(a, b, c, d);
  }

  method SecondHalfOf1(v: Chain, words: seq<bv32>) returns (r: Chain)
    requires |words| == 16
    ensures Operations(v, words, 8) == Operations(r, words, 16)
  {
    hide Operation, Operations, K, T, Turn;
    var a, b, c, d := v.a, v.b, v.c, v.d;
    FourOperations(Chain(a, b, c, d), words, 8);
    a := StepF(8, words, a, b, c, d, 8, 0x698098d8, 7);
    d := StepF(9, words, d, a, b, c, 9, 0x8b44f7af, 12);
    c := StepF(10, words, c, d, a, b, 10, 0xffff5bb1, 17);
    b := StepF(11, words, b, c, d, a, 11, 0x895cd7be, 22);
    FourOperations(Chain(a, b, c, d), words, 12);
    a := StepF(12, words, a, b, c, d, 12, 0x6b901122, 7);
    d := StepF(13, words, d, a, b, c, 13, 0xfd987193, 12);
    c := StepF(14, words, c, d, a, b, 14, 0xa679438e, 17);
    b := StepF(15, words, b, c, d, a, 15, 0x49b40821, 22);
    r := Chain(a, b, c, d);
  }

  method FirstHalfOf2(v: Chain, words: seq<bv32>) returns (r: Chain)
    requires |words| == 16
    ensures Operations(v, words, 16) == Operations(r, words, 24)
  {
    hide Operation, Operations, K, T, Turn;
    var a, b, c, d := v.a, v.b, v.c, v.d;
    FourOperations(Chain(a, b, c, d), words, 16);
    a := StepG(16, words, a, b, c, d, 1, 0xf61e2562, 5);
    d := StepG(17, words, d, a, b, c, 6, 0xc040b340, 9);
    c := StepG(18, words, c, d, a, b, 11, 0x265e5a51, 14);
    b := StepG(19, words, b, c, d, a, 0, 0xe9b6c7aa, 20);
    FourOperations(Chain(a, b, c, d), words, 20);
    a := StepG(20, words, a, b, c, d, 5, 0xd62f105d, 5);
    d := StepG(21, words, d, a, b, c, 10, 0x02441453, 9);
    c := StepG(22, words, c, d, a, b, 15, 0xd8a1e681, 14);
    b := StepG(23, words, b, c, d, a, 4, 0xe7d3fbc8, 20);
    r := Chain(a, b, c, d);
  }

  method SecondHalfOf2(v: Chain, words: seq<bv32>) returns (r: Chain)
    requires |words| == 16
    ensures Operations(v, words, 24) == Operations(r, words, 32)
  {
    hide Operation, Operations, K, T, Turn;
    var a, b, c, d := v.a, v.b, v.c, v.d;
    FourOperations(Chain(a, b, c, d), words, 24);
    a := StepG(24, words, a, b, c, d, 9, 0x21e1cde6, 5);
    d := StepG(25, words, d, a, b, c, 14, 0xc33707d6, 9);
    c := StepG(26, words, c, d, a, b, 3, 0xf4d50d87, 14);
    b := StepG(27, words, b, c, d, a, 8, 0x455a14ed, 20);
    FourOperations(Chain(a, b, c, d), words, 28);
    a := StepG(28, words, a, b, c, d, 13, 0xa9e3e905, 5);
    d := StepG(29, words, d, a, b, c, 2, 0xfcefa3f8, 9);
    c := StepG(30, words, c, d, a, b, 7, 0x676f02d9, 14);
    b := StepG(31, words, b, c, d, a, 12, 0x8d2a4c8a, 20);
    r := Chain(a, b, c, d);
  }

  method FirstHalfOf3(v: Chain, words: seq<bv32>) returns (r: Chain)
    requires |words| == 16
    ensures Operations(v, words, 32) == Operations(r, words, 40)
  {
    hide Operation, Operations, K, T, Turn;
    var a, b, c, d := v.a, v.b, v.c, v.d;
    FourOperations(Chain(a, b, c, d), words, 32);
    a := StepH(32, words, a, b, c, d, 5, 0xfffa3942, 4);
    d := StepH(33, words, d, a, b, c, 8, 0x8771f681, 11);
    c := StepH(34, words, c, d, a, b, 11, 0x6d9d6122, 16);
    b := StepH(35, words, b, c, d, a, 14, 0xfde5380c, 23);
    FourOperations(Chain(a, b, c, d), words, 36);
    a := StepH(36, words, a, b, c, d, 1, 0xa4beea44, 4);
    d := StepH(37, words, d, a, b, c, 4, 0x4bdecfa9, 11);
    c := StepH(38, words, c, d, a, b, 7, 0xf6bb4b60, 16);
    b := StepH(39, words, b, c, d, a, 10, 0xbebfbc70, 23);
    r := Chain(a, b, c, d);
  }

  method SecondHalfOf3(v: Chain, words: seq<bv32>) returns (r: Chain)
    requires |words| == 16
    ensures Operations(v, words, 40) == Operations(r, words, 48)
  {
    hide Operation, Operations, K, T, Turn;
    var a, b, c, d := v.a, v.b, v.c, v.d;
    FourOperations(Chain(a, b, c, d), words, 40);
    a := StepH(40, words, a, b, c, d, 13, 0x289b7ec6, 4);
    d := StepH(41, words, d, a, b, c, 0, 0xeaa127fa, 11);
    c := StepH(42, words, c, d, a, b, 3, 0xd4ef3085, 16);
    b := StepH(43, words, b, c, d, a, 6, 0x04881d05, 23);
    FourOperations(Chain(a, b, c, d), words, 44);
    a := StepH(44, words, a, b, c, d, 9, 0xd9d4d039, 4);
    d := StepH(45, words, d, a, b, c, 12, 0xe6db99e5, 11);
    c := StepH(46, words, c, d, a, b, 15, 0x1fa27cf8, 16);
    b := StepH(47, words, b, c, d, a, 2, 0xc4ac5665, 23);
    r := Chain(a, b, c, d);
  }

  method FirstHalfOf4(v: Chain, words: seq<bv32>) returns (r: Chain)
    requires |words| == 16
    ensures Operations(v, words, 48) == Operations(r, words, 56)
  {
    hide Operation, Operations, K, T, Turn;
    var a, b, c, d := v.a, v.b, v.c, v.d;
    FourOperations(Chain(a, b, c, d), words, 48);
    a := StepI(48, words, a, b, c, d, 0, 0xf4292244, 6);
    d := StepI(49, words, d, a, b, c, 7, 0x432aff97, 10);
    c := StepI(50, words, c, d, a, b, 14, 0xab9423a7, 15);
    b := StepI(51, words, b, c, d, a, 5, 0xfc93a039, 21);
    FourOperations(Chain(a, b, c, d), words, 52);
    a := StepI(52, words, a, b, c, d, 12, 0x655b59c3, 6);
    d := StepI(53, words, d, a, b, c, 3, 0x8f0ccc92, 10);
    c := StepI(54, words, c, d, a, b, 10, 0xffeff47d, 15);
    b := StepI(55, words, b, c, d, a, 1, 0x85845dd1, 21);
    r := Chain(a, b, c, d);
  }

  method SecondHalfOf4(v: Chain, words: seq<bv32>) returns (r: Chain)
    requires |words| == 16
    ensures Operations(v, words, 56) == Operations(r, words, 64)
  {
    hide Operation, Operations, K, T, Turn;
    var a, b, c, d := v.a, v.b, v.c, v.d;
    FourOperations(Chain(a, b, c, d), words, 56);
    a := StepI(56, words, a, b, c, d, 8, 0x6fa87e4f, 6);
    d := StepI(57, words, d, a, b, c, 15, 0xfe2ce6e0, 10);
    c := StepI(58, words, c, d, a, b, 6, 0xa3014314, 15);
    b := StepI(59, words, b, c, d, a, 13, 0x4e0811a1, 21);
    FourOperations(Chain(a, b, c, d), words, 60);
    a := StepI(60, words, a, b, c, d, 4, 0xf7537e82, 6);
    d := StepI(61, words, d, a, b, c, 11, 0xbd3af235, 10);
    c := StepI(62, words, c, d, a, b, 2, 0x2ad7d2bb, 15);
    b := StepI(63, words, b, c, d, a, 9, 0xeb86d391, 21);
    r := Chain(a, b, c, d);
  }

  /** MD5Transform, in its four rounds of two halves each. */
  method MD5Transform(v: Chain, words: seq<bv32>) returns (r: Chain)
    requires |words| == 16
    ensures r == Transform(v, words)
  {
    hide AddChains;
    r := v;
    r := FirstHalfOf1(r, words);
    r := SecondHalfOf1(r, words);
    r := FirstHalfOf2(r, words);
    r := SecondHalfOf2(r, words);
    r := FirstHalfOf3(r, words);
    r := SecondHalfOf3(r, words);
    r := FirstHalfOf4(r, words);
    r := SecondHalfOf4(r, words);
    r := AddChains(v, r);
  }
}
