/** The operations on the one block of "abcdefghijklmnopqrstuvwxyz", a message of the test suite of RFC 1321. */
module Md5Letters {
  import opened Md5Functions
  import opened Md5Transform

  /** The letters, the bit after them, and their number of bits. */
  const LETTERS_BLOCK: seq<bv32> := [
    0x64636261, 0x68676665, 0x6c6b6a69, 0x706f6e6d, 0x74737271, 0x78777675, 0x00807a79, 0x00000000,
    0x00000000, 0x00000000, 0x00000000, 0x00000000, 0x00000000, 0x00000000, 0x000000d0, 0x00000000]

  /** Operation i, given the value of its function, its word, its element of T and its rotation. */
  lemma Next(i: nat, words: seq<bv32>, v: Chain, f: bv32, k: nat, w: bv32, t: bv32, s: bv32, r: bv32)
    requires i < 64 && k < 16 && |words| == 16
    requires Mix(i, v.b, v.c, v.d) == f && K(i) == k && T(i) == t && Turn(i) == s
    requires words[k] == w && Step(f, v.a, v.b, Add(w, t), s) == r
    ensures Operations(v, words, i) == Operations(Chain(v.d, r, v.b, v.c), words, i + 1)
  {
    hide Mix, Add, K, T, Turn, Step;
  }

  lemma From0()
    ensures Operations(Chain(0x67452301, 0xefcdab89, 0x98badcfe, 0x10325476), LETTERS_BLOCK, 0)
         == Operations(Chain(0xd6d117a6, 0x4503b812, 0x227d8cf1, 0xaab1aaaa), LETTERS_BLOCK, 4)
  {
    hide Operations;
    Next(0, LETTERS_BLOCK, Chain(0x67452301, 0xefcdab89, 0x98badcfe, 0x10325476), 0x98badcfe, 0, 0x64636261, 0xd76aa478, 7, 0xd6d117a6);
    Next(1, LETTERS_BLOCK, Chain(0x10325476, 0xd6d117a6, 0xefcdab89, 0x98badcfe), 0xceebcbd8, 1, 0x68676665, 0xe8c7b756, 12, 0xaab1aaaa);
    Next(2, LETTERS_BLOCK, Chain(0x98badcfe, 0xaab1aaaa, 0xd6d117a6, 0xefcdab89), 0xc7dd03a3, 2, 0x6c6b6a69, 0x242070db, 17, 0x227d8cf1);
    Next(3, LETTERS_BLOCK, Chain(0xefcdab89, 0x227d8cf1, 0xaab1aaaa, 0xd6d117a6), 0xf6b19ba6, 3, 0x706f6e6d, 0xc1bdceee, 22, 0x4503b812);
  }

  lemma From4()
    ensures Operations(Chain(0xd6d117a6, 0x4503b812, 0x227d8cf1, 0xaab1aaaa), LETTERS_BLOCK, 4)
         == Operations(Chain(0xfe15f787, 0xda9bbb0d, 0xb71122fc, 0xa811b278), LETTERS_BLOCK, 8)
  {
    hide Operations;
    Next(4, LETTERS_BLOCK, Chain(0xd6d117a6, 0x4503b812, 0x227d8cf1, 0xaab1aaaa), 0xaab18ab8, 4, 0x74737271, 0xf57c0faf, 7, 0xfe15f787);
    Next(5, LETTERS_BLOCK, Chain(0xaab1aaaa, 0xfe15f787, 0x4503b812, 0x227d8cf1), 0x4469b872, 5, 0x78777675, 0x4787c62a, 12, 0xa811b278);
    Next(6, LETTERS_BLOCK, Chain(0x227d8cf1, 0xa811b278, 0xfe15f787, 0x4503b812), 0xed13ba02, 6, 0x00807a79, 0xa8304613, 17, 0xb71122fc);
    Next(7, LETTERS_BLOCK, Chain(0x4503b812, 0xb71122fc, 0xa811b278, 0xfe15f787), 0xe815f77b, 7, 0x00000000, 0xfd469501, 22, 0xda9bbb0d);
  }

  lemma From8()
    ensures Operations(Chain(0xfe15f787, 0xda9bbb0d, 0xb71122fc, 0xa811b278), LETTERS_BLOCK, 8)
         == Operations(Chain(0xae752899, 0x56cfa5cb, 0x7d4bd80b, 0x2bbe757f), LETTERS_BLOCK, 12)
  {
    hide Operations;
    Next(8, LETTERS_BLOCK, Chain(0xfe15f787, 0xda9bbb0d, 0xb71122fc, 0xa811b278), 0xb211227c, 8, 0x00000000, 0x698098d8, 7, 0xae752899);
    Next(9, LETTERS_BLOCK, Chain(0xa811b278, 0xae752899, 0xda9bbb0d, 0xb71122fc), 0x9b112a6d, 9, 0x00000000, 0x8b44f7af, 12, 0x2bbe757f);
    Next(10, LETTERS_BLOCK, Chain(0xb71122fc, 0x2bbe757f, 0xae752899, 0xda9bbb0d), 0xfa35aa19, 10, 0x00000000, 0xffff5bb1, 17, 0x7d4bd80b);
    Next(11, LETTERS_BLOCK, Chain(0xda9bbb0d, 0x7d4bd80b, 0x2bbe757f, 0xae752899), 0xab3e709b, 11, 0x00000000, 0x895cd7be, 22, 0x56cfa5cb);
  }

  lemma From12()
    ensures Operations(Chain(0xae752899, 0x56cfa5cb, 0x7d4bd80b, 0x2bbe757f), LETTERS_BLOCK, 12)
         == Operations(Chain(0x1754a316, 0x608d6b7e, 0x00df74d5, 0x85567d90), LETTERS_BLOCK, 16)
  {
    hide Operations;
    Next(12, LETTERS_BLOCK, Chain(0xae752899, 0x56cfa5cb, 0x7d4bd80b, 0x2bbe757f), 0x7d7bd03f, 12, 0x00000000, 0x6b901122, 7, 0x1754a316);
    Next(13, LETTERS_BLOCK, Chain(0x2bbe757f, 0x1754a316, 0x56cfa5cb, 0x7d4bd80b), 0x7e4ff90b, 13, 0x00000000, 0xfd987193, 12, 0x85567d90);
    Next(14, LETTERS_BLOCK, Chain(0x7d4bd80b, 0x85567d90, 0x1754a316, 0x56cfa5cb), 0x57dda15b, 14, 0x000000d0, 0xa679438e, 17, 0x00df74d5);
    Next(15, LETTERS_BLOCK, Chain(0x56cfa5cb, 0x00df74d5, 0x85567d90, 0x1754a316), 0x1756f792, 15, 0x00000000, 0x49b40821, 22, 0x608d6b7e);
  }

  lemma From16()
    ensures Operations(Chain(0x1754a316, 0x608d6b7e, 0x00df74d5, 0x85567d90), LETTERS_BLOCK, 16)
         == Operations(Chain(0x2d8071cc, 0x4c2145b3, 0xedfe7e4b, 0x5dcee119), LETTERS_BLOCK, 20)
  {
    hide Operations;
    Next(16, LETTERS_BLOCK, Chain(0x1754a316, 0x608d6b7e, 0x00df74d5, 0x85567d90), 0x008d6955, 1, 0x68676665, 0xf61e2562, 5, 0x2d8071cc);
    Next(17, LETTERS_BLOCK, Chain(0x85567d90, 0x2d8071cc, 0x608d6b7e, 0x00df74d5), 0x60807bee, 6, 0x00807a79, 0xc040b340, 9, 0x5dcee119);
    Next(18, LETTERS_BLOCK, Chain(0x00df74d5, 0x5dcee119, 0x2d8071cc, 0x608d6b7e), 0x4d8c7198, 11, 0x00000000, 0x265e5a51, 14, 0xedfe7e4b);
    Next(19, LETTERS_BLOCK, Chain(0x608d6b7e, 0xedfe7e4b, 0x5dcee119, 0x2d8071cc), 0x7dcef059, 0, 0x64636261, 0xe9b6c7aa, 20, 0x4c2145b3);
  }

  lemma From20()
    ensures Operations(Chain(0x2d8071cc, 0x4c2145b3, 0xedfe7e4b, 0x5dcee119), LETTERS_BLOCK, 20)
         == Operations(Chain(0x570c43e0, 0xc9f162d4, 0xc28ab49d, 0x977efd2a), LETTERS_BLOCK, 24)
  {
    hide Operations;
    Next(20, LETTERS_BLOCK, Chain(0x2d8071cc, 0x4c2145b3, 0xedfe7e4b, 0x5dcee119), 0xec305f53, 5, 0x78777675, 0xd62f105d, 5, 0x570c43e0);
    Next(21, LETTERS_BLOCK, Chain(0x5dcee119, 0x570c43e0, 0x4c2145b3, 0xedfe7e4b), 0x450d43f0, 10, 0x00000000, 0x02441453, 9, 0x977efd2a);
    Next(22, LETTERS_BLOCK, Chain(0xedfe7e4b, 0x977efd2a, 0x570c43e0, 0x4c2145b3), 0x172c4762, 15, 0x00000000, 0xd8a1e681, 14, 0xc28ab49d);
    Next(23, LETTERS_BLOCK, Chain(0x4c2145b3, 0xc28ab49d, 0x977efd2a, 0x570c43e0), 0xc27abc8a, 4, 0x74737271, 0xe7d3fbc8, 20, 0xc9f162d4);
  }

  lemma From24()
    ensures Operations(Chain(0x570c43e0, 0xc9f162d4, 0xc28ab49d, 0x977efd2a), LETTERS_BLOCK, 24)
         == Operations(Chain(0x25bfae3b, 0xe6d3b398, 0xf8c8365f, 0x89980104), LETTERS_BLOCK, 28)
  {
    hide Operations;
    Next(24, LETTERS_BLOCK, Chain(0x570c43e0, 0xc9f162d4, 0xc28ab49d, 0x977efd2a), 0xc1f06095, 9, 0x00000000, 0x21e1cde6, 5, 0x25bfae3b);
    Next(25, LETTERS_BLOCK, Chain(0x977efd2a, 0x25bfae3b, 0xc9f162d4, 0xc28ab49d), 0x09fbe659, 14, 0x000000d0, 0xc33707d6, 9, 0x89980104);
    Next(26, LETTERS_BLOCK, Chain(0xc28ab49d, 0x89980104, 0x25bfae3b, 0xc9f162d4), 0xad9e8c2f, 3, 0x706f6e6d, 0xf4d50d87, 14, 0xf8c8365f);
    Next(27, LETTERS_BLOCK, Chain(0xc9f162d4, 0xf8c8365f, 0x89980104, 0x25bfae3b), 0xa888271f, 8, 0x00000000, 0x455a14ed, 20, 0xe6d3b398);
  }

  lemma From28()
    ensures Operations(Chain(0x25bfae3b, 0xe6d3b398, 0xf8c8365f, 0x89980104), LETTERS_BLOCK, 28)
         == Operations(Chain(0xf54d8710, 0xaeb35766, 0x2e69afc7, 0x927b72e2), LETTERS_BLOCK, 32)
  {
    hide Operations;
    Next(28, LETTERS_BLOCK, Chain(0x25bfae3b, 0xe6d3b398, 0xf8c8365f, 0x89980104), 0xf0d0375b, 13, 0x00000000, 0xa9e3e905, 5, 0xf54d8710);
    Next(29, LETTERS_BLOCK, Chain(0x89980104, 0xf54d8710, 0xe6d3b398, 0xf8c8365f), 0xf65b8790, 2, 0x6c6b6a69, 0xfcefa3f8, 9, 0x927b72e2);
    Next(30, LETTERS_BLOCK, Chain(0xf8c8365f, 0x927b72e2, 0xf54d8710, 0xe6d3b398), 0x935f3680, 7, 0x00000000, 0x676f02d9, 14, 0x2e69afc7);
    Next(31, LETTERS_BLOCK, Chain(0xe6d3b398, 0x2e69afc7, 0x927b72e2, 0xf54d8710), 0x267bf7e2, 12, 0x00000000, 0x8d2a4c8a, 20, 0xaeb35766);
  }

  lemma From32()
    ensures Operations(Chain(0xf54d8710, 0xaeb35766, 0x2e69afc7, 0x927b72e2), LETTERS_BLOCK, 32)
         == Operations(Chain(0xb4bf680e, 0x06a5e211, 0x2361ed0a, 0x4c8ffa80), LETTERS_BLOCK, 36)
  {
    hide Operations;
    Next(32, LETTERS_BLOCK, Chain(0xf54d8710, 0xaeb35766, 0x2e69afc7, 0x927b72e2), 0x12a18a43, 5, 0x78777675, 0xfffa3942, 4, 0xb4bf680e);
    Next(33, LETTERS_BLOCK, Chain(0x927b72e2, 0xb4bf680e, 0xaeb35766, 0x2e69afc7), 0x346590af, 8, 0x00000000, 0x8771f681, 11, 0x4c8ffa80);
    Next(34, LETTERS_BLOCK, Chain(0x2e69afc7, 0x4c8ffa80, 0xb4bf680e, 0xaeb35766), 0x5683c5e8, 11, 0x00000000, 0x6d9d6122, 16, 0x2361ed0a);
    Next(35, LETTERS_BLOCK, Chain(0xaeb35766, 0x2361ed0a, 0x4c8ffa80, 0xb4bf680e), 0xdb517f84, 14, 0x000000d0, 0xfde5380c, 23, 0x06a5e211);
  }

  lemma From36()
    ensures Operations(Chain(0xb4bf680e, 0x06a5e211, 0x2361ed0a, 0x4c8ffa80), LETTERS_BLOCK, 36)
         == Operations(Chain(0xb9c0c733, 0x8d41bf99, 0x23a9451b, 0xf1e6dc7a), LETTERS_BLOCK, 40)
  {
    hide Operations;
    Next(36, LETTERS_BLOCK, Chain(0xb4bf680e, 0x06a5e211, 0x2361ed0a, 0x4c8ffa80), 0x694bf59b, 1, 0x68676665, 0xa4beea44, 4, 0xb9c0c733);
    Next(37, LETTERS_BLOCK, Chain(0x4c8ffa80, 0xb9c0c733, 0x06a5e211, 0x2361ed0a), 0x9c04c828, 4, 0x74737271, 0x4bdecfa9, 11, 0xf1e6dc7a);
    Next(38, LETTERS_BLOCK, Chain(0x2361ed0a, 0xf1e6dc7a, 0xb9c0c733, 0x06a5e211), 0x4e83f958, 7, 0x00000000, 0xf6bb4b60, 16, 0x23a9451b);
    Next(39, LETTERS_BLOCK, Chain(0x06a5e211, 0x23a9451b, 0xf1e6dc7a, 0xb9c0c733), 0x6b8f5e52, 10, 0x00000000, 0xbebfbc70, 23, 0x8d41bf99);
  }

  lemma From40()
    ensures Operations(Chain(0xb9c0c733, 0x8d41bf99, 0x23a9451b, 0xf1e6dc7a), LETTERS_BLOCK, 40)
         == Operations(Chain(0xa3e88ead, 0x90a35af5, 0x66f6468d, 0x02c0b11c), LETTERS_BLOCK, 44)
  {
    hide Operations;
    Next(40, LETTERS_BLOCK, Chain(0xb9c0c733, 0x8d41bf99, 0x23a9451b, 0xf1e6dc7a), 0x5f0e26f8, 13, 0x00000000, 0x289b7ec6, 4, 0xa3e88ead);
    Next(41, LETTERS_BLOCK, Chain(0xf1e6dc7a, 0xa3e88ead, 0x8d41bf99, 0x23a9451b), 0x0d00742f, 0, 0x64636261, 0xeaa127fa, 11, 0x02c0b11c);
    Next(42, LETTERS_BLOCK, Chain(0x23a9451b, 0x02c0b11c, 0xa3e88ead, 0x8d41bf99), 0x2c698028, 3, 0x706f6e6d, 0xd4ef3085, 16, 0x66f6468d);
    Next(43, LETTERS_BLOCK, Chain(0x8d41bf99, 0x66f6468d, 0x02c0b11c, 0xa3e88ead), 0xc7de793c, 6, 0x00807a79, 0x04881d05, 23, 0x90a35af5);
  }

  lemma From44()
    ensures Operations(Chain(0xa3e88ead, 0x90a35af5, 0x66f6468d, 0x02c0b11c), LETTERS_BLOCK, 44)
         == Operations(Chain(0xb5d41f9c, 0x71d10367, 0x703d54d8, 0xa04b4904), LETTERS_BLOCK, 48)
  {
    hide Operations;
    Next(44, LETTERS_BLOCK, Chain(0xa3e88ead, 0x90a35af5, 0x66f6468d, 0x02c0b11c), 0xf495ad64, 9, 0x00000000, 0xd9d4d039, 4, 0xb5d41f9c);
    Next(45, LETTERS_BLOCK, Chain(0x02c0b11c, 0xb5d41f9c, 0x90a35af5, 0x66f6468d), 0x438103e4, 12, 0x00000000, 0xe6db99e5, 11, 0xa04b4904);
    Next(46, LETTERS_BLOCK, Chain(0x66f6468d, 0xa04b4904, 0xb5d41f9c, 0x90a35af5), 0x853c0c6d, 15, 0x00000000, 0x1fa27cf8, 16, 0x703d54d8);
    Next(47, LETTERS_BLOCK, Chain(0x90a35af5, 0x703d54d8, 0xa04b4904, 0xb5d41f9c), 0x65a20240, 2, 0x6c6b6a69, 0xc4ac5665, 23, 0x71d10367);
  }

  lemma From48()
    ensures Operations(Chain(0xb5d41f9c, 0x71d10367, 0x703d54d8, 0xa04b4904), LETTERS_BLOCK, 48)
         == Operations(Chain(0xfc32dd6e, 0x33edb197, 0xb35602cb, 0x65456b34), LETTERS_BLOCK, 52)
  {
    hide Operations;
    Next(48, LETTERS_BLOCK, Chain(0xb5d41f9c, 0x71d10367, 0x703d54d8, 0xa04b4904), 0x0fc8e327, 0, 0x64636261, 0xf4292244, 6, 0xfc32dd6e);
    Next(49, LETTERS_BLOCK, Chain(0xa04b4904, 0xfc32dd6e, 0x71d10367, 0x703d54d8), 0x8e23fc08, 7, 0x00000000, 0x432aff97, 10, 0x65456b34);
    Next(50, LETTERS_BLOCK, Chain(0x703d54d8, 0x65456b34, 0xfc32dd6e, 0x71d10367), 0x135d22d2, 14, 0x000000d0, 0xab9423a7, 15, 0xb35602cb);
    Next(51, LETTERS_BLOCK, Chain(0x71d10367, 0xb35602cb, 0x65456b34, 0xfc32dd6e), 0xd69a49ef, 5, 0x78777675, 0xfc93a039, 21, 0x33edb197);
  }

  lemma From52()
    ensures Operations(Chain(0xfc32dd6e, 0x33edb197, 0xb35602cb, 0x65456b34), LETTERS_BLOCK, 52)
         == Operations(Chain(0xc1e942f1, 0x83877d1b, 0x23a68048, 0xd9bb987c), LETTERS_BLOCK, 56)
  {
    hide Operations;
    Next(52, LETTERS_BLOCK, Chain(0xfc32dd6e, 0x33edb197, 0xb35602cb, 0x65456b34), 0x08a9b714, 12, 0x00000000, 0x655b59c3, 6, 0xc1e942f1);
    Next(53, LETTERS_BLOCK, Chain(0x65456b34, 0xc1e942f1, 0x33edb197, 0xb35602cb), 0xfe044e62, 3, 0x706f6e6d, 0x8f0ccc92, 10, 0xd9bb987c);
    Next(54, LETTERS_BLOCK, Chain(0xb35602cb, 0xd9bb987c, 0xc1e942f1, 0x33edb197), 0x1c529c8d, 10, 0x00000000, 0xffeff47d, 15, 0x23a68048);
    Next(55, LETTERS_BLOCK, Chain(0x33edb197, 0x23a68048, 0xd9bb987c, 0xc1e942f1), 0xe60d2532, 1, 0x68676665, 0x85845dd1, 21, 0x83877d1b);
  }

  lemma From56()
    ensures Operations(Chain(0xc1e942f1, 0x83877d1b, 0x23a68048, 0xd9bb987c), LETTERS_BLOCK, 56)
         == Operations(Chain(0x0077c208, 0x5e6bc930, 0xa3e2247f, 0x847fc2e7), LETTERS_BLOCK, 60)
  {
    hide Operations;
    Next(56, LETTERS_BLOCK, Chain(0xc1e942f1, 0x83877d1b, 0x23a68048, 0xd9bb987c), 0x8461ffd3, 8, 0x00000000, 0x6fa87e4f, 6, 0x0077c208);
    Next(57, LETTERS_BLOCK, Chain(0xd9bb987c, 0x0077c208, 0x83877d1b, 0x23a68048), 0x5ff882a4, 15, 0x00000000, 0xfe2ce6e0, 10, 0x847fc2e7);
    Next(58, LETTERS_BLOCK, Chain(0x23a68048, 0x847fc2e7, 0x0077c208, 0x83877d1b), 0xfc0800ef, 6, 0x00807a79, 0xa3014314, 15, 0xa3e2247f);
    Next(59, LETTERS_BLOCK, Chain(0x83877d1b, 0xa3e2247f, 0x847fc2e7, 0x0077c208), 0x7b95ff18, 13, 0x00000000, 0x4e0811a1, 21, 0x5e6bc930);
  }

  lemma From60()
    ensures Operations(Chain(0x0077c208, 0x5e6bc930, 0xa3e2247f, 0x847fc2e7), LETTERS_BLOCK, 60)
         == Operations(Chain(0x708ed9c2, 0x1116e6d8, 0xd38f1e7f, 0x2baf1354), LETTERS_BLOCK, 64)
  {
    hide Operations;
    Next(60, LETTERS_BLOCK, Chain(0x0077c208, 0x5e6bc930, 0xa3e2247f, 0x847fc2e7), 0xdc09d947, 4, 0x74737271, 0xf7537e82, 6, 0x708ed9c2);
    Next(61, LETTERS_BLOCK, Chain(0x847fc2e7, 0x708ed9c2, 0x5e6bc930, 0xa3e2247f), 0x22f412f2, 11, 0x00000000, 0xbd3af235, 10, 0x2baf1354);
    Next(62, LETTERS_BLOCK, Chain(0xa3e2247f, 0x2baf1354, 0x708ed9c2, 0x5e6bc930), 0xdb31ee1d, 2, 0x6c6b6a69, 0x2ad7d2bb, 15, 0xd38f1e7f);
    Next(63, LETTERS_BLOCK, Chain(0x5e6bc930, 0xd38f1e7f, 0x2baf1354, 0x708ed9c2), 0xf4502d2b, 9, 0x00000000, 0xeb86d391, 21, 0x1116e6d8);
  }

  lemma LettersTransform()
    ensures Transform(Chain(0x67452301, 0xefcdab89, 0x98badcfe, 0x10325476), LETTERS_BLOCK) == Chain(0xd7d3fcc3, 0x00e49261, 0x6c49fb7d, 0x3be167ca)
  {
    hide Operations;
    From0();
    From4();
    From8();
    From12();
    From16();
    From20();
    From24();
    From28();
    From32();
    From36();
    From40();
    From44();
    From48();
    From52();
    From56();
    From60();
    NoOperation(Chain(0x708ed9c2, 0x1116e6d8, 0xd38f1e7f, 0x2baf1354));
  }

  lemma NoOperation(v: Chain)
    ensures Operations(v, LETTERS_BLOCK, 64) == v
  {
  }

}

/** The digest of that message, as appendix A.5 of RFC 1321 gives it. */
module Md5Suite {
  import opened Bytes
  import opened Md5
  import opened Md5Letters
  import opened Md5Transform

  const LETTERS: seq<byte> := [
    0x61, 0x62, 0x63, 0x64, 0x65, 0x66, 0x67, 0x68, 0x69, 0x6a, 0x6b, 0x6c, 0x6d,
    0x6e, 0x6f, 0x70, 0x71, 0x72, 0x73, 0x74, 0x75, 0x76, 0x77, 0x78, 0x79, 0x7a]

  /** A word is known by its number. */
  lemma WordIs(s: seq<byte>, x: bv32)
    requires |s| == 4 && x as int == s[0] as int + 0x100 * s[1] as int + 0x1_0000 * s[2] as int + 0x100_0000 * s[3] as int
    ensures Word(s) == x
  {
    Back(x);
  }

  lemma Back(x: bv32)
    ensures (x as int) as bv32 == x
  {
  }

  lemma {:induction false} WordsAt(s: seq<byte>, i: nat)
    requires |s| % 4 == 0 && 4 * i < |s|
    ensures i < |Words(s)| && Words(s)[i] == Word(s[4 * i..4 * i + 4])
    decreases i
  {
    hide Word;
    if i > 0 {
      WordsAt(s[4..], i - 1);
      assert s[4..][4 * (i - 1)..4 * (i - 1) + 4] == s[4 * i..4 * i + 4];
    }
  }

  const PADDED: seq<byte> := LETTERS + ([0x80 as byte] + Zeros(29) + [0xd0, 0, 0, 0, 0, 0, 0, 0])

  lemma PaddedIs()
    ensures LETTERS + Padding(26) == PADDED
  {
    assert 8 * 26 % TWO64 == 208;
    assert Bytes64(208) == [0xd0, 0, 0, 0, 0, 0, 0, 0];
  }

  lemma PaddedAt(j: nat)
    requires j < 64
    ensures |PADDED| == 64 && PADDED[j] == if j < 26 then LETTERS[j] else if j == 26 then 0x80 else if j == 56 then 0xd0 else 0
  {
  }

  lemma WordOf(i: nat, a: byte, b: byte, c: byte, d: byte, x: bv32)
    requires i < 16 && PADDED[4 * i] == a && PADDED[4 * i + 1] == b && PADDED[4 * i + 2] == c && PADDED[4 * i + 3] == d
    requires x as int == a as int + 0x100 * b as int + 0x1_0000 * c as int + 0x100_0000 * d as int
    ensures |Words(PADDED)| == 16 && Words(PADDED)[i] == x
  {
    hide Words, Word;
    PaddedAt(4 * i);
    FourAt(PADDED, i, a, b, c, d, x);
  }

  lemma FourAt(s: seq<byte>, i: nat, a: byte, b: byte, c: byte, d: byte, x: bv32)
    requires |s| == 64 && i < 16 && s[4 * i] == a && s[4 * i + 1] == b && s[4 * i + 2] == c && s[4 * i + 3] == d
    requires x as int == a as int + 0x100 * b as int + 0x1_0000 * c as int + 0x100_0000 * d as int
    ensures |Words(s)| == 16 && Words(s)[i] == x
  {
    hide Words, Word;
    WordsAt(s, i);
    assert s[4 * i..4 * i + 4] == [a, b, c, d];
    WordIs([a, b, c, d], x);
  }

  lemma LaterWord(i: nat)
    requires 6 <= i < 16
    ensures |Words(PADDED)| == 16 && Words(PADDED)[i] == if i == 6 then 0x00807a79 else if i == 14 then 0x000000d0 else 0
  {
    hide Words, Word;
    PaddedAt(4 * i);
    PaddedAt(4 * i + 1);
    PaddedAt(4 * i + 2);
    PaddedAt(4 * i + 3);
    if i == 6 {
      WordOf(6, 0x79, 0x7a, 0x80, 0, 0x00807a79);
    } else if i == 14 {
      WordOf(14, 0xd0, 0, 0, 0, 0x000000d0);
    } else {
      WordOf(i, 0, 0, 0, 0, 0);
    }
  }

  lemma WordsOfPadded()
    ensures Words(PADDED) == LETTERS_BLOCK
  {
    hide Words, Word, Zeros;
    PaddedAt(0);
    forall j | 0 <= j < 26 ensures PADDED[j] == LETTERS[j] {
      PaddedAt(j);
    }
    WordOf(0, 0x61, 0x62, 0x63, 0x64, 0x64636261);
    WordOf(1, 0x65, 0x66, 0x67, 0x68, 0x68676665);
    WordOf(2, 0x69, 0x6a, 0x6b, 0x6c, 0x6c6b6a69);
    WordOf(3, 0x6d, 0x6e, 0x6f, 0x70, 0x706f6e6d);
    WordOf(4, 0x71, 0x72, 0x73, 0x74, 0x74737271);
    WordOf(5, 0x75, 0x76, 0x77, 0x78, 0x78777675);
    forall i | 6 <= i < 16 ensures Words(PADDED)[i] == LETTERS_BLOCK[i] {
      LaterWord(i);
    }
  }

  lemma LettersOutput()
    ensures Output(Chain(0xd7d3fcc3, 0x00e49261, 0x6c49fb7d, 0x3be167ca)) == [
      0xc3, 0xfc, 0xd3, 0xd7, 0x61, 0x92, 0xe4, 0x00,
      0x7d, 0xfb, 0x49, 0x6c, 0xca, 0x67, 0xe1, 0x3b]
  {
  }

  lemma OneBlock(v: Chain, s: seq<byte>)
    requires |s| == 64
    ensures Fold(v, s) == Transform(v, Words(s))
  {
    hide Words, Transform;
    assert s[..64] == s && s[64..] == [];
  }

  /** MD5 of "abcdefghijklmnopqrstuvwxyz" as the standard gives it. */
  lemma LettersDigest()
    ensures Digest(LETTERS) == [
      0xc3, 0xfc, 0xd3, 0xd7, 0x61, 0x92, 0xe4, 0x00,
      0x7d, 0xfb, 0x49, 0x6c, 0xca, 0x67, 0xe1, 0x3b]
  {
    hide Words, Transform, Output, Padding;
    PaddedIs();
    WordsOfPadded();
    LettersTransform();
    PaddedAt(0);
    OneBlock(Init(), PADDED);
    assert |LETTERS| == 26;
    LettersOutput();
  }
}
