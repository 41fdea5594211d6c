/** Values of the definition worked out: the words and bytes of RFC 1321, section 3.3, and digests of its appendix A.5. */
module Md5Vectors {
  import opened Bytes
  import opened Md5
  import opened Md5Transform

  /** The length field is the number of bits modulo 2^64, low-order byte first. */
  lemma LengthField(n: nat)
    ensures LittleEndian(BitLength(n), 0) + 0x1_0000_0000 * LittleEndian(BitLength(n), 4)
              == 8 * n % 0x1_0000_0000_0000_0000
  {
    var bits := 8 * n % 0x1_0000_0000_0000_0000;
    var low, high := bits % 0x1_0000_0000, bits / 0x1_0000_0000;
    TwoWords(low, high);
    hide EncodeWord, EncodeWords;
    assert BitLength(n)[..4] == EncodeWord(low) && BitLength(n)[4..] == EncodeWord(high);
  }

  lemma WordBytes(w: uint32, a: byte, b: byte, c: byte, d: byte)
    requires w == a as int + 0x100 * b as int + 0x1_0000 * c as int + 0x100_0000 * d as int
    ensures EncodeWord(w) == [a, b, c, d]
  {
    DivModIs(w, 0x100, b as int + 0x100 * c as int + 0x1_0000 * d as int, a);
    DivModIs(w, 0x1_0000, c as int + 0x100 * d as int, a as int + 0x100 * b as int);
    DivModIs(w, 0x100_0000, d, a as int + 0x100 * b as int + 0x1_0000 * c as int);
    DivModIs(w / 0x100, 0x100, c as int + 0x100 * d as int, b);
    DivModIs(w / 0x1_0000, 0x100, d, c);
    DivModIs(w / 0x100_0000, 0x100, 0, d);
  }

  lemma TwoWords(v: uint32, w: uint32)
    ensures EncodeWords([v, w]) == EncodeWord(v) + EncodeWord(w)
  {
    hide EncodeWord;
    assert [v, w][..1] == [v] && [v][..0] == [];
    assert EncodeWords([]) == [];
    assert EncodeWords([v]) == [] + EncodeWord(v) == EncodeWord(v);
  }

  lemma QuadBytesAre(a: word, b: word, c: word, d: word)
    ensures QuadBytes(Quad(a, b, c, d)) == EncodeWord(a as int) + EncodeWord(b as int) + EncodeWord(c as int) + EncodeWord(d as int)
  {
    var ws := [a as int, b as int, c as int, d as int];
    hide EncodeWord;
    assert ws[..3][..2] == [a as int, b as int];
    TwoWords(a as int, b as int);
    assert EncodeWords(ws[..3]) == EncodeWords(ws[..3][..2]) + EncodeWord(c as int);
    assert EncodeWords(ws) == EncodeWords(ws[..3]) + EncodeWord(d as int);
  }

  /** The initial words as bytes, low-order first. */
  lemma InitialBytes()
    ensures QuadBytes(InitialState())
              == [0x01, 0x23, 0x45, 0x67, 0x89, 0xab, 0xcd, 0xef, 0xfe, 0xdc, 0xba, 0x98, 0x76, 0x54, 0x32, 0x10]
  {
    QuadBytesAre(0x67452301, 0xefcdab89, 0x98badcfe, 0x10325476);
    InitialWords();
    hide EncodeWord, QuadBytes;
  }

  lemma InitialWords()
    ensures EncodeWord(0x67452301 as word as int) == [0x01, 0x23, 0x45, 0x67]
    ensures EncodeWord(0xefcdab89 as word as int) == [0x89, 0xab, 0xcd, 0xef]
    ensures EncodeWord(0x98badcfe as word as int) == [0xfe, 0xdc, 0xba, 0x98]
    ensures EncodeWord(0x10325476 as word as int) == [0x76, 0x54, 0x32, 0x10]
  {
  }

  /** Operation n on the state p: the word w, the shift s and the constant t give the new word b. */
  lemma Next(q: Quad, x: seq<word>, n: nat, p: Quad, w: word, s: word, t: word, b: word)
    requires |x| == 16 && n < 64 && s <= 32 && Operations(q, x, 0, n) == p
    requires x[WordIndex(n)] == w && Shift(n) == s && T(n) == t
    requires Mix(p.a, p.b, Auxiliary(n, p.b, p.c, p.d), w, s, t) == b
    ensures Operations(q, x, 0, n + 1) == Quad(p.d, b, p.b, p.c)
  {
    hide Mix, Auxiliary, WordIndex, Shift, T;
  }

  /** The one block that a message of less than 56 bytes is padded to. */
  lemma ShortPadded(m: seq<byte>)
    requires |m| < 56
    ensures var p := Padded(m);
            |p| == 64 && p[|m|] == 0x80 && p[56] == 8 * |m| % 0x100 && p[57] == 8 * |m| / 0x100 &&
            (forall i :: 0 <= i < |m| ==> p[i] == m[i]) &&
            (forall i :: |m| < i < 64 && i != 56 && i != 57 ==> p[i] == 0)
  {
    var n := |m|;
    DivModIs(n, 64, 0, n);
    DivModIs(119 - n, 64, 1, 55 - n);
    ShortLength(n);
    hide BitLength;
    assert Padded(m) == m + [0x80] + Zeros(55 - n) + [8 * n % 0x100, 8 * n / 0x100, 0, 0, 0, 0, 0, 0];
  }

  lemma ShortLength(n: nat)
    requires n < 56
    ensures BitLength(n) == [8 * n % 0x100, 8 * n / 0x100, 0, 0, 0, 0, 0, 0]
  {
    TwoWords(8 * n, 0);
    WordBytes(8 * n, 8 * n % 0x100, 8 * n / 0x100, 0, 0);
    WordBytes(0, 0, 0, 0, 0);
    hide EncodeWord, EncodeWords;
    DivModIs(8 * n, 0x1_0000_0000_0000_0000, 0, 8 * n);
    DivModIs(8 * n, 0x1_0000_0000, 0, 8 * n);
  }

  lemma OneBlock(m: seq<byte>, x: seq<word>)
    requires |x| == 16 && |Padded(m)| == 64 && Words(Padded(m)) == x
    ensures Digest(m) == QuadBytes(AddQuads(InitialState(), Operations(InitialState(), x, 0, 64)))
  {
    hide Padded, Words, InitialState, QuadBytes, AddQuads, Operations;
    var p := Padded(m);
    assert p[0..64] == p;
    assert Chain(p, 0) == InitialState();
    assert Chain(p, 1) == Compress(Chain(p, 0), Words(Block(p, 0)));
  }

  /** The first word of a padded message, and the length in bits. */
  lemma BlockWords(p: seq<byte>, x: seq<word>)
    requires |p| == 64 && |x| == 16 && forall i :: 0 <= i < 16 ==> x[i] == DecodeWord(p, 4 * i)
    ensures Words(p) == x
  {
    hide DecodeWord;
  }

  lemma NoWord(p: seq<byte>, j: nat)
    requires j + 4 <= |p| && p[j] == 0 && p[j + 1] == 0 && p[j + 2] == 0 && p[j + 3] == 0
    ensures DecodeWord(p, j) == 0
  {
  }

  // ---------------------------------------------------------------- the empty text

  /** Its one block. */
  function EmptyBlock(): (x: seq<word>)
    ensures |x| == 16
  {
    [0x80, 0, 0, 0, 0, 0, 0, 0, 0, 0, 0, 0, 0, 0, 0, 0]
  }

  lemma EmptyBlockIs()
    ensures EmptyBlock()[0] == 0x80 && EmptyBlock()[1] == 0 && EmptyBlock()[2] == 0 && EmptyBlock()[3] == 0
    ensures EmptyBlock()[4] == 0 && EmptyBlock()[5] == 0 && EmptyBlock()[6] == 0 && EmptyBlock()[7] == 0
    ensures EmptyBlock()[8] == 0 && EmptyBlock()[9] == 0 && EmptyBlock()[10] == 0 && EmptyBlock()[11] == 0
    ensures EmptyBlock()[12] == 0 && EmptyBlock()[13] == 0 && EmptyBlock()[14] == 0 && EmptyBlock()[15] == 0
  {
  }

  lemma EmptyRound1(q: Quad, x: seq<word>)
    requires x == EmptyBlock() && q == Quad(0x67452301, 0xefcdab89, 0x98badcfe, 0x10325476)
    ensures Operations(q, x, 0, 16) == Quad(0xf56c7cf1, 0xd6819c6a, 0x5aa53f75, 0x374943a7)
  {
    OperationsNone(q, x, 0);
    EmptyBlockIs();
    Constants1();
    WordIndices1();
    hide T, Shift, WordIndex, Operations, EmptyBlock;
    Next(q, x, 0, Quad(0x67452301, 0xefcdab89, 0x98badcfe, 0x10325476), 0x80, 7, 0xd76aa478, 0xa5202774);
    Next(q, x, 1, Quad(0x10325476, 0xa5202774, 0xefcdab89, 0x98badcfe), 0, 12, 0xe8c7b756, 0xf59592dd);
    Next(q, x, 2, Quad(0x98badcfe, 0xf59592dd, 0xa5202774, 0xefcdab89), 0, 17, 0x242070db, 0xe7f06b23);
    Next(q, x, 3, Quad(0xefcdab89, 0xe7f06b23, 0xf59592dd, 0xa5202774), 0, 22, 0xc1bdceee, 0x1b163203);
    Next(q, x, 4, Quad(0xa5202774, 0x1b163203, 0xe7f06b23, 0xf59592dd), 0, 7, 0xf57c0faf, 0x32033344);
    Next(q, x, 5, Quad(0xf59592dd, 0x32033344, 0x1b163203, 0xe7f06b23), 0, 12, 0x4787c62a, 0x2f35d494);
    Next(q, x, 6, Quad(0xe7f06b23, 0x2f35d494, 0x32033344, 0x1b163203), 0, 17, 0xa8304613, 0xf5b158db);
    Next(q, x, 7, Quad(0x1b163203, 0xf5b158db, 0x2f35d494, 0x32033344), 0, 22, 0xfd469501, 0x9bc13ce9);
    Next(q, x, 8, Quad(0x32033344, 0x9bc13ce9, 0xf5b158db, 0x2f35d494), 0, 7, 0x698098d8, 0x3893b991);
    Next(q, x, 9, Quad(0x2f35d494, 0x3893b991, 0x9bc13ce9, 0xf5b158db), 0, 12, 0x8b44f7af, 0xfce4a312);
    Next(q, x, 10, Quad(0xf5b158db, 0xfce4a312, 0x3893b991, 0x9bc13ce9), 0, 17, 0xffff5bb1, 0xe1ef0576);
    Next(q, x, 11, Quad(0x9bc13ce9, 0xe1ef0576, 0xfce4a312, 0x3893b991), 0, 22, 0x895cd7be, 0x70768a29);
    Next(q, x, 12, Quad(0x3893b991, 0x70768a29, 0xe1ef0576, 0xfce4a312), 0, 7, 0x6b901122, 0xf56c7cf1);
    Next(q, x, 13, Quad(0xfce4a312, 0xf56c7cf1, 0x70768a29, 0xe1ef0576), 0, 12, 0xfd987193, 0x374943a7);
    Next(q, x, 14, Quad(0xe1ef0576, 0x374943a7, 0xf56c7cf1, 0x70768a29), 0, 17, 0xa679438e, 0x5aa53f75);
    Next(q, x, 15, Quad(0x70768a29, 0x5aa53f75, 0x374943a7, 0xf56c7cf1), 0, 22, 0x49b40821, 0xd6819c6a);
  }

  lemma EmptyRound2(q: Quad, x: seq<word>)
    requires x == EmptyBlock() && q == Quad(0x67452301, 0xefcdab89, 0x98badcfe, 0x10325476)
    ensures Operations(q, x, 0, 32) == Quad(0x13707036, 0xa2205f1f, 0x1c31c384, 0xae7813db)
  {
    EmptyRound1(q, x);
    EmptyBlockIs();
    Constants2();
    WordIndices2();
    hide T, Shift, WordIndex, Operations, EmptyBlock;
    Next(q, x, 16, Quad(0xf56c7cf1, 0xd6819c6a, 0x5aa53f75, 0x374943a7), 0, 5, 0xf61e2562, 0x1c7d7513);
    Next(q, x, 17, Quad(0x374943a7, 0x1c7d7513, 0xd6819c6a, 0x5aa53f75), 0, 9, 0xc040b340, 0x7bd57a3a);
    Next(q, x, 18, Quad(0x5aa53f75, 0x7bd57a3a, 0x1c7d7513, 0xd6819c6a), 0, 14, 0x265e5a51, 0xc095f13a);
    Next(q, x, 19, Quad(0xd6819c6a, 0xc095f13a, 0x7bd57a3a, 0x1c7d7513), 0x80, 20, 0xe9b6c7aa, 0xbd782e17);
    Next(q, x, 20, Quad(0x1c7d7513, 0xbd782e17, 0xc095f13a, 0x7bd57a3a), 0, 5, 0xd62f105d, 0x3d1e3e6c);
    Next(q, x, 21, Quad(0x7bd57a3a, 0x3d1e3e6c, 0xbd782e17, 0xc095f13a), 0, 9, 0x2441453, 0x68b7b3e3);
    Next(q, x, 22, Quad(0xc095f13a, 0x68b7b3e3, 0x3d1e3e6c, 0xbd782e17), 0, 14, 0xd8a1e681, 0xeb41643e);
    Next(q, x, 23, Quad(0xbd782e17, 0xeb41643e, 0x68b7b3e3, 0x3d1e3e6c), 0, 20, 0xe7d3fbc8, 0xe422531a);
    Next(q, x, 24, Quad(0x3d1e3e6c, 0xe422531a, 0xeb41643e, 0x68b7b3e3), 0, 5, 0x21e1cde6, 0x306ec122);
    Next(q, x, 25, Quad(0x68b7b3e3, 0x306ec122, 0xe422531a, 0xeb41643e), 0, 9, 0xc33707d6, 0xd28c77c2);
    Next(q, x, 26, Quad(0xeb41643e, 0xd28c77c2, 0x306ec122, 0xe422531a), 0, 14, 0xf4d50d87, 0xa3c663da);
    Next(q, x, 27, Quad(0xe422531a, 0xa3c663da, 0xd28c77c2, 0x306ec122), 0, 20, 0x455a14ed, 0xa0572807);
    Next(q, x, 28, Quad(0x306ec122, 0xa0572807, 0xa3c663da, 0xd28c77c2), 0, 5, 0xa9e3e905, 0x13707036);
    Next(q, x, 29, Quad(0xd28c77c2, 0x13707036, 0xa0572807, 0xa3c663da), 0, 9, 0xfcefa3f8, 0xae7813db);
    Next(q, x, 30, Quad(0xa3c663da, 0xae7813db, 0x13707036, 0xa0572807), 0, 14, 0x676f02d9, 0x1c31c384);
    Next(q, x, 31, Quad(0xa0572807, 0x1c31c384, 0xae7813db, 0x13707036), 0, 20, 0x8d2a4c8a, 0xa2205f1f);
  }

  lemma EmptyRound3(q: Quad, x: seq<word>)
    requires x == EmptyBlock() && q == Quad(0x67452301, 0xefcdab89, 0x98badcfe, 0x10325476)
    ensures Operations(q, x, 0, 48) == Quad(0x3f55edfd, 0xca7d2dbd, 0x68d84ea2, 0x22a31f54)
  {
    EmptyRound2(q, x);
    EmptyBlockIs();
    Constants3();
    WordIndices3();
    hide T, Shift, WordIndex, Operations, EmptyBlock;
    Next(q, x, 32, Quad(0x13707036, 0xa2205f1f, 0x1c31c384, 0xae7813db), 0, 4, 0xfffa3942, 0xdf63eaa1);
    Next(q, x, 33, Quad(0xae7813db, 0xdf63eaa1, 0xa2205f1f, 0x1c31c384), 0, 11, 0x8771f681, 0xc3689f5b);
    Next(q, x, 34, Quad(0x1c31c384, 0xc3689f5b, 0xdf63eaa1, 0xa2205f1f), 0, 16, 0x6d9d6122, 0x12f3e755);
    Next(q, x, 35, Quad(0xa2205f1f, 0x12f3e755, 0xc3689f5b, 0xdf63eaa1), 0, 23, 0xfde5380c, 0x4b6669);
    Next(q, x, 36, Quad(0xdf63eaa1, 0x4b6669, 0x12f3e755, 0xc3689f5b), 0, 4, 0xa4beea44, 0x5f7a9b2e);
    Next(q, x, 37, Quad(0xc3689f5b, 0x5f7a9b2e, 0x4b6669, 0x12f3e755), 0, 11, 0x4bdecfa9, 0xabc34e16);
    Next(q, x, 38, Quad(0x12f3e755, 0xabc34e16, 0x5f7a9b2e, 0x4b6669), 0, 16, 0xf6bb4b60, 0x91ca4cb7);
    Next(q, x, 39, Quad(0x4b6669, 0x91ca4cb7, 0xabc34e16, 0x5f7a9b2e), 0, 23, 0xbebfbc70, 0xc5dc8c15);
    Next(q, x, 40, Quad(0x5f7a9b2e, 0xc5dc8c15, 0x91ca4cb7, 0xabc34e16), 0, 4, 0x289b7ec6, 0x4497169d);
    Next(q, x, 41, Quad(0xabc34e16, 0x4497169d, 0xc5dc8c15, 0x91ca4cb7), 0x80, 11, 0xeaa127fa, 0x76fd93d4);
    Next(q, x, 42, Quad(0x91ca4cb7, 0x76fd93d4, 0x4497169d, 0xc5dc8c15), 0, 16, 0xd4ef3085, 0xfd95f243);
    Next(q, x, 43, Quad(0xc5dc8c15, 0xfd95f243, 0x76fd93d4, 0x4497169d), 0, 23, 0x4881d05, 0xfe32453);
    Next(q, x, 44, Quad(0x4497169d, 0xfe32453, 0xfd95f243, 0x76fd93d4), 0, 4, 0xd9d4d039, 0x3f55edfd);
    Next(q, x, 45, Quad(0x76fd93d4, 0x3f55edfd, 0xfe32453, 0xfd95f243), 0, 11, 0xe6db99e5, 0x22a31f54);
    Next(q, x, 46, Quad(0xfd95f243, 0x22a31f54, 0x3f55edfd, 0xfe32453), 0, 16, 0x1fa27cf8, 0x68d84ea2);
    Next(q, x, 47, Quad(0xfe32453, 0x68d84ea2, 0x22a31f54, 0x3f55edfd), 0, 23, 0xc4ac5665, 0xca7d2dbd);
  }

  lemma EmptyRound4(q: Quad, x: seq<word>)
    requires x == EmptyBlock() && q == Quad(0x67452301, 0xefcdab89, 0x98badcfe, 0x10325476)
    ensures Operations(q, x, 0, 64) == Quad(0x7246fad3, 0x14e45506, 0xff4ea3eb, 0x6e10a476)
  {
    EmptyRound3(q, x);
    EmptyBlockIs();
    Constants4();
    WordIndices4();
    hide T, Shift, WordIndex, Operations, EmptyBlock;
    Next(q, x, 48, Quad(0x3f55edfd, 0xca7d2dbd, 0x68d84ea2, 0x22a31f54), 0x80, 6, 0xf4292244, 0x93aa2577);
    Next(q, x, 49, Quad(0x22a31f54, 0x93aa2577, 0xca7d2dbd, 0x68d84ea2), 0, 10, 0x432aff97, 0x1688dc85);
    Next(q, x, 50, Quad(0x68d84ea2, 0x1688dc85, 0x93aa2577, 0xca7d2dbd), 0, 15, 0xab9423a7, 0xcd85b8cb);
    Next(q, x, 51, Quad(0xca7d2dbd, 0xcd85b8cb, 0x1688dc85, 0x93aa2577), 0, 21, 0xfc93a039, 0x561e0689);
    Next(q, x, 52, Quad(0x93aa2577, 0x561e0689, 0xcd85b8cb, 0x1688dc85), 0, 6, 0x655b59c3, 0x5625a114);
    Next(q, x, 53, Quad(0x1688dc85, 0x5625a114, 0x561e0689, 0xcd85b8cb), 0, 10, 0x8f0ccc92, 0x3450f42b);
    Next(q, x, 54, Quad(0xcd85b8cb, 0x3450f42b, 0x5625a114, 0x561e0689), 0, 15, 0xffeff47d, 0x392ad0d0);
    Next(q, x, 55, Quad(0x561e0689, 0x392ad0d0, 0x3450f42b, 0x5625a114), 0, 21, 0x85845dd1, 0x1e77fa61);
    Next(q, x, 56, Quad(0x5625a114, 0x1e77fa61, 0x392ad0d0, 0x3450f42b), 0, 6, 0x6fa87e4f, 0x474a9c8c);
    Next(q, x, 57, Quad(0x3450f42b, 0x474a9c8c, 0x1e77fa61, 0x392ad0d0), 0, 10, 0xfe2ce6e0, 0xdfce00bc);
    Next(q, x, 58, Quad(0x392ad0d0, 0xdfce00bc, 0x474a9c8c, 0x1e77fa61), 0, 15, 0xa3014314, 0x36594b14);
    Next(q, x, 59, Quad(0x1e77fa61, 0x36594b14, 0xdfce00bc, 0x474a9c8c), 0, 21, 0x4e0811a1, 0x30130182);
    Next(q, x, 60, Quad(0x474a9c8c, 0x30130182, 0x36594b14, 0xdfce00bc), 0, 6, 0xf7537e82, 0x7246fad3);
    Next(q, x, 61, Quad(0xdfce00bc, 0x7246fad3, 0x30130182, 0x36594b14), 0, 10, 0xbd3af235, 0x6e10a476);
    Next(q, x, 62, Quad(0x36594b14, 0x6e10a476, 0x7246fad3, 0x30130182), 0, 15, 0x2ad7d2bb, 0xff4ea3eb);
    Next(q, x, 63, Quad(0x30130182, 0xff4ea3eb, 0x6e10a476, 0x7246fad3), 0, 21, 0xeb86d391, 0x14e45506);
  }

  lemma EmptyWord0(p: seq<byte>)
    requires |p| == 64 && p[0] == 0x80 && p[1] == 0x00 && p[2] == 0x00 && p[3] == 0x00
    ensures DecodeWord(p, 0) == 0x80
  {
  }

  lemma EmptyWords()
    ensures |Padded([])| == 64 && Words(Padded([])) == EmptyBlock()
  {
    var m: seq<byte> := [];
    var p := Padded(m);
    EmptyBlockIs();
    ShortPadded(m);
    hide Padded, EmptyBlock, DecodeWord;
    EmptyWord0(p);
    forall i | 0 <= i < 16 && i != 0 ensures DecodeWord(p, 4 * i) == 0 {
      NoWord(p, 4 * i);
    }
    BlockWords(p, EmptyBlock());
  }

  lemma EmptyBytes()
    ensures EncodeWord(0xd98c1dd4 as word as int) == [0xd4, 0x1d, 0x8c, 0xd9]
    ensures EncodeWord(0x4b2008f as word as int) == [0x8f, 0x00, 0xb2, 0x04]
    ensures EncodeWord(0x980980e9 as word as int) == [0xe9, 0x80, 0x09, 0x98]
    ensures EncodeWord(0x7e42f8ec as word as int) == [0xec, 0xf8, 0x42, 0x7e]
  {
  }

  lemma EmptySum()
    ensures AddQuads(InitialState(), Quad(0x7246fad3, 0x14e45506, 0xff4ea3eb, 0x6e10a476)) == Quad(0xd98c1dd4, 0x4b2008f, 0x980980e9, 0x7e42f8ec)
    ensures InitialState() == Quad(0x67452301, 0xefcdab89, 0x98badcfe, 0x10325476)
  {
  }

  /** The digest of the empty text. */
  lemma EmptyDigest()
    ensures Digest([]) == [0xd4, 0x1d, 0x8c, 0xd9, 0x8f, 0x00, 0xb2, 0x04, 0xe9, 0x80, 0x09, 0x98, 0xec, 0xf8, 0x42, 0x7e]
  {
    hide *;
    var q, x := InitialState(), EmptyBlock();
    EmptyWords();
    EmptySum();
    EmptyRound4(q, x);
    OneBlock([], x);
    QuadBytesAre(0xd98c1dd4, 0x4b2008f, 0x980980e9, 0x7e42f8ec);
    EmptyBytes();
  }

  // ---------------------------------------------------------------- the text abc

  /** Its one block. */
  function AbcBlock(): (x: seq<word>)
    ensures |x| == 16
  {
    [0x80636261, 0, 0, 0, 0, 0, 0, 0, 0, 0, 0, 0, 0, 0, 0x18, 0]
  }

  lemma AbcBlockIs()
    ensures AbcBlock()[0] == 0x80636261 && AbcBlock()[1] == 0 && AbcBlock()[2] == 0 && AbcBlock()[3] == 0
    ensures AbcBlock()[4] == 0 && AbcBlock()[5] == 0 && AbcBlock()[6] == 0 && AbcBlock()[7] == 0
    ensures AbcBlock()[8] == 0 && AbcBlock()[9] == 0 && AbcBlock()[10] == 0 && AbcBlock()[11] == 0
    ensures AbcBlock()[12] == 0 && AbcBlock()[13] == 0 && AbcBlock()[14] == 0x18 && AbcBlock()[15] == 0
  {
  }

  lemma AbcRound1(q: Quad, x: seq<word>)
    requires x == AbcBlock() && q == Quad(0x67452301, 0xefcdab89, 0x98badcfe, 0x10325476)
    ensures Operations(q, x, 0, 16) == Quad(0xdda9b9a6, 0x72aff2e0, 0xe396856b, 0xa1051895)
  {
    OperationsNone(q, x, 0);
    AbcBlockIs();
    Constants1();
    WordIndices1();
    hide T, Shift, WordIndex, Operations, AbcBlock;
    Next(q, x, 0, Quad(0x67452301, 0xefcdab89, 0x98badcfe, 0x10325476), 0x80636261, 7, 0xd76aa478, 0xd6d117b4);
    Next(q, x, 1, Quad(0x10325476, 0xd6d117b4, 0xefcdab89, 0x98badcfe), 0, 12, 0xe8c7b756, 0x344a8432);
    Next(q, x, 2, Quad(0x98badcfe, 0x344a8432, 0xd6d117b4, 0xefcdab89), 0, 17, 0x242070db, 0x2f6fbd72);
    Next(q, x, 3, Quad(0xefcdab89, 0x2f6fbd72, 0x344a8432, 0xd6d117b4), 0, 22, 0xc1bdceee, 0x7ad956f2);
    Next(q, x, 4, Quad(0xd6d117b4, 0x7ad956f2, 0x2f6fbd72, 0x344a8432), 0, 7, 0xf57c0faf, 0xc73741ef);
    Next(q, x, 5, Quad(0x344a8432, 0xc73741ef, 0x7ad956f2, 0x2f6fbd72), 0, 12, 0x4787c62a, 0x8bac3051);
    Next(q, x, 6, Quad(0x2f6fbd72, 0x8bac3051, 0xc73741ef, 0x7ad956f2), 0, 17, 0xa8304613, 0x207dc67b);
    Next(q, x, 7, Quad(0x7ad956f2, 0x207dc67b, 0x8bac3051, 0xc73741ef), 0, 22, 0xfd469501, 0x928d99f6);
    Next(q, x, 8, Quad(0xc73741ef, 0x928d99f6, 0x207dc67b, 0x8bac3051), 0, 7, 0x698098d8, 0x854b3712);
    Next(q, x, 9, Quad(0x8bac3051, 0x854b3712, 0x928d99f6, 0x207dc67b), 0, 12, 0x8b44f7af, 0x74e2f284);
    Next(q, x, 10, Quad(0x207dc67b, 0x74e2f284, 0x854b3712, 0x928d99f6), 0, 17, 0xffff5bb1, 0x3020401c);
    Next(q, x, 11, Quad(0x928d99f6, 0x3020401c, 0x74e2f284, 0x854b3712), 0, 22, 0x895cd7be, 0x5ed49596);
    Next(q, x, 12, Quad(0x854b3712, 0x5ed49596, 0x3020401c, 0x74e2f284), 0, 7, 0x6b901122, 0xdda9b9a6);
    Next(q, x, 13, Quad(0x74e2f284, 0xdda9b9a6, 0x5ed49596, 0x3020401c), 0, 12, 0xfd987193, 0xa1051895);
    Next(q, x, 14, Quad(0x3020401c, 0xa1051895, 0xdda9b9a6, 0x5ed49596), 0x18, 17, 0xa679438e, 0xe396856b);
    Next(q, x, 15, Quad(0x5ed49596, 0xe396856b, 0xa1051895, 0xdda9b9a6), 0, 22, 0x49b40821, 0x72aff2e0);
  }

  lemma AbcRound2(q: Quad, x: seq<word>)
    requires x == AbcBlock() && q == Quad(0x67452301, 0xefcdab89, 0x98badcfe, 0x10325476)
    ensures Operations(q, x, 0, 32) == Quad(0x790a77fb, 0x726342d3, 0xa62884aa, 0x9f47e4f8)
  {
    AbcRound1(q, x);
    AbcBlockIs();
    Constants2();
    WordIndices2();
    hide T, Shift, WordIndex, Operations, AbcBlock;
    Next(q, x, 16, Quad(0xdda9b9a6, 0x72aff2e0, 0xe396856b, 0xa1051895), 0, 5, 0xf61e2562, 0x3e9e9126);
    Next(q, x, 17, Quad(0xa1051895, 0x3e9e9126, 0x72aff2e0, 0xe396856b), 0, 9, 0xc040b340, 0x4a1d804e);
    Next(q, x, 18, Quad(0xe396856b, 0x4a1d804e, 0x3e9e9126, 0x72aff2e0), 0, 14, 0x265e5a51, 0xe25e1652);
    Next(q, x, 19, Quad(0x72aff2e0, 0xe25e1652, 0x4a1d804e, 0x3e9e9126), 0x80636261, 20, 0xe9b6c7aa, 0xb5b204e4);
    Next(q, x, 20, Quad(0x3e9e9126, 0xb5b204e4, 0xe25e1652, 0x4a1d804e), 0, 5, 0xd62f105d, 0x59a8ffda);
    Next(q, x, 21, Quad(0x4a1d804e, 0x59a8ffda, 0xb5b204e4, 0xe25e1652), 0, 9, 0x2441453, 0x6d002f1e);
    Next(q, x, 22, Quad(0xe25e1652, 0x6d002f1e, 0x59a8ffda, 0xb5b204e4), 0, 14, 0xd8a1e681, 0xabfc7920);
    Next(q, x, 23, Quad(0xb5b204e4, 0xabfc7920, 0x6d002f1e, 0x59a8ffda), 0, 20, 0xe7d3fbc8, 0x47092c07);
    Next(q, x, 24, Quad(0x59a8ffda, 0x47092c07, 0xabfc7920, 0x6d002f1e), 0, 5, 0x21e1cde6, 0xb7f268cf);
    Next(q, x, 25, Quad(0x6d002f1e, 0xb7f268cf, 0x47092c07, 0xabfc7920), 0x18, 9, 0xc33707d6, 0x9388eff);
    Next(q, x, 26, Quad(0xabfc7920, 0x9388eff, 0xb7f268cf, 0x47092c07), 0, 14, 0xf4d50d87, 0xfe1623b1);
    Next(q, x, 27, Quad(0x47092c07, 0xfe1623b1, 0x9388eff, 0xb7f268cf), 0, 20, 0x455a14ed, 0x786acb8f);
    Next(q, x, 28, Quad(0xb7f268cf, 0x786acb8f, 0xfe1623b1, 0x9388eff), 0, 5, 0xa9e3e905, 0x790a77fb);
    Next(q, x, 29, Quad(0x9388eff, 0x790a77fb, 0x786acb8f, 0xfe1623b1), 0, 9, 0xfcefa3f8, 0x9f47e4f8);
    Next(q, x, 30, Quad(0xfe1623b1, 0x9f47e4f8, 0x790a77fb, 0x786acb8f), 0, 14, 0x676f02d9, 0xa62884aa);
    Next(q, x, 31, Quad(0x786acb8f, 0xa62884aa, 0x9f47e4f8, 0x790a77fb), 0, 20, 0x8d2a4c8a, 0x726342d3);
  }

  lemma AbcRound3(q: Quad, x: seq<word>)
    requires x == AbcBlock() && q == Quad(0x67452301, 0xefcdab89, 0x98badcfe, 0x10325476)
    ensures Operations(q, x, 0, 48) == Quad(0x7f2e507b, 0x7beb9700, 0x8fae6399, 0x99d9679d)
  {
    AbcRound2(q, x);
    AbcBlockIs();
    Constants3();
    WordIndices3();
    hide T, Shift, WordIndex, Operations, AbcBlock;
    Next(q, x, 32, Quad(0x790a77fb, 0x726342d3, 0xa62884aa, 0x9f47e4f8), 0, 4, 0xfffa3942, 0xb3707ebf);
    Next(q, x, 33, Quad(0x9f47e4f8, 0xb3707ebf, 0x726342d3, 0xa62884aa), 0, 11, 0x8771f681, 0x60127b2e);
    Next(q, x, 34, Quad(0xa62884aa, 0x60127b2e, 0xb3707ebf, 0x726342d3), 0, 16, 0x6d9d6122, 0x8d212ff5);
    Next(q, x, 35, Quad(0x726342d3, 0x8d212ff5, 0x60127b2e, 0xb3707ebf), 0x18, 23, 0xfde5380c, 0x3b0875c7);
    Next(q, x, 36, Quad(0xb3707ebf, 0x3b0875c7, 0x8d212ff5, 0x60127b2e), 0, 4, 0xa4beea44, 0x21b117b9);
    Next(q, x, 37, Quad(0x60127b2e, 0x21b117b9, 0x3b0875c7, 0x8d212ff5), 0, 11, 0x4bdecfa9, 0x6e7429d5);
    Next(q, x, 38, Quad(0x8d212ff5, 0x6e7429d5, 0x21b117b9, 0x3b0875c7), 0, 16, 0xf6bb4b60, 0x3575227e);
    Next(q, x, 39, Quad(0x3b0875c7, 0x3575227e, 0x6e7429d5, 0x21b117b9), 0, 23, 0xbebfbc70, 0x5a2f5ea5);
    Next(q, x, 40, Quad(0x21b117b9, 0x5a2f5ea5, 0x3575227e, 0x6e7429d5), 0, 4, 0x289b7ec6, 0x11de1779);
    Next(q, x, 41, Quad(0x6e7429d5, 0x11de1779, 0x5a2f5ea5, 0x3575227e), 0x80636261, 11, 0xeaa127fa, 0xfadcaa38);
    Next(q, x, 42, Quad(0x3575227e, 0xfadcaa38, 0x11de1779, 0x5a2f5ea5), 0, 16, 0xd4ef3085, 0x31c465ca);
    Next(q, x, 43, Quad(0x5a2f5ea5, 0x31c465ca, 0xfadcaa38, 0x11de1779), 0, 23, 0x4881d05, 0x4c6124f4);
    Next(q, x, 44, Quad(0x11de1779, 0x4c6124f4, 0x31c465ca, 0xfadcaa38), 0, 4, 0xd9d4d039, 0x7f2e507b);
    Next(q, x, 45, Quad(0xfadcaa38, 0x7f2e507b, 0x4c6124f4, 0x31c465ca), 0, 11, 0xe6db99e5, 0x99d9679d);
    Next(q, x, 46, Quad(0x31c465ca, 0x99d9679d, 0x7f2e507b, 0x4c6124f4), 0, 16, 0x1fa27cf8, 0x8fae6399);
    Next(q, x, 47, Quad(0x4c6124f4, 0x8fae6399, 0x99d9679d, 0x7f2e507b), 0, 23, 0xc4ac5665, 0x7beb9700);
  }

  lemma AbcRound4(q: Quad, x: seq<word>)
    requires x == AbcBlock() && q == Quad(0x67452301, 0xefcdab89, 0x98badcfe, 0x10325476)
    ensures Operations(q, x, 0, 64) == Quad(0x310ade8f, 0xc08226b3, 0xe484b9d8, 0x624d8cb2)
  {
    AbcRound3(q, x);
    AbcBlockIs();
    Constants4();
    WordIndices4();
    hide T, Shift, WordIndex, Operations, AbcBlock;
    Next(q, x, 48, Quad(0x7f2e507b, 0x7beb9700, 0x8fae6399, 0x99d9679d), 0x80636261, 6, 0xf4292244, 0x7b201df8);
    Next(q, x, 49, Quad(0x99d9679d, 0x7b201df8, 0x7beb9700, 0x8fae6399), 0, 10, 0x432aff97, 0xf4e8e96e);
    Next(q, x, 50, Quad(0x8fae6399, 0xf4e8e96e, 0x7b201df8, 0x7beb9700), 0x18, 15, 0xab9423a7, 0xb298cefd);
    Next(q, x, 51, Quad(0x7beb9700, 0xb298cefd, 0xf4e8e96e, 0x7b201df8), 0, 21, 0xfc93a039, 0x8bf025c4);
    Next(q, x, 52, Quad(0x7b201df8, 0x8bf025c4, 0xb298cefd, 0xf4e8e96e), 0, 6, 0x655b59c3, 0x6cc5e8a);
    Next(q, x, 53, Quad(0xf4e8e96e, 0x6cc5e8a, 0x8bf025c4, 0xb298cefd), 0, 10, 0x8f0ccc92, 0x5b0d97aa);
    Next(q, x, 54, Quad(0xb298cefd, 0x5b0d97aa, 0x6cc5e8a, 0x8bf025c4), 0, 15, 0xffeff47d, 0x7d632dd0);
    Next(q, x, 55, Quad(0x8bf025c4, 0x7d632dd0, 0x5b0d97aa, 0x6cc5e8a), 0, 21, 0x85845dd1, 0x3bfa2c27);
    Next(q, x, 56, Quad(0x6cc5e8a, 0x3bfa2c27, 0x7d632dd0, 0x5b0d97aa), 0, 6, 0x6fa87e4f, 0x7f81cc35);
    Next(q, x, 57, Quad(0x5b0d97aa, 0x7f81cc35, 0x3bfa2c27, 0x7d632dd0), 0, 10, 0xfe2ce6e0, 0x94454ab);
    Next(q, x, 58, Quad(0x7d632dd0, 0x94454ab, 0x7f81cc35, 0x3bfa2c27), 0, 15, 0xa3014314, 0x4f9dbe3f);
    Next(q, x, 59, Quad(0x3bfa2c27, 0x4f9dbe3f, 0x94454ab, 0x7f81cc35), 0, 21, 0x4e0811a1, 0x7327d604);
    Next(q, x, 60, Quad(0x7f81cc35, 0x7327d604, 0x4f9dbe3f, 0x94454ab), 0, 6, 0xf7537e82, 0x310ade8f);
    Next(q, x, 61, Quad(0x94454ab, 0x310ade8f, 0x7327d604, 0x4f9dbe3f), 0, 10, 0xbd3af235, 0x624d8cb2);
    Next(q, x, 62, Quad(0x4f9dbe3f, 0x624d8cb2, 0x310ade8f, 0x7327d604), 0, 15, 0x2ad7d2bb, 0xe484b9d8);
    Next(q, x, 63, Quad(0x7327d604, 0xe484b9d8, 0x624d8cb2, 0x310ade8f), 0, 21, 0xeb86d391, 0xc08226b3);
  }

  lemma AbcWord0(p: seq<byte>)
    requires |p| == 64 && p[0] == 0x61 && p[1] == 0x62 && p[2] == 0x63 && p[3] == 0x80
    ensures DecodeWord(p, 0) == 0x80636261
  {
  }

  lemma AbcWord14(p: seq<byte>)
    requires |p| == 64 && p[56] == 0x18 && p[57] == 0x00 && p[58] == 0x00 && p[59] == 0x00
    ensures DecodeWord(p, 56) == 0x18
  {
  }

  lemma AbcWords()
    ensures |Padded([0x61, 0x62, 0x63])| == 64 && Words(Padded([0x61, 0x62, 0x63])) == AbcBlock()
  {
    var m: seq<byte> := [0x61, 0x62, 0x63];
    var p := Padded(m);
    AbcBlockIs();
    ShortPadded(m);
    hide Padded, AbcBlock, DecodeWord;
    AbcWord0(p);
    AbcWord14(p);
    forall i | 0 <= i < 16 && i != 0 && i != 14 ensures DecodeWord(p, 4 * i) == 0 {
      NoWord(p, 4 * i);
    }
    BlockWords(p, AbcBlock());
  }

  lemma AbcBytes()
    ensures EncodeWord(0x98500190 as word as int) == [0x90, 0x01, 0x50, 0x98]
    ensures EncodeWord(0xb04fd23c as word as int) == [0x3c, 0xd2, 0x4f, 0xb0]
    ensures EncodeWord(0x7d3f96d6 as word as int) == [0xd6, 0x96, 0x3f, 0x7d]
    ensures EncodeWord(0x727fe128 as word as int) == [0x28, 0xe1, 0x7f, 0x72]
  {
  }

  lemma AbcSum()
    ensures AddQuads(InitialState(), Quad(0x310ade8f, 0xc08226b3, 0xe484b9d8, 0x624d8cb2)) == Quad(0x98500190, 0xb04fd23c, 0x7d3f96d6, 0x727fe128)
    ensures InitialState() == Quad(0x67452301, 0xefcdab89, 0x98badcfe, 0x10325476)
  {
  }

  /** The digest of the text abc. */
  lemma AbcDigest()
    ensures Digest([0x61, 0x62, 0x63]) == [0x90, 0x01, 0x50, 0x98, 0x3c, 0xd2, 0x4f, 0xb0, 0xd6, 0x96, 0x3f, 0x7d, 0x28, 0xe1, 0x7f, 0x72]
  {
    hide *;
    var q, x := InitialState(), AbcBlock();
    AbcWords();
    AbcSum();
    AbcRound4(q, x);
    OneBlock([0x61, 0x62, 0x63], x);
    QuadBytesAre(0x98500190, 0xb04fd23c, 0x7d3f96d6, 0x727fe128);
    AbcBytes();
  }
}
