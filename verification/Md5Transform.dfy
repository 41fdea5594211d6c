/**
 The MD5 compression function: the table-driven definition of section 3.4 of RFC 1321,
 and the unrolled code, proved to compute it.
 */
module Md5Transform {
  import opened Bytes

  type word = bv32

  function F(x: word, y: word, z: word): word { (x & y) | (!x & z) }

  function G(x: word, y: word, z: word): word { (x & z) | (y & !z) }

  function H(x: word, y: word, z: word): word { x ^ y ^ z }

  function I(x: word, y: word, z: word): word { y ^ (x | !z) }

  function RotateLeft(x: word, n: word): word
    requires n <= 32
  {
    (x << n) | (x >> (32 - n))
  }

  /** The auxiliary functions, place by place: where x has ones F takes y, elsewhere z. */
  lemma FChooses(x: word, y: word, z: word)
    ensures F(x, y, z) & x == y & x && F(x, y, z) & !x == z & !x
  {
  }

  /** Where z has ones G takes x, elsewhere y. */
  lemma GChooses(x: word, y: word, z: word)
    ensures G(x, y, z) & z == x & z && G(x, y, z) & !z == y & !z
  {
  }

  /** H is the parity: z where x and y agree, its inverse where they do not. */
  lemma HIsParity(x: word, y: word, z: word)
    ensures H(x, y, z) & !(x ^ y) == z & !(x ^ y) && H(x, y, z) & (x ^ y) == !z & (x ^ y)
  {
  }

  /** I inverts y where x has a one or z a zero. */
  lemma IInverts(x: word, y: word, z: word)
    ensures I(x, y, z) & x == !y & x && I(x, y, z) & !z == !y & !z && I(x, y, z) & !x & z == y & !x & z
  {
  }

  /** Bit k, counted from the lowest. */
  function Bit(x: word, k: word): word
    requires k < 32
  {
    (x >> k) & 1
  }

  /** Rotating by n moves every bit up by n places, those at the top to the bottom. */
  lemma RotationMovesBits(x: word, n: word, k: word)
    requires n < 32 && k < 32
    ensures Bit(RotateLeft(x, n), k) == Bit(x, if k >= n then k - n else k + 32 - n)
  {
    hide Bit, RotateLeft;
    if k >= n {
      RotatedUp(x, n, k);
    } else {
      RotatedRound(x, n, k);
    }
  }

  lemma RotatedUp(x: word, n: word, k: word)
    requires n <= k < 32
    ensures Bit(RotateLeft(x, n), k) == Bit(x, k - n)
  {
  }

  lemma RotatedRound(x: word, n: word, k: word)
    requires k < n < 32
    ensures Bit(RotateLeft(x, n), k) == Bit(x, k + 32 - n)
  {
  }

  // ---------------------------------------------------------------- the definition

  function T1(): seq<word> { [
    0xd76aa478, 0xe8c7b756, 0x242070db, 0xc1bdceee, 0xf57c0faf, 0x4787c62a, 0xa8304613, 0xfd469501,
    0x698098d8, 0x8b44f7af, 0xffff5bb1, 0x895cd7be, 0x6b901122, 0xfd987193, 0xa679438e, 0x49b40821] }
  function T2(): seq<word> { [
    0xf61e2562, 0xc040b340, 0x265e5a51, 0xe9b6c7aa, 0xd62f105d, 0x2441453, 0xd8a1e681, 0xe7d3fbc8,
    0x21e1cde6, 0xc33707d6, 0xf4d50d87, 0x455a14ed, 0xa9e3e905, 0xfcefa3f8, 0x676f02d9, 0x8d2a4c8a] }
  function T3(): seq<word> { [
    0xfffa3942, 0x8771f681, 0x6d9d6122, 0xfde5380c, 0xa4beea44, 0x4bdecfa9, 0xf6bb4b60, 0xbebfbc70,
    0x289b7ec6, 0xeaa127fa, 0xd4ef3085, 0x4881d05, 0xd9d4d039, 0xe6db99e5, 0x1fa27cf8, 0xc4ac5665] }
  function T4(): seq<word> { [
    0xf4292244, 0x432aff97, 0xab9423a7, 0xfc93a039, 0x655b59c3, 0x8f0ccc92, 0xffeff47d, 0x85845dd1,
    0x6fa87e4f, 0xfe2ce6e0, 0xa3014314, 0x4e0811a1, 0xf7537e82, 0xbd3af235, 0x2ad7d2bb, 0xeb86d391] }

  /** The table T, counted from 0. */
  function T(i: nat): word
    requires i < 64
  {
    if i < 16 then T1()[i] else if i < 32 then T2()[i - 16] else if i < 48 then T3()[i - 32] else T4()[i - 48]
  }

  /** The message word operation i uses. */
  function WordIndex(i: nat): (k: nat)
    requires i < 64
    ensures k < 16
  {
    if i < 16 then i else if i < 32 then (5 * i + 1) % 16 else if i < 48 then (3 * i + 5) % 16 else 7 * i % 16
  }

  /** How far operation i rotates. */
  function Shift(i: nat): (s: word)
    requires i < 64
    ensures s <= 32
  {
    if i < 16 then [7, 12, 17, 22][i % 4]
    else if i < 32 then [5, 9, 14, 20][i % 4]
    else if i < 48 then [4, 11, 16, 23][i % 4]
    else [6, 10, 15, 21][i % 4]
  }

  function Auxiliary(i: nat, x: word, y: word, z: word): word {
    if i < 16 then F(x, y, z) else if i < 32 then G(x, y, z) else if i < 48 then H(x, y, z) else I(x, y, z)
  }

  datatype Quad = Quad(a: word, b: word, c: word, d: word)

  /** b + ((a + f + x + t) <<< s) */
  function Mix(a: word, b: word, f: word, x: word, s: word, t: word): word
    requires s <= 32
  {
    b + RotateLeft(a + f + x + t, s)
  }

  /** Operation i: the roles of the four words rotate by one. */
  function Operation(q: Quad, x: seq<word>, i: nat): Quad
    requires |x| == 16 && i < 64
  {
    Quad(q.d, Mix(q.a, q.b, Auxiliary(i, q.b, q.c, q.d), x[WordIndex(i)], Shift(i), T(i)), q.b, q.c)
  }

  /** Operations lo..hi-1 in turn. */
  function Operations(q: Quad, x: seq<word>, lo: nat, hi: nat): Quad
    requires |x| == 16 && lo <= hi <= 64
    decreases hi
  {
    if lo == hi then q else Operation(Operations(q, x, lo, hi - 1), x, hi - 1)
  }

  function AddQuads(p: Quad, q: Quad): Quad {
    Quad(p.a + q.a, p.b + q.b, p.c + q.c, p.d + q.d)
  }

  function Compress(q: Quad, x: seq<word>): Quad
    requires |x| == 16
  {
    AddQuads(q, Operations(q, x, 0, 4 * |x|))
  }

  lemma {:induction false} OperationsSplit(q: Quad, x: seq<word>, lo: nat, mid: nat, hi: nat)
    requires |x| == 16 && lo <= mid <= hi <= 64
    ensures Operations(q, x, lo, hi) == Operations(Operations(q, x, lo, mid), x, mid, hi)
    decreases hi
  {
    if mid < hi { OperationsSplit(q, x, lo, mid, hi - 1); }
  }

  lemma FourMore(q: Quad, x: seq<word>, lo: nat, n: nat)
    requires |x| == 16 && lo <= n <= 60
    ensures Operations(q, x, lo, n + 4) ==
            Operation(Operation(Operation(Operation(Operations(q, x, lo, n), x, n), x, n + 1), x, n + 2), x, n + 3)
  {
    hide Operation;
    assert Operations(q, x, lo, n + 1) == Operation(Operations(q, x, lo, n), x, n);
    assert Operations(q, x, lo, n + 2) == Operation(Operations(q, x, lo, n + 1), x, n + 1);
    assert Operations(q, x, lo, n + 3) == Operation(Operations(q, x, lo, n + 2), x, n + 2);
  }

  lemma OperationsNone(q: Quad, x: seq<word>, n: nat)
    requires |x| == 16 && n <= 64
    ensures Operations(q, x, n, n) == q
  {
  }

  /** The same four, in the words the code updates in turn. */
  lemma FourMixed(q: Quad, x: seq<word>, lo: nat, n: nat, p: Quad)
    requires |x| == 16 && lo <= n <= 60 && p == Operations(q, x, lo, n)
    ensures var a := Mix(p.a, p.b, Auxiliary(n, p.b, p.c, p.d), x[WordIndex(n)], Shift(n), T(n));
            var d := Mix(p.d, a, Auxiliary(n + 1, a, p.b, p.c), x[WordIndex(n + 1)], Shift(n + 1), T(n + 1));
            var c := Mix(p.c, d, Auxiliary(n + 2, d, a, p.b), x[WordIndex(n + 2)], Shift(n + 2), T(n + 2));
            var b := Mix(p.b, c, Auxiliary(n + 3, c, d, a), x[WordIndex(n + 3)], Shift(n + 3), T(n + 3));
            Operations(q, x, lo, n + 4) == Quad(a, b, c, d)
  {
    FourMore(q, x, lo, n);
    hide Operations, Mix, Auxiliary, WordIndex, Shift, T;
  }

  // ---------------------------------------------------------------- the code

  lemma Reordered(a: word, f: word, x: word, t: word)
    ensures a + (f + x + t) == a + f + x + t
  {
  }

  lemma Swapped(a: word, b: word)
    ensures a + b == b + a
  {
  }

  /** The body the four macros share: a += f + x + ac; a = rotate_left(a, s); a += b. */
  function Macro(a: word, b: word, f: word, x: word, s: word, ac: word): word
    requires s <= 32
  {
    var a1 := a + (f + x + ac);
    var a2 := RotateLeft(a1, s);
    a2 + b
  }

  lemma MacroIsMix(a: word, b: word, f: word, x: word, s: word, ac: word)
    requires s <= 32
    ensures Macro(a, b, f, x, s, ac) == Mix(a, b, f, x, s, ac)
  {
    hide RotateLeft;
    Reordered(a, f, x, ac);
    Swapped(RotateLeft(a + f + x + ac, s), b);
  }

  function FF(a: word, b: word, c: word, d: word, x: word, s: word, ac: word): (r: word)
    requires s <= 32
    ensures r == Mix(a, b, F(b, c, d), x, s, ac)
  {
    MacroIsMix(a, b, F(b, c, d), x, s, ac);
    Macro(a, b, F(b, c, d), x, s, ac)
  }

  function GG(a: word, b: word, c: word, d: word, x: word, s: word, ac: word): (r: word)
    requires s <= 32
    ensures r == Mix(a, b, G(b, c, d), x, s, ac)
  {
    MacroIsMix(a, b, G(b, c, d), x, s, ac);
    Macro(a, b, G(b, c, d), x, s, ac)
  }

  function HH(a: word, b: word, c: word, d: word, x: word, s: word, ac: word): (r: word)
    requires s <= 32
    ensures r == Mix(a, b, H(b, c, d), x, s, ac)
  {
    MacroIsMix(a, b, H(b, c, d), x, s, ac);
    Macro(a, b, H(b, c, d), x, s, ac)
  }

  function II(a: word, b: word, c: word, d: word, x: word, s: word, ac: word): (r: word)
    requires s <= 32
    ensures r == Mix(a, b, I(b, c, d), x, s, ac)
  {
    MacroIsMix(a, b, I(b, c, d), x, s, ac);
    Macro(a, b, I(b, c, d), x, s, ac)
  }

  /** The constants of round 1. */
  lemma Constants1()
    ensures T(0) == 0xd76aa478 && T(1) == 0xe8c7b756 && T(2) == 0x242070db && T(3) == 0xc1bdceee
    ensures Shift(0) == 7 && Shift(1) == 12 && Shift(2) == 17 && Shift(3) == 22
    ensures T(4) == 0xf57c0faf && T(5) == 0x4787c62a && T(6) == 0xa8304613 && T(7) == 0xfd469501
    ensures Shift(4) == 7 && Shift(5) == 12 && Shift(6) == 17 && Shift(7) == 22
    ensures T(8) == 0x698098d8 && T(9) == 0x8b44f7af && T(10) == 0xffff5bb1 && T(11) == 0x895cd7be
    ensures Shift(8) == 7 && Shift(9) == 12 && Shift(10) == 17 && Shift(11) == 22
    ensures T(12) == 0x6b901122 && T(13) == 0xfd987193 && T(14) == 0xa679438e && T(15) == 0x49b40821
    ensures Shift(12) == 7 && Shift(13) == 12 && Shift(14) == 17 && Shift(15) == 22
  {
  }

  /** The constants of round 2. */
  lemma Constants2()
    ensures T(16) == 0xf61e2562 && T(17) == 0xc040b340 && T(18) == 0x265e5a51 && T(19) == 0xe9b6c7aa
    ensures Shift(16) == 5 && Shift(17) == 9 && Shift(18) == 14 && Shift(19) == 20
    ensures T(20) == 0xd62f105d && T(21) == 0x2441453 && T(22) == 0xd8a1e681 && T(23) == 0xe7d3fbc8
    ensures Shift(20) == 5 && Shift(21) == 9 && Shift(22) == 14 && Shift(23) == 20
    ensures T(24) == 0x21e1cde6 && T(25) == 0xc33707d6 && T(26) == 0xf4d50d87 && T(27) == 0x455a14ed
    ensures Shift(24) == 5 && Shift(25) == 9 && Shift(26) == 14 && Shift(27) == 20
    ensures T(28) == 0xa9e3e905 && T(29) == 0xfcefa3f8 && T(30) == 0x676f02d9 && T(31) == 0x8d2a4c8a
    ensures Shift(28) == 5 && Shift(29) == 9 && Shift(30) == 14 && Shift(31) == 20
  {
  }

  /** The constants of round 3. */
  lemma Constants3()
    ensures T(32) == 0xfffa3942 && T(33) == 0x8771f681 && T(34) == 0x6d9d6122 && T(35) == 0xfde5380c
    ensures Shift(32) == 4 && Shift(33) == 11 && Shift(34) == 16 && Shift(35) == 23
    ensures T(36) == 0xa4beea44 && T(37) == 0x4bdecfa9 && T(38) == 0xf6bb4b60 && T(39) == 0xbebfbc70
    ensures Shift(36) == 4 && Shift(37) == 11 && Shift(38) == 16 && Shift(39) == 23
    ensures T(40) == 0x289b7ec6 && T(41) == 0xeaa127fa && T(42) == 0xd4ef3085 && T(43) == 0x4881d05
    ensures Shift(40) == 4 && Shift(41) == 11 && Shift(42) == 16 && Shift(43) == 23
    ensures T(44) == 0xd9d4d039 && T(45) == 0xe6db99e5 && T(46) == 0x1fa27cf8 && T(47) == 0xc4ac5665
    ensures Shift(44) == 4 && Shift(45) == 11 && Shift(46) == 16 && Shift(47) == 23
  {
  }

  /** The constants of round 4. */
  lemma Constants4()
    ensures T(48) == 0xf4292244 && T(49) == 0x432aff97 && T(50) == 0xab9423a7 && T(51) == 0xfc93a039
    ensures Shift(48) == 6 && Shift(49) == 10 && Shift(50) == 15 && Shift(51) == 21
    ensures T(52) == 0x655b59c3 && T(53) == 0x8f0ccc92 && T(54) == 0xffeff47d && T(55) == 0x85845dd1
    ensures Shift(52) == 6 && Shift(53) == 10 && Shift(54) == 15 && Shift(55) == 21
    ensures T(56) == 0x6fa87e4f && T(57) == 0xfe2ce6e0 && T(58) == 0xa3014314 && T(59) == 0x4e0811a1
    ensures Shift(56) == 6 && Shift(57) == 10 && Shift(58) == 15 && Shift(59) == 21
    ensures T(60) == 0xf7537e82 && T(61) == 0xbd3af235 && T(62) == 0x2ad7d2bb && T(63) == 0xeb86d391
    ensures Shift(60) == 6 && Shift(61) == 10 && Shift(62) == 15 && Shift(63) == 21
  {
  }

  /** Round 1 takes the message words in this order. */
  lemma WordIndices1()
    ensures WordIndex(0) == 0 && WordIndex(1) == 1 && WordIndex(2) == 2 && WordIndex(3) == 3
    ensures WordIndex(4) == 4 && WordIndex(5) == 5 && WordIndex(6) == 6 && WordIndex(7) == 7
    ensures WordIndex(8) == 8 && WordIndex(9) == 9 && WordIndex(10) == 10 && WordIndex(11) == 11
    ensures WordIndex(12) == 12 && WordIndex(13) == 13 && WordIndex(14) == 14 && WordIndex(15) == 15
  {
  }

  /** Round 2 takes the message words in this order. */
  lemma WordIndices2()
    ensures WordIndex(16) == 1 && WordIndex(17) == 6 && WordIndex(18) == 11 && WordIndex(19) == 0
    ensures WordIndex(20) == 5 && WordIndex(21) == 10 && WordIndex(22) == 15 && WordIndex(23) == 4
    ensures WordIndex(24) == 9 && WordIndex(25) == 14 && WordIndex(26) == 3 && WordIndex(27) == 8
    ensures WordIndex(28) == 13 && WordIndex(29) == 2 && WordIndex(30) == 7 && WordIndex(31) == 12
  {
  }

  /** Round 3 takes the message words in this order. */
  lemma WordIndices3()
    ensures WordIndex(32) == 5 && WordIndex(33) == 8 && WordIndex(34) == 11 && WordIndex(35) == 14
    ensures WordIndex(36) == 1 && WordIndex(37) == 4 && WordIndex(38) == 7 && WordIndex(39) == 10
    ensures WordIndex(40) == 13 && WordIndex(41) == 0 && WordIndex(42) == 3 && WordIndex(43) == 6
    ensures WordIndex(44) == 9 && WordIndex(45) == 12 && WordIndex(46) == 15 && WordIndex(47) == 2
  {
  }

  /** Round 4 takes the message words in this order. */
  lemma WordIndices4()
    ensures WordIndex(48) == 0 && WordIndex(49) == 7 && WordIndex(50) == 14 && WordIndex(51) == 5
    ensures WordIndex(52) == 12 && WordIndex(53) == 3 && WordIndex(54) == 10 && WordIndex(55) == 1
    ensures WordIndex(56) == 8 && WordIndex(57) == 15 && WordIndex(58) == 6 && WordIndex(59) == 13
    ensures WordIndex(60) == 4 && WordIndex(61) == 11 && WordIndex(62) == 2 && WordIndex(63) == 9
  {
  }

  /** Operations 0 to 15. */
  method Round1(q: Quad, x: seq<word>) returns (r: Quad)
    requires |x| == 16
    ensures r == Operations(q, x, 0, 16)
  {
    Constants1();
    WordIndices1();
    hide T, Shift, WordIndex;
    hide RotateLeft, F, G, H, I, Macro, Mix, FF, GG, HH, II, Operation, Operations;
    var a, b, c, d := q.a, q.b, q.c, q.d;
    OperationsNone(q, x, 0);
    FourMixed(q, x, 0, 0, Quad(a, b, c, d));
    a := FF(a, b, c, d, x[0], 7, 0xd76aa478);
    d := FF(d, a, b, c, x[1], 12, 0xe8c7b756);
    c := FF(c, d, a, b, x[2], 17, 0x242070db);
    b := FF(b, c, d, a, x[3], 22, 0xc1bdceee);
    assert Quad(a, b, c, d) == Operations(q, x, 0, 4);
    FourMixed(q, x, 0, 4, Quad(a, b, c, d));
    a := FF(a, b, c, d, x[4], 7, 0xf57c0faf);
    d := FF(d, a, b, c, x[5], 12, 0x4787c62a);
    c := FF(c, d, a, b, x[6], 17, 0xa8304613);
    b := FF(b, c, d, a, x[7], 22, 0xfd469501);
    assert Quad(a, b, c, d) == Operations(q, x, 0, 8);
    FourMixed(q, x, 0, 8, Quad(a, b, c, d));
    a := FF(a, b, c, d, x[8], 7, 0x698098d8);
    d := FF(d, a, b, c, x[9], 12, 0x8b44f7af);
    c := FF(c, d, a, b, x[10], 17, 0xffff5bb1);
    b := FF(b, c, d, a, x[11], 22, 0x895cd7be);
    assert Quad(a, b, c, d) == Operations(q, x, 0, 12);
    FourMixed(q, x, 0, 12, Quad(a, b, c, d));
    a := FF(a, b, c, d, x[12], 7, 0x6b901122);
    d := FF(d, a, b, c, x[13], 12, 0xfd987193);
    c := FF(c, d, a, b, x[14], 17, 0xa679438e);
    b := FF(b, c, d, a, x[15], 22, 0x49b40821);
    assert Quad(a, b, c, d) == Operations(q, x, 0, 16);
    r := Quad(a, b, c, d);
  }

  /** Operations 16 to 31. */
  method Round2(q: Quad, x: seq<word>) returns (r: Quad)
    requires |x| == 16
    ensures r == Operations(q, x, 16, 32)
  {
    Constants2();
    WordIndices2();
    hide T, Shift, WordIndex;
    hide RotateLeft, F, G, H, I, Macro, Mix, FF, GG, HH, II, Operation, Operations;
    var a, b, c, d := q.a, q.b, q.c, q.d;
    OperationsNone(q, x, 16);
    FourMixed(q, x, 16, 16, Quad(a, b, c, d));
    a := GG(a, b, c, d, x[1], 5, 0xf61e2562);
    d := GG(d, a, b, c, x[6], 9, 0xc040b340);
    c := GG(c, d, a, b, x[11], 14, 0x265e5a51);
    b := GG(b, c, d, a, x[0], 20, 0xe9b6c7aa);
    assert Quad(a, b, c, d) == Operations(q, x, 16, 20);
    FourMixed(q, x, 16, 20, Quad(a, b, c, d));
    a := GG(a, b, c, d, x[5], 5, 0xd62f105d);
    d := GG(d, a, b, c, x[10], 9, 0x2441453);
    c := GG(c, d, a, b, x[15], 14, 0xd8a1e681);
    b := GG(b, c, d, a, x[4], 20, 0xe7d3fbc8);
    assert Quad(a, b, c, d) == Operations(q, x, 16, 24);
    FourMixed(q, x, 16, 24, Quad(a, b, c, d));
    a := GG(a, b, c, d, x[9], 5, 0x21e1cde6);
    d := GG(d, a, b, c, x[14], 9, 0xc33707d6);
    c := GG(c, d, a, b, x[3], 14, 0xf4d50d87);
    b := GG(b, c, d, a, x[8], 20, 0x455a14ed);
    assert Quad(a, b, c, d) == Operations(q, x, 16, 28);
    FourMixed(q, x, 16, 28, Quad(a, b, c, d));
    a := GG(a, b, c, d, x[13], 5, 0xa9e3e905);
    d := GG(d, a, b, c, x[2], 9, 0xfcefa3f8);
    c := GG(c, d, a, b, x[7], 14, 0x676f02d9);
    b := GG(b, c, d, a, x[12], 20, 0x8d2a4c8a);
    assert Quad(a, b, c, d) == Operations(q, x, 16, 32);
    r := Quad(a, b, c, d);
  }

  /** Operations 32 to 47. */
  method Round3(q: Quad, x: seq<word>) returns (r: Quad)
    requires |x| == 16
    ensures r == Operations(q, x, 32, 48)
  {
    Constants3();
    WordIndices3();
    hide T, Shift, WordIndex;
    hide RotateLeft, F, G, H, I, Macro, Mix, FF, GG, HH, II, Operation, Operations;
    var a, b, c, d := q.a, q.b, q.c, q.d;
    OperationsNone(q, x, 32);
    FourMixed(q, x, 32, 32, Quad(a, b, c, d));
    a := HH(a, b, c, d, x[5], 4, 0xfffa3942);
    d := HH(d, a, b, c, x[8], 11, 0x8771f681);
    c := HH(c, d, a, b, x[11], 16, 0x6d9d6122);
    b := HH(b, c, d, a, x[14], 23, 0xfde5380c);
    assert Quad(a, b, c, d) == Operations(q, x, 32, 36);
    FourMixed(q, x, 32, 36, Quad(a, b, c, d));
    a := HH(a, b, c, d, x[1], 4, 0xa4beea44);
    d := HH(d, a, b, c, x[4], 11, 0x4bdecfa9);
    c := HH(c, d, a, b, x[7], 16, 0xf6bb4b60);
    b := HH(b, c, d, a, x[10], 23, 0xbebfbc70);
    assert Quad(a, b, c, d) == Operations(q, x, 32, 40);
    FourMixed(q, x, 32, 40, Quad(a, b, c, d));
    a := HH(a, b, c, d, x[13], 4, 0x289b7ec6);
    d := HH(d, a, b, c, x[0], 11, 0xeaa127fa);
    c := HH(c, d, a, b, x[3], 16, 0xd4ef3085);
    b := HH(b, c, d, a, x[6], 23, 0x4881d05);
    assert Quad(a, b, c, d) == Operations(q, x, 32, 44);
    FourMixed(q, x, 32, 44, Quad(a, b, c, d));
    a := HH(a, b, c, d, x[9], 4, 0xd9d4d039);
    d := HH(d, a, b, c, x[12], 11, 0xe6db99e5);
    c := HH(c, d, a, b, x[15], 16, 0x1fa27cf8);
    b := HH(b, c, d, a, x[2], 23, 0xc4ac5665);
    assert Quad(a, b, c, d) == Operations(q, x, 32, 48);
    r := Quad(a, b, c, d);
  }

  /** Operations 48 to 63. */
  method Round4(q: Quad, x: seq<word>) returns (r: Quad)
    requires |x| == 16
    ensures r == Operations(q, x, 48, 64)
  {
    Constants4();
    WordIndices4();
    hide T, Shift, WordIndex;
    hide RotateLeft, F, G, H, I, Macro, Mix, FF, GG, HH, II, Operation, Operations;
    var a, b, c, d := q.a, q.b, q.c, q.d;
    OperationsNone(q, x, 48);
    FourMixed(q, x, 48, 48, Quad(a, b, c, d));
    a := II(a, b, c, d, x[0], 6, 0xf4292244);
    d := II(d, a, b, c, x[7], 10, 0x432aff97);
    c := II(c, d, a, b, x[14], 15, 0xab9423a7);
    b := II(b, c, d, a, x[5], 21, 0xfc93a039);
    assert Quad(a, b, c, d) == Operations(q, x, 48, 52);
    FourMixed(q, x, 48, 52, Quad(a, b, c, d));
    a := II(a, b, c, d, x[12], 6, 0x655b59c3);
    d := II(d, a, b, c, x[3], 10, 0x8f0ccc92);
    c := II(c, d, a, b, x[10], 15, 0xffeff47d);
    b := II(b, c, d, a, x[1], 21, 0x85845dd1);
    assert Quad(a, b, c, d) == Operations(q, x, 48, 56);
    FourMixed(q, x, 48, 56, Quad(a, b, c, d));
    a := II(a, b, c, d, x[8], 6, 0x6fa87e4f);
    d := II(d, a, b, c, x[15], 10, 0xfe2ce6e0);
    c := II(c, d, a, b, x[6], 15, 0xa3014314);
    b := II(b, c, d, a, x[13], 21, 0x4e0811a1);
    assert Quad(a, b, c, d) == Operations(q, x, 48, 60);
    FourMixed(q, x, 48, 60, Quad(a, b, c, d));
    a := II(a, b, c, d, x[4], 6, 0xf7537e82);
    d := II(d, a, b, c, x[11], 10, 0xbd3af235);
    c := II(c, d, a, b, x[2], 15, 0x2ad7d2bb);
    b := II(b, c, d, a, x[9], 21, 0xeb86d391);
    assert Quad(a, b, c, d) == Operations(q, x, 48, 64);
    r := Quad(a, b, c, d);
  }

  /** transform: the four rounds, added to the state they started from. */
  method Transform(state: Quad, x: seq<word>) returns (r: Quad)
    requires |x| == 16
    ensures r == Compress(state, x)
  {
    hide Operation;
    var q := Round1(state, x);
    q := Round2(q, x);
    q := Round3(q, x);
    q := Round4(q, x);
    r := AddQuads(state, q);
    OperationsSplit(state, x, 0, 16, 32);
    OperationsSplit(state, x, 0, 32, 48);
    OperationsSplit(state, x, 0, 48, 64);
  }
}
