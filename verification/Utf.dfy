/** Conversion of UTF-8 to big-endian UTF-16, with the legality check it relies on. */
module Utf {
  import opened Bytes

  // ---------------------------------------------------------------- the standards

  /** Unicode scalar values: code points that are not surrogates. */
  type scalar = v: int | 0 <= v < 0xD800 || 0xE000 <= v < 0x11_0000

  /** RFC 3629, section 3. */
  function Utf8(v: scalar): (s: seq<byte>)
    ensures 1 <= |s| <= 4
  {
    if v < 0x80 then [v]
    else if v < 0x800 then [0xC0 + v / 0x40, 0x80 + v % 0x40]
    else if v < 0x1_0000 then [0xE0 + v / 0x1000, 0x80 + v / 0x40 % 0x40, 0x80 + v % 0x40]
    else [0xF0 + v / 0x4_0000, 0x80 + v / 0x1000 % 0x40, 0x80 + v / 0x40 % 0x40, 0x80 + v % 0x40]
  }

  function Unit16(u: int): seq<byte>
    requires 0 <= u < 0x1_0000
  {
    [u / 0x100, u % 0x100]
  }

  /** RFC 2781, section 2.1, in network byte order. */
  function Utf16BE(v: scalar): seq<byte> {
    if v < 0x1_0000 then Unit16(v)
    else Unit16(0xD800 + (v - 0x1_0000) / 0x400) + Unit16(0xDC00 + (v - 0x1_0000) % 0x400)
  }

  function Utf8All(vs: seq<scalar>): seq<byte> {
    if vs == [] then [] else Utf8(vs[0]) + Utf8All(vs[1..])
  }

  function Utf16All(vs: seq<scalar>): seq<byte> {
    if vs == [] then [] else Utf16BE(vs[0]) + Utf16All(vs[1..])
  }

  predicate Tail(b: byte) { 0x80 <= b <= 0xBF }

  /** The syntax of one character, RFC 3629, section 4. */
  predicate WellFormed(s: seq<byte>) {
    || (|s| == 1 && s[0] <= 0x7F)
    || (|s| == 2 && 0xC2 <= s[0] <= 0xDF && Tail(s[1]))
    || (|s| == 3 && Tail(s[2]) &&
        ((s[0] == 0xE0 && 0xA0 <= s[1] <= 0xBF) || (0xE1 <= s[0] <= 0xEC && Tail(s[1])) ||
         (s[0] == 0xED && 0x80 <= s[1] <= 0x9F) || (0xEE <= s[0] <= 0xEF && Tail(s[1]))))
    || (|s| == 4 && Tail(s[2]) && Tail(s[3]) &&
        ((s[0] == 0xF0 && 0x90 <= s[1] <= 0xBF) || (0xF1 <= s[0] <= 0xF3 && Tail(s[1])) ||
         (s[0] == 0xF4 && 0x80 <= s[1] <= 0x8F)))
  }

  // ---------------------------------------------------------------- the code

  /** trailingBytesForUTF8 */
  function TrailingBytes(b: byte): (n: nat)
    ensures n <= 5
  {
    if b < 0xC0 then 0 else if b < 0xE0 then 1 else if b < 0xF0 then 2
    else if b < 0xF8 then 3 else if b < 0xFC then 4 else 5
  }

  /** isLegalUTF8, case by case with its fall-through. */
  predicate IsLegal(s: seq<byte>)
    requires s != []
  {
    && |s| <= 4
    && (|s| >= 4 ==> !(s[3] < 0x80 || s[3] > 0xBF))
    && (|s| >= 3 ==> !(s[2] < 0x80 || s[2] > 0xBF))
    && (|s| >= 2 ==>
          && !(s[1] > 0xBF)
          && (if s[0] == 0xE0 then !(s[1] < 0xA0)
              else if s[0] == 0xED then !(s[1] > 0x9F)
              else if s[0] == 0xF0 then !(s[1] < 0x90)
              else if s[0] == 0xF4 then !(s[1] > 0x8F)
              else !(s[1] < 0x80)))
    && !(0x80 <= s[0] < 0xC2)
    && !(s[0] > 0xF4)
  }

  /** The two families of ill-formed sequences that pass: the second byte has no lower bound. */
  predicate PassesIllFormed(s: seq<byte>) {
    || (|s| == 3 && s[0] == 0xED && s[1] < 0x80 && Tail(s[2]))
    || (|s| == 4 && s[0] == 0xF4 && s[1] < 0x80 && Tail(s[2]) && Tail(s[3]))
  }

  /** On sequences of the length their first byte announces, exactly these pass the check. */
  lemma LegalExactly(s: seq<byte>)
    requires s != [] && |s| == TrailingBytes(s[0]) + 1
    ensures IsLegal(s) <==> WellFormed(s) || PassesIllFormed(s)
    ensures !(WellFormed(s) && PassesIllFormed(s))
  {
  }

  /** ED 41 80 passes the check and is no character of RFC 3629. */
  lemma IllFormedPasses()
    ensures IsLegal([0xED, 0x41, 0x80]) && !WellFormed([0xED, 0x41, 0x80])
  {
  }

  /** offsetsFromUTF8 */
  function Offset(extra: nat): nat
    requires extra <= 5
  {
    if extra == 0 then 0 else if extra == 1 then 0x3080 else if extra == 2 then 0xE_2080
    else if extra == 3 then 0x3C8_2080 else if extra == 4 then 0xFA08_2080 else 0x8208_2080
  }

  /** The shifted sum of the bytes less the table's offset, in 32 bits. */
  function CodePoint(s: seq<byte>): (ch: nat)
    requires 1 <= |s| <= 4
    ensures ch < 0x1_0000_0000
  {
    (ShiftedSum(s) - Offset(|s| - 1)) % 0x1_0000_0000
  }

  function ShiftedSum(s: seq<byte>): nat
    requires s != []
  {
    if |s| == 1 then s[0] else ShiftedSum(s[..|s| - 1]) * 0x40 + s[|s| - 1]
  }

  /** What is written for a code point; surrogates and values beyond Unicode become a space. */
  function Output(ch: nat): seq<byte>
    requires ch < 0x1_0000_0000
  {
    if ch <= 0xFFFF then Unit16(if 0xD800 <= ch <= 0xDFFF then 0x20 else ch)
    else if ch > 0x10_FFFF then Unit16(0x20)
    else
      var half := ch - 0x1_0000;
      Unit16(half / 0x400 + 0xD800) + Unit16(half % 0x400 + 0xDC00)
  }

  /** The first character of s is cut off or fails the check. */
  predicate Stops(s: seq<byte>)
    requires s != []
  {
    var n := TrailingBytes(s[0]) + 1;
    n > |s| || !IsLegal(s[..n])
  }

  /** The whole conversion; it ends silently at the first character it stops at. */
  function Convert(s: seq<byte>): seq<byte> {
    if s == [] || Stops(s) then [] else
      var n := TrailingBytes(s[0]) + 1;
      Output(CodePoint(s[..n])) + Convert(s[n..])
  }

  /** The shifted sum of one character, computed as the fall-through switch does. */
  method ReadCharacter(one: seq<byte>) returns (ch: nat)
    requires 1 <= |one| <= 4
    ensures ch == CodePoint(one)
  {
    var sum := 0;
    for i := 0 to |one| - 1
      invariant sum == if i == 0 then 0 else ShiftedSum(one[..i]) * 0x40
    {
      ShiftMore(one, i);
      sum := (sum + one[i]) * 0x40;
    }
    ShiftMore(one, |one| - 1);
    assert one[..|one|] == one;
    sum := sum + one[|one| - 1];
    ch := (sum - Offset(|one| - 1)) % 0x1_0000_0000;
  }

  method Utf8ToRawBEUtf16(s: seq<byte>) returns (out: seq<byte>)
    ensures out == Convert(s)
  {
    hide Output, CodePoint, IsLegal, Convert, Stops;
    out := [];
    var source := 0;
    assert s[0..] == s && out + Convert(s) == Convert(s);
    while source < |s|
      invariant source <= |s|
      invariant out + Convert(s[source..]) == Convert(s)
    {
      var extra := TrailingBytes(s[source]);
      ghost var rest := s[source..];
      ConvertStops(rest, out);
      if source + extra >= |s| { return; }
      var one := s[source..source + extra + 1];
      assert rest[..extra + 1] == one;
      if !IsLegal(one) { return; }
      LegalIsShort(one);
      var ch := ReadCharacter(one);
      ConvertFirst(one, s[source + extra + 1..]);
      assert rest == one + s[source + extra + 1..];
      out := out + Output(ch);
      source := source + extra + 1;
    }
    ConvertNothing(out);
    assert s[source..] == [];
  }

  lemma ConvertFirst(c: seq<byte>, rest: seq<byte>)
    requires c != [] && |c| == TrailingBytes(c[0]) + 1 && IsLegal(c)
    ensures |c| <= 4 && Convert(c + rest) == Output(CodePoint(c)) + Convert(rest)
  {
    hide Output, CodePoint;
    assert (c + rest)[..|c|] == c && (c + rest)[|c|..] == rest;
  }

  lemma ConvertNothing(out: seq<byte>)
    ensures out + Convert([]) == out
  {
  }

  lemma ConvertStops(rest: seq<byte>, out: seq<byte>)
    requires rest != []
    ensures var n := TrailingBytes(rest[0]) + 1;
            n > |rest| || !IsLegal(rest[..n]) ==> out + Convert(rest) == out
  {
  }

  lemma ShiftMore(one: seq<byte>, i: nat)
    requires i < |one|
    ensures ShiftedSum(one[..i + 1]) == (if i == 0 then 0 else ShiftedSum(one[..i]) * 0x40) + one[i]
  {
    assert i > 0 ==> one[..i + 1][..i] == one[..i];
  }

  lemma LegalIsShort(s: seq<byte>)
    requires s != [] && IsLegal(s)
    ensures |s| <= 4
  {
  }

  // ---------------------------------------------------------------- the code meets the standards

  lemma {:induction false} ShiftedSumOf(s: seq<byte>)
    requires 1 <= |s| <= 4
    ensures ShiftedSum(s) == FromDigits(s)
  {
    if |s| > 1 { ShiftedSumOf(s[..|s| - 1]); }
  }

  function FromDigits(s: seq<byte>): nat
    requires 1 <= |s| <= 4
  {
    if |s| == 1 then s[0]
    else if |s| == 2 then s[0] as int * 0x40 + s[1]
    else if |s| == 3 then s[0] as int * 0x1000 + s[1] as int * 0x40 + s[2]
    else s[0] as int * 0x4_0000 + s[1] as int * 0x1000 + s[2] as int * 0x40 + s[3]
  }

  /** The base-64 digits of a number below 2^24. */
  lemma Digits64(v: nat, a: nat, b: nat, c: nat, d: nat)
    requires b < 0x40 && c < 0x40 && d < 0x40 && v == a * 0x4_0000 + b * 0x1000 + c * 0x40 + d
    ensures v / 0x4_0000 == a && v / 0x1000 == a * 0x40 + b && v / 0x1000 % 0x40 == b
    ensures v / 0x40 == a * 0x1000 + b * 0x40 + c && v / 0x40 % 0x40 == c && v % 0x40 == d
  {
    DivModIs(v, 0x4_0000, a, b * 0x1000 + c * 0x40 + d);
    DivModIs(v, 0x1000, a * 0x40 + b, c * 0x40 + d);
    DivModIs(v, 0x40, a * 0x1000 + b * 0x40 + c, d);
    DivModIs(a * 0x40 + b, 0x40, a, b);
    DivModIs(a * 0x1000 + b * 0x40 + c, 0x40, a * 0x40 + b, c);
  }

  lemma DigitsExist(v: nat) returns (a: nat, b: nat, c: nat, d: nat)
    ensures b < 0x40 && c < 0x40 && d < 0x40 && v == a * 0x4_0000 + b * 0x1000 + c * 0x40 + d
  {
    a, b, c, d := v / 0x40 / 0x40 / 0x40, v / 0x40 / 0x40 % 0x40, v / 0x40 % 0x40, v % 0x40;
  }

  lemma EncodedIsWellFormed(v: scalar)
    ensures var s := Utf8(v);
            WellFormed(s) && |s| == TrailingBytes(s[0]) + 1 && FromDigits(s) - Offset(|s| - 1) == v
  {
    var a, b, c, d := DigitsExist(v);
    Digits64(v, a, b, c, d);
  }

  /** One encoded character is legal, has the announced length, and its code point is recovered. */
  lemma OneCharacter(v: scalar)
    ensures var s := Utf8(v);
            WellFormed(s) && |s| == TrailingBytes(s[0]) + 1 && IsLegal(s) && CodePoint(s) == v
  {
    var s := Utf8(v);
    EncodedIsWellFormed(v);
    hide Utf8;
    LegalExactly(s);
    ShiftedSumOf(s);
  }

  lemma CodePointOf(s: seq<byte>)
    requires WellFormed(s)
    ensures CodePoint(s) == FromDigits(s) - Offset(|s| - 1)
  {
    ShiftedSumOf(s);
  }

  /** Every well-formed sequence encodes the code point computed for it. */
  lemma WellFormedIsEncoded(s: seq<byte>)
    requires WellFormed(s)
    ensures var ch := CodePoint(s);
            (ch < 0xD800 || 0xE000 <= ch < 0x11_0000) && Utf8(ch) == s
  {
    CodePointOf(s);
    hide CodePoint;
    if |s| == 2 {
      Digits64(CodePoint(s), 0, 0, s[0] - 0xC0, s[1] - 0x80);
    } else if |s| == 3 {
      Digits64(CodePoint(s), 0, s[0] - 0xE0, s[1] - 0x80, s[2] - 0x80);
    } else if |s| == 4 {
      Digits64(CodePoint(s), s[0] - 0xF0, s[1] - 0x80, s[2] - 0x80, s[3] - 0x80);
    }
  }

  /** A surrogate, or a number beyond Unicode, is written as a space. */
  lemma OthersBecomeSpaces(ch: nat)
    requires 0xD800 <= ch < 0xE000 || 0x11_0000 <= ch < 0x1_0000_0000
    ensures Output(ch) == [0x00, 0x20]
  {
  }

  /** U+1F600 in both forms. */
  lemma BothForms()
    ensures Utf8(0x1_F600) == [0xF0, 0x9F, 0x98, 0x80] && Utf16BE(0x1_F600) == [0xD8, 0x3D, 0xDE, 0x00]
    ensures Utf8(0x20AC) == [0xE2, 0x82, 0xAC] && Utf16BE(0x20AC) == [0x20, 0xAC]
  {
  }

  lemma OutputOfScalar(v: scalar)
    ensures Output(v) == Utf16BE(v)
  {
  }

  /** A valid text, followed by nothing or by something the conversion stops at, becomes its UTF-16BE encoding. */
  lemma {:induction false} ConvertsValidText(vs: seq<scalar>, bad: seq<byte>)
    requires bad == [] || Stops(bad)
    ensures Convert(Utf8All(vs) + bad) == Utf16All(vs)
  {
    if vs == [] {
      assert [] + bad == bad;
    } else {
      hide Output, CodePoint, IsLegal, Utf8, Utf16BE, Convert, Stops, WellFormed;
      var c := Utf8(vs[0]);
      assert Utf8All(vs) + bad == c + (Utf8All(vs[1..]) + bad);
      OneCharacter(vs[0]);
      ConvertFirst(c, Utf8All(vs[1..]) + bad);
      OutputOfScalar(vs[0]);
      ConvertsValidText(vs[1..], bad);
    }
  }
}
