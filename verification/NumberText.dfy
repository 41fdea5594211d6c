/** Numbers as text: the definition, digit by digit, and the two-digit tables that the log stream prints from. */
module NumberText {
  import opened Bytes

  /** The digit character of a value below 16, upper-case in base 16 and lower-case in the others. */
  function DigitChar(d: nat, base: nat): char
    requires d < 16
  {
    if d < 10 then '0' + d as char else if base == 16 then 'A' + (d - 10) as char else 'a' + (d - 10) as char
  }

  /** The digits, written out: base 16 alone prints in capitals. */
  lemma DigitsAre(d: nat, base: nat)
    requires d < 16
    ensures DigitChar(d, base) == if base == 16 then "0123456789ABCDEF"[d] else "0123456789abcdef"[d]
  {
  }

  /** The digits of a number, most significant first; "0" for zero. */
  function Text(v: nat, base: nat): (s: string)
    requires 2 <= base <= 16
    ensures |s| > 0
  {
    if v < base then [DigitChar(v, base)]
    else
      Shrinks(v, base);
      Text(v / base, base) + [DigitChar(v % base, base)]
  }

  lemma Shrinks(v: nat, base: nat)
    requires base >= 2
    ensures 0 <= v / base <= v / 2 && (v > 0 ==> v / base < v) && 0 <= v % base < base
  {
    Doubles(v, v / base, base);
  }

  lemma Doubles(v: nat, q: nat, base: nat)
    requires base >= 2 && q == v / base
    ensures 2 * q <= v
  {
    assert (base - 2) * q >= 0;
  }

  /** The two-digit table for base 10, by rows of ten pairs. */
  function LutDec(r: nat): string
    requires r < 10
  {
    if r == 0 then "00010203040506070809"
    else if r == 1 then "10111213141516171819"
    else if r == 2 then "20212223242526272829"
    else if r == 3 then "30313233343536373839"
    else if r == 4 then "40414243444546474849"
    else if r == 5 then "50515253545556575859"
    else if r == 6 then "60616263646566676869"
    else if r == 7 then "70717273747576777879"
    else if r == 8 then "80818283848586878889"
    else "90919293949596979899"
  }

  /** The two-digit table for base 16, by rows of sixteen pairs. */
  function LutHex(r: nat): string
    requires r < 16
  {
    if r == 0 then "000102030405060708090A0B0C0D0E0F"
    else if r == 1 then "101112131415161718191A1B1C1D1E1F"
    else if r == 2 then "202122232425262728292A2B2C2D2E2F"
    else if r == 3 then "303132333435363738393A3B3C3D3E3F"
    else if r == 4 then "404142434445464748494A4B4C4D4E4F"
    else if r == 5 then "505152535455565758595A5B5C5D5E5F"
    else if r == 6 then "606162636465666768696A6B6C6D6E6F"
    else if r == 7 then "707172737475767778797A7B7C7D7E7F"
    else if r == 8 then "808182838485868788898A8B8C8D8E8F"
    else if r == 9 then "909192939495969798999A9B9C9D9E9F"
    else if r == 10 then "A0A1A2A3A4A5A6A7A8A9AAABACADAEAF"
    else if r == 11 then "B0B1B2B3B4B5B6B7B8B9BABBBCBDBEBF"
    else if r == 12 then "C0C1C2C3C4C5C6C7C8C9CACBCCCDCECF"
    else if r == 13 then "D0D1D2D3D4D5D6D7D8D9DADBDCDDDEDF"
    else if r == 14 then "E0E1E2E3E4E5E6E7E8E9EAEBECEDEEEF"
    else "F0F1F2F3F4F5F6F7F8F9FAFBFCFDFEFF"
  }

  // ---------------------------------------------------------------- the tables

  /** At place c of a row: the row's digit, then c's. */
  predicate IsPair(row: string, r: nat, c: nat, base: nat) {
    r < 16 && c < 16 && 2 * c + 1 < |row| && row[2 * c] == DigitChar(r, base) && row[2 * c + 1] == DigitChar(c, base)
  }

  lemma DecRow0(c: nat)
    requires c < 10
    ensures IsPair("00010203040506070809", 0, c, 10)
  {
  }

  lemma DecRow1(c: nat)
    requires c < 10
    ensures IsPair("10111213141516171819", 1, c, 10)
  {
  }

  lemma DecRow2(c: nat)
    requires c < 10
    ensures IsPair("20212223242526272829", 2, c, 10)
  {
  }

  lemma DecRow3(c: nat)
    requires c < 10
    ensures IsPair("30313233343536373839", 3, c, 10)
  {
  }

  lemma DecRow4(c: nat)
    requires c < 10
    ensures IsPair("40414243444546474849", 4, c, 10)
  {
  }

  lemma DecRow5(c: nat)
    requires c < 10
    ensures IsPair("50515253545556575859", 5, c, 10)
  {
  }

  lemma DecRow6(c: nat)
    requires c < 10
    ensures IsPair("60616263646566676869", 6, c, 10)
  {
  }

  lemma DecRow7(c: nat)
    requires c < 10
    ensures IsPair("70717273747576777879", 7, c, 10)
  {
  }

  lemma DecRow8(c: nat)
    requires c < 10
    ensures IsPair("80818283848586878889", 8, c, 10)
  {
  }

  lemma DecRow9(c: nat)
    requires c < 10
    ensures IsPair("90919293949596979899", 9, c, 10)
  {
  }

  /** The table for base 10 holds the two digits of every number below 100. */
  lemma DecPair(r: nat, c: nat)
    requires r < 10 && c < 10
    ensures IsPair(LutDec(r), r, c, 10)
  {
    hide IsPair;
    match r
    case 0 => DecRow0(c);
    case 1 => DecRow1(c);
    case 2 => DecRow2(c);
    case 3 => DecRow3(c);
    case 4 => DecRow4(c);
    case 5 => DecRow5(c);
    case 6 => DecRow6(c);
    case 7 => DecRow7(c);
    case 8 => DecRow8(c);
    case _ => DecRow9(c);
  }

  lemma HexRow0(c: nat)
    requires c < 16
    ensures IsPair("000102030405060708090A0B0C0D0E0F", 0, c, 16)
  {
  }

  lemma HexRow1(c: nat)
    requires c < 16
    ensures IsPair("101112131415161718191A1B1C1D1E1F", 1, c, 16)
  {
  }

  lemma HexRow2(c: nat)
    requires c < 16
    ensures IsPair("202122232425262728292A2B2C2D2E2F", 2, c, 16)
  {
  }

  lemma HexRow3(c: nat)
    requires c < 16
    ensures IsPair("303132333435363738393A3B3C3D3E3F", 3, c, 16)
  {
  }

  lemma HexRow4(c: nat)
    requires c < 16
    ensures IsPair("404142434445464748494A4B4C4D4E4F", 4, c, 16)
  {
  }

  lemma HexRow5(c: nat)
    requires c < 16
    ensures IsPair("505152535455565758595A5B5C5D5E5F", 5, c, 16)
  {
  }

  lemma HexRow6(c: nat)
    requires c < 16
    ensures IsPair("606162636465666768696A6B6C6D6E6F", 6, c, 16)
  {
  }

  lemma HexRow7(c: nat)
    requires c < 16
    ensures IsPair("707172737475767778797A7B7C7D7E7F", 7, c, 16)
  {
  }

  lemma HexRow8(c: nat)
    requires c < 16
    ensures IsPair("808182838485868788898A8B8C8D8E8F", 8, c, 16)
  {
  }

  lemma HexRow9(c: nat)
    requires c < 16
    ensures IsPair("909192939495969798999A9B9C9D9E9F", 9, c, 16)
  {
  }

  lemma HexRow10(c: nat)
    requires c < 16
    ensures IsPair("A0A1A2A3A4A5A6A7A8A9AAABACADAEAF", 10, c, 16)
  {
  }

  lemma HexRow11(c: nat)
    requires c < 16
    ensures IsPair("B0B1B2B3B4B5B6B7B8B9BABBBCBDBEBF", 11, c, 16)
  {
  }

  lemma HexRow12(c: nat)
    requires c < 16
    ensures IsPair("C0C1C2C3C4C5C6C7C8C9CACBCCCDCECF", 12, c, 16)
  {
  }

  lemma HexRow13(c: nat)
    requires c < 16
    ensures IsPair("D0D1D2D3D4D5D6D7D8D9DADBDCDDDEDF", 13, c, 16)
  {
  }

  lemma HexRow14(c: nat)
    requires c < 16
    ensures IsPair("E0E1E2E3E4E5E6E7E8E9EAEBECEDEEEF", 14, c, 16)
  {
  }

  lemma HexRow15(c: nat)
    requires c < 16
    ensures IsPair("F0F1F2F3F4F5F6F7F8F9FAFBFCFDFEFF", 15, c, 16)
  {
  }

  /** The table for base 16 holds the two digits of every number below 256. */
  lemma HexPair(r: nat, c: nat)
    requires r < 16 && c < 16
    ensures IsPair(LutHex(r), r, c, 16)
  {
    hide IsPair;
    match r
    case 0 => HexRow0(c);
    case 1 => HexRow1(c);
    case 2 => HexRow2(c);
    case 3 => HexRow3(c);
    case 4 => HexRow4(c);
    case 5 => HexRow5(c);
    case 6 => HexRow6(c);
    case 7 => HexRow7(c);
    case 8 => HexRow8(c);
    case 9 => HexRow9(c);
    case 10 => HexRow10(c);
    case 11 => HexRow11(c);
    case 12 => HexRow12(c);
    case 13 => HexRow13(c);
    case 14 => HexRow14(c);
    case _ => HexRow15(c);
  }

  /** The square of a table's base. */
  function Square(base: nat): nat { if base == 10 then 100 else 256 }

  /** The two characters that the tables give for a number below 100 or 256: entries 2m and 2m + 1. */
  function Pair(m: nat, base: nat): (s: string)
    requires (base == 10 || base == 16) && m < Square(base)
    ensures |s| == 2
  {
    var r, c := m / base, m % base;
    if base == 10 then DecPair(r, c); [LutDec(r)[2 * c], LutDec(r)[2 * c + 1]]
    else HexPair(r, c); [LutHex(r)[2 * c], LutHex(r)[2 * c + 1]]
  }

  lemma PairIsDigits(m: nat, base: nat)
    requires (base == 10 || base == 16) && m < Square(base)
    ensures m / base < base && Pair(m, base) == [DigitChar(m / base, base), DigitChar(m % base, base)]
  {
    if base == 10 {
      DecPair(m / base, m % base);
    } else {
      HexPair(m / base, m % base);
    }
    hide LutDec, LutHex;
  }

  /** Two digits at a time, most significant pair first: what the loops fill in, with a leading zero or not. */
  function Pairs(v: nat, base: nat): (s: string)
    requires base == 10 || base == 16
    ensures |s| >= 2
  {
    if v < Square(base) then Pair(v, base) else Pairs(v / Square(base), base) + Pair(v % Square(base), base)
  }

  lemma PairsStep(v: nat, base: nat)
    requires (base == 10 || base == 16) && v >= Square(base)
    ensures Pairs(v, base) == Pairs(v / Square(base), base) + Pair(v % Square(base), base)
  {
  }

  lemma TextStep(v: nat, base: nat, q: nat, r: nat)
    requires 2 <= base <= 16 && v == q * base + r && r < base && q > 0
    ensures Text(v, base) == Text(q, base) + [DigitChar(r, base)]
  {
    DivModIs(v, base, q, r);
    assert q * base >= base;
  }

  lemma TwoMore(v: nat, base: nat)
    requires (base == 10 || base == 16) && v >= Square(base)
    ensures Text(v, base) == Text(v / Square(base), base) + Pair(v % Square(base), base)
  {
    hide DigitChar, Pair, Text;
    PairIsDigits(v % Square(base), base);
    var q, r := v / Square(base), v % Square(base);
    if base == 10 {
      TextStep(v, 10, q * 10 + r / 10, r % 10);
      TextStep(q * 10 + r / 10, 10, q, r / 10);
    } else {
      TextStep(v, 16, q * 16 + r / 16, r % 16);
      TextStep(q * 16 + r / 16, 16, q, r / 16);
    }
  }

  /** Dropping one leading zero from the pairs leaves the digits. */
  lemma {:induction false} PairsAreText(v: nat, base: nat)
    requires base == 10 || base == 16
    ensures Pairs(v, base) == (if Pairs(v, base)[0] == '0' then "0" else "") + Text(v, base)
    ensures Text(v, base)[0] == '0' <==> v == 0
  {
    hide Text, Pair, Pairs;
    if v < Square(base) {
      PairsOfTwo(v, base);
    } else {
      TwoMore(v, base);
      PairsStep(v, base);
      PairsAreText(v / Square(base), base);
    }
  }

  lemma PairsOfTwo(v: nat, base: nat)
    requires (base == 10 || base == 16) && v < Square(base)
    ensures Pairs(v, base) == (if Pairs(v, base)[0] == '0' then "0" else "") + Text(v, base)
    ensures Text(v, base)[0] == '0' <==> v == 0
  {
    hide Text, Pair, Pairs, DigitChar;
    PairIsDigits(v, base);
    PairsOfSmall(v, base);
    ZeroDigit(v / base, base);
    if v < base {
      DivModIs(v, base, 0, v);
      ZeroDigit(v, base);
      TextOfOne(v, base);
      assert Pairs(v, base) == "0" + Text(v, base);
    } else {
      TextStep(v, base, v / base, v % base);
      TextOfOne(v / base, base);
    }
  }

  lemma PairsOfSmall(v: nat, base: nat)
    requires (base == 10 || base == 16) && v < Square(base)
    ensures Pairs(v, base) == Pair(v, base)
  {
  }

  lemma ZeroDigit(d: nat, base: nat)
    requires d < 16
    ensures DigitChar(d, base) == '0' <==> d == 0
  {
  }

  lemma TextOfOne(v: nat, base: nat)
    requires 2 <= base <= 16 && v < base
    ensures Text(v, base) == [DigitChar(v, base)]
  {
  }

  // ---------------------------------------------------------------- length

  lemma {:induction false} TextFits(v: nat, base: nat, k: nat)
    requires 2 <= base <= 16 && k > 0 && v < Pow2(k)
    ensures |Text(v, base)| <= k
  {
    if v >= base {
      Shrinks(v, base);
      assert k > 1;
      TextFits(v / base, base, k - 1);
    }
  }

  /** A 64-bit number has at most 64 digits, even when they are filled in by twos. */
  lemma Fits64(v: nat, base: nat)
    requires 2 <= base <= 16 && v < 0x1_0000_0000_0000_0000
    ensures |Text(v, base)| <= 64 && (base == 10 || base == 16 ==> |Pairs(v, base)| <= 64)
  {
    hide Pow2, Text, Pairs;
    PowersOfTwo();
    TextFits(v, base, 64);
    if base == 10 || base == 16 {
      PairsAreText(v, base);
      PairsAreEven(v, base);
    }
  }

  lemma {:induction false} PairsAreEven(v: nat, base: nat)
    requires base == 10 || base == 16
    ensures |Pairs(v, base)| % 2 == 0
  {
    hide Pair, Pairs;
    if v < Square(base) {
      PairsOfSmall(v, base);
    } else {
      PairsStep(v, base);
      PairsAreEven(v / Square(base), base);
    }
  }

  // ---------------------------------------------------------------- reading digits

  /** The value of a digit, upper-case or lower-case; 16 for any other character. */
  function DigitValue(c: char): nat {
    if '0' <= c <= '9' then c as int - '0' as int
    else if 'A' <= c <= 'F' then c as int - 'A' as int + 10
    else if 'a' <= c <= 'f' then c as int - 'a' as int + 10
    else 16
  }

  predicate AllDigits(s: string, base: nat) { forall i :: 0 <= i < |s| ==> DigitValue(s[i]) < base }

  /** What a text of digits stands for. */
  function Value(s: string, base: nat): nat {
    if s == [] then 0 else Value(s[..|s| - 1], base) * base + DigitValue(s[|s| - 1])
  }

  lemma ValueOfDigit(d: nat, base: nat)
    requires d < 16
    ensures DigitValue(DigitChar(d, base)) == d
  {
  }

  lemma ValueSnoc(s: string, c: char, base: nat)
    ensures Value(s + [c], base) == Value(s, base) * base + DigitValue(c)
  {
    assert (s + [c])[..|s|] == s;
  }

  /** The digits of a number read back as the number. */
  lemma {:induction false} TextReadsBack(v: nat, base: nat)
    requires 2 <= base <= 16
    ensures AllDigits(Text(v, base), base) && Value(Text(v, base), base) == v
  {
    hide Text, Value, DigitChar, DigitValue;
    if v < base {
      TextOfOne(v, base);
      ValueOfDigit(v, base);
      ValueSnoc([], DigitChar(v, base), base);
      assert [] + [DigitChar(v, base)] == [DigitChar(v, base)];
      ValueOfNothing(base);
    } else {
      Shrinks(v, base);
      var q, r := v / base, v % base;
      assert q > 0 by { NotZero(v, base); }
      TextStep(v, base, q, r);
      TextReadsBack(q, base);
      ValueOfDigit(r, base);
      ValueSnoc(Text(q, base), DigitChar(r, base), base);
    }
  }

  lemma NotZero(v: nat, base: nat)
    requires base > 0 && v >= base
    ensures v / base > 0
  {
  }

  lemma ValueOfNothing(base: nat)
    ensures Value([], base) == 0
  {
  }

  function Zeros(n: nat): string { seq(n, i => '0') }

  lemma {:induction false} ZerosReadNothing(n: nat, s: string, base: nat)
    requires AllDigits(s, base) && base > 0
    ensures AllDigits(Zeros(n) + s, base) && Value(Zeros(n) + s, base) == Value(s, base)
    decreases |s|, n
  {
    if s == [] {
      if n > 0 {
        ZerosReadNothing(n - 1, [], base);
        assert (Zeros(n) + [])[..n - 1] == Zeros(n - 1) + [];
      }
    } else {
      ZerosReadNothing(n, s[..|s| - 1], base);
      assert (Zeros(n) + s)[..n + |s| - 1] == Zeros(n) + s[..|s| - 1];
    }
  }

  /** The text with zeros in front up to a width. */
  function Padded(s: string, width: nat): string { if |s| < width then Zeros(width - |s|) + s else s }

  /** Padding changes the length, not the value; no other zeros stand in front. */
  lemma PaddedReadsBack(v: nat, base: nat, width: nat)
    requires 2 <= base <= 16
    ensures var s := Padded(Text(v, base), width);
            AllDigits(s, base) && Value(s, base) == v && |s| == if |Text(v, base)| < width then width else |Text(v, base)|
    ensures base == 10 || base == 16 ==> (Text(v, base)[0] == '0' <==> v == 0)
  {
    hide Text, Value, Pairs, DigitValue;
    TextReadsBack(v, base);
    if base == 10 || base == 16 {
      PairsAreText(v, base);
    }
    if |Text(v, base)| < width {
      ZerosReadNothing(width - |Text(v, base)|, Text(v, base), base);
    }
  }

  /** Most significant first, both when printing and when reading. */
  lemma SomeTexts()
    ensures Text(1024, 10) == "1024" && Text(0x2F, 16) == "2F" && Text(11, 12) == "b"
    ensures Value("1024", 10) == 1024
  {
    assert Text(1, 10) == "1" && Text(10, 10) == "10" && Text(102, 10) == "102";
    assert Text(2, 16) == "2";
    hide DigitChar, Text;
    TextReadsBack(1024, 10);
  }
}
