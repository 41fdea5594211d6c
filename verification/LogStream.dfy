/** The fixed-size text buffer that log lines are assembled in. */
module LogStream {
  import opened Bytes
  import opened NumberText

  /** As much of a text as fits. */
  function Clipped(s: string, room: nat): string { if |s| <= room then s else s[..room] }

  /** Written only when more than 64 places are free. */
  function UnsignedText(t: nat, width: nat, dec: nat, room: nat): string
    requires 2 <= dec <= 16
  {
    if room > 64 then Padded(Text(t, dec), width) else ""
  }

  /** The sign and the number are written separately, each where it finds room. */
  function SignedText(t: int, width: nat, dec: nat, room: nat): string
    requires 2 <= dec <= 16
  {
    if t >= 0 then UnsignedText(t, width, dec, room)
    else if room > 1 then "-" + UnsignedText(-t, width, dec, room - 1)
    else UnsignedText(-t, width, dec, room)
  }

  /** The last pair of digits, and the rest, of a number. */
  function Low(v: nat, base: nat): (m: nat)
    ensures m < Square(base)
  {
    v % Square(base)
  }

  function High(v: nat, base: nat): nat { v / Square(base) }

  /** Cutting off the last pair: nothing is left exactly of a number with one pair. */
  lemma PairsLast(v: nat, base: nat)
    requires base == 10 || base == 16
    ensures Pairs(v, base) == (if High(v, base) != 0 then Pairs(High(v, base), base) else "") + Pair(Low(v, base), base)
  {
    hide Pair, Pairs;
    if v < Square(base) {
      PairsOfSmall(v, base);
    } else {
      PairsStep(v, base);
    }
  }

  lemma TextLast(v: nat, base: nat)
    requires 2 <= base <= 16
    ensures 0 <= v / base && (v > 0 ==> v / base < v) && 0 <= v % base < base
    ensures Text(v, base) == (if v / base != 0 then Text(v / base, base) else "") + [DigitChar(v % base, base)]
  {
    hide Text, DigitChar;
    Shrinks(v, base);
    if v < base {
      TextOfOne(v, base);
      DivModIs(v, base, 0, v);
    } else {
      NotZero(v, base);
      TextStep(v, base, v / base, v % base);
    }
  }

  /** The digit loops for bases 10 and 16: pairs from the table, filled in from the end of the buffer. */
  method FillPairs(tmp: array<char>, t: nat, base: nat) returns (digit: nat)
    requires tmp.Length == 64 && (base == 10 || base == 16) && |Pairs(t, base)| <= 64
    modifies tmp
    ensures 0 < digit <= 64 && tmp[64 - digit..] == Pairs(t, base)
  {
    hide Pair, Pairs, Square, High, Low;
    var val: nat, i: int, more := t, 64, true;
    digit := 0;
    while more
      invariant i == 64 - digit >= 0
      invariant (if more then Pairs(val, base) else "") + tmp[i..] == Pairs(t, base)
      decreases i
    {
      PairsLast(val, base);
      ghost var filled := tmp[i..];
      ghost var rest := if High(val, base) != 0 then Pairs(High(val, base), base) else "";
      var pair := Pair(Low(val, base), base);
      tmp[i - 1] := pair[1];
      tmp[i - 2] := pair[0];
      i := i - 2;
      assert tmp[i..] == pair + filled;
      assert rest + (pair + filled) == rest + pair + filled;
      val := High(val, base);
      digit := digit + 2;
      more := val != 0 && i >= 2;
    }
    assert tmp[i..] == "" + tmp[i..];
  }

  /** The pairs without the leading zero that a number of an odd number of digits leaves. */
  method FillText(tmp: array<char>, t: nat, base: nat) returns (digit: nat)
    requires tmp.Length == 64 && t < 0x1_0000_0000_0000_0000 && (base == 10 || base == 16)
    modifies tmp
    ensures 0 < digit <= 64 && tmp[64 - digit..] == Text(t, base)
  {
    hide Text, Pairs;
    Fits64(t, base);
    PairsAreText(t, base);
    digit := FillPairs(tmp, t, base);
    if digit >= 2 && tmp[64 - digit] == '0' {
      digit := digit - 1;
    }
  }

  /** The digit loop for the other bases. */
  method FillDigits(tmp: array<char>, t: nat, dec: nat) returns (digit: nat)
    requires tmp.Length == 64 && t < 0x1_0000_0000_0000_0000 && 2 <= dec < 16 && dec != 10
    modifies tmp
    ensures 0 < digit <= 64 && tmp[64 - digit..] == Text(t, dec)
  {
    hide Text, DigitChar;
    Fits64(t, dec);
    var val: nat, i: int, more := t, 64, true;
    digit := 0;
    while more
      invariant i == 64 - digit >= 0
      invariant (if more then Text(val, dec) else "") + tmp[i..] == Text(t, dec)
      decreases i
    {
      TextLast(val, dec);
      ghost var filled := tmp[i..];
      i := i - 1;
      tmp[i] := DigitChar(val % dec, dec);
      assert tmp[i..] == [DigitChar(val % dec, dec)] + filled;
      val := val / dec;
      digit := digit + 1;
      more := val != 0 && i > 0;
    }
    assert tmp[i..] == Text(t, dec);
  }

  lemma NoZeros(s: string)
    ensures Zeros(0) + s == s
  {
  }

  lemma ZeroMore(n: nat, s: string)
    ensures "0" + (Zeros(n) + s) == Zeros(n + 1) + s
  {
  }

  /** The part of the buffer that is filled in: the digits, then zeros in front of them up to the width. */
  method FormatDigits(t: nat, width: nat, dec: nat) returns (s: string)
    requires t < 0x1_0000_0000_0000_0000 && width <= 64 && 2 <= dec <= 16
    ensures s == Padded(Text(t, dec), width) && |s| <= 64
  {
    hide Text, Zeros;
    var tmp := new char[64](i => '0');
    var digit;
    if dec == 10 || dec == 16 {
      digit := FillText(tmp, t, dec);
    } else {
      digit := FillDigits(tmp, t, dec);
    }
    digit := PadZeros(tmp, digit, width, Text(t, dec));
    s := tmp[64 - digit..];
  }

  method PadZeros(tmp: array<char>, digits: nat, width: nat, ghost text: string) returns (digit: nat)
    requires tmp.Length == 64 && width <= 64 && digits == |text| <= 64 && tmp[64 - digits..] == text
    modifies tmp
    ensures digit <= 64 && tmp[64 - digit..] == Padded(text, width)
  {
    hide Zeros, Padded;
    digit := digits;
    NoZeros(text);
    while digit < width
      invariant |text| <= digit <= 64 && (digit <= width || digit == |text|)
      invariant tmp[64 - digit..] == Zeros(digit - |text|) + text
    {
      ZeroMore(digit - |text|, text);
      PutZero(tmp, 64 - digit);
      digit := digit + 1;
    }
    PaddedIs(text, width, digit);
  }

  /** One zero in front of what is filled in. */
  method PutZero(tmp: array<char>, i: nat)
    requires 0 < i <= tmp.Length
    modifies tmp
    ensures tmp[i - 1..] == "0" + old(tmp[i..])
  {
    tmp[i - 1] := '0';
  }

  lemma PaddedIs(text: string, width: nat, digit: nat)
    requires digit == if |text| < width then width else |text|
    ensures Padded(text, width) == Zeros(digit - |text|) + text
  {
    NoZeros(text);
    hide Zeros;
  }

  class Log4zStream {
    const buf: array<char>
    var cur: nat

    ghost predicate Valid()
      reads this
    {
      cur <= buf.Length
    }

    function Contents(): string
      reads this, buf
      requires Valid()
    {
      buf[..cur]
    }

    function Room(): nat
      reads this
      requires Valid()
    {
      buf.Length - cur
    }

    constructor (size: nat)
      ensures Valid() && fresh(buf) && Contents() == "" && Room() == size
    {
      buf := new char[size](i => '\0');
      cur := 0;
    }

    /** One place is always left free. */
    method WriteChar(c: char)
      requires Valid()
      modifies this`cur, buf
      ensures Valid() && Contents() == old(Contents()) + if old(Room()) > 1 then [c] else ""
    {
      if buf.Length - cur > 1 {
        buf[cur] := c;
        cur := cur + 1;
      }
    }

    method WriteString(t: string)
      requires Valid()
      modifies this`cur, buf
      ensures Valid() && Contents() == old(Contents()) + Clipped(t, old(Room()))
    {
      var len := if |t| > buf.Length - cur then buf.Length - cur else |t|;
      forall i | 0 <= i < len {
        buf[cur + i] := t[i];
      }
      cur := cur + len;
    }

    method WriteULongLong(t: nat, width: nat, dec: nat)
      requires Valid() && t < 0x1_0000_0000_0000_0000 && width <= 64 && 2 <= dec <= 16
      modifies this`cur, buf
      ensures Valid() && Contents() == old(Contents()) + UnsignedText(t, width, dec, old(Room()))
    {
      if buf.Length - cur > 64 {
        var text := FormatDigits(t, width, dec);
        WriteString(text);
      }
    }

    /** The negation of the least number, which the program leaves undefined, is taken to give its magnitude. */
    method WriteLongLong(t: int, width: nat, dec: nat)
      requires Valid() && -0x8000_0000_0000_0000 <= t < 0x8000_0000_0000_0000 && width <= 64 && 2 <= dec <= 16
      modifies this`cur, buf
      ensures Valid() && Contents() == old(Contents()) + SignedText(t, width, dec, old(Room()))
    {
      hide Text, Padded, UnsignedText;
      if t < 0 {
        WriteChar('-');
        ghost var sign, room := if old(Room()) > 1 then "-" else "", Room();
        assert Contents() == old(Contents()) + sign;
        WriteULongLong(-t, width, dec);
        assert Contents() == old(Contents()) + (sign + UnsignedText(-t, width, dec, room));
      } else {
        WriteULongLong(t, width, dec);
      }
    }
  }

  /** The whole number. */
  function FullText(t: int, width: nat, dec: nat): string
    requires 2 <= dec <= 16
  {
    if t < 0 then "-" + Padded(Text(-t, dec), width) else Padded(Text(t, dec), width)
  }

  /**
   * The whole number is written exactly when more than 64 places are free besides the sign's; with less room a number
   * without a sign is dropped, and one with a sign comes out as the sign alone, or is dropped.
   */
  lemma WholeNumberWritten(t: int, width: nat, dec: nat, room: nat)
    requires 2 <= dec <= 16
    ensures SignedText(t, width, dec, room) == FullText(t, width, dec) <==> room > if t < 0 then 65 else 64
    ensures SignedText(t, width, dec, room) in {FullText(t, width, dec), "-", ""}
  {
    hide Text;
    assert "-" + "" == "-";
    assert |Padded(Text(if t < 0 then -t else t, dec), width)| > 0;
  }

  /** With 65 places free, -1 is written as a sign alone. */
  lemma SignAlone()
    ensures SignedText(-1, 0, 10, 65) == "-" != FullText(-1, 0, 10)
  {
    hide Text;
    assert "-" + "" == "-";
    assert |Padded(Text(1, 10), 0)| > 0;
  }

  /** What a signed text stands for. */
  function SignedValue(s: string, dec: nat): int {
    if s != "" && s[0] == '-' then 0 - Value(s[1..], dec) else Value(s, dec)
  }

  /** A whole number written reads back as the number, whatever the width. */
  lemma SignedReadsBack(t: int, width: nat, dec: nat)
    requires 2 <= dec <= 16
    ensures SignedValue(FullText(t, width, dec), dec) == t
  {
    var s := Padded(Text(if t < 0 then -t else t, dec), width);
    PaddedReadsBack(if t < 0 then -t else t, dec, width);
    hide Text, Padded, Value;
    if t < 0 {
      assert ("-" + s)[1..] == s;
    } else {
      assert s != "" ==> DigitValue(s[0]) < dec;
      assert DigitValue('-') == 16;
    }
  }
}
