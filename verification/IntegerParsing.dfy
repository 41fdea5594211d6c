/** StringToInteger: an integer type's text, with overflow checks before each operation. */
module IntegerParsing {
  import opened NumberText
  import opened LogStream
  import opened Options

  /** An integer type, by its signedness and its largest value. */
  datatype IntType = IntType(signed: bool, max: nat) {
    function Min(): int { if signed then -1 - max else 0 }

    predicate Fits(v: int) { Min() <= v <= max }
  }

  /** Division as in C: rounded toward zero. */
  function TruncDiv(a: int, b: nat): int
    requires b > 0
  {
    if a < 0 then 0 - (0 - a) / b else a / b
  }

  predicate HasSign(s: string) { s != "" && (s[0] == '+' || s[0] == '-') }

  predicate IsNegative(s: string) { s != "" && s[0] == '-' }

  function Body(s: string): string { if HasSign(s) then s[1..] else s }

  /** What a text means for a type: an optional sign, minus only if signed, then digits, possibly none, in range. */
  function Parsed(s: string, ty: IntType): Option<int> {
    var v: int := if IsNegative(s) then 0 - Value(Body(s), 10) else Value(Body(s), 10);
    if AllDigits(Body(s), 10) && (IsNegative(s) ==> ty.signed) && ty.Fits(v) then Some(v) else None
  }

  lemma {:induction false} PrefixIsSmaller(s: string, k: nat, base: nat)
    requires k <= |s| && base > 0
    ensures Value(s[..k], base) <= Value(s, base)
  {
    if k < |s| {
      PrefixIsSmaller(s[..|s| - 1], k, base);
      assert s[..|s| - 1][..k] == s[..k];
      AtLeast(Value(s[..|s| - 1], base), base);
    } else {
      assert s[..k] == s;
    }
  }

  lemma AtLeast(v: nat, base: nat)
    requires base > 0
    ensures v * base >= v
  {
    assert v * (base - 1) >= 0;
  }

  /** One more digit. */
  lemma NextDigit(s: string, i: nat)
    requires i < |s|
    ensures Value(s[..i + 1], 10) == Value(s[..i], 10) * 10 + DigitValue(s[i])
    ensures AllDigits(s[..i + 1], 10) <==> AllDigits(s[..i], 10) && '0' <= s[i] <= '9'
    ensures Value(s[..i + 1], 10) <= Value(s, 10)
  {
    PrefixIsSmaller(s, i + 1, 10);
    ValueSnoc(s[..i], s[i], 10);
    assert s[..i + 1] == s[..i] + [s[i]];
    hide Value;
    var t := s[..i + 1];
    if AllDigits(t, 10) {
      assert DigitValue(t[i]) < 10;
      assert forall j :: 0 <= j < i ==> t[j] == s[..i][j];
    }
  }

  /** The loop for numbers without a minus sign; no operation leaves the type's range. */
  method ParsePositive(s: string, ty: IntType) returns (ok: bool, result: int)
    requires ty.max >= 127
    ensures ok <==> AllDigits(s, 10) && ty.Fits(Value(s, 10))
    ensures ok ==> result == Value(s, 10)
  {
    hide Value, DigitValue;
    ValueOfNothing(10);
    result := 0;
    for i := 0 to |s|
      invariant result == Value(s[..i], 10) && ty.Fits(result) && AllDigits(s[..i], 10)
    {
      NextDigit(s, i);
      if s[i] < '0' || s[i] > '9' {
        assert !AllDigits(s, 10) by { NotADigit(s, i); }
        return false, result;
      }
      DigitOf(s[i]);
      if ty.max / 10 < result {
        return false, result;
      }
      result := result * 10;
      assert ty.Fits(result);
      var digit := s[i] as int - '0' as int;
      if ty.max - digit < result {
        return false, result;
      }
      result := result + digit;
    }
    assert s[..|s|] == s;
    ok := true;
  }

  lemma DigitOf(c: char)
    requires '0' <= c <= '9'
    ensures DigitValue(c) == c as int - '0' as int
  {
  }

  lemma NotADigit(s: string, i: nat)
    requires i < |s| && !('0' <= s[i] <= '9')
    ensures !AllDigits(s, 10)
  {
    assert DigitValue(s[i]) >= 10;
  }

  /** The loop after a minus sign counts downwards, so that the least value is in reach. */
  method ParseNegative(s: string, ty: IntType) returns (ok: bool, result: int)
    requires ty.max >= 127 && ty.signed
    ensures ok <==> AllDigits(s, 10) && ty.Fits(0 - Value(s, 10))
    ensures ok ==> result == 0 - Value(s, 10)
  {
    hide Value, DigitValue;
    ValueOfNothing(10);
    result := 0;
    for i := 0 to |s|
      invariant result == 0 - Value(s[..i], 10) && ty.Fits(result) && AllDigits(s[..i], 10)
    {
      NextDigit(s, i);
      if s[i] < '0' || s[i] > '9' {
        assert !AllDigits(s, 10) by { NotADigit(s, i); }
        return false, result;
      }
      DigitOf(s[i]);
      if TruncDiv(ty.Min(), 10) > result {
        return false, result;
      }
      result := result * 10;
      assert ty.Fits(result);
      var digit := s[i] as int - '0' as int;
      if ty.Min() + digit > result {
        return false, result;
      }
      result := result - digit;
    }
    assert s[..|s|] == s;
    ok := true;
  }

  /** num is what the variable held before; it is left alone unless the text is accepted. */
  method StringToInteger(s: string, ty: IntType, num: int) returns (ok: bool, out: int)
    requires ty.max >= 127
    ensures ok <==> Parsed(s, ty).Some?
    ensures out == if ok then Parsed(s, ty).value else num
  {
    hide Value;
    out := num;
    var body := s;
    var positive := true;
    if s != "" && s[0] == '+' {
      body := s[1..];
    } else if s != "" && s[0] == '-' {
      body := s[1..];
      positive := false;
    }
    var result;
    if positive {
      ok, result := ParsePositive(body, ty);
    } else {
      if !ty.signed {
        return false, num;
      }
      ok, result := ParseNegative(body, ty);
    }
    if ok {
      out := result;
    }
  }

  /** What the log stream prints in base 10, at any width, is parsed back to the number printed. */
  lemma PrintedIsParsed(t: int, width: nat, ty: IntType)
    requires ty.Fits(t)
    ensures Parsed(FullText(t, width, 10), ty) == Some(t)
  {
    var n: nat := if t < 0 then 0 - t else t;
    var s := Padded(Text(n, 10), width);
    PaddedReadsBack(n, 10, width);
    hide Text, Value, Padded;
    if t < 0 {
      assert Body("-" + s) == s && IsNegative("-" + s) by {
        assert ("-" + s)[1..] == s;
      }
      hide Body, IsNegative, DigitValue;
    } else {
      NoSign(s);
      hide Body, IsNegative, DigitValue;
    }
  }

  lemma NoSign(s: string)
    requires AllDigits(s, 10)
    ensures Body(s) == s && !IsNegative(s)
  {
    assert s != "" ==> DigitValue(s[0]) < 10;
    assert DigitValue('-') == 16 && DigitValue('+') == 16;
  }

  /** An empty text, or a sign alone, is accepted and means zero. */
  lemma NoDigitsMeansZero(ty: IntType)
    ensures Parsed("", ty) == Some(0) && Parsed("+", ty) == Some(0) && (Parsed("-", ty) == Some(0) <==> ty.signed)
  {
    ValueOfNothing(10);
    hide Value;
    assert "+"[1..] == "" && "-"[1..] == "";
  }

  /** A plus sign does not matter, and a minus sign negates, for signed types only; what follows must be digits. */
  lemma SignsMean(s: string, ty: IntType)
    requires AllDigits(s, 10)
    ensures Parsed(s, ty) == Parsed("+" + s, ty) == if Value(s, 10) <= ty.max then Some(Value(s, 10)) else None
    ensures Parsed("-" + s, ty) == if ty.signed && Value(s, 10) <= ty.max + 1 then Some(0 - Value(s, 10)) else None
  {
    NoSignInDigits(s);
    hide Value, DigitValue, AllDigits;
    var plus, minus := "+" + s, "-" + s;
    assert plus[1..] == s && minus[1..] == s;
    assert Body(plus) == s && Body(minus) == s && Body(s) == s;
    assert IsNegative(minus) && !IsNegative(plus) && !IsNegative(s);
    hide Body, IsNegative;
  }

  lemma NoSignInDigits(s: string)
    requires AllDigits(s, 10)
    ensures !HasSign(s)
  {
    assert DigitValue('+') == 16 && DigitValue('-') == 16;
  }
}
