/** Base64: the encoder, and the decoder that skips characters outside the alphabet. */
module Base64 {
  import opened Bytes

  type sextet = d: int | 0 <= d < 64

  // ---------------------------------------------------------------- the alphabet

  /** Table 1 of RFC 4648. */
  function Letter(d: sextet): char {
    if d < 26 then 'A' + d as char
    else if d < 52 then 'a' + (d - 26) as char
    else if d < 62 then '0' + (d - 52) as char
    else if d == 62 then '+' else '/'
  }

  /** UnBase64: the value of a letter, -1 for the padding character, -2 for anything else. */
  function UnBase64(c: char): (r: int)
    ensures -2 <= r < 64
  {
    if 'A' <= c <= 'Z' then c as int - 'A' as int
    else if 'a' <= c <= 'z' then c as int - 'a' as int + 26
    else if '0' <= c <= '9' then c as int - '0' as int + 52
    else if c == '+' then 62
    else if c == '/' then 63
    else if c == '=' then -1
    else -2
  }

  /** The table and its inverse agree, and nothing else decodes to a value. */
  lemma LettersAreValues(c: char, d: sextet)
    ensures UnBase64(c) == d <==> c == Letter(d)
  {
    if 'A' <= c <= 'Z' || 'a' <= c <= 'z' || '0' <= c <= '9' {
      assert UnBase64(c) >= 0;
    }
  }

  const ALPHABET: string := "ABCDEFGHIJKLMNOPQRSTUVWXYZabcdefghijklmnopqrstuvwxyz0123456789+/"

  lemma UpperCase(d: sextet)
    requires d < 26
    ensures Letter(d) == ALPHABET[d]
  {
    assert ALPHABET[d] == "ABCDEFGHIJKLMNOPQRSTUVWXYZ"[d];
  }

  lemma LowerCase(d: sextet)
    requires 26 <= d && d < 52
    ensures Letter(d) == ALPHABET[d]
  {
  }

  lemma DigitsAndSigns(d: sextet)
    requires 52 <= d
    ensures Letter(d) == ALPHABET[d]
  {
  }

  /** The letters, written out. */
  lemma AlphabetIs(d: sextet)
    ensures |ALPHABET| == 64 && Letter(d) == ALPHABET[d]
  {
    if d < 26 {
      UpperCase(d);
    } else if d < 52 {
      LowerCase(d);
    } else {
      DigitsAndSigns(d);
    }
    hide Letter;
  }

  // ---------------------------------------------------------------- the definition (section 4)

  /** Three bytes as four letters: the base-64 digits of their 24 bits. */
  function Group(a: byte, b: byte, c: byte): (g: seq<sextet>)
    ensures |g| == 4
  {
    var v := a as int * 0x1_0000 + b as int * 0x100 + c;
    [v / 0x4_0000, v / 0x1000 % 64, v / 64 % 64, v % 64]
  }

  function Letters(ds: seq<sextet>): string {
    seq(|ds|, i requires 0 <= i < |ds| => Letter(ds[i]))
  }

  /** The encoding: whole groups, then a padded group for what is left. */
  function Encoded(x: seq<byte>): string {
    if x == [] then ""
    else if |x| == 1 then Letters(Group(x[0], 0, 0)[..2]) + "=="
    else if |x| == 2 then Letters(Group(x[0], x[1], 0)[..3]) + "="
    else Letters(Group(x[0], x[1], x[2])) + Encoded(x[3..])
  }

  /** Vectors of section 10: the texts f, fo, foo and fooba. */
  lemma VectorF()
    ensures Encoded([0x66]) == "Zg=="
  {
    assert Group(0x66, 0, 0) == [25, 32, 0, 0];
    LettersOf([25, 32, 0, 0], "ZgAA");
    hide Group, Letter, Letters;
    assert "ZgAA"[..2] == "Zg";
  }

  lemma VectorFo()
    ensures Encoded([0x66, 0x6F]) == "Zm8="
  {
    assert Group(0x66, 0x6F, 0) == [25, 38, 60, 0];
    LettersOf([25, 38, 60, 0], "Zm8A");
    hide Group, Letter, Letters;
    assert "Zm8A"[..3] == "Zm8";
  }

  lemma VectorFooba()
    ensures Encoded([0x66, 0x6F, 0x6F]) == "Zm9v" && Encoded([0x66, 0x6F, 0x6F, 0x62, 0x61]) == "Zm9vYmE="
  {
    hide Group, Letter, Letters;
    VectorBa();
    LettersOfFoo();
    var foo, fooba: seq<byte> := [0x66, 0x6F, 0x6F], [0x66, 0x6F, 0x6F, 0x62, 0x61];
    assert fooba[3..] == [0x62, 0x61] && foo[3..] == [];
    assert Encoded([]) == "" && "Zm9v" + "" == "Zm9v";
    assert "Zm9v" + "YmE=" == "Zm9vYmE=";
  }

  lemma LettersOfFoo()
    ensures Letters(Group(0x66, 0x6F, 0x6F)) == "Zm9v"
  {
    assert Group(0x66, 0x6F, 0x6F) == [25, 38, 61, 47];
    LettersOf([25, 38, 61, 47], "Zm9v");
  }

  lemma VectorBa()
    ensures Encoded([0x62, 0x61]) == "YmE="
  {
    assert Group(0x62, 0x61, 0) == [24, 38, 4, 0];
    LettersOf([24, 38, 4, 0], "YmEA");
    hide Group, Letter, Letters;
    assert "YmEA"[..3] == "YmE";
  }

  lemma LettersOf(ds: seq<sextet>, s: string)
    requires |ds| == 4 == |s| && forall i :: 0 <= i < 4 ==> Letter(ds[i]) == s[i]
    ensures forall k :: 0 <= k <= 4 ==> Letters(ds[..k]) == s[..k]
    ensures Letters(ds) == s
  {
    hide Letter;
  }

  /** The values of the letters before the first padding character. */
  function Digits(s: string): seq<sextet> {
    if s == [] || UnBase64(s[0]) == -1 then []
    else (if UnBase64(s[0]) >= 0 then [UnBase64(s[0])] else []) + Digits(s[1..])
  }

  /** The whole bytes in fewer than four six-bit values. */
  function PackedShort(ds: seq<sextet>): seq<byte>
    requires |ds| < 4
  {
    if |ds| < 2 then []
    else if |ds| == 2 then [ds[0] as int * 4 + ds[1] / 16]
    else [ds[0] as int * 4 + ds[1] / 16, ds[1] as int % 16 * 16 + ds[2] / 4]
  }

  /** The three bytes of four values. */
  function WholeGroup(ds: seq<sextet>): (b: seq<byte>)
    requires |ds| == 4
    ensures |b| == 3
  {
    [ds[0] as int * 4 + ds[1] / 16, ds[1] as int % 16 * 16 + ds[2] / 4, ds[2] as int % 4 * 64 + ds[3]]
  }

  /** The whole bytes in a run of six-bit values. */
  function Packed(ds: seq<sextet>): seq<byte> {
    if |ds| < 4 then PackedShort(ds) else WholeGroup(ds[..4]) + Packed(ds[4..])
  }

  function Decoded(s: string): seq<byte> { Packed(Digits(s)) }

  // ---------------------------------------------------------------- the decoder

  /** The bits of the last, unfinished byte. */
  function Pending(ds: seq<sextet>): byte {
    if |ds| >= 4 then Pending(ds[4..]) else PendingShort(ds)
  }

  function PendingShort(ds: seq<sextet>): byte
    requires |ds| < 4
  {
    if |ds| == 0 then 0
    else if |ds| == 1 then ds[0] as int * 4
    else if |ds| == 2 then ds[1] as int % 16 * 16
    else ds[2] as int % 4 * 64
  }

  /** The byte completed by one more value, where r values of its group precede it. */
  function Complete(r: nat, p: byte, d: sextet): seq<int> {
    if r == 0 then [] else if r == 1 then [p + d / 16] else if r == 2 then [p + d / 4] else [p + d]
  }

  function StillPending(r: nat, d: sextet): int {
    if r == 0 then d * 4 else if r == 1 then d % 16 * 16 else if r == 2 then d % 4 * 64 else 0
  }

  function PendingLimit(r: nat): nat {
    if r == 0 then 0 else if r == 1 then 252 else if r == 2 then 240 else 192
  }

  lemma PackedStep(ds: seq<sextet>)
    requires |ds| >= 4
    ensures Packed(ds) == WholeGroup(ds[..4]) + Packed(ds[4..]) && Pending(ds) == Pending(ds[4..])
  {
    hide PackedShort, PendingShort, WholeGroup;
  }

  /** One more value completes a byte, except at the start of a group. */
  lemma {:induction false} PackedAppend(ds: seq<sextet>, d: sextet)
    ensures var r, p := |ds| % 4, Pending(ds);
            |Packed(ds)| == 6 * |ds| / 8 && p <= PendingLimit(r) &&
            Packed(ds + [d]) == Packed(ds) + Complete(r, p, d) && Pending(ds + [d]) == StillPending(r, d)
  {
    if |ds| < 4 {
      PackedAppendShort(ds, d);
    } else {
      hide *;
      PackedAppend(ds[4..], d);
      PackedStep(ds);
      PackedStep(ds + [d]);
      assert (ds + [d])[4..] == ds[4..] + [d] && (ds + [d])[..4] == ds[..4];
      DivModIs(|ds|, 4, |ds[4..]| / 4 + 1, |ds[4..]| % 4);
      assert Packed(ds + [d]) == WholeGroup(ds[..4]) + (Packed(ds[4..]) + Complete(|ds| % 4, Pending(ds), d));
    }
  }

  lemma PackedAppendShort(ds: seq<sextet>, d: sextet)
    requires |ds| < 4
    ensures var r, p := |ds| % 4, Pending(ds);
            |Packed(ds)| == 6 * |ds| / 8 && p <= PendingLimit(r) &&
            Packed(ds + [d]) == Packed(ds) + Complete(r, p, d) && Pending(ds + [d]) == StillPending(r, d)
  {
    hide Packed, Pending, PackedShort, PendingShort, Complete, StillPending, PendingLimit, WholeGroup;
    ShortValues(ds);
    ShortLimits(ds);
    if |ds| == 3 {
      CompleteGroup(ds, d);
      PackedStep(ds + [d]);
      assert (ds + [d])[4..] == [] && (ds + [d])[..4] == ds + [d];
      ShortValues([]);
      NoneShort();
    } else {
      ShortAppend(ds, d);
      ShortValues(ds + [d]);
    }
  }

  lemma NoneShort()
    ensures PackedShort([]) == [] && PendingShort([]) == 0
  {
  }

  lemma ShortLimits(ds: seq<sextet>)
    requires |ds| < 4
    ensures |PackedShort(ds)| == 6 * |ds| / 8 && PendingShort(ds) <= PendingLimit(|ds|)
  {
  }

  lemma ShortAppend(ds: seq<sextet>, d: sextet)
    requires |ds| < 3
    ensures PackedShort(ds + [d]) == PackedShort(ds) + Complete(|ds|, PendingShort(ds), d)
    ensures PendingShort(ds + [d]) == StillPending(|ds|, d)
  {
  }

  lemma CompleteGroup(ds: seq<sextet>, d: sextet)
    requires |ds| == 3
    ensures WholeGroup(ds + [d]) == PackedShort(ds) + Complete(3, PendingShort(ds), d)
    ensures StillPending(3, d) == 0
  {
  }

  lemma ShortValues(ds: seq<sextet>)
    requires |ds| < 4
    ensures Packed(ds) == PackedShort(ds) && Pending(ds) == PendingShort(ds)
  {
  }

  /** The result buffer after some values: the packed bytes, the pending bits, then zeros. */
  function Image(ds: seq<sextet>, length: nat): (b: seq<byte>)
    requires |Packed(ds)| < length
    ensures |b| == length
  {
    Packed(ds) + [Pending(ds)] + seq(length - |Packed(ds)| - 1, i => 0)
  }

  /** What merging one value changes in the buffer, by phase. */
  lemma ImageAppend(ds: seq<sextet>, c: sextet, length: nat)
    requires 6 * |ds| / 8 + 1 < length
    ensures var n, r, p := 6 * |ds| / 8, |ds| % 4, Pending(ds);
            |Packed(ds)| == n && |Packed(ds + [c])| < length && Image(ds, length)[n] == p && Image(ds, length)[n + 1] == 0 &&
            p <= PendingLimit(r) && Image(ds + [c], length) ==
              (if r == 0 then Image(ds, length)[n := c * 4]
               else if r == 1 then Image(ds, length)[n := p + c / 16][n + 1 := c % 16 * 16]
               else if r == 2 then Image(ds, length)[n := p + c / 4][n + 1 := c % 4 * 64]
               else Image(ds, length)[n := p + c])
  {
    PackedAppend(ds, c);
    hide Packed, Pending;
  }

  /** Merges one value in at bit position o: the switch of the decoder. */
  method Merge(res: array<byte>, o: nat, c: sextet, ghost ds: seq<sextet>)
    requires o == 6 * |ds| && o / 8 + 1 < res.Length
    requires |Packed(ds)| < res.Length && res[..] == Image(ds, res.Length)
    modifies res
    ensures |Packed(ds + [c])| < res.Length && res[..] == Image(ds + [c], res.Length)
  {
    ImageAppend(ds, c, res.Length);
    hide Image, Packed, Pending;
    assert forall i :: 0 <= i < res.Length ==> res[i] == res[..][i];
    PhaseOf(|ds|);
    ghost var p := Pending(ds);
    var at := o / 8;
    match o % 8 {
      case 0 =>
        res[at] := res[at] + c * 4;
        assert res[..] == old(res[..])[at := c * 4];
      case 6 =>
        res[at] := res[at] + c / 16;
        res[at + 1] := res[at + 1] + c % 16 * 16;
        assert res[..] == old(res[..])[at := p + c / 16][at + 1 := c % 16 * 16];
      case 4 =>
        res[at] := res[at] + c / 4;
        res[at + 1] := res[at + 1] + c % 4 * 64;
        assert res[..] == old(res[..])[at := p + c / 4][at + 1 := c % 4 * 64];
      case _ =>
        res[at] := res[at] + c;
        assert res[..] == old(res[..])[at := p + c];
    }
  }

  /** The bit position within a byte tells the place within a group. */
  lemma PhaseOf(n: nat)
    ensures 6 * n % 8 == (if n % 4 == 0 then 0 else if n % 4 == 1 then 6 else if n % 4 == 2 then 4 else 2)
  {
  }

  lemma ImageOfNothing(length: nat, b: seq<byte>)
    requires length > 0 && b == seq(length, i => 0)
    ensures |Packed([])| < length && b == Image([], length)
  {
  }

  lemma ImageFront(ds: seq<sextet>, length: nat)
    requires |Packed(ds)| < length
    ensures |Packed(ds)| == 6 * |ds| / 8 && Image(ds, length)[..6 * |ds| / 8] == Packed(ds)
  {
    PackedAppend(ds, 0);
  }

  /** What the next character adds to the values read so far. */
  lemma DigitsStep(ds: seq<sextet>, s: string, i: nat)
    requires i < |s|
    ensures var c := UnBase64(s[i]);
            ds + Digits(s[i..]) == if c == -1 then ds else (if c >= 0 then ds + [c] else ds) + Digits(s[i + 1..])
  {
    assert s[i..][1..] == s[i + 1..];
    var rest := Digits(s[i + 1..]);
    assert UnBase64(s[i]) >= 0 ==> ds + ([UnBase64(s[i])] + rest) == ds + [UnBase64(s[i])] + rest;
    assert [] + rest == rest && ds + [] == ds;
  }

  method Decode(s: string) returns (out: seq<byte>)
    ensures out == Decoded(s)
  {
    hide Image, Packed, Digits, Pending;
    var res := new byte[|s| * 4 / 3 + 5](i => 0);
    ImageOfNothing(res.Length, res[..]);
    var o := 0;
    ghost var ds: seq<sextet> := [];
    assert [] + Digits(s) == Digits(s) && s[0..] == s;
    for i := 0 to |s|
      invariant o == 6 * |ds| && |ds| <= i
      invariant |Packed(ds)| < res.Length && res[..] == Image(ds, res.Length)
      invariant ds + Digits(s[i..]) == Digits(s)
    {
      DigitsStep(ds, s, i);
      var c := UnBase64(s[i]);
      if c >= 0 {
        Merge(res, o, c, ds);
        ds := ds + [c];
        o := o + 6;
      }
      if c == -1 {
        ImageFront(ds, res.Length);
        return res[..][..o / 8];
      }
    }
    ImageFront(ds, res.Length);
    NoMoreDigits(ds);
    assert s[|s|..] == [];
    out := res[..][..o / 8];
  }

  lemma NoMoreDigits(ds: seq<sextet>)
    ensures ds + Digits([]) == ds
  {
  }

  // ---------------------------------------------------------------- the encoder

  /** The four letters of a whole group, with the shifts of the source written out. */
  function CodeGroup(a: byte, b: byte, c: byte): (g: seq<sextet>)
    ensures |g| == 4
  {
    [a / 4, (a as int * 16 + b / 16) % 64, (b as int * 4 + c / 64) % 64, c % 64]
  }

  lemma CodeGroupIsGroup(a: byte, b: byte, c: byte)
    ensures CodeGroup(a, b, c) == Group(a, b, c)
  {
    var v := a as int * 0x1_0000 + b as int * 0x100 + c;
    DivModIs(v, 0x4_0000, a / 4, a % 4 * 0x1_0000 + b as int * 0x100 + c);
    SecondLetter(a, b, c);
    ThirdLetter(a, b, c);
    LastLetter(a, b, c);
  }

  lemma SecondLetter(a: byte, b: byte, c: byte)
    ensures (a as int * 0x1_0000 + b as int * 0x100 + c) / 0x1000 == a as int * 16 + b / 16
  {
    DivModIs(a as int * 0x1_0000 + b as int * 0x100 + c, 0x1000, a as int * 16 + b / 16, b % 16 * 0x100 + c);
  }

  lemma ThirdLetter(a: byte, b: byte, c: byte)
    ensures (a as int * 0x1_0000 + b as int * 0x100 + c) / 64 % 64 == (b as int * 4 + c / 64) % 64
  {
    var w := a as int * 0x400 + b as int * 4 + c / 64;
    DivModIs(a as int * 0x1_0000 + b as int * 0x100 + c, 64, w, c % 64);
    DivModIs(w, 64, a as int * 16 + (b as int * 4 + c / 64) / 64, (b as int * 4 + c / 64) % 64);
  }

  lemma LastLetter(a: byte, b: byte, c: byte)
    ensures (a as int * 0x1_0000 + b as int * 0x100 + c) % 64 == c % 64
  {
    DivModIs(a as int * 0x1_0000 + b as int * 0x100 + c, 64, a as int * 0x400 + b as int * 4 + c / 64, c % 64);
  }

  lemma {:induction false} EncodedLength(x: seq<byte>)
    ensures |Encoded(x)| == (|x| + 2) / 3 * 4
  {
    hide Group, Letter;
    if |x| >= 3 {
      EncodedLength(x[3..]);
      DivModIs(|x| + 2, 3, (|x[3..]| + 2) / 3 + 1, (|x[3..]| + 2) % 3);
    }
  }

  /** The body of the encoding loop: four letters for three bytes. */
  method PutGroup(output: array<char>, k: nat, a: byte, b: byte, c: byte)
    requires k + 4 <= output.Length
    modifies output
    ensures output[..k + 4] == old(output[..k]) + Letters(CodeGroup(a, b, c))
  {
    hide Letter;
    output[k] := Letter(a / 4);
    output[k + 1] := Letter((a as int * 16 + b / 16) % 64);
    output[k + 2] := Letter((b as int * 4 + c / 64) % 64);
    output[k + 3] := Letter(c % 64);
  }

  /** What follows the loop: one or two bytes are left over, and padded. */
  method PutTail(output: array<char>, start: nat, x: seq<byte>) returns (k: nat)
    requires 1 <= |x| <= 2 && start + 4 == output.Length
    modifies output
    ensures k == start + 4 && output[..] == old(output[..start]) + Encoded(x)
  {
    hide Encoded, Letter;
    output[start] := Letter(x[0] / 4);
    k := start + 1;
    if |x| == 1 {
      EncodedOne(x[0]);
      assert x == [x[0]];
      output[k] := Letter(x[0] as int * 16 % 64);
      k := k + 1;
      output[k] := '=';
      k := k + 1;
    } else {
      EncodedTwo(x[0], x[1]);
      assert x == [x[0], x[1]];
      output[k] := Letter((x[0] as int * 16 + x[1] / 16) % 64);
      k := k + 1;
      output[k] := Letter(x[1] as int * 4 % 64);
      k := k + 1;
    }
    output[k] := '=';
    k := k + 1;
  }

  /** Encodes into a buffer sized beforehand: the last write fills its last place. */
  method Encode(x: seq<byte>) returns (out: string)
    ensures out == Encoded(x)
  {
    hide Encoded, Letters, CodeGroup;
    var output := new char[(|x| + 2) / 3 * 4](i => '?');
    EncodedLength(x);
    var k, full := 0, |x| / 3 * 3;
    Sizes(|x|);
    assert output[..0] == [] && x[0..] == x;
    var i := 0;
    ghost var groups := 0;
    while i < full
      invariant i <= full && i == 3 * groups && k == 4 * groups
      invariant output[..k] + Encoded(x[i..]) == Encoded(x)
    {
      EncodedStep(x, i);
      ghost var before, ds, rest := output[..k], CodeGroup(x[i], x[i + 1], x[i + 2]), Encoded(x[i + 3..]);
      PutGroup(output, k, x[i], x[i + 1], x[i + 2]);
      k := k + 4;
      i := i + 3;
      groups := groups + 1;
      assert before + (Letters(ds) + rest) == before + Letters(ds) + rest;
    }
    if full < |x| {
      assert x[full..|x|] == x[full..];
      k := PutTail(output, k, x[full..]);
    } else {
      EncodedNothing(x[full..]);
      assert output[..k] == output[..] == output[..k] + "";
    }
    assert k == output.Length;
    out := output[..];
  }

  /** The room after the whole groups: none, or one group. */
  lemma Sizes(n: nat)
    ensures var full := n / 3 * 3;
            full <= n < full + 3 && full % 3 == 0 && (n + 2) / 3 * 4 * 3 == 4 * (if full == n then full else full + 3)
  {
  }

  lemma EncodedNothing(x: seq<byte>)
    requires x == []
    ensures Encoded(x) == ""
  {
  }

  lemma EncodedStep(x: seq<byte>, i: nat)
    requires i + 3 <= |x|
    ensures Encoded(x[i..]) == Letters(CodeGroup(x[i], x[i + 1], x[i + 2])) + Encoded(x[i + 3..])
  {
    assert x[i..][3..] == x[i + 3..];
    CodeGroupIsGroup(x[i], x[i + 1], x[i + 2]);
    hide Group, CodeGroup, Letters;
  }

  lemma EncodedOne(a: byte)
    ensures Encoded([a]) == [Letter(a / 4), Letter(a as int * 16 % 64), '=', '=']
  {
    CodeGroupIsGroup(a, 0, 0);
    hide Group, Letter;
    assert CodeGroup(a, 0, 0)[..2] == [a / 4, a as int * 16 % 64];
  }

  lemma EncodedTwo(a: byte, b: byte)
    ensures Encoded([a, b]) == [Letter(a / 4), Letter((a as int * 16 + b / 16) % 64), Letter(b as int * 4 % 64), '=']
  {
    CodeGroupIsGroup(a, b, 0);
    hide Group, Letter;
    assert CodeGroup(a, b, 0)[..3] == [a / 4, (a as int * 16 + b / 16) % 64, b as int * 4 % 64];
  }

  // ---------------------------------------------------------------- decoding undoes encoding

  lemma DigitOfLetter(d: sextet, s: string)
    ensures Digits([Letter(d)] + s) == [d] + Digits(s)
  {
    LettersAreValues(Letter(d), d);
    hide Letter, UnBase64;
    assert ([Letter(d)] + s)[1..] == s;
  }

  lemma {:induction false} DigitsOfLetters(ds: seq<sextet>, s: string)
    ensures Digits(Letters(ds) + s) == ds + Digits(s)
  {
    hide Digits, Letter;
    if ds == [] {
      assert Letters(ds) + s == s;
    } else {
      DigitsOfLetters(ds[1..], s);
      DigitOfLetter(ds[0], Letters(ds[1..]) + s);
      assert Letters(ds) + s == [Letter(ds[0])] + (Letters(ds[1..]) + s);
      assert ds == [ds[0]] + ds[1..];
    }
  }

  lemma GroupIsWhole(a: byte, b: byte, c: byte)
    ensures WholeGroup(Group(a, b, c)) == [a, b, c]
  {
    CodeGroupIsGroup(a, b, c);
    hide Group;
    DivModIs(a as int * 16 + b / 16, 64, a / 4, a % 4 * 16 + b / 16);
    DivModIs(b as int * 4 + c / 64, 64, b / 16, b % 16 * 4 + c / 64);
  }

  /** The first two and three letters of a group carry its first byte and its first two bytes. */
  lemma GroupPrefixes(a: byte, b: byte)
    ensures PackedShort(Group(a, 0, 0)[..2]) == [a] && PackedShort(Group(a, b, 0)[..3]) == [a, b]
  {
    GroupIsWhole(a, 0, 0);
    GroupIsWhole(a, b, 0);
    hide Group;
  }

  lemma {:induction false} DecodeEncode(x: seq<byte>)
    ensures Decoded(Encoded(x)) == x
  {
    hide Letters, Group, WholeGroup;
    if |x| >= 3 {
      hide Digits;
      var g := Group(x[0], x[1], x[2]);
      DecodeEncode(x[3..]);
      DigitsOfLetters(g, Encoded(x[3..]));
      GroupIsWhole(x[0], x[1], x[2]);
      var rest := Digits(Encoded(x[3..]));
      PackedStep(g + rest);
      assert (g + rest)[..4] == g && (g + rest)[4..] == rest;
      assert x == [x[0], x[1], x[2]] + x[3..];
    } else if x != [] {
      hide Packed;
      var g := if |x| == 1 then Group(x[0], 0, 0)[..2] else Group(x[0], x[1], 0)[..3];
      var pad := if |x| == 1 then "==" else "=";
      DigitsOfLetters(g, pad);
      assert g + [] == g;
      ShortValues(g);
      GroupPrefixes(x[0], if |x| == 2 then x[1] else 0);
    }
  }

  // ---------------------------------------------------------------- characters outside the alphabet

  /** A text without the characters that are neither letters nor padding. */
  function Stripped(s: string): string {
    if s == [] then [] else (if UnBase64(s[0]) == -2 then [] else [s[0]]) + Stripped(s[1..])
  }

  lemma {:induction false} DigitsStripped(s: string)
    ensures Digits(s) == Digits(Stripped(s))
  {
    if s != [] {
      DigitsStripped(s[1..]);
      assert UnBase64(s[0]) != -2 ==> Stripped(s)[0] == s[0] && Stripped(s)[1..] == Stripped(s[1..]);
      assert UnBase64(s[0]) == -2 ==> Stripped(s) == Stripped(s[1..]);
    }
  }

  /** Inserting characters outside the alphabet anywhere does not change what is decoded. */
  lemma OtherCharactersAreSkipped(s: string, t: string)
    requires Stripped(s) == Stripped(t)
    ensures Decoded(s) == Decoded(t)
  {
    DigitsStripped(s);
    DigitsStripped(t);
  }

  /** An encoded text decodes to its bytes whatever else was put between its characters. */
  lemma DecodeAmongOthers(x: seq<byte>, s: string)
    requires Stripped(s) == Encoded(x)
    ensures Decoded(s) == x
  {
    DigitsStripped(s);
    DecodeEncode(x);
  }

  lemma {:induction false} DigitsBeforePadding(a: string, b: string)
    ensures Digits(a + "=" + b) == Digits(a)
  {
    if a == "" {
      assert a + "=" + b == "=" + b;
    } else {
      DigitsBeforePadding(a[1..], b);
      assert (a + "=" + b)[1..] == a[1..] + "=" + b;
    }
  }

  /** Whatever follows the first padding character does not matter. */
  lemma PaddingEnds(a: string, b: string)
    ensures Decoded(a + "=" + b) == Decoded(a)
  {
    DigitsBeforePadding(a, b);
  }
}
