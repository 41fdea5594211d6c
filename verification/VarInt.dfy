/**
 Variable-length integers: seven bits a byte, least significant first, the top bit set on all
 bytes but the last. And block positions packed into one 64-bit number.
 */
module VarInt {
  import opened Bytes

  function Power128(n: nat): (r: nat)
    ensures r > 0
  {
    if n == 0 then 1 else 128 * Power128(n - 1)
  }

  /** The number whose base-128 digits are the low seven bits of s, least significant first. */
  function Value(s: seq<byte>): (v: nat)
    ensures v < Power128(|s|)
  {
    if s == [] then 0 else s[0] % 128 + 128 * Value(s[1..])
  }

  /** A whole encoding: continuation bits up to the last byte, and none on it. */
  predicate Terminated(s: seq<byte>) {
    s != [] && s[|s| - 1] < 128 && forall i :: 0 <= i < |s| - 1 ==> s[i] >= 128
  }

  /** How many bytes the encoding at the front of r takes; 0 if it does not end. */
  function EncodingLength(r: seq<byte>): (n: nat)
    ensures n <= |r|
    ensures n > 0 ==> r[n - 1] < 128
    ensures forall i :: 0 <= i < (if n == 0 then |r| else n - 1) ==> r[i] >= 128
  {
    if r == [] then 0
    else if r[0] < 128 then 1
    else
      var n := EncodingLength(r[1..]);
      assert forall i :: 0 < i < |r| ==> r[i] == r[1..][i - 1];
      if n == 0 then 0 else n + 1
  }

  lemma EncodingLengthIs(r: seq<byte>, n: nat)
    requires 0 < n <= |r| && r[n - 1] < 128 && forall i :: 0 <= i < n - 1 ==> r[i] >= 128
    ensures EncodingLength(r) == n
  {
  }

  /** An encoding is found at its own length, whatever follows. */
  lemma EncodingIsPrefixFree(s: seq<byte>, rest: seq<byte>)
    requires Terminated(s)
    ensures EncodingLength(s + rest) == |s|
  {
    EncodingLengthIs(s + rest, |s|);
  }

  function Encode(v: nat): (s: seq<byte>)
    ensures Terminated(s)
  {
    if v < 128 then [v] else
      var tail := Encode(v / 128);
      var s := [128 + v % 128] + tail;
      assert forall i :: 0 < i < |s| ==> s[i] == tail[i - 1];
      s
  }

  lemma {:induction false} EncodedValue(v: nat)
    ensures Value(Encode(v)) == v
  {
    if v < 128 {
      assert Encode(v)[1..] == [];
    } else {
      EncodedValue(v / 128);
      assert Encode(v)[1..] == Encode(v / 128);
    }
  }

  /** Seven bits a byte, least significant first, and the top bit on all but the last. */
  lemma {:induction false} EncodedBytes(v: nat, k: nat)
    requires k < |Encode(v)|
    ensures Encode(v)[k] == v / Power128(k) % 128 + if k + 1 < |Encode(v)| then 128 else 0
  {
    if k == 0 {
      FirstByte(v);
    } else {
      OtherBytes(v);
      hide Encode;
      EncodedBytes(v / 128, k - 1);
      NextDigit(v, Power128(k - 1));
      assert Power128(k) == 128 * Power128(k - 1);
      hide Power128;
    }
  }

  lemma FirstByte(v: nat)
    ensures Encode(v)[0] == v / Power128(0) % 128 + if 1 < |Encode(v)| then 128 else 0
  {
    assert Power128(0) == 1;
  }

  lemma OtherBytes(v: nat)
    requires |Encode(v)| > 1
    ensures |Encode(v)| == |Encode(v / 128)| + 1 && forall k :: 0 < k < |Encode(v)| ==> Encode(v)[k] == Encode(v / 128)[k - 1]
  {
  }

  lemma NextDigit(v: nat, p: nat)
    requires p > 0
    ensures v / 128 / p == v / (128 * p)
  {
    var a := v / 128;
    var q, r := a / p, a % p;
    assert a == q * p + r && v == 128 * a + v % 128;
    Distributed(q, p, r, v % 128);
    DivModIs(v, 128 * p, q, 128 * r + v % 128);
  }

  lemma Distributed(q: nat, p: nat, r: nat, b: nat)
    requires r < p && b < 128
    ensures 128 * (q * p + r) + b == q * (128 * p) + (128 * r + b) && 128 * r + b < 128 * p
  {
  }

  /** The encodings of 0, 127, 128 and 300. */
  lemma SmallEncodings()
    ensures Encode(0) == [0x00] && Encode(127) == [0x7F] && Encode(128) == [0x80, 0x01] && Encode(300) == [0xAC, 0x02]
  {
    assert Encode(1) == [1] && Encode(2) == [2];
  }

  lemma {:induction false} EncodedLength(v: nat, n: nat)
    requires n > 0 && v < Power128(n)
    ensures |Encode(v)| <= n
  {
    if v >= 128 {
      assert n > 1 by { assert Power128(1) == 128 * Power128(0); }
      EncodedLength(v / 128, n - 1);
    }
  }

  /** The value of one more byte. */
  lemma {:induction false} ValueAppend(s: seq<byte>, b: byte)
    ensures Value(s + [b]) == Value(s) + b % 128 * Power128(|s|)
  {
    if s == [] {
      assert [b][1..] == [];
    } else {
      assert (s + [b])[1..] == s[1..] + [b];
      ValueAppend(s[1..], b);
      var x, p := b % 128, Power128(|s| - 1);
      assert 128 * (x * p) == x * (128 * p);
    }
  }

  lemma EncodedFront(b: seq<byte>, v: nat)
    requires v >= 128
    ensures b + [v % 128 + 128] + Encode(v / 128) == b + Encode(v)
  {
  }

  /** value | digit << 7k in an integer type of the given modulus; the bits do not overlap. */
  function Merge(value: nat, digit: nat, k: nat, modulus: nat): nat
    requires modulus > 0
  {
    (value + digit * Power128(k)) % modulus
  }

  lemma ModSum(x: nat, y: nat, m: nat)
    requires m > 0
    ensures (x % m + y) % m == (x + y) % m
  {
    var q := (x % m + y) / m;
    assert x + y == (x / m) * m + x % m + y;
    assert (x / m + q) * m == (x / m) * m + q * m;
    DivModIs(x + y, m, x / m + q, (x % m + y) % m);
  }

  /** Merging in the k-th byte extends the value read so far by that byte. */
  lemma MergedValue(r: seq<byte>, k: nat, modulus: nat)
    requires k < |r| && modulus > 0
    ensures Merge(Value(r[..k]) % modulus, r[k] % 128, k, modulus) == Value(r[..k + 1]) % modulus
  {
    ValueAppend(r[..k], r[k]);
    assert r[..k + 1] == r[..k] + [r[k]];
    ModSum(Value(r[..k]), r[k] % 128 * Power128(k), modulus);
  }

  // ---------------------------------------------------------------- packed positions

  /** The 64-bit number WritePosition64 sends: 26, 12 and 26 low bits of the coordinates. */
  function PackPosition(x: int, y: int, z: int): (v: nat)
    ensures v < 0x1_0000_0000_0000_0000
  {
    x % 0x400_0000 * 0x40_0000_0000 + y % 0x1000 * 0x400_0000 + z % 0x400_0000
  }

  /** What ReadPosition64 makes of it; the middle coordinate is corrected by 2048, not by 4096. */
  function UnpackPosition(v: nat): (int, int, int) {
    var x, y, z := v / 0x40_0000_0000 % 0x400_0000, v / 0x400_0000 % 0x1000, v % 0x400_0000;
    (if x < 0x200_0000 then x else -(0x400_0000 - x),
     if y < 0x800 then y else -(0x800 - y),
     if z < 0x200_0000 then z else -(0x400_0000 - z))
  }

  /** Its fields from the top: 26 bits of x, 12 of y, 26 of z. */
  lemma PackedFields(x: int, y: int, z: int)
    ensures var v := PackPosition(x, y, z);
            v / 0x40_0000_0000 == x % 0x400_0000 && v / 0x400_0000 % 0x1000 == y % 0x1000 && v % 0x400_0000 == z % 0x400_0000
  {
    var a, b, c := x % 0x400_0000, y % 0x1000, z % 0x400_0000;
    var v := PackPosition(x, y, z);
    DivModIs(v, 0x40_0000_0000, a, b * 0x400_0000 + c);
    DivModIs(v, 0x400_0000, a * 0x1000 + b, c);
    DivModIs(a * 0x1000 + b, 0x1000, a, b);
  }

  /** A position comes back exactly when x and z fit 26 signed bits and y is in 0..2047. */
  lemma PositionRoundTrip(x: int, y: int, z: int)
    ensures UnpackPosition(PackPosition(x, y, z)) == (x, y, z) <==>
            -0x200_0000 <= x < 0x200_0000 && 0 <= y < 0x800 && -0x200_0000 <= z < 0x200_0000
  {
    var a, b, c := x % 0x400_0000, y % 0x1000, z % 0x400_0000;
    var v := PackPosition(x, y, z);
    DivModIs(v, 0x40_0000_0000, a, b * 0x400_0000 + c);
    DivModIs(v, 0x400_0000, a * 0x1000 + b, c);
    DivModIs(a * 0x1000 + b, 0x1000, a, b);
    SignedRange(x, 0x400_0000);
    SignedRange(z, 0x400_0000);
    SignedRange(y, 0x1000);
  }

  /** y = -1 comes back as 2047. */
  lemma PositionIsLost()
    ensures UnpackPosition(PackPosition(0, -1, 0)) == (0, 2047, 0)
  {
    DivModIs(-1, 0x1000, -1, 0xFFF);
    DivModIs(0xFFF * 0x400_0000, 0x40_0000_0000, 0, 0xFFF * 0x400_0000);
  }

  lemma SignedRange(x: int, m: int)
    requires m == 0x400_0000 || m == 0x1000
    ensures -(m / 2) <= x < m / 2 <==> x == if x % m < m / 2 then x % m else x % m - m
  {
    if 0 <= x < m / 2 { DivModIs(x, m, 0, x); }
    if -(m / 2) <= x < 0 { DivModIs(x, m, -1, x + m); }
  }
}
