/** Octets and the two byte orders the modelled code uses. */
module Bytes {
  type byte = b: int | 0 <= b < 256

  /** Euclidean division has one answer. */
  lemma DivModIs(x: int, m: int, q: int, r: int)
    requires m > 0 && x == q * m + r && 0 <= r < m
    ensures x / m == q && x % m == r
  {
    var d := x / m - q;
    assert x == (x / m) * m + x % m;
    assert d * m == r - x % m;
    assert d >= 1 ==> d * m >= m;
    assert d <= -1 ==> d * m <= -m;
  }

  function Pow2(k: nat): nat { if k == 0 then 1 else 2 * Pow2(k - 1) }

  lemma {:induction false} PowAdd(a: nat, b: nat)
    ensures Pow2(a + b) == Pow2(a) * Pow2(b)
  {
    if a > 0 {
      PowAdd(a - 1, b);
      assert Pow2(a + b) == 2 * (Pow2(a - 1) * Pow2(b));
    }
  }

  lemma PowersOfTwo()
    ensures Pow2(16) == 0x1_0000 && Pow2(32) == 0x1_0000_0000 && Pow2(64) == 0x1_0000_0000_0000_0000
  {
    assert Pow2(0) == 1;
    assert Pow2(1) == 2;
    hide Pow2;
    PowAdd(1, 1);
    PowAdd(2, 2);
    PowAdd(4, 4);
    PowAdd(8, 8);
    PowAdd(16, 16);
    PowAdd(32, 32);
  }

  function Power256(n: nat): (r: nat)
    ensures r > 0
  {
    if n == 0 then 1 else 256 * Power256(n - 1)
  }

  /** The number whose base-256 digits are s, most significant first. */
  function BigEndian(s: seq<byte>): (v: nat)
    ensures v < Power256(|s|)
  {
    if s == [] then 0 else BigEndian(s[..|s| - 1]) * 256 + s[|s| - 1]
  }

  /** The n low-order base-256 digits of v, most significant first. */
  function BigEndianBytes(v: nat, n: nat): (s: seq<byte>)
    ensures |s| == n
  {
    if n == 0 then [] else BigEndianBytes(v / 256, n - 1) + [v % 256]
  }

  lemma {:induction false} BigEndianRoundTrip(v: nat, n: nat)
    requires v < Power256(n)
    ensures BigEndian(BigEndianBytes(v, n)) == v
  {
    if n > 0 {
      BigEndianRoundTrip(v / 256, n - 1);
      assert BigEndianBytes(v, n)[..n - 1] == BigEndianBytes(v / 256, n - 1);
    }
  }

  lemma {:induction false} BigEndianBytesOf(s: seq<byte>)
    ensures BigEndianBytes(BigEndian(s), |s|) == s
  {
    if s != [] {
      BigEndianBytesOf(s[..|s| - 1]);
      assert s == s[..|s| - 1] + [s[|s| - 1]];
    }
  }

  /** Byte k from the front is digit n - 1 - k of the number. */
  lemma {:induction false} BigEndianDigits(v: nat, n: nat, k: nat)
    requires k < n
    ensures BigEndianBytes(v, n)[k] == v / Power256(n - 1 - k) % 256
  {
    if k == n - 1 {
      assert Power256(0) == 1;
    } else {
      BigEndianDigits(v / 256, n - 1, k);
      assert Power256(n - 1 - k) == 256 * Power256(n - 2 - k);
      hide Power256;
      NextDigit256(v, Power256(n - 2 - k));
    }
  }

  lemma NextDigit256(v: nat, p: nat)
    requires p > 0
    ensures v / 256 / p == v / (256 * p)
  {
    var a := v / 256;
    var q, r := a / p, a % p;
    assert a == q * p + r && v == 256 * a + v % 256;
    assert 256 * (q * p + r) + v % 256 == q * (256 * p) + (256 * r + v % 256);
    DivModIs(v, 256 * p, q, 256 * r + v % 256);
  }

  lemma BigEndianOfFour(a: byte, b: byte, c: byte, d: byte)
    ensures BigEndian([a, b, c, d]) == 0x100_0000 * a + 0x1_0000 * b + 0x100 * c + d
  {
    assert [a, b, c, d][..3] == [a, b, c] && [a, b, c][..2] == [a, b] && [a, b][..1] == [a] && [a][..0] == [];
    assert BigEndian([a]) == a;
    assert BigEndian([a, b]) == 256 * a + b;
    assert BigEndian([a, b, c]) == 256 * (256 * a + b) + c;
  }

  lemma SliceSplit<T>(s: seq<T>, a: nat, b: nat, c: nat)
    requires a <= b <= c <= |s|
    ensures s[a..c] == s[a..b] + s[b..c]
  {
  }

  lemma ThreeParts<T>(s: seq<T>, p: nat, a: seq<T>, b: seq<T>, c: seq<T>)
    requires p <= |s| && s[p..] == a + b + c
    ensures p + |a| + |b| <= |s|
    ensures s[p..p + |a|] == a && s[p + |a|..p + |a| + |b|] == b && s[p + |a| + |b|..] == c
  {
    var t := s[p..];
    assert t[..|a|] == a && t[|a|..|a| + |b|] == b && t[|a| + |b|..] == c;
  }

  /** The concatenation of a list of byte strings. */
  function Concat(parts: seq<seq<byte>>): (s: seq<byte>)
  {
    if parts == [] then [] else parts[0] + Concat(parts[1..])
  }

  lemma {:induction false} ConcatSplit(a: seq<seq<byte>>, b: seq<seq<byte>>)
    ensures Concat(a + b) == Concat(a) + Concat(b)
  {
    if a == [] {
      assert a + b == b;
    } else {
      assert (a + b)[1..] == a[1..] + b;
      ConcatSplit(a[1..], b);
    }
  }

  /** buf with input written over it from at on. */
  function Splice(buf: seq<byte>, at: nat, input: seq<byte>): (b: seq<byte>)
    requires at + |input| <= |buf|
    ensures |b| == |buf|
  {
    buf[..at] + input + buf[at + |input|..]
  }

  /** A slice that ends with what was written. */
  lemma SpliceSlice(buf: seq<byte>, a: nat, at: nat, input: seq<byte>)
    requires a <= at && at + |input| <= |buf|
    ensures Splice(buf, at, input)[a..at + |input|] == buf[a..at] + input
  {
  }

  /** Slices clear of what was written. */
  lemma SpliceElsewhere(buf: seq<byte>, at: nat, input: seq<byte>, a: nat)
    requires at + |input| <= a <= |buf|
    ensures Splice(buf, at, input)[a..] == buf[a..]
  {
  }

  /** memcpy */
  method CopyInto(dst: array<byte>, at: nat, src: seq<byte>)
    requires at + |src| <= dst.Length
    modifies dst
    ensures dst[..] == Splice(old(dst[..]), at, src)
  {
    for i := 0 to |src|
      invariant dst[..at] == old(dst[..at])
      invariant dst[at..at + i] == src[..i]
      invariant dst[at + i..] == old(dst[at + i..])
    {
      dst[at + i] := src[i];
      assert dst[at..at + i + 1] == dst[at..at + i] + [src[i]];
    }
    SliceSplit(dst[..], 0, at, at + |src|);
    assert dst[..] == dst[..][0..at] + dst[at..at + |src|] + dst[at + |src|..];
  }
}
