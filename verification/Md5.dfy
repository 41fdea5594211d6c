/**
 Streaming MD5: a state, a two-word bit counter and a 64-byte carry buffer, proved to give
 the digest RFC 1321 defines on the whole message however it is cut into updates.
 */
module Md5 {
  import opened Bytes
  import opened Md5Transform

  // ---------------------------------------------------------------- words and bytes, least significant first

  type uint32 = x: int | 0 <= x < 0x1_0000_0000

  function LittleEndian(b: seq<byte>, j: nat): uint32
    requires j + 4 <= |b|
  {
    b[j] as int + b[j + 1] as int * 0x100 + b[j + 2] as int * 0x1_0000 + b[j + 3] as int * 0x100_0000
  }

  function DecodeWord(b: seq<byte>, j: nat): word
    requires j + 4 <= |b|
  {
    (b[j] as word) | ((b[j + 1] as word) << 8) | ((b[j + 2] as word) << 16) | ((b[j + 3] as word) << 24)
  }

  function EncodeWord(w: uint32): (b: seq<byte>)
    ensures |b| == 4 && LittleEndian(b, 0) == w
  {
    WordDigits(w);
    [w % 0x100, w / 0x100 % 0x100, w / 0x1_0000 % 0x100, w / 0x100_0000 % 0x100]
  }

  lemma WordDigits(w: uint32)
    ensures w % 0x100 + w / 0x100 % 0x100 * 0x100 + w / 0x1_0000 % 0x100 * 0x1_0000 + w / 0x100_0000 % 0x100 * 0x100_0000 == w
  {
    var a := w / 0x100;
    var b := a / 0x100;
    var c := b / 0x100;
    DivModIs(w, 0x1_0000, b, a % 0x100 * 0x100 + w % 0x100);
    DivModIs(w, 0x100_0000, c, b % 0x100 * 0x1_0000 + a % 0x100 * 0x100 + w % 0x100);
    DivModIs(c, 0x100, 0, c);
  }

  function Words(block: seq<byte>): (ws: seq<word>)
    requires |block| == 64
    ensures |ws| == 16
  {
    seq(16, i requires 0 <= i < 16 => DecodeWord(block, 4 * i))
  }

  function EncodeWords(ws: seq<uint32>): (b: seq<byte>)
    ensures |b| == 4 * |ws|
  {
    if ws == [] then [] else EncodeWords(ws[..|ws| - 1]) + EncodeWord(ws[|ws| - 1])
  }

  lemma WordAt(block: seq<byte>, i: nat)
    requires |block| == 64 && i < 16
    ensures Words(block)[..i + 1] == Words(block)[..i] + [DecodeWord(block, 4 * i)]
  {
    hide DecodeWord;
  }

  method Decode(input: seq<byte>) returns (output: seq<word>)
    requires |input| == 64
    ensures output == Words(input)
  {
    hide Words, DecodeWord;
    output := [];
    var j := 0;
    for i := 0 to 16
      invariant j == 4 * i && output == Words(input)[..i]
    {
      var w := DecodeOne(input, j);
      WordAt(input, i);
      output := output + [w];
      j := j + 4;
    }
  }

  method DecodeOne(input: seq<byte>, j: nat) returns (w: word)
    requires j + 4 <= |input|
    ensures w == DecodeWord(input, j)
  {
    w := (input[j] as word) | ((input[j + 1] as word) << 8) | ((input[j + 2] as word) << 16) | ((input[j + 3] as word) << 24);
  }

  method Encode(input: seq<uint32>) returns (output: seq<byte>)
    ensures output == EncodeWords(input)
  {
    output := [];
    for i := 0 to |input|
      invariant output == EncodeWords(input[..i])
    {
      assert input[..i + 1][..i] == input[..i];
      output := output + [input[i] % 0x100] + [input[i] / 0x100 % 0x100] + [input[i] / 0x1_0000 % 0x100] + [input[i] / 0x100_0000 % 0x100];
    }
    assert input[..|input|] == input;
  }

  // ---------------------------------------------------------------- the definition (sections 3.1 to 3.5)

  function InitialState(): Quad { Quad(0x67452301, 0xefcdab89, 0x98badcfe, 0x10325476) }

  function Block(m: seq<byte>, k: nat): (b: seq<byte>)
    requires 64 * k + 64 <= |m|
    ensures |b| == 64
  {
    m[64 * k..64 * k + 64]
  }

  /** The state after the first k blocks of m. */
  function Chain(m: seq<byte>, k: nat): Quad
    requires 64 * k <= |m|
  {
    if k == 0 then InitialState() else Compress(Chain(m, k - 1), Words(Block(m, k - 1)))
  }

  lemma {:induction false} ChainOfPrefix(m: seq<byte>, more: seq<byte>, k: nat)
    requires 64 * k <= |m|
    ensures Chain(m + more, k) == Chain(m, k)
  {
    hide Compress, Words;
    if k > 0 {
      ChainOfPrefix(m, more, k - 1);
      assert Block(m + more, k - 1) == Block(m, k - 1);
    }
  }

  function Zeros(n: nat): (z: seq<byte>)
    ensures |z| == n
  {
    seq(n, i => 0)
  }

  /** The bit length modulo 2^64, low-order word first. */
  function BitLength(n: nat): (b: seq<byte>)
    ensures |b| == 8
  {
    var bits := 8 * n % 0x1_0000_0000_0000_0000;
    EncodeWords([bits % 0x1_0000_0000, bits / 0x1_0000_0000])
  }

  /** A one bit, then the fewest zero bits that leave 8 bytes to a multiple of 64. */
  function Padding(n: nat): (p: seq<byte>)
    ensures (n + |p|) % 64 == 56 && 1 <= |p| <= 64
  {
    [0x80] + Zeros((119 - n % 64) % 64)
  }

  function Padded(m: seq<byte>): (p: seq<byte>)
    ensures |p| % 64 == 0
  {
    var n := |m| + |Padding(|m|)|;
    DivModIs(n + 8, 64, n / 64 + 1, 0);
    m + Padding(|m|) + BitLength(|m|)
  }

  function QuadBytes(q: Quad): seq<byte> { EncodeWords([q.a as int, q.b as int, q.c as int, q.d as int]) }

  function Digest(m: seq<byte>): seq<byte> { QuadBytes(Chain(Padded(m), |Padded(m)| / 64)) }

  // ---------------------------------------------------------------- the bit counter

  /** The two words count the bits of n bytes modulo 2^64. */
  predicate Counts(count0: uint32, count1: uint32, n: nat) {
    count0 + 0x1_0000_0000 * count1 == 8 * n % 0x1_0000_0000_0000_0000
  }

  lemma CounterStep(count0: uint32, count1: uint32, n: nat, length: nat)
    requires length < 0x1_0000_0000 && Counts(count0, count1, n)
    ensures var shifted := length * 8 % 0x1_0000_0000;
            var low := (count0 + shifted) % 0x1_0000_0000;
            var carried := if low < shifted then (count1 + 1) % 0x1_0000_0000 else count1;
            var high := (carried + length / 0x2000_0000) % 0x1_0000_0000;
            Counts(low, high, n + length)
  {
    var over, part := length / 0x2000_0000, length % 0x2000_0000;
    var shifted := 8 * part;
    DivModIs(length * 8, 0x1_0000_0000, over, shifted);
    var sum := count0 + shifted;
    var c := if sum >= 0x1_0000_0000 then 1 else 0;
    DivModIs(sum, 0x1_0000_0000, c, sum - c * 0x1_0000_0000);
    var low := sum - c * 0x1_0000_0000;
    var carried := if count1 + c >= 0x1_0000_0000 then count1 + c - 0x1_0000_0000 else count1 + c;
    var w1 := if count1 + c >= 0x1_0000_0000 then 1 else 0;
    DivModIs(count1 + c, 0x1_0000_0000, w1, carried);
    var w2 := if carried + over >= 0x1_0000_0000 then 1 else 0;
    var high := carried + over - w2 * 0x1_0000_0000;
    DivModIs(carried + over, 0x1_0000_0000, w2, high);
    assert (low < shifted) == (c == 1);
    var q := 8 * n / 0x1_0000_0000_0000_0000;
    assert 8 * n == q * 0x1_0000_0000_0000_0000 + count0 + 0x1_0000_0000 * count1;
    DivModIs(8 * (n + length), 0x1_0000_0000_0000_0000, q + w1 + w2, low + 0x1_0000_0000 * high);
  }

  lemma CounterIndex(count0: uint32, count1: uint32, n: nat)
    requires Counts(count0, count1, n)
    ensures count0 / 8 % 64 == n % 64
  {
    var q := 8 * n / 0x1_0000_0000_0000_0000;
    assert 8 * n == count0 + 0x1_0000_0000 * count1 + 0x1_0000_0000_0000_0000 * q;
    hide Counts;
    LowestBits(count0, count1, n, q);
  }

  lemma LowestBits(low: nat, high: nat, n: nat, q: nat)
    requires 8 * n == low + 0x1_0000_0000 * high + 0x1_0000_0000_0000_0000 * q
    ensures low / 8 % 64 == n % 64
  {
    var k := n - 0x2000_0000 * high - 0x2000_0000_0000_0000 * q;
    DivModIs(low, 8, k, 0);
    DivModIs(n, 64, k / 64 + 0x80_0000 * high + 0x80_0000_0000_0000 * q, k % 64);
  }

  // ---------------------------------------------------------------- the carry buffer

  /** The buffer after an update: what did not fill a block, over what was there before. */
  function BufferAfter(buf: seq<byte>, index: nat, input: seq<byte>): (b: seq<byte>)
    requires |buf| == 64 && index < 64
    ensures |b| == 64
  {
    if index + |input| < 64 then Splice(buf, index, input)
    else
      var rest := (index + |input|) % 64;
      Splice(Splice(buf, index, input[..64 - index]), 0, input[|input| - rest..])
  }

  /** The buffer starts with what follows the last whole block of m. */
  predicate CarriesTail(buf: seq<byte>, m: seq<byte>) {
    |buf| == 64 && buf[..|m| % 64] == m[|m| - |m| % 64..]
  }

  /** The message the object stands for after a digest: with 56 bytes or more buffered, the buffer was overwritten. */
  function AfterDigest(m: seq<byte>): (r: seq<byte>)
    ensures |r| == |m|
  {
    var index := |m| % 64;
    if index < 56 then m else m[..|m| - index] + (Zeros(56) + BitLength(|m|))[..index]
  }

  /** State, counter and buffer of an object that has absorbed m. */
  ghost predicate StandsFor(state: Quad, count0: uint32, count1: uint32, buf: seq<byte>, m: seq<byte>) {
    Counts(count0, count1, |m|) && state == Chain(m, |m| / 64) && CarriesTail(buf, m)
  }

  function PaddingTable(): seq<byte> { [0x80] + Zeros(63) }

  class Context {
    var state: Quad
    var count0: uint32
    var count1: uint32
    const buffer: array<byte>
    var digest: seq<byte>
    var finished: bool
    ghost var message: seq<byte>

    /** State, counter and buffer stand for the message. */
    ghost predicate Absorbed()
      reads this, buffer
    {
      buffer.Length == 64 && StandsFor(state, count0, count1, buffer[..], message)
    }

    ghost predicate Valid()
      reads this, buffer
    {
      Absorbed() && !finished
    }

    constructor ()
      ensures Valid() && message == [] && fresh(buffer)
    {
      hide StandsFor, InitialState;
      finished := false;
      count0, count1 := 0, 0;
      state := InitialState();
      buffer := new byte[64](i => 0);
      digest := [];
      message := [];
      new;
      NothingAbsorbed(message, buffer[..]);
      assert Absorbed();
    }

    method Reset()
      requires buffer.Length == 64
      modifies this
      ensures Valid() && message == []
    {
      hide StandsFor, InitialState;
      finished := false;
      count0, count1 := 0, 0;
      state := InitialState();
      message := [];
      NothingAbsorbed(message, buffer[..]);
      assert Absorbed();
    }

    method CompressBlock(block: seq<byte>)
      requires |block| == 64
      modifies this`state
      ensures state == Compress(old(state), Words(block))
    {
      var x := Decode(block);
      state := Transform(state, x);
    }

    /** Counts the bits of an input. */
    method Count(length: nat)
      requires length < 0x1_0000_0000 && Counts(count0, count1, |message|)
      modifies this`count0, this`count1
      ensures Counts(count0, count1, |message| + length)
    {
      CounterStep(count0, count1, |message|, length);
      hide Counts;
      var shifted := length * 8 % 0x1_0000_0000;
      count0 := (count0 + shifted) % 0x1_0000_0000;
      if count0 < shifted {
        count1 := (count1 + 1) % 0x1_0000_0000;
      }
      count1 := (count1 + length / 0x2000_0000) % 0x1_0000_0000;
    }

    /** Absorbs input; a length of 2^32 - 64 or less keeps the 32-bit loop index from wrapping. */
    method Update(input: seq<byte>)
      requires Absorbed() && |input| <= 0x1_0000_0000 - 64
      modifies this`state, this`count0, this`count1, this`finished, this`message, buffer
      ensures Valid() && message == old(message) + input
      ensures buffer[..] == BufferAfter(old(buffer[..]), |old(message)| % 64, input)
    {
      hide Chain, Counts, BufferAfter, Splice, CarriesTail;
      finished := false;
      CounterIndex(count0, count1, |message|);
      var index := count0 / 8 % 64;
      Count(|input|);
      ghost var buf, old_ := buffer[..], message;
      var i := 0;
      if |input| >= 64 - index {
        i := CompressBlocks(index, input);
        CarryLong(old_, buf, input, i);
        index := 0;
      } else {
        ChainOfPrefix(message, input, |message| / 64);
        CarryShort(old_, buf, input);
      }
      CopyInto(buffer, index, input[i..]);
      message := message + input;
    }

    /** Completes the carried block and compresses every whole block of the input. */
    method CompressBlocks(index: nat, input: seq<byte>) returns (i: nat)
      requires buffer.Length == 64 && index == |message| % 64 && 64 - index <= |input|
      requires state == Chain(message, |message| / 64) && CarriesTail(buffer[..], message)
      modifies this`state, buffer
      ensures 64 - index <= i <= |input| < i + 64 && (|message| + i) % 64 == 0
      ensures state == Chain(message + input, (|message| + i) / 64)
      ensures buffer[..] == Splice(old(buffer[..]), index, input[..64 - index])
    {
      hide Compress, Words;
      ghost var all, k := message + input, |message| / 64;
      ChainOfPrefix(message, input, k);
      i := 64 - index;
      CopyInto(buffer, index, input[..i]);
      BlockCompleted(message, old(buffer[..]), input);
      CompressBlock(buffer[..]);
      k := k + 1;
      while i + 63 < |input|
        invariant 64 - index <= i <= |input| && |message| + i == 64 * k
        invariant state == Chain(all, k)
        invariant buffer[..] == Splice(old(buffer[..]), index, input[..64 - index])
      {
        BlockOfInput(message, input, i, k);
        CompressBlock(input[i..i + 64]);
        k := k + 1;
        i := i + 64;
      }
    }

    method EncodeState() returns (output: seq<byte>)
      ensures output == QuadBytes(state)
    {
      hide EncodeWords;
      output := Encode([state.a as int, state.b as int, state.c as int, state.d as int]);
    }

    /** Pads, takes the digest of the state, then puts state and counter back. */
    method Final()
      requires Absorbed()
      modifies this, buffer
      ensures Valid() && message == AfterDigest(old(message))
      ensures digest == Digest(old(message))
    {
      hide Chain, Counts, Splice, CarriesTail, Padding, Padded, BitLength, AfterDigest, EncodeWords, QuadBytes, BufferAfter;
      var oldState, oldCount0, oldCount1 := state, count0, count1;
      ghost var m := message;
      ghost var buf := buffer[..];
      var bits := Encode([count0, count1]);
      CounterBits(count0, count1, |m|);
      CounterIndex(count0, count1, |m|);
      var index := count0 / 8 % 64;
      var padLen := if index < 56 then 56 - index else 120 - index;
      PaddingTaken(|m|);
      Update(PaddingTable()[..padLen]);
      Update(bits);
      PaddedIs(m);
      digest := EncodeState();
      state, count0, count1 := oldState, oldCount0, oldCount1;
      Restored(m, buf);
      message := AfterDigest(m);
    }

    /** The digest of everything absorbed so far. */
    method GetDigest() returns (d: seq<byte>)
      requires Valid()
      modifies this, buffer
      ensures d == Digest(old(message))
      ensures Valid() && message == AfterDigest(old(message))
    {
      hide Digest, AfterDigest, Chain, Counts, CarriesTail;
      if !finished {
        finished := true;
        Final();
      }
      d := digest;
    }
  }

  /** What the buffer holds after an input too short to complete a block. */
  lemma CarryShort(m: seq<byte>, buf: seq<byte>, input: seq<byte>)
    requires CarriesTail(buf, m) && |m| % 64 + |input| < 64
    ensures var b := Splice(buf, |m| % 64, input);
            |m + input| / 64 == |m| / 64 && b == BufferAfter(buf, |m| % 64, input) && CarriesTail(b, m + input)
  {
    DivModIs(|m| + |input|, 64, |m| / 64, |m| % 64 + |input|);
  }

  /** The carried tail and the first bytes of the input are the next block. */
  lemma BlockCompleted(m: seq<byte>, buf: seq<byte>, input: seq<byte>)
    requires CarriesTail(buf, m) && 64 - |m| % 64 <= |input|
    ensures var index, k := |m| % 64, |m| / 64;
            Splice(buf, index, input[..64 - index]) == Block(m + input, k)
  {
    var index, k := |m| % 64, |m| / 64;
    assert (m + input)[64 * k..64 * k + 64] == m[64 * k..] + input[..64 - index];
  }

  lemma BlockOfInput(m: seq<byte>, input: seq<byte>, i: nat, k: nat)
    requires |m| + i == 64 * k && i + 64 <= |input|
    ensures Block(m + input, k) == input[i..i + 64]
  {
    assert (m + input)[|m| + i..|m| + i + 64] == input[i..i + 64];
  }

  lemma CarryLengths(n: nat, length: nat, i: nat)
    requires 64 - n % 64 <= i <= length < i + 64 && (n + i) % 64 == 0
    ensures (n + length) / 64 == (n + i) / 64 && (n + length) % 64 == length - i
    ensures (n % 64 + length) % 64 == length - i
  {
    DivModIs(n + length, 64, (n + i) / 64, length - i);
    DivModIs(n % 64 + length, 64, (n + i) / 64 - n / 64, length - i);
  }

  /** ... and after one that completed blocks up to its i-th byte. */
  lemma CarryLong(m: seq<byte>, buf: seq<byte>, input: seq<byte>, i: nat)
    requires |buf| == 64 && 64 - |m| % 64 <= i <= |input| < i + 64 && (|m| + i) % 64 == 0
    ensures var index := |m| % 64;
            var b := Splice(Splice(buf, index, input[..64 - index]), 0, input[i..]);
            |m + input| / 64 == (|m| + i) / 64 && b == BufferAfter(buf, index, input) && CarriesTail(b, m + input)
  {
    CarryLengths(|m|, |input|, i);
    assert (m + input)[|m| + i..] == input[i..];
  }

  lemma CounterBits(count0: uint32, count1: uint32, n: nat)
    requires Counts(count0, count1, n)
    ensures EncodeWords([count0, count1]) == BitLength(n)
  {
    hide EncodeWords;
    DivModIs(count0 + 0x1_0000_0000 * count1, 0x1_0000_0000, count1, count0);
  }

  lemma PaddingTaken(n: nat)
    ensures var index := n % 64;
            PaddingTable()[..if index < 56 then 56 - index else 120 - index] == Padding(n)
    ensures (n + |Padding(n)|) % 64 == 56
  {
  }

  lemma PaddedIs(m: seq<byte>)
    ensures m + Padding(|m|) + BitLength(|m|) == Padded(m)
  {
  }

  lemma NothingAbsorbed(m: seq<byte>, buf: seq<byte>)
    requires |buf| == 64 && m == []
    ensures StandsFor(InitialState(), 0, 0, buf, m)
  {
    ChainOfNone(m);
    CountsNothing();
    hide Chain, InitialState, Counts;
    assert buf[..0] == m[0..];
  }

  lemma ChainOfNone(m: seq<byte>)
    ensures Chain(m, 0) == InitialState()
  {
    hide Compress, InitialState;
  }

  lemma CountsNothing()
    ensures Counts(0, 0, 0)
  {
  }

  lemma LastEight(buf: seq<byte>, bits: seq<byte>)
    requires |buf| == 64 && |bits| == 8
    ensures BufferAfter(buf, 56, bits) == buf[..56] + bits
  {
    assert bits[..8] == bits && bits[8..] == [];
  }

  /** Padding behind 56 or more buffered bytes leaves zeros at the start of the buffer. */
  lemma LongPadding(buf: seq<byte>, index: nat, pad: seq<byte>)
    requires |buf| == 64 && 56 <= index < 64 && pad == PaddingTable()[..120 - index]
    ensures BufferAfter(buf, index, pad)[..56] == Zeros(56)
  {
    DivModIs(index + |pad|, 64, 1, 56);
    assert pad[|pad| - 56..] == Zeros(56);
  }

  lemma PaddedBuffer(buf: seq<byte>, n: nat)
    requires |buf| == 64
    ensures var index := n % 64;
            var b := BufferAfter(BufferAfter(buf, index, Padding(n)), 56, BitLength(n));
            if index < 56 then b[..index] == buf[..index] else b == Zeros(56) + BitLength(n)
  {
    hide BitLength, Padding;
    var index, pad := n % 64, Padding(n);
    PaddingTaken(n);
    LastEight(BufferAfter(buf, index, pad), BitLength(n));
    if index >= 56 {
      LongPadding(buf, index, pad);
    }
  }

  lemma ChainOfCommonPrefix(whole: seq<byte>, a: seq<byte>, b: seq<byte>, k: nat)
    requires 64 * k <= |whole|
    ensures Chain(whole + a, k) == Chain(whole + b, k)
  {
    hide Chain;
    ChainOfPrefix(whole, a, k);
    ChainOfPrefix(whole, b, k);
  }

  lemma AfterDigestChain(m: seq<byte>)
    ensures Chain(AfterDigest(m), |m| / 64) == Chain(m, |m| / 64)
  {
    hide Chain, BitLength;
    var index := |m| % 64;
    if index >= 56 {
      var whole := m[..|m| - index];
      ChainOfCommonPrefix(whole, m[|m| - index..], (Zeros(56) + BitLength(|m|))[..index], |m| / 64);
      assert whole + m[|m| - index..] == m;
    }
  }

  /** The buffer a digest leaves behind carries the tail of what the object then stands for. */
  lemma Restored(m: seq<byte>, buf: seq<byte>)
    requires CarriesTail(buf, m)
    ensures |AfterDigest(m)| == |m| && Chain(AfterDigest(m), |m| / 64) == Chain(m, |m| / 64)
    ensures CarriesTail(BufferAfter(BufferAfter(buf, |m| % 64, Padding(|m|)), 56, BitLength(|m|)), AfterDigest(m))
  {
    hide Chain, BitLength, BufferAfter, Padding, Zeros;
    AfterDigestChain(m);
    PaddedBuffer(buf, |m|);
    var index := |m| % 64;
    if index >= 56 {
      NewTail(m, index, Zeros(56) + BitLength(|m|));
    }
  }

  lemma NewTail(m: seq<byte>, index: nat, b: seq<byte>)
    requires index == |m| % 64 && |b| == 64
    ensures CarriesTail(b, m[..|m| - index] + b[..index])
  {
    var n := m[..|m| - index] + b[..index];
    assert n[|m| - index..] == b[..index];
  }

  /**
   A digest leaves the message the object stands for alone, so that it can be repeated or continued,
   exactly when fewer than 56 bytes are buffered or the buffered ones happen to be what overwrites them.
   */
  lemma DigestIsRepeatable(m: seq<byte>)
    ensures AfterDigest(m) == m <==>
            |m| % 64 < 56 || m[|m| - |m| % 64..] == (Zeros(56) + BitLength(|m|))[..|m| % 64]
  {
    hide BitLength;
    var index := |m| % 64;
    if index >= 56 {
      var tail := (Zeros(56) + BitLength(|m|))[..index];
      assert m == m[..|m| - index] + m[|m| - index..];
      assert (m[..|m| - index] + tail)[|m| - index..] == tail;
    }
  }

  /** It is not repeatable after 56 bytes 0x61: the object then stands for 56 zero bytes. */
  lemma DigestOf56Forgets()
    ensures var m: seq<byte> := seq(56, i => 0x61);
            AfterDigest(m) == Zeros(56) && AfterDigest(m) != m
  {
    var m: seq<byte> := seq(56, i => 0x61);
    assert |m| % 64 == 56;
    assert m[..0] == [];
    assert (Zeros(56) + BitLength(56))[..56] == Zeros(56);
    assert m[0] == 0x61 && Zeros(56)[0] == 0;
  }

  /** Any cutting of a message into updates gives the digest of the whole. */
  method DigestOfChunks(chunks: seq<seq<byte>>) returns (d: seq<byte>)
    requires forall i :: 0 <= i < |chunks| ==> |chunks[i]| <= 0x1_0000_0000 - 64
    ensures d == Digest(Concat(chunks))
  {
    hide Digest, AfterDigest, Chain, Counts, CarriesTail, BufferAfter;
    var c := new Context();
    for i := 0 to |chunks|
      invariant c.Valid() && fresh(c) && fresh(c.buffer) && c.message == Concat(chunks[..i])
    {
      assert chunks[..i + 1] == chunks[..i] + [chunks[i]];
      ConcatSplit(chunks[..i], [chunks[i]]);
      assert Concat([chunks[i]]) == chunks[i] + Concat([]);
      c.Update(chunks[i]);
    }
    assert chunks[..|chunks|] == chunks;
    d := c.GetDigest();
  }
}
