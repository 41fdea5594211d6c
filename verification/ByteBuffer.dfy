/**
 A ring buffer of bytes with three cyclic positions: where the data starts, where the next
 read happens and where the next write goes. One byte of the array is never used, so that
 equal positions always mean "empty". It stands for a byte sequence and a read offset.
 */
module ByteBuffer {
  import opened Bytes
  import opened VarInt

  // ---------------------------------------------------------------- cyclic slices

  /** How far b is ahead of a, going round. */
  function Ahead(size: nat, a: nat, b: nat): (d: nat)
    requires a < size && b < size
    ensures d < size
  {
    if a <= b then b - a else size - a + b
  }

  /** The bytes from position a up to position b, going round. */
  function Round(buf: seq<byte>, a: nat, b: nat): (s: seq<byte>)
    requires a < |buf| && b < |buf|
    ensures |s| == Ahead(|buf|, a, b)
  {
    if a <= b then buf[a..b] else buf[a..] + buf[..b]
  }

  function Advance(size: nat, a: nat, n: nat): nat
    requires a < size && n < size
  {
    if a + n < size then a + n else a + n - size
  }

  lemma RoundSplit(buf: seq<byte>, a: nat, b: nat, c: nat)
    requires a < |buf| && b < |buf| && c < |buf|
    requires Ahead(|buf|, a, b) <= Ahead(|buf|, a, c)
    ensures Round(buf, a, c) == Round(buf, a, b) + Round(buf, b, c)
  {
  }

  /** The array after input is written at b, going round. */
  function Deposit(buf: seq<byte>, b: nat, input: seq<byte>): (r: seq<byte>)
    requires b < |buf| && |input| < |buf|
    ensures |r| == |buf|
  {
    var room := |buf| - b;
    if room <= |input| then Splice(Splice(buf, b, input[..room]), 0, input[room..]) else Splice(buf, b, input)
  }

  /** n bytes from position a, going round. */
  function Collect(buf: seq<byte>, a: nat, n: nat): (r: seq<byte>)
    requires a < |buf| && n < |buf|
  {
    var room := |buf| - a;
    if room <= n then buf[a..] + buf[..n - room] else buf[a..a + n]
  }

  lemma RoundAppendWrapping(buf: seq<byte>, a: nat, b: nat, input: seq<byte>)
    requires a <= b < |buf| && |buf| - b <= |input| < |buf| - (b - a)
    ensures Round(Deposit(buf, b, input), a, |input| - (|buf| - b)) == buf[a..b] + input
  {
    hide Splice;
    var room, r := |buf| - b, Deposit(buf, b, input);
    var first := Splice(buf, b, input[..room]);
    SpliceSlice(buf, a, b, input[..room]);
    assert first[a..b + room] == first[a..];
    SpliceElsewhere(first, 0, input[room..], a);
    SpliceSlice(first, 0, 0, input[room..]);
    assert r[..|input| - room] == r[0..0 + |input[room..]|] == input[room..];
    assert buf[a..b] + input[..room] + input[room..] == buf[a..b] + input;
  }

  lemma RoundAppendBelow(buf: seq<byte>, a: nat, b: nat, input: seq<byte>)
    requires b < a < |buf| && |input| < a - b
    ensures Round(Deposit(buf, b, input), a, b + |input|) == buf[a..] + buf[..b] + input
  {
    hide Splice;
    SpliceSlice(buf, 0, b, input);
    SpliceElsewhere(buf, b, input, a);
    assert buf[0..b] == buf[..b];
    var r := Deposit(buf, b, input);
    assert r[..b + |input|] == r[0..b + |input|];
    assert buf[a..] + (buf[..b] + input) == buf[a..] + buf[..b] + input;
  }

  /** Writing behind b, while room is left before a, appends to what is between a and b. */
  lemma RoundAppend(buf: seq<byte>, a: nat, b: nat, input: seq<byte>)
    requires a < |buf| && b < |buf| && |input| < |buf| - Ahead(|buf|, a, b)
    ensures Round(Deposit(buf, b, input), a, Advance(|buf|, b, |input|)) == Round(buf, a, b) + input
  {
    hide Splice;
    if |buf| - b <= |input| {
      RoundAppendWrapping(buf, a, b, input);
    } else if a <= b {
      SpliceSlice(buf, a, b, input);
    } else {
      RoundAppendBelow(buf, a, b, input);
    }
  }

  /** Collecting no more than there is between a and b gives its first bytes. */
  lemma RoundTake(buf: seq<byte>, a: nat, b: nat, n: nat)
    requires a < |buf| && b < |buf| && n <= Ahead(|buf|, a, b)
    ensures Collect(buf, a, n) == Round(buf, a, b)[..n]
  {
  }

  /** A position between a and c that moves on by n bytes, but not past c. */
  lemma AheadAdvance(size: nat, a: nat, b: nat, c: nat, n: nat)
    requires a < size && b < size && c < size && Ahead(size, a, b) <= Ahead(size, a, c)
    requires n <= Ahead(size, b, c)
    ensures n < size
    ensures Ahead(size, a, Advance(size, b, n)) == Ahead(size, a, b) + n <= Ahead(size, a, c)
  {
  }

  // ---------------------------------------------------------------- the abstract value

  /** All bytes not committed yet, and how many of them have been read. */
  datatype Stream = Stream(data: seq<byte>, offset: nat, capacity: nat) {
    predicate Ok() { offset <= |data| <= capacity }
    function Free(): int { capacity - |data| }
    function Unread(): seq<byte>
      requires offset <= |data|
    {
      data[offset..]
    }
    function Written(bytes: seq<byte>): Stream { Stream(data + bytes, offset, capacity) }
    function Skipped(n: nat): Stream { Stream(data, offset + n, capacity) }
  }

  /** One call that changes the value; reads that ask for too much and writes that do not fit change nothing. */
  datatype Op = DoWrite(bytes: seq<byte>) | DoRead(n: nat) | DoCommit | DoReset

  /** The value with its history: all bytes written, and all bytes committed. */
  datatype Trace = Trace(stream: Stream, written: seq<byte>, committed: seq<byte>)

  function Step(t: Trace, op: Op): (t': Trace)
    requires t.stream.Ok()
    ensures t'.stream.Ok()
  {
    var b := t.stream;
    match op
    case DoWrite(bytes) => if |bytes| <= b.Free() then Trace(b.Written(bytes), t.written + bytes, t.committed) else t
    case DoRead(n) => if n <= |b.Unread()| then t.(stream := b.Skipped(n)) else t
    case DoCommit => Trace(Stream(b.Unread(), 0, b.capacity), t.written, t.committed + b.data[..b.offset])
    case DoReset => t.(stream := b.(offset := 0))
  }

  function Run(capacity: nat, ops: seq<Op>): (t: Trace)
    ensures t.stream.Ok()
  {
    if ops == [] then Trace(Stream([], 0, capacity), [], [])
    else Step(Run(capacity, ops[..|ops| - 1]), ops[|ops| - 1])
  }

  /** Over every interleaving: what was committed and what is held are all bytes written, in order. */
  lemma {:induction false} FirstInFirstOut(capacity: nat, ops: seq<Op>)
    ensures var t := Run(capacity, ops);
            t.committed + t.stream.data == t.written && t.stream.capacity == capacity &&
            |t.stream.data| + t.stream.Free() == capacity
  {
    if ops != [] {
      FirstInFirstOut(capacity, ops[..|ops| - 1]);
      StepConserves(Run(capacity, ops[..|ops| - 1]), ops[|ops| - 1]);
      hide Step;
    }
  }

  lemma StepConserves(t: Trace, op: Op)
    requires t.stream.Ok() && t.committed + t.stream.data == t.written
    ensures var t' := Step(t, op);
            t'.committed + t'.stream.data == t'.written && t'.stream.capacity == t.stream.capacity
  {
    var b := t.stream;
    assert b.data == b.data[..b.offset] + b.Unread();
    if op.DoWrite? {
      assert t.committed + (b.data + op.bytes) == t.committed + b.data + op.bytes;
    }
  }

  class Buffer {
    const buffer: array<byte>
    var dataStart: nat
    var writePos: nat
    var readPos: nat

    ghost predicate Valid()
      reads this
    {
      && dataStart < buffer.Length && writePos < buffer.Length && readPos < buffer.Length
      && Ahead(buffer.Length, dataStart, readPos) <= Ahead(buffer.Length, dataStart, writePos)
    }

    ghost function Abs(): (v: Stream)
      requires Valid()
      reads this, buffer
      ensures v.Ok()
    {
      Stream(Round(buffer[..], dataStart, writePos), Ahead(buffer.Length, dataStart, readPos), buffer.Length - 1)
    }

    constructor (size: nat)
      ensures Valid() && fresh(buffer) && Abs() == Stream([], 0, size)
    {
      buffer := new byte[size + 1](i => 0);
      dataStart, writePos, readPos := 0, 0, 0;
    }

    method GetFreeSpace() returns (n: nat)
      requires Valid()
      ensures n == Abs().Free()
    {
      if writePos >= dataStart { return buffer.Length - writePos + dataStart - 1; }
      return dataStart - writePos - 1;
    }

    method GetUsedSpace() returns (n: nat)
      requires Valid()
      ensures n == |Abs().data|
    {
      var free := GetFreeSpace();
      return buffer.Length - free - 1;
    }

    method GetReadableSpace() returns (n: nat)
      requires Valid()
      ensures n == |Abs().Unread()|
    {
      if readPos > writePos { return buffer.Length - readPos + writePos; }
      return writePos - readPos;
    }

    method CanReadBytes(count: nat) returns (ok: bool)
      requires Valid()
      ensures ok <==> count <= |Abs().Unread()|
    {
      var n := GetReadableSpace();
      return count <= n;
    }

    method CanWriteBytes(count: nat) returns (ok: bool)
      requires Valid()
      ensures ok <==> count <= Abs().Free()
    {
      var n := GetFreeSpace();
      return count <= n;
    }

    /** Copies bytes into the ring. */
    method Put(bytes: seq<byte>)
      requires writePos < buffer.Length && |bytes| < buffer.Length
      modifies this`writePos, buffer
      ensures writePos == Advance(buffer.Length, old(writePos), |bytes|)
      ensures buffer[..] == Deposit(old(buffer[..]), old(writePos), bytes)
    {
      var tillEnd := buffer.Length - writePos;
      var rest := bytes;
      if tillEnd <= |bytes| {
        if tillEnd > 0 {
          CopyInto(buffer, writePos, bytes[..tillEnd]);
          rest := bytes[tillEnd..];
        }
        writePos := 0;
      }
      if |rest| > 0 {
        CopyInto(buffer, writePos, rest);
        writePos := writePos + |rest|;
      }
    }

    /** Copies bytes out of the ring. */
    method Get(count: nat) returns (bytes: seq<byte>)
      requires readPos < buffer.Length && count < buffer.Length
      modifies this`readPos
      ensures readPos == Advance(buffer.Length, old(readPos), count)
      ensures bytes == Collect(buffer[..], old(readPos), count)
    {
      bytes := [];
      var toEnd := buffer.Length - readPos;
      var left := count;
      if toEnd <= count {
        if toEnd > 0 {
          bytes := buffer[readPos..readPos + toEnd];
          left := count - toEnd;
        }
        readPos := 0;
      }
      if left > 0 {
        bytes := bytes + buffer[readPos..readPos + left];
        readPos := readPos + left;
      }
    }

    /** Appends all of bytes, or nothing. */
    method Write(bytes: seq<byte>) returns (ok: bool)
      requires Valid()
      modifies this`writePos, buffer
      ensures Valid() && (ok <==> |bytes| <= old(Abs()).Free())
      ensures Abs() == if ok then old(Abs()).Written(bytes) else old(Abs())
    {
      var free := GetFreeSpace();
      if free < |bytes| { return false; }
      RoundAppend(buffer[..], dataStart, writePos, bytes);
      hide Round, Deposit;
      Put(bytes);
      return true;
    }

    /** Takes count unread bytes, or none. */
    method ReadBuf(count: nat) returns (ok: bool, bytes: seq<byte>)
      requires Valid()
      modifies this`readPos
      ensures Valid() && (ok <==> count <= |old(Abs()).Unread()|)
      ensures ok ==> bytes == old(Abs()).Unread()[..count] && Abs() == old(Abs()).Skipped(count)
      ensures !ok ==> bytes == [] && Abs() == old(Abs())
    {
      bytes := [];
      ok := CanReadBytes(count);
      if !ok { return; }
      RoundSplit(buffer[..], dataStart, readPos, writePos);
      RoundTake(buffer[..], readPos, writePos, count);
      AheadAdvance(buffer.Length, dataStart, readPos, writePos, count);
      hide Round, Ahead, Collect, Advance;
      bytes := Get(count);
    }

    /** Appends all of bytes, or nothing; the form the codecs use. */
    method WriteBuf(bytes: seq<byte>) returns (ok: bool)
      requires Valid()
      modifies this`writePos, buffer
      ensures Valid() && (ok <==> |bytes| <= old(Abs()).Free())
      ensures Abs() == if ok then old(Abs()).Written(bytes) else old(Abs())
    {
      ok := CanWriteBytes(|bytes|);
      if !ok { return; }
      RoundAppend(buffer[..], dataStart, writePos, bytes);
      hide Round, Deposit;
      Put(bytes);
    }

    /** Takes count unread bytes as a string, or leaves the string as it was. */
    method ReadString(before: seq<byte>, count: nat) returns (ok: bool, s: seq<byte>)
      requires Valid()
      modifies this`readPos
      ensures Valid() && (ok <==> count <= |old(Abs()).Unread()|)
      ensures ok ==> s == old(Abs()).Unread()[..count] && Abs() == old(Abs()).Skipped(count)
      ensures !ok ==> s == before && Abs() == old(Abs())
    {
      ok, s := ReadBuf(count);
      if !ok { s := before; }
    }

    method SkipRead(count: nat) returns (ok: bool)
      requires Valid()
      modifies this`readPos
      ensures Valid() && (ok <==> count <= |old(Abs()).Unread()|)
      ensures Abs() == if ok then old(Abs()).Skipped(count) else old(Abs())
    {
      ok := CanReadBytes(count);
      if !ok { return; }
      readPos := readPos + count;
      if readPos >= buffer.Length {
        readPos := readPos - buffer.Length;
      }
    }

    /** Forgets what has been read. */
    method CommitRead()
      requires Valid()
      modifies this`dataStart
      ensures Valid() && Abs() == Stream(old(Abs()).Unread(), 0, old(Abs()).capacity)
    {
      RoundSplit(buffer[..], dataStart, readPos, writePos);
      dataStart := readPos;
    }

    /** Goes back to the first byte not committed. */
    method ResetRead()
      requires Valid()
      modifies this`readPos
      ensures Valid() && Abs() == old(Abs()).(offset := 0)
    {
      readPos := dataStart;
    }

    /** One call of the traced operations. */
    method Perform(op: Op, ghost written: seq<byte>, ghost committed: seq<byte>)
      requires Valid()
      modifies this`dataStart, this`writePos, this`readPos, buffer
      ensures Valid() && Abs() == Step(Trace(old(Abs()), written, committed), op).stream
    {
      match op {
        case DoWrite(bytes) => var _ := Write(bytes);
        case DoRead(n) => var _ := SkipRead(n);
        case DoCommit => CommitRead();
        case DoReset => ResetRead();
      }
    }

    /** What has been read but not committed, appended to out. */
    method ReadAgain(before: seq<byte>) returns (out: seq<byte>)
      requires Valid()
      ensures out == before + Abs().data[..Abs().offset]
    {
      RoundSplit(buffer[..], dataStart, readPos, writePos);
      out := before;
      var start := dataStart;
      if readPos < dataStart {
        out := out + buffer[dataStart..buffer.Length];
        start := 0;
      }
      out := out + buffer[start..readPos];
      assert Abs().data[..Abs().offset] == Round(buffer[..], dataStart, readPos);
    }

    method ReadAll() returns (bytes: seq<byte>)
      requires Valid()
      modifies this`readPos
      ensures Valid() && bytes == old(Abs()).Unread() && Abs() == old(Abs()).(offset := |Abs().data|)
    {
      var n := GetReadableSpace();
      var ok;
      ok, bytes := ReadBuf(n);
    }

    // -------------------------------------------------------------- integers and strings on top

    /** The bytes of a variable-length integer, as the writers build them. */
    static method VarIntBytes(value: nat) returns (b: seq<byte>)
      ensures b == Encode(value)
    {
      b := [];
      var left := value;
      while left > 0x7f
        invariant b + Encode(left) == Encode(value)
        decreases left
      {
        EncodedFront(b, left);
        b := b + [left % 0x80 + 0x80];
        left := left / 0x80;
      }
      b := b + [left];
    }

    /** WriteVarInt32 and WriteVarInt64. */
    method WriteVarInt(value: nat) returns (ok: bool)
      requires Valid()
      modifies this`writePos, buffer
      ensures Valid() && (ok <==> |Encode(value)| <= old(Abs()).Free())
      ensures Abs() == if ok then old(Abs()).Written(Encode(value)) else old(Abs())
    {
      var b := VarIntBytes(value);
      ok := WriteBuf(b);
    }

    /**
     ReadVarInt32 and ReadVarInt64: an integer of the given width. An encoding that does not end is
     consumed all the same. What shifting by the width or more gives is left open.
     */
    method ReadVarInt(width: nat) returns (ok: bool, value: nat)
      requires Valid() && (width == 32 || width == 64)
      modifies this`readPos
      ensures Valid()
      ensures var r := old(Abs()).Unread();
              var n := EncodingLength(r);
              (ok <==> n > 0) && Abs() == old(Abs()).Skipped(if ok then n else |r|) &&
              (ok && 7 * (n - 1) < width ==> value == Value(r[..n]) % Modulus(width))
    {
      hide Round, Ahead, Value, Modulus, Merge;
      ghost var from, r := Abs(), Abs().Unread();
      value := 0;
      var k := 0;
      assert r[..0] == [] && Value([]) == 0 by { NoBytesNoValue(); }
      var more := true;
      while more
        invariant Valid() && k <= |r| && (!more ==> 0 < k && r[k - 1] < 128)
        invariant Abs() == from.Skipped(k)
        invariant forall i :: 0 <= i < (if more then k else k - 1) ==> r[i] >= 128
        invariant 7 * (k - 1) < width ==> value == Value(r[..k]) % Modulus(width)
        decreases more, |r| - k
      {
        var b;
        ok, b := ReadBuf(1);
        if !ok {
          EncodingLengthIsZero(r);
          return false, 0;
        }
        assert b[0] == r[k];
        if 7 * k < width {
          MergedValue(r, k, Modulus(width));
          value := Merge(value, b[0] % 128, k, Modulus(width));
        } else {
          value := *;
        }
        k := k + 1;
        more := b[0] >= 128;
      }
      EncodingLengthIs(r, k);
      ok := true;
    }

    /** A string behind its length in 32 bits. If only the length fits, it is written all the same. */
    method WriteVarUTF8String(s: seq<byte>) returns (ok: bool)
      requires Valid()
      modifies this`writePos, buffer
      ensures Valid()
      ensures var size := |s| % 0x1_0000_0000;
              (ok <==> |Encode(size)| + |s| <= old(Abs()).Free()) &&
              Abs() == (if ok then old(Abs()).Written(Encode(size) + s)
                        else if |s| + 1 <= old(Abs()).Free() then old(Abs()).Written(Encode(size))
                        else old(Abs()))
    {
      hide Round, Ahead;
      var size := |s| % 0x1_0000_0000;
      ok := CanWriteBytes(|s| + 1);
      LengthPrefixFits(size);
      if ok {
        ghost var from := Abs();
        ok := WriteVarInt(size);
        if ok {
          assert from.Written(Encode(size)).Written(s) == from.Written(Encode(size) + s);
          ok := WriteBuf(s);
        }
      }
    }

    /** Reads a string behind its length; the length is consumed even if the string is not all there. */
    method ReadVarUTF8String(before: seq<byte>) returns (ok: bool, s: seq<byte>)
      requires Valid()
      modifies this`readPos
      ensures Valid()
      ensures var r := old(Abs()).Unread();
              var n := EncodingLength(r);
              if n == 0 then !ok && s == before && Abs() == old(Abs()).Skipped(|r|)
              else n <= 10 ==>
                var size := StringSize(r[..n]);
                (ok <==> n + size <= |r|) &&
                s == (if ok then r[n..n + size] else before) &&
                Abs() == old(Abs()).Skipped(if ok then n + size else n)
    {
      hide Round, Ahead, Value, EncodingLength;
      ghost var from, r := Abs(), Abs().Unread();
      s := before;
      var size;
      ok, size := ReadVarInt(64);
      if ok {
        ghost var n := EncodingLength(r);
        RestUnread(from, n);
        size := size % Modulus(32);
        assert n <= 10 ==> size == StringSize(r[..n]);
        hide StringSize, Modulus;
        ok, s := ReadString(before, size);
        assert ok ==> r[n..][..size] == r[n..n + size];
      }
    }

    /** The unsigned big-endian writers: 1, 2, 4 or 8 bytes. */
    method WriteBE(value: nat, n: nat) returns (ok: bool)
      requires Valid() && value < Power256(n)
      modifies this`writePos, buffer
      ensures Valid() && (ok <==> n <= old(Abs()).Free())
      ensures Abs() == if ok then old(Abs()).Written(BigEndianBytes(value, n)) else old(Abs())
    {
      ok := WriteBuf(BigEndianBytes(value, n));
    }

    method ReadBE(n: nat) returns (ok: bool, value: nat)
      requires Valid()
      modifies this`readPos
      ensures Valid() && (ok <==> n <= |old(Abs()).Unread()|)
      ensures ok ==> value == BigEndian(old(Abs()).Unread()[..n]) && Abs() == old(Abs()).Skipped(n)
      ensures !ok ==> Abs() == old(Abs())
    {
      var b;
      ok, b := ReadBuf(n);
      value := BigEndian(b);
    }

    /** Moves num bytes to another buffer that has room for them. */
    method MovePiece(dst: Buffer, num: nat)
      requires Valid() && dst.Valid() && dst != this && dst.buffer != buffer
      requires num <= |Abs().Unread()| && num <= dst.Abs().Free()
      modifies this`readPos, dst`writePos, dst.buffer
      ensures Valid() && dst.Valid()
      ensures Abs() == old(Abs()).Skipped(num)
      ensures dst.Abs() == old(dst.Abs()).Written(old(Abs()).Unread()[..num])
    {
      hide Ahead, Round;
      var okRead, piece := ReadBuf(num);
      var okWrite := dst.Write(piece);
    }

    /** Moves numBytes unread bytes to another buffer in pieces of at most 1024, or none at all. */
    method ReadToByteBuffer(dst: Buffer, numBytes: nat) returns (ok: bool)
      requires Valid() && dst.Valid() && dst != this && dst.buffer != buffer
      modifies this`readPos, dst`writePos, dst.buffer
      ensures Valid() && dst.Valid()
      ensures ok <==> numBytes <= |old(Abs()).Unread()| && numBytes <= old(dst.Abs()).Free()
      ensures !ok ==> Abs() == old(Abs()) && dst.Abs() == old(dst.Abs())
      ensures ok ==> Abs() == old(Abs()).Skipped(numBytes) &&
                     dst.Abs() == old(dst.Abs()).Written(old(Abs()).Unread()[..numBytes])
    {
      hide Ahead, Round;
      var canWrite := dst.CanWriteBytes(numBytes);
      var canRead := CanReadBytes(numBytes);
      if !canWrite || !canRead { return false; }
      ghost var from, into, moved := Abs(), dst.Abs(), 0;
      MoveNone(from, into);
      var left := numBytes;
      while left != 0
        invariant Valid() && dst.Valid() && moved + left == numBytes
        invariant Abs() == from.Skipped(moved) && dst.Abs() == into.Written(from.Unread()[..moved])
      {
        var num := if left > 1024 then 1024 else left;
        MoveMore(from, into, moved, num);
        MovePiece(dst, num);
        moved := moved + num;
        left := left - num;
      }
      return true;
    }
  }

  lemma MoveNone(from: Stream, into: Stream)
    requires from.Ok()
    ensures from.Skipped(0) == from && into.Written(from.Unread()[..0]) == into
  {
  }

  lemma MoveMore(from: Stream, into: Stream, moved: nat, num: nat)
    requires from.Ok() && moved + num <= |from.Unread()|
    ensures var from', into' := from.Skipped(moved), into.Written(from.Unread()[..moved]);
            from'.Ok() && num <= |from'.Unread()| && into'.Free() == into.Free() - moved &&
            from'.Skipped(num) == from.Skipped(moved + num) &&
            into'.Written(from'.Unread()[..num]) == into.Written(from.Unread()[..moved + num])
  {
    var u := from.Unread();
    assert u[..moved + num] == u[..moved] + u[moved..moved + num];
    assert from.Skipped(moved).Unread()[..num] == u[moved..moved + num];
  }

  function Modulus(width: nat): (m: nat)
    requires width == 32 || width == 64
    ensures m > 0
  {
    if width == 32 then 0x1_0000_0000 else 0x1_0000_0000_0000_0000
  }

  /** The string length an encoding stands for: read as 64 bits, kept as 32. */
  function StringSize(e: seq<byte>): (n: nat) { Value(e) % Modulus(64) % Modulus(32) }

  lemma NoBytesNoValue()
    ensures Value([]) == 0
  {
  }

  lemma EncodingLengthIsZero(r: seq<byte>)
    requires forall i :: 0 <= i < |r| ==> r[i] >= 128
    ensures EncodingLength(r) == 0
  {
  }

  lemma {:induction false} LengthPrefixFits(v: nat)
    ensures |Encode(v)| <= v + 1
  {
    if v >= 128 { LengthPrefixFits(v / 128); }
  }

  // ---------------------------------------------------------------- what is written comes back

  lemma UnreadOfWritten(b: Stream, x: seq<byte>)
    requires b.Ok()
    ensures b.offset + |b.Unread()| == |b.data| && b.Written(x).Skipped(|b.Unread()|).Unread() == x
    ensures b.Written(x).Unread() == b.Unread() + x
  {
  }

  lemma EncodingAtFront(value: nat, after: seq<byte>)
    ensures var r := Encode(value) + after;
            var n := EncodingLength(r);
            n == |Encode(value)| > 0 && r[..n] == Encode(value) && Value(r[..n]) == value && r[n..] == after
  {
    hide Value, Encode;
    var e := Encode(value);
    EncodingIsPrefixFree(e, after);
    assert (e + after)[..|e|] == e && (e + after)[|e|..] == after;
    EncodedValue(value);
  }

  /** At most 5 bytes for 32 bits and 10 for 64, and no truncation on the way back. */
  lemma EncodingFits(value: nat)
    ensures value < Modulus(32) ==> |Encode(value)| <= 5 && value % Modulus(32) == value % Modulus(64) == value
    ensures value < Modulus(64) ==> |Encode(value)| <= 10 && value % Modulus(64) == value
  {
    hide Encode;
    PowersOf128();
    if value < Modulus(32) { EncodedLength(value, 5); }
    if value < Modulus(64) { EncodedLength(value, 10); }
  }

  /**
   An integer written behind what is unread, whatever is written after it, once the former has been read: both readers
   give it back and consume exactly its bytes, of which there are at most 5 for 32 bits and 10 for 64.
   */
  lemma VarIntComesBack(b: Stream, value: nat, after: seq<byte>)
    requires b.Ok() && value < Modulus(64)
    ensures var r := b.Written(Encode(value) + after).Skipped(|b.Unread()|).Unread();
            var n := EncodingLength(r);
            n == |Encode(value)| && 0 < n <= (if value < Modulus(32) then 5 else 10) && r[n..] == after &&
            Value(r[..n]) % Modulus(64) == value &&
            (value < Modulus(32) ==> Value(r[..n]) % Modulus(32) == value)
  {
    UnreadOfWritten(b, Encode(value) + after);
    EncodingAtFront(value, after);
    EncodingFits(value);
  }

  lemma PowersOf128()
    ensures Power128(5) >= Modulus(32) && Power128(10) >= Modulus(64)
  {
    assert Power128(5) == 0x8_0000_0000;
    assert Power128(10) == 0x8_0000_0000 * 0x8_0000_0000;
  }

  /** A string written behind what is unread comes back once that has been read, and exactly its bytes are consumed. */
  lemma StringComesBack(b: Stream, s: seq<byte>, after: seq<byte>)
    requires b.Ok() && |s| < Modulus(32)
    ensures var r := b.Written(Encode(|s|) + s + after).Skipped(|b.Unread()|).Unread();
            var n := EncodingLength(r);
            0 < n <= 5 && StringSize(r[..n]) == |s| &&
            n + |s| <= |r| && r[n..n + |s|] == s && r[n + |s|..] == after
  {
    hide Encode, Value;
    var e := Encode(|s|);
    assert e + s + after == e + (s + after);
    UnreadOfWritten(b, e + s + after);
    EncodingAtFront(|s|, s + after);
    EncodingFits(|s|);
    ThreeParts(e + s + after, 0, e, s, after);
  }

  /** Any sequence of operations on a new buffer: what it holds follows the trace that FirstInFirstOut is about. */
  method PerformAll(capacity: nat, ops: seq<Op>) returns (b: Buffer)
    ensures b.Valid() && fresh(b) && fresh(b.buffer) && b.Abs() == Run(capacity, ops).stream
  {
    b := new Buffer(capacity);
    for i := 0 to |ops|
      invariant b.Valid() && fresh(b) && fresh(b.buffer) && b.Abs() == Run(capacity, ops[..i]).stream
    {
      ghost var t := Run(capacity, ops[..i]);
      assert ops[..i + 1][..i] == ops[..i];
      b.Perform(ops[i], t.written, t.committed);
    }
    assert ops[..|ops|] == ops;
  }

  /** An integer and a string behind it. */
  method WriteBoth(b: Buffer, value: nat, s: seq<byte>) returns (ok: bool)
    requires b.Valid() && |s| < Modulus(32)
    modifies b`writePos, b.buffer
    ensures b.Valid()
    ensures ok <==> |Encode(value)| + |Encode(|s|)| + |s| <= old(b.Abs()).Free()
    ensures ok ==> b.Abs() == old(b.Abs()).Written(Encode(value) + (Encode(|s|) + s))
  {
    hide Encode;
    ghost var start := b.Abs();
    ok := b.WriteVarInt(value);
    if ok {
      assert |s| % 0x1_0000_0000 == |s|;
      ok := b.WriteVarUTF8String(s);
      TwoWrites(start, Encode(value), Encode(|s|) + s);
    }
  }

  /** An integer in front of what is unread is read back, and nothing more is consumed. */
  method TakeInteger(b: Buffer, ghost value: nat, ghost after: seq<byte>) returns (value': nat)
    requires b.Valid() && value < Modulus(64) && b.Abs().Unread() == Encode(value) + after
    modifies b`readPos
    ensures b.Valid() && value' == value && b.Abs().Unread() == after
  {
    hide Encode, Value, EncodingLength, Modulus;
    ghost var start := b.Abs();
    IntegerInFront(value, after);
    var ok;
    ok, value' := b.ReadVarInt(64);
    RestUnread(start, |Encode(value)|);
  }

  /** A string in front of what is unread is read back, and nothing more is consumed. */
  method TakeString(b: Buffer, ghost s: seq<byte>, ghost after: seq<byte>) returns (s': seq<byte>)
    requires b.Valid() && |s| < Modulus(32) && b.Abs().Unread() == Encode(|s|) + s + after
    modifies b`readPos
    ensures b.Valid() && s' == s && b.Abs().Unread() == after
  {
    hide Encode, Value, EncodingLength, StringSize, Modulus;
    ghost var start := b.Abs();
    StringInFront(s, after);
    var ok;
    ok, s' := b.ReadVarUTF8String([]);
    RestUnread(start, |Encode(|s|) + s|);
  }

  lemma RestUnread(b: Stream, n: nat)
    requires b.Ok() && n <= |b.Unread()|
    ensures b.Skipped(n).offset <= |b.data| && b.Skipped(n).Unread() == b.Unread()[n..]
  {
  }

  lemma IntegerInFront(value: nat, after: seq<byte>)
    requires value < Modulus(64)
    ensures var r := Encode(value) + after;
            var n := EncodingLength(r);
            n == |Encode(value)| && 0 < n && 7 * (n - 1) < 64 && r[n..] == after && Value(r[..n]) % Modulus(64) == value
  {
    EncodingAtFront(value, after);
    EncodingFits(value);
    hide Encode, Value, EncodingLength;
  }

  lemma StringInFront(s: seq<byte>, after: seq<byte>)
    requires |s| < Modulus(32)
    ensures var r := Encode(|s|) + s + after;
            var n := EncodingLength(r);
            0 < n <= 5 && n == |Encode(|s|)| && StringSize(r[..n]) == |s| && n + |s| <= |r| && r[n..n + |s|] == s &&
            r[n + |s|..] == after
  {
    var e := Encode(|s|);
    assert e + s + after == e + (s + after);
    EncodingAtFront(|s|, s + after);
    EncodingFits(|s|);
    hide Encode, Value, EncodingLength;
    ThreeParts(e + s + after, 0, e, s, after);
  }

  /** An integer and a string through one buffer, wherever its positions stand, behind what is still unread there. */
  method ThroughBuffer(b: Buffer, value: nat, s: seq<byte>) returns (ok: bool, value': nat, s': seq<byte>)
    requires b.Valid() && value < Modulus(64) && |s| < Modulus(32)
    modifies b, b.buffer
    ensures b.Valid()
    ensures ok <==> |Encode(value)| + |Encode(|s|)| + |s| <= old(b.Abs()).Free()
    ensures ok ==> value' == value && s' == s && b.Abs().Unread() == []
  {
    hide Encode;
    ghost var start := b.Abs();
    var pending := b.GetReadableSpace();
    value', s' := 0, [];
    ok := WriteBoth(b, value, s);
    if ok {
      UnreadOfWritten(start, Encode(value) + (Encode(|s|) + s));
      var _ := b.SkipRead(pending);
      value' := TakeInteger(b, value, Encode(|s|) + s);
      assert Encode(|s|) + s == Encode(|s|) + s + [];
      s' := TakeString(b, s, []);
    }
  }

  lemma TwoWrites(b: Stream, x: seq<byte>, y: seq<byte>)
    ensures b.Written(x).Written(y) == b.Written(x + y)
  {
    assert b.data + x + y == b.data + (x + y);
  }
}
