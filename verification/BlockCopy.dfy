/** The copy routines for decoded frames: by 32 bytes, by 16, then byte by byte, and in two halves at once. */
module BlockCopy {
  import opened Bytes

  // ---------------------------------------------------------------- the stores of a copy

  /** One byte stored. */
  datatype Store = Store(at: nat, value: byte)

  /** Bytes stored one after the other. */
  function StoresOf(at: nat, bytes: seq<byte>): seq<Store> {
    seq(|bytes|, i requires 0 <= i < |bytes| => Store(at + i, bytes[i]))
  }

  /** The first k turns of the main loop: two registers each, the second of them stored three times. */
  function LoopStores(d: nat, src: seq<byte>, s: nat, k: nat): seq<Store>
    requires s + 32 * k <= |src|
  {
    if k == 0 then [] else
      var n := 32 * (k - 1);
      var second := StoresOf(d + n + 16, src[s + n + 16..s + n + 32]);
      LoopStores(d, src, s, k - 1) + (StoresOf(d + n, src[s + n..s + n + 16]) + second + second + second)
  }

  /** All stores of the register-wise copy, in its order: pairs of registers, a single register, then bytes. */
  function GpuStores(d: nat, src: seq<byte>, s: nat, size: nat, aligned: bool): seq<Store>
    requires s + size <= |src|
  {
    if !aligned then StoresOf(d, src[s..s + size]) else
      var n := 32 * (size / 32);
      var m := n + 16 * (size % 32 / 16);
      LoopStores(d, src, s, size / 32) + StoresOf(d + n, src[s + n..s + m]) + StoresOf(d + m, src[s + m..s + size])
  }

  lemma StoresMore(at: nat, a: seq<byte>, b: seq<byte>)
    ensures StoresOf(at, a) + StoresOf(at + |a|, b) == StoresOf(at, a + b)
  {
  }

  // ---------------------------------------------------------------- the copy

  /** A register is loaded whole: the source is read up to the next multiple of 16. */
  function RoundUp16(n: nat): nat { (n + 15) / 16 * 16 }

  /** One aligned load and store of a register. */
  method MoveRegister(dst: array<byte>, at: nat, src: seq<byte>, pos: nat) returns (ghost log: seq<Store>)
    requires at + 16 <= dst.Length && pos + 16 <= |src|
    modifies dst
    ensures dst[..] == Splice(old(dst[..]), at, src[pos..pos + 16]) && log == StoresOf(at, src[pos..pos + 16])
  {
    log := StoresOf(at, src[pos..pos + 16]);
    forall i | 0 <= i < 16 {
      dst[at + i] := src[pos + i];
    }
  }

  /** What has been copied so far, with 16 bytes more. */
  lemma SpliceMore(buf: seq<byte>, at: nat, src: seq<byte>, pos: nat, done: nat, more: nat)
    requires at + done + more <= |buf| && pos + done + more <= |src|
    ensures Splice(Splice(buf, at, src[pos..pos + done]), at + done, src[pos + done..pos + done + more])
         == Splice(buf, at, src[pos..pos + done + more])
  {
  }

  lemma SpliceNone(buf: seq<byte>, at: nat)
    requires at <= |buf|
    ensures Splice(buf, at, []) == buf
  {
  }

  /** The number of bytes copied by registers, and what is left. */
  lemma Stages(size: nat)
    ensures var r := size % 32;
            size - r == 32 * (size / 32) && r < 32 && size - r + 16 * (r / 16) + r % 16 == size &&
            size - r + 16 * (r / 16) + (if r % 16 > 0 then 16 else 0) == RoundUp16(size)
  {
    var q, r := size / 32, size % 32;
    var h, t := r / 16, r % 16;
    if t > 0 {
      DivModIs(size + 15, 16, 2 * q + h + 1, t - 1);
    } else {
      DivModIs(size + 15, 16, 2 * q + h, 15);
    }
  }

  /** The main loop: two registers a turn, the second of them stored three times. */
  method CopyPairs(dst: array<byte>, d: nat, src: seq<byte>, s: nat, n: nat, ghost turns: nat)
    returns (done: nat, ghost log: seq<Store>)
    requires n == 32 * turns && d + n <= dst.Length && s + n <= |src|
    modifies dst
    ensures done == n && dst[..] == Splice(old(dst[..]), d, src[s..s + n]) && log == LoopStores(d, src, s, turns)
  {
    hide Splice, StoresOf;
    done, log := 0, [];
    ghost var k := 0;
    SpliceNone(dst[..], d);
    assert src[s..s + 0] == [];
    while done < n
      invariant k <= turns && done == 32 * k
      invariant dst[..] == Splice(old(dst[..]), d, src[s..s + done]) && log == LoopStores(d, src, s, k)
    {
      ghost var first := MoveRegister(dst, d + done, src, s + done);
      SpliceMore(old(dst[..]), d, src, s, done, 16);
      ghost var second := StoreAgain(dst, d, src, s, done + 16, old(dst[..]));
      log := log + (first + second + second + second);
      done := done + 32;
      k := k + 1;
    }
  }

  /** The same register to the same place three times. */
  method StoreAgain(dst: array<byte>, d: nat, src: seq<byte>, s: nat, done: nat, ghost before: seq<byte>)
    returns (ghost log: seq<Store>)
    requires d + done + 16 <= dst.Length && s + done + 16 <= |src| && |before| == dst.Length
    requires dst[..] == Splice(before, d, src[s..s + done])
    modifies dst
    ensures dst[..] == Splice(before, d, src[s..s + done + 16])
    ensures log == StoresOf(d + done, src[s + done..s + done + 16])
  {
    hide Splice;
    ghost var entry := dst[..];
    log := MoveRegister(dst, d + done, src, s + done);
    log := MoveRegister(dst, d + done, src, s + done);
    log := MoveRegister(dst, d + done, src, s + done);
    var register := src[s + done..s + done + 16];
    SpliceTwice(entry, d + done, register);
    SpliceMore(before, d, src, s, done, 16);
  }

  lemma SpliceTwice(buf: seq<byte>, at: nat, bytes: seq<byte>)
    requires at + |bytes| <= |buf|
    ensures Splice(Splice(buf, at, bytes), at, bytes) == Splice(buf, at, bytes)
  {
  }

  /** The second stage: at most one register more. */
  method CopyRegisters(dst: array<byte>, d: nat, src: seq<byte>, s: nat, start: nat, end: nat, ghost before: seq<byte>)
    returns (done: nat, ghost log: seq<Store>)
    requires d + start + 16 * end <= dst.Length && s + start + 16 * end <= |src| && |before| == dst.Length
    requires dst[..] == Splice(before, d, src[s..s + start])
    modifies dst
    ensures done == start + 16 * end && dst[..] == Splice(before, d, src[s..s + done])
    ensures log == StoresOf(d + start, src[s + start..s + done])
  {
    log := [];
    hide Splice;
    for i := 0 to end
      invariant dst[..] == Splice(before, d, src[s..s + start + 16 * i])
      invariant log == StoresOf(d + start, src[s + start..s + start + 16 * i])
    {
      hide StoresOf;
      ghost var one := MoveRegister(dst, d + start + 16 * i, src, s + start + 16 * i);
      var a, b := src[s + start..s + start + 16 * i], src[s + start + 16 * i..s + start + 16 * i + 16];
      StoresMore(d + start, a, b);
      assert a + b == src[s + start..s + start + 16 * (i + 1)];
      log := log + one;
      SpliceMore(before, d, src, s, start + 16 * i, 16);
    }
    done := start + 16 * end;
  }

  /** The last stage: a register is loaded whole, and its first n bytes are stored. */
  method CopyTail(dst: array<byte>, d: nat, src: seq<byte>, s: nat, done: nat, n: nat, ghost before: seq<byte>)
    returns (ghost log: seq<Store>)
    requires n < 16 && d + done + n <= dst.Length && s + done + 16 <= |src| && |before| == dst.Length
    requires dst[..] == Splice(before, d, src[s..s + done])
    modifies dst
    ensures dst[..] == Splice(before, d, src[s..s + done + n])
    ensures log == StoresOf(d + done, src[s + done..s + done + n])
  {
    log := StoresOf(d + done, src[s + done..s + done + n]);
    hide Splice;
    var register := src[s + done..s + done + 16];
    CopyInto(dst, d + done, register[..n]);
    assert register[..n] == src[s + done..s + done + n];
    SpliceMore(before, d, src, s, done, n);
  }

  /**
   * aligned is false when an address is not a multiple of 16 or the processor lacks the instruction.
   * Exactly size bytes are written, although whole registers are read; log is the list of its stores.
   */
  method GpuMemcpySse41(dst: array<byte>, d: nat, src: seq<byte>, s: nat, size: nat, aligned: bool)
    returns (ghost log: seq<Store>)
    requires d + size <= dst.Length && s + (if aligned then RoundUp16(size) else size) <= |src|
    modifies dst
    ensures dst[..] == Splice(old(dst[..]), d, src[s..s + size])
    ensures s + size <= |src| && log == GpuStores(d, src, s, size, aligned) && dst[..] == Apply(old(dst[..]), log)
  {
    hide Splice, LoopStores, StoresOf, RoundUp16, Apply, Faithful, Complete;
    Stages(size);
    GpuStoresCopy(d, src, s, size, aligned);
    AnyOrderCopies(dst[..], GpuStores(d, src, s, size, aligned), d, src[s..s + size]);
    if !aligned {
      CopyInto(dst, d, src[s..s + size]);
      log := StoresOf(d, src[s..s + size]);
      return;
    }
    var remainder := size % 32;
    var done, loop := CopyPairs(dst, d, src, s, size - remainder, size / 32);
    ghost var n, m := done, done + 16 * (remainder / 16);
    ghost var registers, tail := StoresOf(d + n, []), StoresOf(d + m, []);
    assert src[s + n..s + n] == [] && src[s + size..s + size] == [];
    if remainder >= 16 {
      done, registers := CopyRegisters(dst, d, src, s, done, remainder / 16, old(dst[..]));
      remainder := remainder % 16;
    }
    if remainder > 0 {
      tail := CopyTail(dst, d, src, s, done, remainder, old(dst[..]));
    }
    assert registers == StoresOf(d + n, src[s + n..s + m]) && tail == StoresOf(d + m, src[s + m..s + size]);
    log := loop + registers + tail;
  }

  // ---------------------------------------------------------------- two halves at once

  const MIN_BUFFER_SIZE := 0x4_0000

  /** Where a large copy is cut in two. */
  function BlockSize(size: nat): (n: nat)
    ensures n <= size
  {
    size / 2 / 32 * 32
  }

  function Apply(buf: seq<byte>, stores: seq<Store>): (b: seq<byte>)
    ensures |b| == |buf|
    decreases |stores|
  {
    if stores == [] then buf
    else
      var w := stores[|stores| - 1];
      var rest := Apply(buf, stores[..|stores| - 1]);
      if w.at < |buf| then rest[w.at := w.value] else rest
  }

  /** Stores that put nothing but the given bytes at d. */
  predicate Faithful(stores: seq<Store>, d: nat, data: seq<byte>) {
    forall w :: w in stores ==> d <= w.at < d + |data| && w.value == data[w.at - d]
  }

  /** ... and each of them at least once. */
  predicate Complete(stores: seq<Store>, d: nat, data: seq<byte>) {
    forall j :: 0 <= j < |data| ==> Store(d + j, data[j]) in stores
  }

  /** A schedule of two threads' stores. */
  predicate Interleaves(stores: seq<Store>, a: seq<Store>, b: seq<Store>)
    decreases |stores|
  {
    if stores == [] then a == [] && b == []
    else
      (a != [] && a[0] == stores[0] && Interleaves(stores[1..], a[1..], b)) ||
      (b != [] && b[0] == stores[0] && Interleaves(stores[1..], a, b[1..]))
  }

  lemma {:induction false} InterleavedStores(stores: seq<Store>, a: seq<Store>, b: seq<Store>, w: Store)
    requires Interleaves(stores, a, b)
    ensures w in stores <==> w in a || w in b
    decreases |stores|
  {
    if stores != [] {
      if a != [] && a[0] == stores[0] && Interleaves(stores[1..], a[1..], b) {
        InterleavedStores(stores[1..], a[1..], b, w);
        assert a == [a[0]] + a[1..];
      } else {
        InterleavedStores(stores[1..], a, b[1..], w);
        assert b == [b[0]] + b[1..];
      }
      assert stores == [stores[0]] + stores[1..];
    }
  }

  lemma {:induction false} AppliedAt(buf: seq<byte>, stores: seq<Store>, d: nat, data: seq<byte>, p: nat)
    requires d + |data| <= |buf| && p < |buf| && Faithful(stores, d, data)
    ensures Apply(buf, stores)[p] ==
              if d <= p < d + |data| && Store(p, data[p - d]) in stores then data[p - d] else buf[p]
    decreases |stores|
  {
    if stores != [] {
      var front, last := stores[..|stores| - 1], stores[|stores| - 1];
      assert stores == front + [last];
      assert last in stores;
      AppliedAt(buf, front, d, data, p);
    }
  }

  /** Stores of nothing but the right bytes, all of them, however often and in whatever order, make a copy. */
  lemma AnyOrderCopies(buf: seq<byte>, stores: seq<Store>, d: nat, data: seq<byte>)
    requires d + |data| <= |buf| && Faithful(stores, d, data) && Complete(stores, d, data)
    ensures Apply(buf, stores) == Splice(buf, d, data)
  {
    forall p | 0 <= p < |buf| ensures Apply(buf, stores)[p] == Splice(buf, d, data)[p] {
      AppliedAt(buf, stores, d, data, p);
      assert d <= p < d + |data| ==> Store(d + (p - d), data[p - d]) in stores;
    }
    hide Apply, Faithful, Complete;
  }

  /** The two halves of a copy, each complete in itself, make the whole copy under every schedule of their stores. */
  lemma HalvesMakeTheCopy(buf: seq<byte>, d: nat, data: seq<byte>, a: seq<Store>, b: seq<Store>, stores: seq<Store>)
    requires d + |data| <= |buf| && Interleaves(stores, a, b)
    requires var cut := BlockSize(|data|);
             Faithful(a, d, data[..cut]) && Complete(a, d, data[..cut]) &&
             Faithful(b, d + cut, data[cut..]) && Complete(b, d + cut, data[cut..])
    ensures Apply(buf, stores) == Splice(buf, d, data)
    ensures forall v, w :: v in a && w in b ==> v.at != w.at
  {
    var cut := BlockSize(|data|);
    forall w ensures w in stores <==> w in a || w in b {
      InterleavedStores(stores, a, b, w);
    }
    HalvesFaithful(d, data, cut, a, b, stores);
    HalvesComplete(d, data, cut, a, b, stores);
    AnyOrderCopies(buf, stores, d, data);
    hide Interleaves, Apply, BlockSize, Splice;
  }

  lemma HalvesFaithful(d: nat, data: seq<byte>, cut: nat, a: seq<Store>, b: seq<Store>, stores: seq<Store>)
    requires cut <= |data| && Faithful(a, d, data[..cut]) && Faithful(b, d + cut, data[cut..])
    requires forall w :: w in stores ==> w in a || w in b
    ensures Faithful(stores, d, data)
  {
    forall w | w in stores ensures d <= w.at < d + |data| && w.value == data[w.at - d] {
      assert w !in a ==> data[cut..][w.at - d - cut] == data[w.at - d];
    }
  }

  lemma HalvesComplete(d: nat, data: seq<byte>, cut: nat, a: seq<Store>, b: seq<Store>, stores: seq<Store>)
    requires cut <= |data| && Complete(a, d, data[..cut]) && Complete(b, d + cut, data[cut..])
    requires forall w :: w in a || w in b ==> w in stores
    ensures Complete(stores, d, data)
  {
    forall j | 0 <= j < |data| ensures Store(d + j, data[j]) in stores {
      if j < cut {
        assert data[..cut][j] == data[j];
      } else {
        assert Store(d + cut + (j - cut), data[cut..][j - cut]) in b;
      }
    }
  }

  /** Nothing but n bytes of the source from s on, and all of them. */
  predicate Copies(stores: seq<Store>, d: nat, src: seq<byte>, s: nat, n: nat)
    requires s + n <= |src|
  {
    Faithful(stores, d, src[s..s + n]) && Complete(stores, d, src[s..s + n])
  }

  lemma StoresOfCopy(d: nat, src: seq<byte>, s: nat, n: nat)
    requires s + n <= |src|
    ensures Copies(StoresOf(d, src[s..s + n]), d, src, s, n)
  {
    var bytes := src[s..s + n];
    assert Faithful(StoresOf(d, bytes), d, bytes);
    hide Faithful;
    forall j | 0 <= j < |bytes| ensures Store(d + j, bytes[j]) in StoresOf(d, bytes) {
      assert StoresOf(d, bytes)[j] == Store(d + j, bytes[j]);
    }
  }

  lemma TwoParts(src: seq<byte>, s: nat, n: nat, more: nat)
    requires s + n + more <= |src|
    ensures src[s..s + n + more][..n] == src[s..s + n] && src[s..s + n + more][n..] == src[s + n..s + n + more]
  {
  }

  lemma CopiesMore(a: seq<Store>, b: seq<Store>, d: nat, src: seq<byte>, s: nat, n: nat, more: nat)
    requires s + n + more <= |src| && Copies(a, d, src, s, n) && Copies(b, d + n, src, s + n, more)
    ensures Copies(a + b, d, src, s, n + more)
  {
    hide Faithful, Complete;
    var data := src[s..s + n + more];
    TwoParts(src, s, n, more);
    HalvesFaithful(d, data, n, a, b, a + b);
    HalvesComplete(d, data, n, a, b, a + b);
  }

  /** Stores repeated do no harm. */
  lemma CopiesAgain(a: seq<Store>, b: seq<Store>, d: nat, src: seq<byte>, s: nat, n: nat)
    requires s + n <= |src| && Copies(a, d, src, s, n) && forall w :: w in b ==> w in a
    ensures Copies(a + b, d, src, s, n)
  {
  }

  /** A turn of the main loop copies its 32 bytes. */
  lemma TurnCopies(before: seq<Store>, d: nat, src: seq<byte>, s: nat, n: nat)
    requires s + n + 32 <= |src| && Copies(before, d, src, s, n)
    ensures var first := StoresOf(d + n, src[s + n..s + n + 16]);
            var second := StoresOf(d + n + 16, src[s + n + 16..s + n + 32]);
            Copies(before + (first + second + second + second), d, src, s, n + 32)
  {
    hide *;
    var first, second := StoresOf(d + n, src[s + n..s + n + 16]), StoresOf(d + n + 16, src[s + n + 16..s + n + 32]);
    StoresOfCopy(d + n, src, s + n, 16);
    StoresOfCopy(d + n + 16, src, s + n + 16, 16);
    CopiesMore(before, first, d, src, s, n, 16);
    CopiesMore(before + first, second, d, src, s, n + 16, 16);
    CopiesAgain(before + first + second, second, d, src, s, n + 32);
    CopiesAgain(before + first + second + second, second, d, src, s, n + 32);
    assert before + (first + second + second + second) == before + first + second + second + second;
  }

  lemma LoopStep(d: nat, src: seq<byte>, s: nat, k: nat)
    requires 0 < k && s + 32 * k <= |src|
    ensures var n := 32 * (k - 1);
            var first := StoresOf(d + n, src[s + n..s + n + 16]);
            var second := StoresOf(d + n + 16, src[s + n + 16..s + n + 32]);
            LoopStores(d, src, s, k) == LoopStores(d, src, s, k - 1) + (first + second + second + second)
  {
    hide StoresOf;
  }

  lemma NothingCopied(d: nat, src: seq<byte>, s: nat)
    requires s <= |src|
    ensures Copies(LoopStores(d, src, s, 0), d, src, s, 0)
  {
  }

  lemma {:induction false} LoopCopies(d: nat, src: seq<byte>, s: nat, k: nat)
    requires s + 32 * k <= |src|
    ensures Copies(LoopStores(d, src, s, k), d, src, s, 32 * k)
  {
    hide *;
    if k == 0 {
      NothingCopied(d, src, s);
    } else {
      LoopCopies(d, src, s, k - 1);
      LoopStep(d, src, s, k);
      TurnCopies(LoopStores(d, src, s, k - 1), d, src, s, 32 * (k - 1));
    }
  }

  /** The register-wise copy stores nothing but the right bytes, and all of them. */
  lemma GpuStoresCopy(d: nat, src: seq<byte>, s: nat, size: nat, aligned: bool)
    requires s + size <= |src|
    ensures var stores := GpuStores(d, src, s, size, aligned);
            Faithful(stores, d, src[s..s + size]) && Complete(stores, d, src[s..s + size])
  {
    hide LoopStores, StoresOf, Faithful, Complete;
    if aligned {
      Stages(size);
      var n, h := 32 * (size / 32), 16 * (size % 32 / 16);
      var loop, registers := LoopStores(d, src, s, size / 32), StoresOf(d + n, src[s + n..s + n + h]);
      var tail := StoresOf(d + n + h, src[s + n + h..s + size]);
      LoopCopies(d, src, s, size / 32);
      StoresOfCopy(d + n, src, s + n, h);
      StoresOfCopy(d + n + h, src, s + n + h, size - n - h);
      CopiesMore(loop, registers, d, src, s, n, h);
      CopiesMore(loop + registers, tail, d, src, s, n + h, size - n - h);
    } else {
      StoresOfCopy(d, src, s, size);
    }
  }

  /** So two register-wise copies of the halves, at the same time, make the copy under every schedule of their stores. */
  lemma GpuHalvesMakeTheCopy(buf: seq<byte>, d: nat, src: seq<byte>, s: nat, size: nat, aligned: bool, stores: seq<Store>)
    requires d + size <= |buf| && s + size <= |src|
    requires var cut := BlockSize(size);
             Interleaves(stores, GpuStores(d, src, s, cut, aligned), GpuStores(d + cut, src, s + cut, size - cut, aligned))
    ensures Apply(buf, stores) == Splice(buf, d, src[s..s + size])
  {
    hide *;
    var cut, data := BlockSize(size), src[s..s + size];
    assert data[..cut] == src[s..s + cut] && data[cut..] == src[s + cut..s + size];
    GpuStoresCopy(d, src, s, cut, aligned);
    GpuStoresCopy(d + cut, src, s + cut, size - cut, aligned);
    HalvesMakeTheCopy(buf, d, data, GpuStores(d, src, s, cut, aligned), GpuStores(d + cut, src, s + cut, size - cut, aligned), stores);
  }

  /** The routine that is handed in: memcpy, or the register-wise copy. */
  method CopyWith(dst: array<byte>, d: nat, src: seq<byte>, s: nat, size: nat, gpu: bool, aligned: bool)
    requires d + size <= dst.Length && s + size <= |src| && (gpu && aligned ==> s + RoundUp16(size) <= |src|)
    modifies dst
    ensures dst[..] == Splice(old(dst[..]), d, src[s..s + size])
  {
    hide Splice;
    if gpu {
      ghost var log := GpuMemcpySse41(dst, d, src, s, size, aligned);
    } else {
      CopyInto(dst, d, src[s..s + size]);
    }
  }

  /** The first half is whole registers, so only the second is read beyond its end. */
  lemma RoundedHalves(size: nat)
    ensures RoundUp16(BlockSize(size)) == BlockSize(size)
    ensures BlockSize(size) + RoundUp16(size - BlockSize(size)) == RoundUp16(size)
  {
    var q := size / 2 / 32;
    DivModIs(32 * q + 15, 16, 2 * q, 15);
    DivModIs(size + 15, 16, 2 * q + (size - 32 * q + 15) / 16, (size - 32 * q + 15) % 16);
  }

  /** mt_copy, its two halves in either order; small copies are not cut. */
  method MtCopy(dst: array<byte>, d: nat, src: seq<byte>, s: nat, size: nat, gpu: bool, aligned: bool, secondFirst: bool)
    requires d + size <= dst.Length && s + size <= |src| && (gpu && aligned ==> s + RoundUp16(size) <= |src|)
    modifies dst
    ensures dst[..] == Splice(old(dst[..]), d, src[s..s + size])
  {
    hide Splice, RoundUp16, BlockSize;
    if size < MIN_BUFFER_SIZE {
      CopyWith(dst, d, src, s, size, gpu, aligned);
      return;
    }
    var block := BlockSize(size);
    RoundedHalves(size);
    if secondFirst {
      CopyWith(dst, d + block, src, s + block, size - block, gpu, aligned);
      CopyWith(dst, d, src, s, block, gpu, aligned);
    } else {
      CopyWith(dst, d, src, s, block, gpu, aligned);
      CopyWith(dst, d + block, src, s + block, size - block, gpu, aligned);
    }
    HalvesAreWhole(old(dst[..]), d, src[s..s + size], block);
    assert src[s..s + size][..block] == src[s..s + block] && src[s..s + size][block..] == src[s + block..s + size];
  }

  lemma HalvesAreWhole(buf: seq<byte>, d: nat, data: seq<byte>, cut: nat)
    requires d + |data| <= |buf| && cut <= |data|
    ensures Splice(Splice(buf, d, data[..cut]), d + cut, data[cut..]) == Splice(buf, d, data)
    ensures Splice(Splice(buf, d + cut, data[cut..]), d, data[..cut]) == Splice(buf, d, data)
  {
  }
}
