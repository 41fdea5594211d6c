/**
 The two ways a buffer is cut into H.264 NAL units: length-prefixed (what the
 code calls RTP) and start-code separated (Annex B, section B.1 of ITU-T H.264).
 Both are stated here over the whole buffer; the cursor that walks a buffer one
 unit at a time is in NaluIterator.
 */
module NalUnits {
  import opened Bytes

  datatype Status = Ok | Partial | Invalid

  /** One unit: its extent [start, end), where its payload begins, and its header byte. */
  datatype Unit = Unit(status: Status, start: nat, dataStart: nat, end: nat, header: byte)

  const START_CODE: seq<byte> := [0, 0, 0, 1]
  const NALU_TYPE_AUD := 9

  function NaluType(header: byte): int { header % 32 }

  /** forbidden_zero_bit clear and nal_unit_type in 1..12 (section 7.3.1). */
  predicate ValidHeader(header: byte) { header < 128 && 1 <= NaluType(header) <= 12 }

  function Classify(isPartial: bool, header: byte): Status {
    if !ValidHeader(header) then Invalid else if isPartial then Partial else Ok
  }

  // ---------------------------------------------------------------- length-prefixed

  /** The units of buf from pos on, each behind an n-byte big-endian length. */
  function PrefixedUnits(buf: seq<byte>, n: nat, pos: nat): (us: seq<Unit>)
    requires n > 0
    decreases |buf| - pos
  {
    if pos + n >= |buf| then [] else
      var end := pos + n + BigEndian(buf[pos..pos + n]);
      [Unit(Classify(end > |buf|, buf[pos + n]), pos, pos + n, end, buf[pos + n])] + PrefixedUnits(buf, n, end)
  }

  /** Payloads written one after the other, each behind its n-byte length. */
  function PrefixPrint(n: nat, payloads: seq<seq<byte>>): seq<byte> {
    if payloads == [] then [] else
      BigEndianBytes(|payloads[0]|, n) + payloads[0] + PrefixPrint(n, payloads[1..])
  }

  /** What a length-prefixed buffer can carry: non-empty payloads whose length fits the prefix. */
  predicate Printable(n: nat, payloads: seq<seq<byte>>) {
    forall i :: 0 <= i < |payloads| ==> 0 < |payloads[i]| < Power256(n)
  }

  /** The payload of a unit that lies inside the buffer. */
  function Payload(buf: seq<byte>, u: Unit): seq<byte>
    requires u.dataStart <= u.end <= |buf|
  {
    buf[u.dataStart..u.end]
  }

  predicate Inside(buf: seq<byte>, us: seq<Unit>) {
    forall i :: 0 <= i < |us| ==> us[i].dataStart <= us[i].end <= |buf|
  }

  function Payloads(buf: seq<byte>, us: seq<Unit>): (ps: seq<seq<byte>>)
    requires Inside(buf, us)
    ensures |ps| == |us|
    ensures forall i :: 0 <= i < |us| ==> ps[i] == Payload(buf, us[i])
  {
    if us == [] then [] else [Payload(buf, us[0])] + Payloads(buf, us[1..])
  }

  /** The status every complete unit has is decided by its first payload byte alone. */
  predicate AllComplete(buf: seq<byte>, us: seq<Unit>) {
    forall i :: 0 <= i < |us| ==>
      us[i].dataStart < us[i].end <= |buf| &&
      us[i].header == buf[us[i].dataStart] && us[i].status == Classify(false, us[i].header)
  }

  lemma PrefixedStep(buf: seq<byte>, n: nat, pos: nat)
    requires n > 0 && pos + n < |buf|
    ensures var us := PrefixedUnits(buf, n, pos);
            us != [] && us[0].start == pos && us[0].dataStart == pos + n && us[0].header == buf[pos + n] &&
            us[0].end == pos + n + BigEndian(buf[pos..pos + n]) &&
            us[0].status == Classify(us[0].end > |buf|, buf[pos + n]) &&
            us[1..] == PrefixedUnits(buf, n, us[0].end)
  {
  }

  lemma PayloadsStep(buf: seq<byte>, us: seq<Unit>)
    requires us != [] && us[0].dataStart <= us[0].end <= |buf| && Inside(buf, us[1..])
    ensures Inside(buf, us)
    ensures Payloads(buf, us) == [Payload(buf, us[0])] + Payloads(buf, us[1..])
  {
    forall i | 0 < i < |us|
      ensures us[i] == us[1..][i - 1]
    {
    }
  }

  /** The first printed payload, seen from where printing started; anything may follow what was printed. */
  lemma PrintedHead(n: nat, buf: seq<byte>, pos: nat, payloads: seq<seq<byte>>, tail: seq<byte>)
    requires n > 0 && payloads != [] && Printable(n, payloads)
    requires pos <= |buf| && buf[pos..] == PrefixPrint(n, payloads) + tail
    ensures var data, end := pos + n, pos + n + |payloads[0]|;
            end <= |buf| && BigEndian(buf[pos..data]) == |payloads[0]| && buf[data..end] == payloads[0] &&
            buf[end..] == PrefixPrint(n, payloads[1..]) + tail
  {
    var head, p, rest := BigEndianBytes(|payloads[0]|, n), payloads[0], PrefixPrint(n, payloads[1..]);
    assert PrefixPrint(n, payloads) + tail == head + p + (rest + tail);
    ThreeParts(buf, pos, head, p, rest + tail);
    BigEndianRoundTrip(|p|, n);
  }

  /** What a complete cut of buf that yields the given payloads looks like. */
  predicate Yields(buf: seq<byte>, us: seq<Unit>, payloads: seq<seq<byte>>) {
    AllComplete(buf, us) && Inside(buf, us) && Payloads(buf, us) == payloads
  }

  lemma YieldsStep(buf: seq<byte>, us: seq<Unit>, payloads: seq<seq<byte>>)
    requires us != [] && payloads != [] && Yields(buf, us[1..], payloads[1..])
    requires us[0].dataStart < us[0].end <= |buf| && us[0].header == buf[us[0].dataStart]
    requires us[0].status == Classify(false, us[0].header) && Payload(buf, us[0]) == payloads[0]
    ensures Yields(buf, us, payloads)
  {
    assert forall i :: 0 < i < |us| ==> us[i] == us[1..][i - 1];
    PayloadsStep(buf, us);
    assert payloads == [payloads[0]] + payloads[1..];
  }

  /** The cut of buf from pos on starts with complete units carrying the payloads, and goes on from stop. */
  predicate CutsInto(buf: seq<byte>, n: nat, pos: nat, payloads: seq<seq<byte>>, stop: nat)
    requires n > 0
  {
    var us := PrefixedUnits(buf, n, pos);
    |payloads| <= |us| && Yields(buf, us[..|payloads|], payloads) && us[|payloads|..] == PrefixedUnits(buf, n, stop)
  }

  lemma CutsIntoStep(buf: seq<byte>, n: nat, pos: nat, payloads: seq<seq<byte>>, stop: nat)
    requires n > 0 && payloads != [] && pos + n < |buf|
    requires var us := PrefixedUnits(buf, n, pos);
             us != [] && us[0].end <= |buf| && us[1..] == PrefixedUnits(buf, n, us[0].end) &&
             us[0].dataStart < us[0].end && us[0].header == buf[us[0].dataStart] &&
             us[0].status == Classify(false, us[0].header) && Payload(buf, us[0]) == payloads[0] &&
             CutsInto(buf, n, us[0].end, payloads[1..], stop)
    ensures CutsInto(buf, n, pos, payloads, stop)
  {
    hide Yields, Payload;
    var us := PrefixedUnits(buf, n, pos);
    assert us[..|payloads|][1..] == us[1..][..|payloads| - 1];
    assert us[|payloads|..] == us[1..][|payloads| - 1..];
    YieldsStep(buf, us[..|payloads|], payloads);
  }

  /** Cutting what was printed gives the payloads back, whole and in order, whatever follows. */
  lemma {:induction false} PrintThenCut(n: nat, buf: seq<byte>, pos: nat, payloads: seq<seq<byte>>, tail: seq<byte>)
    requires n > 0 && Printable(n, payloads)
    requires pos <= |buf| && buf[pos..] == PrefixPrint(n, payloads) + tail
    ensures CutsInto(buf, n, pos, payloads, |buf| - |tail|)
    decreases payloads
  {
    if payloads == [] {
      hide PrefixedUnits, BigEndian;
      assert |buf[pos..]| == |tail|;
      assert PrefixedUnits(buf, n, pos)[..0] == [];
    } else {
      hide PrefixPrint, BigEndian, CutsInto, PrefixedUnits;
      PrintedHead(n, buf, pos, payloads, tail);
      PrefixedStep(buf, n, pos);
      PrintThenCut(n, buf, PrefixedUnits(buf, n, pos)[0].end, payloads[1..], tail);
      CutsIntoStep(buf, n, pos, payloads, |buf| - |tail|);
    }
  }

  /** Where a cut of length-prefixed units stops. */
  function CutEnd(us: seq<Unit>, pos: nat): nat { if us == [] then pos else us[|us| - 1].end }

  /** Printing what was cut gives the buffer back, up to where the cutting stopped. */
  lemma {:induction false} CutThenPrint(n: nat, buf: seq<byte>, pos: nat)
    requires n > 0 && pos <= |buf|
    requires CutEnd(PrefixedUnits(buf, n, pos), pos) <= |buf|
    ensures var us := PrefixedUnits(buf, n, pos);
            Inside(buf, us) && pos <= CutEnd(us, pos) &&
            PrefixPrint(n, Payloads(buf, us)) == buf[pos..CutEnd(us, pos)] &&
            |buf| - CutEnd(us, pos) <= n
    decreases |buf| - pos
  {
    if pos + n < |buf| {
      PrefixedStep(buf, n, pos);
      hide *;
      var us := PrefixedUnits(buf, n, pos);
      CutEndStep(us, pos);
      StopsInside(n, buf, us[0].end);
      CutThenPrint(n, buf, us[0].end);
      PayloadsStep(buf, us);
      PayloadIs(buf, us[0]);
      PrintOneMore(n, buf, pos, us[0].end, CutEnd(us, pos), Payloads(buf, us[1..]));
    } else {
      CutNothing(n, buf, pos);
    }
  }

  lemma CutNothing(n: nat, buf: seq<byte>, pos: nat)
    requires n > 0 && pos <= |buf| <= pos + n
    ensures PrefixedUnits(buf, n, pos) == [] && PrefixPrint(n, Payloads(buf, [])) == [] && buf[pos..pos] == []
    ensures CutEnd([], pos) == pos
  {
  }

  /** If cutting stops inside the buffer, it also starts there. */
  lemma StopsInside(n: nat, buf: seq<byte>, pos: nat)
    requires n > 0 && CutEnd(PrefixedUnits(buf, n, pos), pos) <= |buf|
    ensures pos <= |buf|
  {
  }

  lemma PayloadIs(buf: seq<byte>, u: Unit)
    requires u.dataStart <= u.end <= |buf|
    ensures Payload(buf, u) == buf[u.dataStart..u.end]
  {
  }

  lemma CutEndStep(us: seq<Unit>, pos: nat)
    requires us != []
    ensures CutEnd(us, pos) == CutEnd(us[1..], us[0].end)
  {
  }

  lemma PrintOneMore(n: nat, buf: seq<byte>, pos: nat, end: nat, stop: nat, rest: seq<seq<byte>>)
    requires pos + n <= end <= stop <= |buf|
    requires BigEndian(buf[pos..pos + n]) == end - pos - n
    requires PrefixPrint(n, rest) == buf[end..stop]
    ensures PrefixPrint(n, [buf[pos + n..end]] + rest) == buf[pos..stop]
  {
    var ps := [buf[pos + n..end]] + rest;
    BigEndianBytesOf(buf[pos..pos + n]);
    assert ps[1..] == rest;
    SliceSplit(buf, pos, end, stop);
    SliceSplit(buf, pos, pos + n, end);
  }

  /** Only the last unit of a buffer can run past its end. */
  lemma {:induction false} OnlyLastOverruns(buf: seq<byte>, n: nat, pos: nat, i: nat)
    requires n > 0 && i < |PrefixedUnits(buf, n, pos)| - 1
    ensures PrefixedUnits(buf, n, pos)[i].end <= |buf|
    ensures PrefixedUnits(buf, n, pos)[i].status != Partial
    ensures PrefixedUnits(buf, n, pos)[i + 1].start == PrefixedUnits(buf, n, pos)[i].end
    decreases i
  {
    var us := PrefixedUnits(buf, n, pos);
    assert us[1..] == PrefixedUnits(buf, n, us[0].end);
    if i > 0 { OnlyLastOverruns(buf, n, us[0].end, i - 1); }
  }

  // ---------------------------------------------------------------- Annex B

  predicate StartCodeAt(buf: seq<byte>, p: nat) {
    p + 2 < |buf| && buf[p] == 0 && buf[p + 1] == 0 && buf[p + 2] == 1
  }

  /** A start code the scanner can see: at least two bytes must follow it. */
  predicate Visible(buf: seq<byte>, p: nat) { p + 4 < |buf| && StartCodeAt(buf, p) }

  /** The first visible start code at or after p, or the end of the buffer. */
  function NextStartCode(buf: seq<byte>, p: nat): (q: nat)
    requires p <= |buf|
    ensures p <= q <= |buf|
    ensures q == |buf| || Visible(buf, q)
    ensures forall j :: p <= j < q ==> !Visible(buf, j)
    decreases |buf| - p
  {
    if p + 4 >= |buf| then |buf| else if StartCodeAt(buf, p) then p else NextStartCode(buf, p + 1)
  }

  lemma NextStartCodeIs(buf: seq<byte>, p: nat, q: nat)
    requires p <= q <= |buf|
    requires q == |buf| || Visible(buf, q)
    requires forall j :: p <= j < q ==> !Visible(buf, j)
    ensures NextStartCode(buf, p) == q
  {
    var r := NextStartCode(buf, p);
    assert r == |buf| || Visible(buf, r);
  }

  /** The units of buf from the visible start code at pos on. */
  function AnnexBUnits(buf: seq<byte>, pos: nat): (us: seq<Unit>)
    requires pos == |buf| || Visible(buf, pos)
    decreases |buf| - pos
  {
    if pos == |buf| then [] else
      var end := NextStartCode(buf, pos + 3);
      [Unit(Classify(end == |buf|, buf[pos + 3]), pos, pos + 3, end, buf[pos + 3])] + AnnexBUnits(buf, end)
  }

  function AnnexBCut(buf: seq<byte>): seq<Unit> { AnnexBUnits(buf, NextStartCode(buf, 0)) }

  /** A segmentation of buf[pos..] at exactly its visible start codes. */
  ghost predicate Tiles(buf: seq<byte>, us: seq<Unit>, pos: nat) {
    && (us == [] ==> pos == |buf|)
    && (us != [] ==> us[0].start == pos && us[|us| - 1].end == |buf|)
    && (forall i :: 0 <= i < |us| ==>
          && Visible(buf, us[i].start) && us[i].dataStart == us[i].start + 3 <= us[i].end <= |buf|
          && us[i].header == buf[us[i].dataStart]
          && us[i].status == Classify(i == |us| - 1, us[i].header)
          && (forall j :: us[i].start < j < us[i].end ==> !Visible(buf, j)))
    && (forall i :: 0 < i < |us| ==> us[i].start == us[i - 1].end)
  }

  lemma TilesCons(buf: seq<byte>, u: Unit, tail: seq<Unit>)
    requires Visible(buf, u.start) && u.dataStart == u.start + 3 <= u.end <= |buf|
    requires u.header == buf[u.dataStart] && u.status == Classify(u.end == |buf|, u.header)
    requires forall j :: u.start < j < u.end ==> !Visible(buf, j)
    requires Tiles(buf, tail, u.end)
    ensures Tiles(buf, [u] + tail, u.start)
  {
    var us := [u] + tail;
    assert forall i :: 0 < i < |us| ==> us[i] == tail[i - 1];
    assert tail == [] || Visible(buf, u.end);
  }

  /** The Annex B units tile the buffer from its first visible start code to its end. */
  lemma {:induction false} AnnexBTiles(buf: seq<byte>, pos: nat)
    requires pos == |buf| || Visible(buf, pos)
    ensures Tiles(buf, AnnexBUnits(buf, pos), pos)
    decreases |buf| - pos
  {
    if pos < |buf| {
      var us := AnnexBUnits(buf, pos);
      var tail := AnnexBUnits(buf, us[0].end);
      AnnexBTiles(buf, us[0].end);
      TilesCons(buf, us[0], tail);
    }
  }

  lemma TilesTail(buf: seq<byte>, us: seq<Unit>, pos: nat)
    requires us != [] && Tiles(buf, us, pos)
    ensures Tiles(buf, us[1..], us[0].end)
  {
    var tail := us[1..];
    assert forall i :: 0 <= i < |tail| ==> tail[i] == us[i + 1];
    assert |us| == 1 || us[1].start == us[0].end;
  }

  lemma TilesHead(buf: seq<byte>, us: seq<Unit>, pos: nat)
    requires us != [] && Tiles(buf, us, pos)
    ensures pos + 3 < |buf|
    ensures var end := NextStartCode(buf, pos + 3);
            us[0] == Unit(Classify(end == |buf|, buf[pos + 3]), pos, pos + 3, end, buf[pos + 3])
  {
    assert |us| == 1 || (us[1].start == us[0].end && Visible(buf, us[1].start));
    NextStartCodeIs(buf, pos + 3, us[0].end);
  }

  /** ... and no other list of units does. */
  lemma {:induction false} TilingIsUnique(buf: seq<byte>, us: seq<Unit>, pos: nat)
    requires pos == |buf| || Visible(buf, pos)
    requires Tiles(buf, us, pos)
    ensures us == AnnexBUnits(buf, pos)
    decreases |us|
  {
    if us != [] {
      hide Tiles, Visible;
      TilesHead(buf, us, pos);
      TilesTail(buf, us, pos);
      TilingIsUnique(buf, us[1..], us[0].end);
      assert us == [us[0]] + us[1..];
    }
  }

  // ---------------------------------------------------------------- writing Annex B and reading it back

  /** Payloads written one after the other, each behind 00 00 00 01. */
  function AnnexBPrint(payloads: seq<seq<byte>>): seq<byte> {
    if payloads == [] then [] else START_CODE + payloads[0] + AnnexBPrint(payloads[1..])
  }

  /** What reading back can give at best: the leading zero of a start code ends the unit before it. */
  function WithTrailingZero(payloads: seq<seq<byte>>): seq<seq<byte>> {
    if |payloads| <= 1 then payloads else [payloads[0] + [0]] + WithTrailingZero(payloads[1..])
  }

  /** No payload holds a start code the scanner would see, and the last one is long enough to be seen. */
  ghost predicate ReadableBack(payloads: seq<seq<byte>>) {
    && (payloads != [] ==> |payloads[|payloads| - 1]| >= 2)
    && (forall i, j: nat :: 0 <= i < |payloads| ==>
          !(if i == |payloads| - 1 then Visible(payloads[i], j) else StartCodeAt(payloads[i], j)))
  }

  predicate NonEmpty(payloads: seq<seq<byte>>) {
    forall i :: 0 <= i < |payloads| ==> payloads[i] != []
  }

  lemma {:induction false} AnnexBInside(buf: seq<byte>, pos: nat)
    requires pos == |buf| || Visible(buf, pos)
    ensures Inside(buf, AnnexBUnits(buf, pos))
  {
    AnnexBTiles(buf, pos);
  }

  ghost function AnnexBPayloads(buf: seq<byte>, pos: nat): seq<seq<byte>>
    requires pos == |buf| || Visible(buf, pos)
  {
    AnnexBInside(buf, pos);
    Payloads(buf, AnnexBUnits(buf, pos))
  }

  lemma AnnexBPayloadsStep(buf: seq<byte>, pos: nat)
    requires Visible(buf, pos)
    ensures var end := NextStartCode(buf, pos + 3);
            AnnexBPayloads(buf, pos) == [buf[pos + 3..end]] + AnnexBPayloads(buf, end)
  {
    var us := AnnexBUnits(buf, pos);
    assert us[1..] == AnnexBUnits(buf, us[0].end);
    AnnexBInside(buf, pos);
  }

  /** The first written payload, seen from where writing started. */
  lemma WrittenHead(buf: seq<byte>, pos: nat, payloads: seq<seq<byte>>)
    requires payloads != [] && pos <= |buf| && buf[pos..] == AnnexBPrint(payloads)
    ensures var data, end := pos + 4, pos + 4 + |payloads[0]|;
            end <= |buf| && buf[data..end] == payloads[0] && buf[end..] == AnnexBPrint(payloads[1..]) &&
            buf[pos] == 0 && StartCodeAt(buf, pos + 1)
  {
    var p, rest := payloads[0], AnnexBPrint(payloads[1..]);
    var s := buf[pos..];
    assert s == START_CODE + p + rest;
    assert s[..4] == START_CODE && s[4..4 + |p|] == p && s[4 + |p|..] == rest;
    assert forall k :: 0 <= k < 4 ==> buf[pos + k] == s[..4][k];
  }

  /** Inside and right behind the first written payload, the only start codes are the payload's own. */
  lemma FirstPayloadScan(buf: seq<byte>, pos: nat, payloads: seq<seq<byte>>, j: nat)
    requires payloads != [] && NonEmpty(payloads)
    requires pos <= |buf| && buf[pos..] == AnnexBPrint(payloads)
    requires j <= |payloads[0]|
    ensures Visible(buf, pos + 4 + j) <==>
            if |payloads| == 1 then Visible(payloads[0], j) else StartCodeAt(payloads[0], j)
  {
    var p, data := payloads[0], pos + 4;
    WrittenHead(buf, pos, payloads);
    assert forall k :: 0 <= k < |p| ==> buf[data + k] == p[k];
    if |payloads| > 1 {
      WrittenHead(buf, data + |p|, payloads[1..]);
      assert payloads[1..][0] == payloads[1];
    }
  }

  ghost predicate HeadReadable(payloads: seq<seq<byte>>)
    requires payloads != []
  {
    forall j: nat :: j <= |payloads[0]| ==>
      !(if |payloads| == 1 then Visible(payloads[0], j) else StartCodeAt(payloads[0], j))
  }

  lemma ReadableBackStep(payloads: seq<seq<byte>>)
    requires |payloads| > 1
    ensures ReadableBack(payloads) <==> HeadReadable(payloads) && ReadableBack(payloads[1..])
  {
    var rest := payloads[1..];
    assert forall i :: 0 <= i < |rest| ==> rest[i] == payloads[i + 1];
    if HeadReadable(payloads) && ReadableBack(rest) {
      forall i, j: nat | 0 <= i < |payloads|
        ensures !(if i == |payloads| - 1 then Visible(payloads[i], j) else StartCodeAt(payloads[i], j))
      {
        if i > 0 { assert payloads[i] == rest[i - 1]; }
      }
    }
    if ReadableBack(payloads) {
      forall i, j: nat | 0 <= i < |rest|
        ensures !(if i == |rest| - 1 then Visible(rest[i], j) else StartCodeAt(rest[i], j))
      {
        assert rest[i] == payloads[i + 1];
      }
    }
  }

  /** A payload that holds a visible start code comes back cut short. */
  lemma UnreadableHead(buf: seq<byte>, pos: nat, payloads: seq<seq<byte>>)
    requires payloads != [] && NonEmpty(payloads) && !HeadReadable(payloads)
    requires pos <= |buf| && buf[pos..] == AnnexBPrint(payloads)
    ensures pos + 4 <= |buf| && NextStartCode(buf, pos + 4) < pos + 4 + |payloads[0]|
  {
    var j: nat :| j <= |payloads[0]| &&
                  if |payloads| == 1 then Visible(payloads[0], j) else StartCodeAt(payloads[0], j);
    WrittenHead(buf, pos, payloads);
    FirstPayloadScan(buf, pos, payloads, j);
    assert Visible(buf, pos + 4 + j);
  }

  /** A payload without one runs up to and including the leading zero of the next start code. */
  lemma ReadableHead(buf: seq<byte>, pos: nat, payloads: seq<seq<byte>>)
    requires payloads != [] && NonEmpty(payloads) && HeadReadable(payloads)
    requires pos <= |buf| && buf[pos..] == AnnexBPrint(payloads)
    ensures pos + 4 <= |buf| &&
            NextStartCode(buf, pos + 4) == if |payloads| == 1 || (|payloads| == 2 && |payloads[1]| == 1) then |buf|
                                           else pos + 4 + |payloads[0]| + 1
  {
    var data, end := pos + 4, pos + 4 + |payloads[0]|;
    WrittenHead(buf, pos, payloads);
    forall j | data <= j <= end
      ensures !Visible(buf, j)
    {
      FirstPayloadScan(buf, pos, payloads, j - data);
    }
    if |payloads| == 1 {
      NextStartCodeIs(buf, data, |buf|);
    } else {
      WrittenHead(buf, end, payloads[1..]);
      if |payloads| == 2 {
        assert AnnexBPrint(payloads[1..][1..]) == [];
        assert |buf| == end + 4 + |payloads[1]|;
      } else {
        WrittenHead(buf, end + 4 + |payloads[1]|, payloads[1..][1..]);
      }
      NextStartCodeIs(buf, data, if |payloads| == 2 && |payloads[1]| == 1 then |buf| else end + 1);
    }
  }

  ghost predicate ReadsBack(buf: seq<byte>, pos: nat, payloads: seq<seq<byte>>)
    requires pos == |buf| || Visible(buf, pos)
  {
    AnnexBPayloads(buf, pos) == WithTrailingZero(payloads)
  }

  lemma ReadBackStep(buf: seq<byte>, pos: nat, payloads: seq<seq<byte>>)
    requires payloads != [] && Visible(buf, pos)
    ensures var end := NextStartCode(buf, pos + 3);
            ReadsBack(buf, pos, payloads) <==>
              buf[pos + 3..end] == (if |payloads| == 1 then payloads[0] else payloads[0] + [0]) &&
              ReadsBack(buf, end, payloads[1..])
  {
    AnnexBPayloadsStep(buf, pos);
    var wanted := WithTrailingZero(payloads);
    assert wanted == [wanted[0]] + wanted[1..];
    assert wanted[1..] == WithTrailingZero(payloads[1..]);
  }

  /** The last payload, when it is long enough to be seen. */
  lemma ReadBackLast(buf: seq<byte>, pos: nat, payloads: seq<seq<byte>>)
    requires |payloads| == 1 && |payloads[0]| >= 2
    requires pos <= |buf| && buf[pos..] == AnnexBPrint(payloads)
    ensures Visible(buf, pos + 1)
    ensures ReadsBack(buf, pos + 1, payloads) <==> ReadableBack(payloads)
  {
    WrittenHead(buf, pos, payloads);
    ReadBackStep(buf, pos + 1, payloads);
    if HeadReadable(payloads) {
      ReadableHead(buf, pos, payloads);
      assert AnnexBPayloads(buf, |buf|) == [];
    } else {
      UnreadableHead(buf, pos, payloads);
    }
  }

  /** A payload with others behind it: it is read back, if at all, together with one zero. */
  lemma ReadBackHead(buf: seq<byte>, pos: nat, payloads: seq<seq<byte>>)
    requires |payloads| > 1 && NonEmpty(payloads)
    requires pos <= |buf| && buf[pos..] == AnnexBPrint(payloads)
    ensures Visible(buf, pos + 1)
    ensures var p, end := payloads[0], NextStartCode(buf, pos + 4);
            if |payloads| == 2 && |payloads[1]| == 1 then buf[pos + 4..end] != p + [0]
            else (buf[pos + 4..end] == p + [0] <==> HeadReadable(payloads)) &&
                 (HeadReadable(payloads) ==> end == pos + 4 + |p| + 1)
  {
    var p, end, next := payloads[0], NextStartCode(buf, pos + 4), pos + 4 + |payloads[0]|;
    WrittenHead(buf, pos, payloads);
    WrittenHead(buf, next, payloads[1..]);
    SliceSplit(buf, pos + 4, next, next + 1);
    if HeadReadable(payloads) {
      ReadableHead(buf, pos, payloads);
    } else {
      UnreadableHead(buf, pos, payloads);
    }
  }

  /** One more payload in front of those whose read-back is known. */
  lemma ReadBackMore(buf: seq<byte>, pos: nat, payloads: seq<seq<byte>>)
    requires |payloads| > 1 && NonEmpty(payloads)
    requires pos <= |buf| && buf[pos..] == AnnexBPrint(payloads)
    requires Visible(buf, pos + 1)
    requires var next := pos + 4 + |payloads[0]|;
             (|payloads| == 2 && |payloads[1]| == 1) ||
             (Visible(buf, next + 1) && (ReadsBack(buf, next + 1, payloads[1..]) <==> ReadableBack(payloads[1..])))
    ensures ReadsBack(buf, pos + 1, payloads) <==> ReadableBack(payloads)
  {
    hide AnnexBPayloads, WithTrailingZero, AnnexBPrint, HeadReadable;
    ReadBackHead(buf, pos, payloads);
    ReadBackStep(buf, pos + 1, payloads);
    ReadableBackStep(payloads);
  }

  /** Reading back from the start code of the first payload. */
  lemma {:induction false} ReadBackFrom(buf: seq<byte>, pos: nat, payloads: seq<seq<byte>>)
    requires payloads != [] && NonEmpty(payloads)
    requires |payloads| > 1 || |payloads[0]| >= 2
    requires pos <= |buf| && buf[pos..] == AnnexBPrint(payloads)
    ensures Visible(buf, pos + 1)
    ensures ReadsBack(buf, pos + 1, payloads) <==> ReadableBack(payloads)
    decreases |payloads|
  {
    hide ReadsBack, AnnexBPrint, HeadReadable, ReadableBack;
    if |payloads| == 1 {
      ReadBackLast(buf, pos, payloads);
    } else {
      var rest := payloads[1..];
      WrittenHead(buf, pos, payloads);
      if |rest| > 1 || |rest[0]| >= 2 {
        ReadBackFrom(buf, pos + 4 + |payloads[0]|, rest);
      }
      ReadBackHead(buf, pos, payloads);
      ReadBackMore(buf, pos, payloads);
    }
  }

  /** Annex B read-back of any written list of non-empty payloads gives them exactly when they are ReadableBack. */
  lemma AnnexBReadBack(payloads: seq<seq<byte>>)
    requires NonEmpty(payloads)
    ensures var buf := AnnexBPrint(payloads);
            AnnexBPayloads(buf, NextStartCode(buf, 0)) == WithTrailingZero(payloads) <==> ReadableBack(payloads)
  {
    var buf := AnnexBPrint(payloads);
    if |payloads| == 1 && |payloads[0]| == 1 {
      assert AnnexBPrint(payloads[1..]) == [];
      assert |buf| == 5;
      NextStartCodeIs(buf, 0, |buf|);
      assert |WithTrailingZero(payloads)| == 1;
      assert AnnexBPayloads(buf, |buf|) == [];
    } else if payloads != [] {
      ReadBackFrom(buf, 0, payloads);
      NextStartCodeIs(buf, 0, 1);
    }
  }
}
