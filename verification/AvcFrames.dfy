/**
 What the H.264 frame constructor makes of a sample: which payloads it writes out
 behind start codes, what it keeps for the next sample, and what becomes of a stream
 that is cut into samples.
 */
module AvcFrames {
  import opened Bytes
  import opened NalUnits
  import opened NaluIterator

  predicate Emits(u: Unit) { u.status.Ok? && NaluType(u.header) != NALU_TYPE_AUD }

  /** Whole units lie inside the buffer, and every unit starts in it. */
  predicate Sound(buf: seq<byte>, us: seq<Unit>) {
    forall i :: 0 <= i < |us| ==>
      us[i].start <= |buf| && (us[i].status.Ok? ==> us[i].dataStart <= us[i].end <= |buf|)
  }

  lemma {:induction false} PrefixedSound(buf: seq<byte>, n: nat, pos: nat)
    requires n > 0
    ensures Sound(buf, PrefixedUnits(buf, n, pos))
    decreases |buf| - pos
  {
    if pos + n < |buf| {
      var us := PrefixedUnits(buf, n, pos);
      PrefixedStep(buf, n, pos);
      PrefixedSound(buf, n, us[0].end);
      assert forall i :: 0 < i < |us| ==> us[i] == us[1..][i - 1];
    }
  }

  lemma CutSound(nalSize: nat, buf: seq<byte>)
    ensures Sound(buf, Cut(nalSize, buf))
  {
    if nalSize > 0 { PrefixedSound(buf, nalSize, 0); } else { AnnexBTiles(buf, NextStartCode(buf, 0)); }
  }

  /** The payloads written out: whole valid units other than access unit delimiters. */
  function Emitted(buf: seq<byte>, us: seq<Unit>): seq<seq<byte>>
    requires Sound(buf, us)
  {
    if us == [] then [] else (if Emits(us[0]) then [Payload(buf, us[0])] else []) + Emitted(buf, us[1..])
  }

  /** The input kept afterwards: everything from the last partial unit on, or else what was there before. */
  function Leftover(kept: seq<byte>, buf: seq<byte>, us: seq<Unit>): seq<byte>
    requires Sound(buf, us)
    decreases us
  {
    if us == [] then kept else
      Leftover(if us[0].status.Partial? then buf[us[0].start..] else kept, buf, us[1..])
  }

  datatype Conversion = Conversion(payloads: seq<seq<byte>>, input: seq<byte>)

  /** One sample: new data is appended to a non-empty input buffer, which then stays as it is unless a unit is partial. */
  function Convert(nalSize: nat, input: seq<byte>, sample: seq<byte>): Conversion {
    var buf := input + sample;
    CutSound(nalSize, buf);
    var us := Cut(nalSize, buf);
    Conversion(Emitted(buf, us), Leftover(if input == [] then [] else buf, buf, us))
  }

  // ---------------------------------------------------------------- what whole samples become

  predicate Wanted(p: seq<byte>)
    requires p != []
  {
    ValidHeader(p[0]) && NaluType(p[0]) != NALU_TYPE_AUD
  }

  /** The valid payloads that are not access unit delimiters, in order. */
  function Keep(payloads: seq<seq<byte>>): (ks: seq<seq<byte>>)
    requires NonEmpty(payloads)
    ensures NonEmpty(ks)
  {
    if payloads == [] then [] else (if Wanted(payloads[0]) then [payloads[0]] else []) + Keep(payloads[1..])
  }

  lemma {:induction false} KeepAppend(a: seq<seq<byte>>, b: seq<seq<byte>>)
    requires NonEmpty(a) && NonEmpty(b)
    ensures NonEmpty(a + b) && Keep(a + b) == Keep(a) + Keep(b)
  {
    if a == [] {
      assert a + b == b;
    } else {
      assert (a + b)[1..] == a[1..] + b;
      KeepAppend(a[1..], b);
    }
  }

  lemma YieldsHead(buf: seq<byte>, us: seq<Unit>, payloads: seq<seq<byte>>)
    requires us != [] && Yields(buf, us, payloads)
    ensures payloads != [] && Payload(buf, us[0]) == payloads[0] != [] && payloads[0][0] == us[0].header
    ensures us[0].status == Classify(false, us[0].header)
    ensures Yields(buf, us[1..], payloads[1..])
    ensures Emits(us[0]) == Wanted(payloads[0]) && !us[0].status.Partial?
  {
    assert forall i :: 0 <= i < |us[1..]| ==> us[1..][i] == us[i + 1];
  }

  /** Units that carry the payloads emit the wanted ones and leave nothing partial. */
  lemma {:induction false} YieldsEmits(kept: seq<byte>, buf: seq<byte>, us: seq<Unit>, payloads: seq<seq<byte>>, more: seq<Unit>)
    requires NonEmpty(payloads) && Yields(buf, us, payloads) && Sound(buf, us + more) && Sound(buf, more)
    ensures Emitted(buf, us + more) == Keep(payloads) + Emitted(buf, more)
    ensures Leftover(kept, buf, us + more) == Leftover(kept, buf, more)
    decreases us
  {
    if us == [] {
      assert us + more == more;
    } else {
      hide *;
      YieldsHead(buf, us, payloads);
      OneMoreUnit(kept, buf, us, more);
      YieldsEmits(kept, buf, us[1..], payloads[1..], more);
      KeepStep(payloads);
    }
  }

  lemma OneMoreUnit(kept: seq<byte>, buf: seq<byte>, us: seq<Unit>, more: seq<Unit>)
    requires us != [] && Sound(buf, us + more) && Sound(buf, more)
    ensures Sound(buf, us[1..] + more) && Sound(buf, us)
    ensures Emitted(buf, us + more) == (if Emits(us[0]) then [Payload(buf, us[0])] else []) + Emitted(buf, us[1..] + more)
    ensures !us[0].status.Partial? ==> Leftover(kept, buf, us + more) == Leftover(kept, buf, us[1..] + more)
  {
    var all, rest := us + more, us[1..] + more;
    hide Payload, Emits;
    assert all[1..] == rest && all[0] == us[0];
    assert forall i :: 0 <= i < |rest| ==> rest[i] == all[i + 1];
    assert forall i :: 0 <= i < |us| ==> us[i] == all[i];
  }

  lemma KeepStep(payloads: seq<seq<byte>>)
    requires payloads != [] && NonEmpty(payloads)
    ensures NonEmpty(payloads[1..])
    ensures Keep(payloads) == (if Wanted(payloads[0]) then [payloads[0]] else []) + Keep(payloads[1..])
  {
  }

  /** A buffer of printed payloads with a tail behind them. */
  lemma PrintedThenTail(n: nat, kept: seq<byte>, payloads: seq<seq<byte>>, tail: seq<byte>)
    requires n > 0 && Printable(n, payloads)
    ensures var buf := PrefixPrint(n, payloads) + tail;
            var more := PrefixedUnits(buf, n, |buf| - |tail|);
            Sound(buf, Cut(n, buf)) && Sound(buf, more) &&
            Emitted(buf, Cut(n, buf)) == Keep(payloads) + Emitted(buf, more) &&
            Leftover(kept, buf, Cut(n, buf)) == Leftover(kept, buf, more)
  {
    hide *;
    var buf := PrefixPrint(n, payloads) + tail;
    assert buf[0..] == buf;
    PrintThenCut(n, buf, 0, payloads, tail);
    CutsIntoIs(n, buf, payloads, |buf| - |tail|);
    PrefixedSound(buf, n, |buf| - |tail|);
    YieldsEmits(kept, buf, PrefixedUnits(buf, n, 0)[..|payloads|], payloads, PrefixedUnits(buf, n, |buf| - |tail|));
  }

  lemma CutsIntoIs(n: nat, buf: seq<byte>, payloads: seq<seq<byte>>, stop: nat)
    requires n > 0 && Printable(n, payloads) && CutsInto(buf, n, 0, payloads, stop)
    ensures var us, k := PrefixedUnits(buf, n, 0), |payloads|;
            k <= |us| && Yields(buf, us[..k], payloads) && us == us[..k] + PrefixedUnits(buf, n, stop) &&
            Cut(n, buf) == us && Sound(buf, us) && NonEmpty(payloads)
  {
    hide Yields, Sound, PrefixedUnits;
    PrefixedSound(buf, n, 0);
    var us := PrefixedUnits(buf, n, 0);
    assert us == us[..|payloads|] + us[|payloads|..];
  }

  /** A sample of whole units behind an input that completes to whole units. */
  lemma WholeSample(n: nat, input: seq<byte>, sample: seq<byte>, payloads: seq<seq<byte>>)
    requires n > 0 && Printable(n, payloads)
    requires input + sample == PrefixPrint(n, payloads)
    ensures Convert(n, input, sample) == Conversion(Keep(payloads), if input == [] then [] else input + sample)
  {
    var buf := input + sample;
    assert buf == PrefixPrint(n, payloads) + [];
    PrintedThenTail(n, if input == [] then [] else buf, payloads, []);
    assert PrefixedUnits(buf, n, |buf|) == [];
  }

  /** The sample's units are written out exactly, and read back in Annex B mode exactly when they can be. */
  lemma SampleToAnnexB(n: nat, payloads: seq<seq<byte>>)
    requires n > 0 && Printable(n, payloads)
    ensures var c := Convert(n, [], PrefixPrint(n, payloads));
            var out := AnnexBPrint(c.payloads);
            c == Conversion(Keep(payloads), []) &&
            (AnnexBPayloads(out, NextStartCode(out, 0)) == WithTrailingZero(Keep(payloads)) <==>
               ReadableBack(Keep(payloads)))
  {
    assert [] + PrefixPrint(n, payloads) == PrefixPrint(n, payloads);
    WholeSample(n, [], PrefixPrint(n, payloads), payloads);
    AnnexBReadBack(Keep(payloads));
  }

  lemma OneUnit(n: nat, p: seq<byte>)
    requires n > 0 && 0 < |p| < Power256(n)
    ensures Convert(n, [], PrefixPrint(n, [p])) == Conversion(if Wanted(p) then [p] else [], [])
  {
    assert [] + PrefixPrint(n, [p]) == PrefixPrint(n, [p]);
    WholeSample(n, [], PrefixPrint(n, [p]), [p]);
    hide Convert, PrefixPrint, Wanted;
    assert [p][1..] == [];
  }

  /** The fields of a header byte (section 7.3.1): forbidden bit f, reference index r, type t. */
  lemma HeaderFields(f: nat, r: nat, t: nat)
    requires f < 2 && r < 4 && t < 32
    ensures (f * 128 + r * 32 + t) % 32 == t && (f * 128 + r * 32 + t < 128 <==> f == 0)
  {
    DivModIs(f * 128 + r * 32 + t, 32, f * 4 + r, t);
  }

  /**
   The header decides what becomes of a unit: it is written out exactly when the forbidden bit is clear and the type is
   one of 1 to 12 other than 9, the access unit delimiter.
   */
  lemma HeaderDecides(n: nat, f: nat, r: nat, t: nat, tail: seq<byte>)
    requires n > 0 && f < 2 && r < 4 && t < 32 && 1 + |tail| < Power256(n)
    ensures var p: seq<byte> := [f * 128 + r * 32 + t] + tail;
            Convert(n, [], PrefixPrint(n, [p])) ==
            Conversion(if f == 0 && t in {1, 2, 3, 4, 5, 6, 7, 8, 10, 11, 12} then [p] else [], [])
  {
    HeaderFields(f, r, t);
    OneUnit(n, [f * 128 + r * 32 + t] + tail);
    hide Convert, PrefixPrint;
  }

  /** A parameter set and a delimiter behind four-byte lengths: the parameter set alone comes out, behind a start code. */
  lemma ParameterSetComesOut()
    ensures Convert(4, [], [0, 0, 0, 2, 0x67, 0x64, 0, 0, 0, 2, 0x09, 0x10]) == Conversion([[0x67, 0x64]], [])
    ensures AnnexBPrint([[0x67, 0x64]]) == [0, 0, 0, 1] + [0x67, 0x64]
  {
    var p, q: seq<byte> := [0x67, 0x64], [0x09, 0x10];
    var sample: seq<byte> := [0, 0, 0, 2, 0x67, 0x64, 0, 0, 0, 2, 0x09, 0x10];
    FourByteLength();
    assert Wanted(p) && !Wanted(q);
    hide *;
    PrintedPair(4, p, q);
    KeptPair(p, q);
    assert sample == [0, 0, 0, 2] + p + ([0, 0, 0, 2] + q);
    assert [] + sample == sample;
    WholeSample(4, [], sample, [p, q]);
    AnnexBOne(p);
  }

  lemma PrintedPair(n: nat, p: seq<byte>, q: seq<byte>)
    requires 0 < |p| < Power256(n) && 0 < |q| < Power256(n)
    ensures Printable(n, [p, q])
    ensures PrefixPrint(n, [p, q]) == BigEndianBytes(|p|, n) + p + (BigEndianBytes(|q|, n) + q)
  {
    assert [p, q][1..] == [q] && [q][1..] == [];
    assert PrefixPrint(n, [q]) == BigEndianBytes(|q|, n) + q + [];
  }

  lemma KeptPair(p: seq<byte>, q: seq<byte>)
    requires p != [] && q != []
    ensures NonEmpty([p, q]) && Keep([p, q]) == (if Wanted(p) then [p] else []) + (if Wanted(q) then [q] else [])
  {
    assert [p, q][1..] == [q] && [q][1..] == [];
    assert Keep([q]) == (if Wanted(q) then [q] else []) + Keep([]) == if Wanted(q) then [q] else [];
    hide Wanted;
    assert Keep([p, q]) == (if Wanted(p) then [p] else []) + Keep([q]);
  }

  lemma AnnexBOne(p: seq<byte>)
    ensures AnnexBPrint([p]) == [0, 0, 0, 1] + p
  {
    assert [p][1..] == [];
  }

  lemma FourByteLength()
    ensures BigEndianBytes(2, 4) == [0, 0, 0, 2] && Power256(4) > 2
  {
    assert BigEndianBytes(0, 0) == [] && BigEndianBytes(0, 1) == [0] && BigEndianBytes(0, 2) == [0, 0];
    assert BigEndianBytes(0, 3) == [0, 0, 0];
    assert Power256(0) == 1 && Power256(1) == 256 && Power256(2) == 256 * Power256(1);
    assert Power256(4) == 256 * Power256(3) && Power256(3) == 256 * Power256(2);
  }

  // ---------------------------------------------------------------- a unit cut in two

  /** The first bytes of a printed unit, more than its length prefix but not all of it. */
  predicate Fragment(n: nat, p: seq<byte>, head: seq<byte>) {
    n < |head| < n + |p| && head == (BigEndianBytes(|p|, n) + p)[..|head|]
  }

  lemma NothingLeft(buf: seq<byte>, n: nat, pos: nat)
    requires n > 0 && pos + n >= |buf|
    ensures PrefixedUnits(buf, n, pos) == []
  {
  }

  lemma FragmentIsPartial(n: nat, pre: seq<byte>, p: seq<byte>, head: seq<byte>)
    requires n > 0 && 0 < |p| < Power256(n) && Fragment(n, p, head)
    ensures PrefixedUnits(pre + head, n, |pre|) ==
            [Unit(Classify(true, p[0]), |pre|, |pre| + n, |pre| + n + |p|, p[0])]
  {
    var buf, pos := pre + head, |pre|;
    hide BigEndian, BigEndianBytes, PrefixedUnits, Classify;
    assert buf[pos..pos + n] == BigEndianBytes(|p|, n);
    BigEndianRoundTrip(|p|, n);
    assert buf[pos + n] == p[0];
    PrefixedStep(buf, n, pos);
    NothingLeft(buf, n, pos + n + |p|);
  }

  /**
   A sample that ends inside a unit keeps that fragment, and nothing else, exactly when the unit's header is valid.
   Otherwise everything stays held, if anything was.
   */
  lemma FragmentIsKept(n: nat, input: seq<byte>, sample: seq<byte>, before: seq<seq<byte>>, p: seq<byte>, head: seq<byte>)
    requires n > 0 && Printable(n, before) && 0 < |p| < Power256(n) && Fragment(n, p, head)
    requires input + sample == PrefixPrint(n, before) + head
    ensures Convert(n, input, sample) ==
            Conversion(Keep(before), if ValidHeader(p[0]) then head else if input == [] then [] else input + sample)
  {
    var buf, kept := input + sample, if input == [] then [] else input + sample;
    PrintedThenTail(n, kept, before, head);
    FragmentIsPartial(n, PrefixPrint(n, before), p, head);
    hide PrefixPrint, PrefixedUnits, Keep;
    assert buf[|buf| - |head|..] == head;
    OnePartial(kept, buf, PrefixedUnits(buf, n, |buf| - |head|)[0]);
  }

  /** With nothing held, the fragment up to the header is kept exactly for the types 1 to 12, delimiters included. */
  lemma HeaderKeepsFragment(n: nat, f: nat, r: nat, t: nat, tail: seq<byte>)
    requires n > 0 && f < 2 && r < 4 && t < 32 && 0 < |tail| && 1 + |tail| < Power256(n)
    ensures var p: seq<byte> := [f * 128 + r * 32 + t] + tail;
            var head := BigEndianBytes(|p|, n) + [p[0]];
            Convert(n, [], head) == Conversion([], if f == 0 && 1 <= t <= 12 then head else [])
  {
    var p: seq<byte> := [f * 128 + r * 32 + t] + tail;
    var head := BigEndianBytes(|p|, n) + [p[0]];
    HeaderFields(f, r, t);
    assert (BigEndianBytes(|p|, n) + p)[..|head|] == head;
    assert [] + head == PrefixPrint(n, []) + head;
    FragmentIsKept(n, [], head, [], p, head);
    hide Convert;
  }

  /** What one unit that is not whole leaves behind. */
  lemma OnePartial(kept: seq<byte>, buf: seq<byte>, u: Unit)
    requires u.start <= |buf| && u.status == Classify(true, u.header) && Sound(buf, [u])
    ensures Emitted(buf, [u]) == [] && Leftover(kept, buf, [u]) == if ValidHeader(u.header) then buf[u.start..] else kept
  {
    assert [u][1..] == [];
  }

  lemma {:induction false} PrefixPrintAppend(n: nat, a: seq<seq<byte>>, b: seq<seq<byte>>)
    ensures PrefixPrint(n, a + b) == PrefixPrint(n, a) + PrefixPrint(n, b)
  {
    if a == [] {
      assert a + b == b;
    } else {
      assert (a + b)[1..] == a[1..] + b;
      PrefixPrintAppend(n, a[1..], b);
    }
  }

  /** Two samples that cut a stream inside a unit with a valid header give the stream's payloads between them. */
  lemma SplitUnit(n: nat, before: seq<seq<byte>>, p: seq<byte>, after: seq<seq<byte>>, head: seq<byte>, rest: seq<byte>)
    requires n > 0 && Printable(n, before) && Printable(n, [p] + after)
    requires Fragment(n, p, head) && ValidHeader(p[0])
    requires head + rest == PrefixPrint(n, [p] + after)
    ensures var first := Convert(n, [], PrefixPrint(n, before) + head);
            var second := Convert(n, first.input, rest);
            first.payloads + second.payloads == Keep(before + ([p] + after)) &&
            second == Conversion(Keep([p] + after), head + rest)
  {
    assert head != [] && ([p] + after)[0] == p;
    hide Convert, Keep, PrefixPrint, ValidHeader, Fragment;
    assert [] + (PrefixPrint(n, before) + head) == PrefixPrint(n, before) + head;
    FragmentIsKept(n, [], PrefixPrint(n, before) + head, before, p, head);
    WholeSample(n, head, rest, [p] + after);
    KeepAppend(before, [p] + after);
  }

  /**
   But the completed fragment stays in the input buffer, and a sample of whole units is converted together with it and
   stays there too: the held payloads are written out again. The sample's own payloads come out alone exactly when the
   held ones are not worth writing. (AvcRuns says for how long.)
   */
  lemma HeldInputRepeats(n: nat, held: seq<seq<byte>>, next: seq<seq<byte>>)
    requires n > 0 && Printable(n, held) && Printable(n, next) && held != []
    ensures var c := Convert(n, PrefixPrint(n, held), PrefixPrint(n, next));
            c == Conversion(Keep(held) + Keep(next), PrefixPrint(n, held + next)) &&
            (c.payloads == Keep(next) <==> Keep(held) == [])
  {
    assert held[0] != [] && PrefixPrint(n, held) != [];
    hide Convert, Keep, PrefixPrint;
    PrefixPrintAppend(n, held, next);
    WholeSample(n, PrefixPrint(n, held), PrefixPrint(n, next), held + next);
    KeepAppend(held, next);
    assert |Keep(held) + Keep(next)| == |Keep(held)| + |Keep(next)|;
  }

  /**
   A cut inside the length prefix, or right behind it, is not seen as a unit: those bytes are dropped with the sample if
   nothing was held, and otherwise everything stays held.
   */
  lemma ShortTailIsDropped(n: nat, input: seq<byte>, sample: seq<byte>, before: seq<seq<byte>>, tail: seq<byte>)
    requires n > 0 && Printable(n, before) && |tail| <= n
    requires input + sample == PrefixPrint(n, before) + tail
    ensures Convert(n, input, sample) == Conversion(Keep(before), if input == [] then [] else input + sample)
  {
    var buf := input + sample;
    PrintedThenTail(n, if input == [] then [] else buf, before, tail);
    assert PrefixedUnits(buf, n, |buf| - |tail|) == [];
  }

  // ---------------------------------------------------------------- start-code mode

  /** The cut of what was written behind start codes: all units but the last are whole, and the last is partial. */
  lemma StartCodeCut(payloads: seq<seq<byte>>)
    requires payloads != [] && NonEmpty(payloads) && ReadableBack(payloads)
    ensures var buf, ps, n := AnnexBPrint(payloads), WithTrailingZero(payloads), |payloads| - 1;
            var us := AnnexBCut(buf);
            |ps| == |us| == n + 1 && NonEmpty(ps[..n]) && Yields(buf, us[..n], ps[..n]) && Sound(buf, us) &&
            us[n].status == Classify(true, us[n].header) && us[n].header == payloads[n][0] &&
            us[n].start <= |buf| && buf[us[n].start..] == [0, 0, 1] + payloads[n]
  {
    var buf, ps, n := AnnexBPrint(payloads), WithTrailingZero(payloads), |payloads| - 1;
    var us := AnnexBCut(buf);
    hide ReadableBack, AnnexBPrint, AnnexBUnits, WithTrailingZero, NextStartCode;
    AnnexBReadBack(payloads);
    AnnexBTiles(buf, NextStartCode(buf, 0));
    AnnexBInside(buf, NextStartCode(buf, 0));
    TrailingZeros(payloads);
    CutSound(0, buf);
    assert Payloads(buf, us) == ps;
    FrontYields(buf, us, ps, n);
    LastTile(buf, us[n], ps[n]);
  }

  lemma {:induction false} TrailingZeros(payloads: seq<seq<byte>>)
    requires payloads != [] && NonEmpty(payloads)
    ensures var ps, n := WithTrailingZero(payloads), |payloads| - 1;
            |ps| == n + 1 && ps[n] == payloads[n] && NonEmpty(ps)
  {
    if |payloads| > 1 {
      TrailingZeros(payloads[1..]);
    }
  }

  lemma FrontYields(buf: seq<byte>, us: seq<Unit>, ps: seq<seq<byte>>, n: nat)
    requires Inside(buf, us) && Payloads(buf, us) == ps && |us| == n + 1 && NonEmpty(ps)
    requires forall i :: 0 <= i < |us| ==> us[i].dataStart <= us[i].end && us[i].dataStart < |buf|
    requires forall i :: 0 <= i < |us| ==> us[i].header == buf[us[i].dataStart] && us[i].status == Classify(i == n, us[i].header)
    ensures Yields(buf, us[..n], ps[..n]) && NonEmpty(ps[..n])
  {
    hide Classify;
    var front := us[..n];
    assert forall i :: 0 <= i < n ==> front[i] == us[i] && ps[i] == Payload(buf, us[i]);
    assert Payloads(buf, front) == ps[..n];
  }

  lemma LastTile(buf: seq<byte>, u: Unit, p: seq<byte>)
    requires u.dataStart == u.start + 3 <= u.end == |buf| && Payload(buf, u) == p && p != []
    requires StartCodeAt(buf, u.start) && u.header == buf[u.dataStart]
    ensures buf[u.start..] == [0, 0, 1] + p && u.header == p[0]
  {
  }

  /**
   In start-code mode the end of the sample does not end its last unit: what comes out are the units before it, each
   with the zero that starts the next code, and the last one is kept if its header is valid.
   */
  lemma StartCodeSample(payloads: seq<seq<byte>>)
    requires payloads != [] && NonEmpty(payloads) && ReadableBack(payloads)
    ensures var ps, n := WithTrailingZero(payloads), |payloads| - 1;
            |ps| == n + 1 && NonEmpty(ps[..n]) && Convert(0, [], AnnexBPrint(payloads)) ==
            Conversion(Keep(ps[..n]), if ValidHeader(payloads[n][0]) then [0, 0, 1] + payloads[n] else [])
  {
    hide *;
    var buf, ps, n := AnnexBPrint(payloads), WithTrailingZero(payloads), |payloads| - 1;
    StartCodeCut(payloads);
    FrontAndLast(buf, AnnexBCut(buf), ps[..n], n);
    ConvertStartCodes(buf);
  }

  lemma FrontAndLast(buf: seq<byte>, us: seq<Unit>, ps: seq<seq<byte>>, n: nat)
    requires |us| == n + 1 && Sound(buf, us) && NonEmpty(ps) && Yields(buf, us[..n], ps)
    requires us[n].status == Classify(true, us[n].header) && us[n].start <= |buf|
    ensures Emitted(buf, us) == Keep(ps)
    ensures Leftover([], buf, us) == if ValidHeader(us[n].header) then buf[us[n].start..] else []
  {
    var last := [us[n]];
    assert us == us[..n] + last && Sound(buf, last);
    hide *;
    YieldsEmits([], buf, us[..n], ps, last);
    OnePartial([], buf, us[n]);
    assert Keep(ps) + [] == Keep(ps);
  }

  lemma ConvertStartCodes(buf: seq<byte>)
    ensures Sound(buf, AnnexBCut(buf))
    ensures Convert(0, [], buf) == Conversion(Emitted(buf, AnnexBCut(buf)), Leftover([], buf, AnnexBCut(buf)))
  {
    CutSound(0, buf);
    hide AnnexBCut, Sound, Emitted, Leftover;
    assert [] + buf == buf;
  }

  // ---------------------------------------------------------------- what a cut costs

  /** What is emitted from a buffer, with its prefixes, takes no more room than the buffer. */
  lemma {:induction false} EmittedFits(n: nat, buf: seq<byte>, pos: nat)
    requires n > 0 && pos <= |buf| && Sound(buf, PrefixedUnits(buf, n, pos))
    ensures |PrefixPrint(n, Emitted(buf, PrefixedUnits(buf, n, pos)))| <= |buf| - pos
    decreases |buf| - pos
  {
    if pos + n < |buf| {
      var us := PrefixedUnits(buf, n, pos);
      PrefixedStep(buf, n, pos);
      var end := us[0].end;
      assert Emitted(buf, us)[if Emits(us[0]) then 1 else 0..] == Emitted(buf, us[1..]);
      if end > |buf| {
        NothingLeft(buf, n, end);
      } else {
        PrefixedSound(buf, n, end);
        EmittedFits(n, buf, end);
        hide PrefixedUnits, BigEndian;
      }
    }
  }

  predicate AllWanted(payloads: seq<seq<byte>>) {
    forall i :: 0 <= i < |payloads| ==> payloads[i] != [] && Wanted(payloads[i])
  }

  lemma {:induction false} KeepsAll(payloads: seq<seq<byte>>)
    requires AllWanted(payloads)
    ensures NonEmpty(payloads) && Keep(payloads) == payloads
  {
    if payloads != [] {
      KeepsAll(payloads[1..]);
    }
  }

  /** A cut behind no more than the prefix can never be made good: the bytes that follow are too few. */
  lemma CutAtPrefixLoses(n: nat, before: seq<seq<byte>>, units: seq<seq<byte>>, head: seq<byte>, rest: seq<byte>)
    requires n > 0 && Printable(n, before) && Printable(n, units) && AllWanted(units)
    requires 0 < |head| <= n && head + rest == PrefixPrint(n, units)
    ensures var first := Convert(n, [], PrefixPrint(n, before) + head);
            var second := Convert(n, first.input, rest);
            first.payloads + second.payloads != Keep(before + units)
  {
    assert [] + (PrefixPrint(n, before) + head) == PrefixPrint(n, before) + head;
    ShortTailIsDropped(n, [], PrefixPrint(n, before) + head, before, head);
    KeepAppend(before, units);
    KeepsAll(units);
    assert [] + rest == rest;
    PrefixedSound(rest, n, 0);
    EmittedFits(n, rest, 0);
    hide PrefixPrint, Keep, Emitted, PrefixedUnits, Sound;
    var second := Convert(n, [], rest);
    assert |PrefixPrint(n, second.payloads)| <= |rest| < |PrefixPrint(n, units)|;
    assert (Keep(before) + second.payloads)[|Keep(before)|..] == second.payloads;
    assert (Keep(before) + units)[|Keep(before)|..] == units;
  }

  /**
   Exactly when a stream survives being cut inside a unit, for streams of units worth writing: the two samples give
   its payloads between them if and only if more than the length prefix came with the first.
   */
  lemma CutSurvives(n: nat, before: seq<seq<byte>>, p: seq<byte>, after: seq<seq<byte>>, head: seq<byte>, rest: seq<byte>)
    requires n > 0 && Printable(n, before) && Printable(n, [p] + after) && AllWanted([p] + after)
    requires 0 < |head| < n + |p| && head + rest == PrefixPrint(n, [p] + after)
    ensures var first := Convert(n, [], PrefixPrint(n, before) + head);
            var second := Convert(n, first.input, rest);
            first.payloads + second.payloads == Keep(before + ([p] + after)) <==> |head| > n
  {
    if |head| > n {
      assert ([p] + after)[0] == p && ([p] + after)[1..] == after;
      var whole := BigEndianBytes(|p|, n) + p;
      assert (head + rest)[..|head|] == head && (whole + PrefixPrint(n, after))[..|head|] == whole[..|head|];
      assert Fragment(n, p, head) && ValidHeader(p[0]);
      SplitUnit(n, before, p, after, head, rest);
    } else {
      CutAtPrefixLoses(n, before, [p] + after, head, rest);
    }
  }

  /** So a stream cut there comes out wrong: the unit 65 88, cut behind its length, is lost altogether. */
  lemma CutPrefixLosesUnit()
    ensures var unit: seq<byte> := [0x65, 0x88];
            var stream := PrefixPrint(1, [unit]);
            var first := Convert(1, [], stream[..1]);
            var second := Convert(1, first.input, stream[1..]);
            Convert(1, [], stream).payloads == [unit] && first.payloads + second.payloads == []
  {
    var unit: seq<byte> := [0x65, 0x88];
    var stream := PrefixPrint(1, [unit]);
    assert [unit][1..] == [];
    assert BigEndianBytes(0, 0) == [] && BigEndianBytes(2, 1) == [2];
    assert stream == [2] + unit + PrefixPrint(1, []);
    assert stream == [2, 0x65, 0x88];
    assert Power256(1) == 256 * Power256(0);
    assert [] + stream == stream;
    WholeSample(1, [], stream, [unit]);
    assert Keep([unit]) == [unit] + Keep([]);
    assert PrefixPrint(1, []) + [2] == stream[..1] == [] + stream[..1];
    ShortTailIsDropped(1, [], stream[..1], [], [2]);
    LengthMistaken([0x65, 0x88]);
    assert stream[1..] == [0x65, 0x88];
  }

  /** Two payload bytes taken for a length and a header with the forbidden bit set. */
  lemma LengthMistaken(buf: seq<byte>)
    requires buf == [0x65, 0x88]
    ensures Convert(1, [], buf) == Conversion([], [])
  {
    assert [] + buf == buf;
    assert BigEndian([]) == 0 && buf[0..1] == [0x65] && [0x65][..0] == [];
    assert BigEndian(buf[0..1]) == 0x65;
    var us := PrefixedUnits(buf, 1, 0);
    NothingLeft(buf, 1, 0x66);
    assert us == [Unit(Invalid, 0, 1, 0x66, 0x88)];
    assert us[1..] == [];
    CutSound(1, buf);
    assert Emitted(buf, us) == [] + Emitted(buf, []);
    assert Leftover([], buf, us) == Leftover([], buf, []);
    assert Cut(1, buf) == us;
  }

  /**
   A cut behind the prefix also loses units when the header is invalid, here type 13: its fragment is dropped, the
   next sample is cut from the middle of the unit, and the unit 65 88 behind it is taken for part of a longer one.
   */
  lemma CutInvalidLosesNext()
    ensures var stream := PrefixPrint(1, [[0x0D, 0x05], [0x65, 0x88]]);
            var first := Convert(1, [], stream[..2]);
            var second := Convert(1, first.input, stream[2..]);
            Convert(1, [], stream).payloads == [[0x65, 0x88]] && first.payloads + second.payloads == []
  {
    var p, q: seq<byte> := [0x0D, 0x05], [0x65, 0x88];
    var stream := PrefixPrint(1, [p, q]);
    TwoUnits(p, q);
    KeepsSecond(p, q);
    FragmentForgotten(p, stream[..2]);
    assert stream[2..] == [0x05, 2, 0x65, 0x88];
    LengthOverruns(stream[2..]);
    hide Convert, PrefixPrint, Keep;
  }

  lemma KeepsSecond(p: seq<byte>, q: seq<byte>)
    requires p == [0x0D, 0x05] && q == [0x65, 0x88]
    ensures Convert(1, [], PrefixPrint(1, [p, q])).payloads == [q]
  {
    var stream := PrefixPrint(1, [p, q]);
    assert [] + stream == stream && Power256(1) == 256 * Power256(0);
    WholeSample(1, [], stream, [p, q]);
    hide Convert, PrefixPrint;
    assert [p, q][1..] == [q] && [q][1..] == [];
    assert Keep([p, q]) == Keep([q]) == [q] + Keep([]);
  }

  lemma FragmentForgotten(p: seq<byte>, head: seq<byte>)
    requires p == [0x0D, 0x05] && head == [2, 0x0D]
    ensures Convert(1, [], head) == Conversion([], [])
  {
    assert Power256(1) == 256 * Power256(0);
    assert BigEndianBytes(2, 1) == BigEndianBytes(0, 0) + [2];
    assert ([2] + p)[..2] == head;
    assert PrefixPrint(1, []) + head == head == [] + head;
    FragmentIsKept(1, [], head, [], p, head);
  }

  lemma TwoUnits(p: seq<byte>, q: seq<byte>)
    requires |p| == 2 && |q| == 2
    ensures PrefixPrint(1, [p, q]) == [2] + p + [2] + q
  {
    assert BigEndianBytes(0, 0) == [] && BigEndianBytes(2, 1) == [2];
    assert [p, q][1..] == [q] && [q][1..] == [];
    assert PrefixPrint(1, [q]) == [2] + q + [];
  }

  /** A payload byte taken for a length beyond the end. */
  lemma LengthOverruns(buf: seq<byte>)
    requires buf == [0x05, 2, 0x65, 0x88]
    ensures Convert(1, [], buf).payloads == []
  {
    assert [] + buf == buf;
    assert BigEndian([]) == 0 && buf[0..1] == [0x05] && [0x05][..0] == [];
    assert BigEndian(buf[0..1]) == 0x05;
    var us := PrefixedUnits(buf, 1, 0);
    NothingLeft(buf, 1, 6);
    assert us == [Unit(Partial, 0, 1, 6, 2)];
    assert us[1..] == [];
    CutSound(1, buf);
    assert Emitted(buf, us) == [] + Emitted(buf, []);
    assert Cut(1, buf) == us;
  }
}
