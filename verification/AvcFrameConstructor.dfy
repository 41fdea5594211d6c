/**
 The H.264 frame constructor object. It is a base frame constructor (its `core`) with a
 prefix size, an input buffer for unfinished units and an output buffer.
 */
module AvcFrameConstructor {
  import opened Bytes
  import opened NalUnits
  import opened NaluIterator
  import opened AvcFrames
  import opened FC = FrameConstructor

  /** One more unit written out: what is written and what is still to be written stays the same. */
  lemma ConvertMore(out: seq<byte>, out': seq<byte>, buf: seq<byte>, us: seq<Unit>)
    requires us != [] && Sound(buf, us)
    requires out' == out + (if Emits(us[0]) then START_CODE + Payload(buf, us[0]) else [])
    ensures Sound(buf, us[1..])
    ensures out' + AnnexBPrint(Emitted(buf, us[1..])) == out + AnnexBPrint(Emitted(buf, us))
  {
    hide Payload;
    assert forall i :: 0 <= i < |us[1..]| ==> us[1..][i] == us[i + 1];
    var rest := Emitted(buf, us[1..]);
    if Emits(us[0]) {
      var p := Payload(buf, us[0]);
      assert Emitted(buf, us) == [p] + rest;
      assert ([p] + rest)[1..] == rest;
    } else {
      assert Emitted(buf, us) == [] + rest == rest;
    }
  }

  lemma PrintsSomething(payloads: seq<seq<byte>>)
    ensures payloads != [] ==> AnnexBPrint(payloads) != []
  {
  }

  class AvcConstructor {
    const core: Constructor
    const nalSize: nat
    var inputBuffer: seq<byte>
    var outputBuffer: seq<byte>

    ghost predicate Valid()
      reads this, core
    {
      core.Valid()
    }

    constructor (headers: seq<byte>, nalSize: nat)
      ensures Valid() && fresh(core) && fresh(core.residualData)
      ensures core.Carried() == START && core.headers == headers && inputBuffer == [] && this.nalSize == nalSize
    {
      core := new Constructor(headers);
      this.nalSize := nalSize;
      inputBuffer, outputBuffer := [], [];
    }

    method Reset()
      requires Valid()
      modifies this`inputBuffer, core`residualLength, core`seqHeaderInserted
      ensures Valid() && core.Carried() == START && inputBuffer == []
    {
      core.Reset();
      inputBuffer := [];
    }

    /** One turn of the conversion loop. */
    method ConvertUnit(it: Iterator) returns (eos: bool)
      requires it.Valid() && Sound(it.buffer, it.Remaining())
      modifies this`inputBuffer, this`outputBuffer, it
      ensures it.Valid() && (eos <==> old(it.Remaining()) == [])
      ensures eos ==> it.Remaining() == [] && unchanged(this)
      ensures !eos ==>
                var u := old(it.Remaining())[0];
                it.Remaining() == old(it.Remaining())[1..] &&
                outputBuffer == old(outputBuffer) + (if Emits(u) then START_CODE + Payload(it.buffer, u) else []) &&
                inputBuffer == if u.status.Partial? then it.buffer[u.start..] else old(inputBuffer)
    {
      eos := false;
      var rc := it.Next();
      match rc
      case NALU_OK =>
        if NaluType(it.nal) != NALU_TYPE_AUD {
          outputBuffer := outputBuffer + START_CODE;
          outputBuffer := outputBuffer + it.buffer[it.nalDataPos..it.curPos];
        }
      case NALU_PARTIAL =>
        inputBuffer := it.buffer[it.nalPos..];
      case NALU_EOS =>
        eos := true;
      case NALU_INVALID =>
    }

    /** The conversion loop: output and input buffer become what Convert says. */
    method ConvertUnits(buf: seq<byte>)
      requires Scannable(nalSize, buf)
      modifies this`inputBuffer, this`outputBuffer
      ensures Sound(buf, Cut(nalSize, buf))
      ensures outputBuffer == AnnexBPrint(Emitted(buf, Cut(nalSize, buf)))
      ensures inputBuffer == Leftover(old(inputBuffer), buf, Cut(nalSize, buf))
    {
      outputBuffer := [];
      CutSound(nalSize, buf);
      var it := new Iterator(buf, nalSize);
      ghost var all := Cut(nalSize, buf);
      assert outputBuffer + AnnexBPrint(Emitted(buf, all)) == AnnexBPrint(Emitted(buf, all));
      var eos := false;
      while !eos
        invariant it.Valid() && it.nalSize == nalSize && it.buffer == buf && fresh(it)
        invariant Sound(buf, all) && Sound(buf, it.Remaining())
        invariant outputBuffer + AnnexBPrint(Emitted(buf, it.Remaining())) == AnnexBPrint(Emitted(buf, all))
        invariant Leftover(inputBuffer, buf, it.Remaining()) == Leftover(old(inputBuffer), buf, all)
        invariant eos ==> it.Remaining() == []
        decreases !eos, |it.Remaining()|
      {
        ghost var us, out := it.Remaining(), outputBuffer;
        eos := ConvertUnit(it);
        if us != [] { ConvertMore(out, outputBuffer, buf, us); }
      }
    }

    /** One sample: it is converted, and a non-empty result is put behind residual and headers. */
    method ConstructFrame(sample: seq<byte>, bs: Bitstream) returns (sts: MfxStatus)
      requires Valid() && Scannable(nalSize, inputBuffer + sample)
      modifies this`inputBuffer, this`outputBuffer, core`residualLength, core`seqHeaderInserted, bs`data, bs`dataLength
      ensures Valid()
      ensures sts == (if sample == [] then MFX_ERR_MORE_DATA else MFX_ERR_NONE)
      ensures sample == [] ==> unchanged(this) && unchanged(core) && unchanged(bs)
      ensures sample != [] ==>
                var c := Convert(nalSize, old(inputBuffer), sample);
                inputBuffer == c.input && outputBuffer == AnnexBPrint(c.payloads) &&
                if c.payloads == [] then unchanged(core) && unchanged(bs)
                else fresh(bs.data) && bs.dataLength == bs.data.Length && core.Carried() == Carry([], true) &&
                     bs.data[..] == Assembled(old(core.Carried()), core.headers, AnnexBPrint(c.payloads))
    {
      if |sample| == 0 { return MFX_ERR_MORE_DATA; }
      var buf := sample;
      assert inputBuffer == [] ==> inputBuffer + sample == sample;
      if |inputBuffer| > 0 {
        inputBuffer := inputBuffer + sample;
        buf := inputBuffer;
      }
      ConvertUnits(buf);
      ghost var c := Convert(nalSize, old(inputBuffer), sample);
      assert outputBuffer == AnnexBPrint(c.payloads) && inputBuffer == c.input;
      if |outputBuffer| > 0 {
        core.Assemble(outputBuffer, bs);
      }
      return MFX_ERR_NONE;
    }

    /** One sample through the decoder. */
    method Decode(sample: seq<byte>, takes: nat, ghost taken: seq<byte>) returns (out: seq<byte>)
      requires Valid() && Scannable(nalSize, inputBuffer + sample)
      modifies this`inputBuffer, this`outputBuffer, core`residualLength, core`residualData, core`seqHeaderInserted, core.residualData
      ensures Valid() && (core.residualData == old(core.residualData) || fresh(core.residualData))
      ensures AvcHistory(History(core.Carried(), taken + out), inputBuffer) ==
              AvcStep(core.headers, nalSize, old(AvcHistory(History(core.Carried(), taken), inputBuffer)), Feed(sample, takes))
    {
      hide Convert, AnnexBPrint, Assembled;
      out := [];
      var bs := new Bitstream();
      if |sample| == 0 { return; }
      var sts := ConstructFrame(sample, bs);
      ghost var c := Convert(nalSize, old(inputBuffer), sample);
      PrintsSomething(c.payloads);
      assert bs.Contents() == if c.payloads == [] then [] else bs.data[..];
      out := bs.Take(takes);
      core.SaveResidualData(bs);
    }
  }

  // ---------------------------------------------------------------- conservation, and where it fails

  datatype AvcHistory = AvcHistory(history: History, input: seq<byte>)

  /**
   One event. A sample that converts to nothing leaves the caller's bitstream empty, and saving that as
   the residual forgets the bytes carried so far.
   */
  function AvcStep(headers: seq<byte>, nalSize: nat, h: AvcHistory, e: Event): AvcHistory {
    match e
    case Reset => AvcHistory(History(START, []), [])
    case Feed(sample, takes) =>
      if sample == [] then h else
        var c := Convert(nalSize, h.input, sample);
        if c.payloads == [] then AvcHistory(h.history.(carry := h.history.carry.(residual := [])), c.input)
        else AvcHistory(Step(headers, h.history, Feed(AnnexBPrint(c.payloads), takes)), c.input)
  }

  function AvcRun(headers: seq<byte>, nalSize: nat, events: seq<Event>): AvcHistory {
    if events == [] then AvcHistory(History(START, []), [])
    else AvcStep(headers, nalSize, AvcRun(headers, nalSize, events[..|events| - 1]), events[|events| - 1])
  }

  /** All converted bytes since the last reset. */
  function ConvertedSinceReset(headers: seq<byte>, nalSize: nat, events: seq<Event>): seq<byte> {
    if events == [] || events[|events| - 1].Reset? then []
    else
      var before := events[..|events| - 1];
      var sample := events[|events| - 1].sample;
      ConvertedSinceReset(headers, nalSize, before) +
      if sample == [] then [] else AnnexBPrint(Convert(nalSize, AvcRun(headers, nalSize, before).input, sample).payloads)
  }

  /** A non-empty sample that converts to nothing while undecoded bytes are carried. */
  predicate Starves(nalSize: nat, h: AvcHistory, e: Event) {
    e.Feed? && e.sample != [] && h.history.carry.residual != [] && Convert(nalSize, h.input, e.sample).payloads == []
  }

  /** How many bytes were forgotten since the last reset. */
  function Forgotten(headers: seq<byte>, nalSize: nat, events: seq<Event>): nat {
    if events == [] || events[|events| - 1].Reset? then 0
    else
      var before := events[..|events| - 1];
      var h := AvcRun(headers, nalSize, before);
      Forgotten(headers, nalSize, before) + if Starves(nalSize, h, events[|events| - 1]) then |h.history.carry.residual| else 0
  }

  /** What conservation asks for, by length: `lost` bytes are missing from what was fed. */
  predicate Accounted(headers: seq<byte>, h: History, samples: seq<byte>, lost: nat) {
    && h.carry.headersWritten == (samples != [])
    && |h.taken| + |h.carry.residual| + lost == (if samples == [] then 0 else |headers| + |samples|)
    && (lost == 0 ==> Conserved(headers, h, samples))
  }

  lemma AvcFeedAccounts(headers: seq<byte>, nalSize: nat, h: AvcHistory, samples: seq<byte>, lost: nat, e: Event)
    requires Accounted(headers, h.history, samples, lost) && e.Feed? && e.sample != []
    ensures var added := AnnexBPrint(Convert(nalSize, h.input, e.sample).payloads);
            var lost' := lost + if Starves(nalSize, h, e) then |h.history.carry.residual| else 0;
            Accounted(headers, AvcStep(headers, nalSize, h, e).history, samples + added, lost')
  {
    hide Convert;
    var payloads := Convert(nalSize, h.input, e.sample).payloads;
    var added := AnnexBPrint(payloads);
    if payloads == [] {
      assert samples + added == samples;
      assert h.history.carry.residual == [] ==>
          AvcStep(headers, nalSize, h, e).history == h.history;
    } else {
      assert added != [];
      var feed := Feed(added, e.takes);
      if lost == 0 { FeedConserves(headers, h.history, samples, feed); }
      assert |samples + added| == |samples| + |added|;
    }
  }

  /**
   Over every run: what the decoder took and what is carried is the headers once and all converted bytes,
   exactly when no sample that converts to nothing arrived while undecoded bytes were carried.
   */
  lemma {:induction false} AvcConservation(headers: seq<byte>, nalSize: nat, events: seq<Event>)
    ensures var h := AvcRun(headers, nalSize, events).history;
            var fed := ConvertedSinceReset(headers, nalSize, events);
            var lost := Forgotten(headers, nalSize, events);
            Accounted(headers, h, fed, lost) && (Conserved(headers, h, fed) <==> lost == 0)
  {
    if events != [] {
      hide Convert, AvcStep, Starves;
      var before, e := events[..|events| - 1], events[|events| - 1];
      AvcConservation(headers, nalSize, before);
      AvcLastStep(headers, nalSize, events);
    }
    AccountedExactly(headers, AvcRun(headers, nalSize, events).history, ConvertedSinceReset(headers, nalSize, events),
                     Forgotten(headers, nalSize, events));
  }

  lemma AccountedExactly(headers: seq<byte>, h: History, samples: seq<byte>, lost: nat)
    requires Accounted(headers, h, samples, lost)
    ensures Conserved(headers, h, samples) <==> lost == 0
  {
    if Conserved(headers, h, samples) {
      assert |h.taken + h.carry.residual| == if samples == [] then 0 else |headers + samples|;
    }
  }

  lemma AvcLastStep(headers: seq<byte>, nalSize: nat, events: seq<Event>)
    requires events != []
    requires var before := events[..|events| - 1];
             Accounted(headers, AvcRun(headers, nalSize, before).history, ConvertedSinceReset(headers, nalSize, before),
                       Forgotten(headers, nalSize, before))
    ensures Accounted(headers, AvcRun(headers, nalSize, events).history, ConvertedSinceReset(headers, nalSize, events),
                      Forgotten(headers, nalSize, events))
  {
    hide Convert;
    var before, e := events[..|events| - 1], events[|events| - 1];
    if e.Feed? {
      var h := AvcRun(headers, nalSize, before);
      if e.sample == [] {
        assert ConvertedSinceReset(headers, nalSize, before) + [] == ConvertedSinceReset(headers, nalSize, before);
      } else {
        AvcFeedAccounts(headers, nalSize, h, ConvertedSinceReset(headers, nalSize, before), Forgotten(headers, nalSize, before), e);
      }
    }
  }

  lemma OneUnitSample(n: nat, p: seq<byte>)
    requires n > 0 && Printable(n, [p]) && p != []
    ensures PrefixPrint(n, [p]) != []
    ensures Convert(n, [], PrefixPrint(n, [p])) == Conversion(if Wanted(p) then [p] else [], [])
  {
    var sample := PrefixPrint(n, [p]);
    assert [] + sample == sample;
    WholeSample(n, [], sample, [p]);
    assert [p][1..] == [] && |sample| == n + |p| + |PrefixPrint(n, [])|;
    assert Keep([p]) == (if Wanted(p) then [p] else []) + Keep([]);
  }

  lemma AfterOneEvent(headers: seq<byte>, nalSize: nat, before: seq<Event>, e: Event)
    ensures AvcRun(headers, nalSize, before + [e]) == AvcStep(headers, nalSize, AvcRun(headers, nalSize, before), e)
    ensures e.Feed? && e.sample != [] ==>
              ConvertedSinceReset(headers, nalSize, before + [e]) == ConvertedSinceReset(headers, nalSize, before) +
                AnnexBPrint(Convert(nalSize, AvcRun(headers, nalSize, before).input, e.sample).payloads)
  {
    hide AvcStep, Convert;
    assert (before + [e])[..|before|] == before;
  }

  /** Two samples are enough: after one that was not decoded at all, a lone delimiter makes its bytes vanish. */
  lemma DelimiterForgets(headers: seq<byte>, n: nat, p: seq<byte>, aud: seq<byte>, takes: nat)
    requires n > 0 && Printable(n, [p]) && Printable(n, [aud])
    requires p != [] && Wanted(p) && aud != [] && NaluType(aud[0]) == NALU_TYPE_AUD
    ensures var events := [Feed(PrefixPrint(n, [p]), 0)] + [Feed(PrefixPrint(n, [aud]), takes)];
            ConvertedSinceReset(headers, n, events) == START_CODE + p &&
            AvcRun(headers, n, events).history == History(Carry([], true), [])
  {
    var e0, e1 := Feed(PrefixPrint(n, [p]), 0), Feed(PrefixPrint(n, [aud]), takes);
    OneUnitSample(n, p);
    OneUnitSample(n, aud);
    assert AnnexBPrint([p]) == START_CODE + p by { assert [p][1..] == []; }
    assert AnnexBPrint([]) == [];
    assert AvcRun(headers, n, []) == AvcHistory(History(START, []), []);
    hide Convert, PrefixPrint, AvcRun, ConvertedSinceReset, AnnexBPrint;
    AfterOneEvent(headers, n, [], e0);
    assert [] + [e0] == [e0];
    AfterOneEvent(headers, n, [e0], e1);
    assert ConvertedSinceReset(headers, n, [e0]) + [] == ConvertedSinceReset(headers, n, [e0]);
    NothingConverted(headers, n, START_CODE + p);
  }

  lemma NothingConverted(headers: seq<byte>, nalSize: nat, s: seq<byte>)
    ensures ConvertedSinceReset(headers, nalSize, []) + s == s
  {
  }
}
