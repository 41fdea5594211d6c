/**
 The base frame constructor: what the decoder left undecoded is put in front of the
 next sample, and the sequence headers go in once after every reset.
 */
module FrameConstructor {
  import opened Bytes

  datatype MfxStatus = MFX_ERR_NONE | MFX_ERR_MORE_DATA

  /** The decoder's bitstream: the bytes to decode are data[dataOffset..dataOffset + dataLength]. */
  class Bitstream {
    var data: array<byte>
    var dataOffset: nat
    var dataLength: nat

    constructor ()
      ensures dataOffset == 0 && dataLength == 0 && fresh(data)
    {
      data := new byte[0];
      dataOffset, dataLength := 0, 0;
    }

    ghost predicate Valid()
      reads this
    {
      dataOffset + dataLength <= data.Length
    }

    ghost function Contents(): seq<byte>
      requires Valid()
      reads this, data
    {
      data[dataOffset..dataOffset + dataLength]
    }

    /** The decoder takes up to `most` bytes off the front. */
    method Take(most: nat) returns (out: seq<byte>)
      requires Valid()
      modifies this`dataOffset, this`dataLength
      ensures Valid()
      ensures |out| == (if most <= old(dataLength) then most else old(dataLength))
      ensures out == old(Contents())[..|out|] && Contents() == old(Contents())[|out|..]
    {
      var k := if most <= dataLength then most else dataLength;
      out := data[dataOffset..dataOffset + k];
      dataOffset, dataLength := dataOffset + k, dataLength - k;
    }
  }

  // ---------------------------------------------------------------- what is carried between samples

  /** The undecoded bytes, and whether the headers were written since the last reset. */
  datatype Carry = Carry(residual: seq<byte>, headersWritten: bool)

  const START: Carry := Carry([], false)

  /** The frame built from a sample. */
  function Assembled(c: Carry, headers: seq<byte>, sample: seq<byte>): seq<byte> {
    c.residual + (if c.headersWritten then [] else headers) + sample
  }

  /** One sample fed, of which the decoder takes the first `takes` bytes if there are that many. */
  datatype Event = Feed(sample: seq<byte>, takes: nat) | Reset

  /** The decoder's history: what is carried and all it took since the last reset. */
  datatype History = History(carry: Carry, taken: seq<byte>)

  function Step(headers: seq<byte>, h: History, e: Event): History {
    match e
    case Reset => History(START, [])
    case Feed(sample, takes) =>
      if sample == [] then h else
        var frame := Assembled(h.carry, headers, sample);
        var k := if takes <= |frame| then takes else |frame|;
        History(Carry(frame[k..], true), h.taken + frame[..k])
  }

  function Run(headers: seq<byte>, events: seq<Event>): History {
    if events == [] then History(START, [])
    else Step(headers, Run(headers, events[..|events| - 1]), events[|events| - 1])
  }

  /** The samples fed since the last reset, end to end. */
  function SamplesSinceReset(events: seq<Event>): seq<byte> {
    if events == [] || events[|events| - 1].Reset? then []
    else SamplesSinceReset(events[..|events| - 1]) + events[|events| - 1].sample
  }

  /** Nothing is lost, duplicated or reordered: what was taken and what is carried is all that was fed. */
  predicate Conserved(headers: seq<byte>, h: History, samples: seq<byte>) {
    && h.carry.headersWritten == (samples != [])
    && h.taken + h.carry.residual == (if samples == [] then [] else headers + samples)
  }

  lemma FeedConserves(headers: seq<byte>, h: History, samples: seq<byte>, e: Event)
    requires Conserved(headers, h, samples) && e.Feed?
    ensures Conserved(headers, Step(headers, h, e), samples + e.sample)
  {
    if e.sample == [] {
      assert samples + e.sample == samples;
    } else {
      var frame := Assembled(h.carry, headers, e.sample);
      var h' := Step(headers, h, e);
      var lead := if h.carry.headersWritten then [] else headers;
      calc {
        h'.taken + h'.carry.residual;
      ==
        h.taken + frame;
      ==
        h.taken + h.carry.residual + lead + e.sample;
      ==
        headers + samples + e.sample;
      ==
        headers + (samples + e.sample);
      }
    }
  }

  /** Conservation over every run: taken bytes and carried bytes are the headers once and all samples. */
  lemma {:induction false} BytesAreConserved(headers: seq<byte>, events: seq<Event>)
    ensures Conserved(headers, Run(headers, events), SamplesSinceReset(events))
  {
    if events != [] {
      var before, e := events[..|events| - 1], events[|events| - 1];
      BytesAreConserved(headers, before);
      if e.Feed? { FeedConserves(headers, Run(headers, before), SamplesSinceReset(before), e); }
    }
  }

  // ---------------------------------------------------------------- the object

  /** memcpy of src to dst[at..]; returns the advanced write position. */
  method Append(dst: array<byte>, at: nat, src: seq<byte>) returns (next: nat)
    requires at + |src| <= dst.Length
    modifies dst
    ensures next == at + |src|
    ensures dst[..next] == old(dst[..at]) + src
    ensures dst[next..] == old(dst[next..])
  {
    CopyInto(dst, at, src);
    next := at + |src|;
  }

  class Constructor {
    var headers: seq<byte>
    var seqHeaderInserted: bool
    var residualData: array<byte>
    var residualLength: nat

    ghost predicate Valid()
      reads this
    {
      residualLength <= residualData.Length
    }

    ghost function Carried(): Carry
      requires Valid()
      reads this, residualData
    {
      Carry(residualData[..residualLength], seqHeaderInserted)
    }

    constructor (headers: seq<byte>)
      ensures Valid() && fresh(residualData)
      ensures Carried() == START && this.headers == headers
    {
      this.headers := headers;
      seqHeaderInserted := false;
      residualData := new byte[100](i => 0);
      residualLength := 0;
    }

    method Reset()
      requires Valid()
      modifies this`residualLength, this`seqHeaderInserted
      ensures Valid() && Carried() == START
    {
      residualLength := 0;
      seqHeaderInserted := false;
    }

    method WriteResidualData(dst: array<byte>, at: nat) returns (next: nat)
      requires Valid() && dst != residualData && at + residualLength <= dst.Length
      modifies this`residualLength, dst
      ensures Valid() && next == at + old(residualLength)
      ensures dst[..next] == old(dst[..at] + residualData[..residualLength])
      ensures Carried() == Carry([], seqHeaderInserted)
    {
      next := at;
      if residualLength > 0 {
        next := Append(dst, at, residualData[..residualLength]);
        residualLength := 0;
      }
    }

    method WriteHeaders(dst: array<byte>, at: nat) returns (next: nat)
      requires at + (if seqHeaderInserted then 0 else |headers|) <= dst.Length
      modifies this`seqHeaderInserted, dst
      ensures seqHeaderInserted
      ensures next == at + (if old(seqHeaderInserted) then 0 else |headers|)
      ensures dst[..next] == old(dst[..at]) + (if old(seqHeaderInserted) then [] else headers)
    {
      next := at;
      if !seqHeaderInserted {
        next := Append(dst, at, headers);
        seqHeaderInserted := true;
      }
    }

    method WriteSampleData(dst: array<byte>, at: nat, src: seq<byte>) returns (next: nat)
      requires at + |src| <= dst.Length
      modifies dst
      ensures next == at + |src| && dst[..next] == old(dst[..at]) + src
    {
      next := Append(dst, at, src);
    }

    /** Residual, headers and payload into a buffer of exactly their size. */
    method Assemble(payload: seq<byte>, bs: Bitstream)
      requires Valid()
      modifies this`residualLength, this`seqHeaderInserted, bs`data, bs`dataLength
      ensures Valid() && Carried() == Carry([], true)
      ensures fresh(bs.data) && bs.dataLength == bs.data.Length
      ensures bs.data[..] == Assembled(old(Carried()), headers, payload)
    {
      var size := |payload| + residualLength + (if seqHeaderInserted then 0 else |headers|);
      var data := new byte[size](i => 0);
      ghost var c := Carried();
      var at := WriteResidualData(data, 0);
      assert data[..at] == c.residual;
      at := WriteHeaders(data, at);
      assert data[..at] == c.residual + (if c.headersWritten then [] else headers);
      at := WriteSampleData(data, at, payload);
      assert data[..at] == data[..];
      bs.data := data;
      bs.dataLength := at;
    }

    method ConstructFrame(sample: seq<byte>, bs: Bitstream) returns (sts: MfxStatus)
      requires Valid()
      modifies this`residualLength, this`seqHeaderInserted, bs`data, bs`dataLength
      ensures Valid()
      ensures sts == (if sample == [] then MFX_ERR_MORE_DATA else MFX_ERR_NONE)
      ensures sample == [] ==> unchanged(this) && unchanged(bs)
      ensures sample != [] ==>
                fresh(bs.data) && bs.dataLength == bs.data.Length && Carried() == Carry([], true) &&
                bs.data[..] == Assembled(old(Carried()), headers, sample)
    {
      if |sample| == 0 { return MFX_ERR_MORE_DATA; }
      Assemble(sample, bs);
      return MFX_ERR_NONE;
    }

    /** Keeps what the decoder left. */
    method SaveResidualData(bs: Bitstream)
      requires Valid() && bs.Valid() && bs.data != residualData
      modifies this`residualLength, this`residualData, residualData
      ensures Valid() && (residualData == old(residualData) || fresh(residualData))
      ensures Carried() == Carry(bs.Contents(), seqHeaderInserted)
    {
      residualLength := bs.dataLength;
      if bs.dataLength > residualData.Length {
        residualData := new byte[bs.dataLength](i => 0);
      }
      ghost var left := bs.Contents();
      var at := Append(residualData, 0, bs.data[bs.dataOffset..bs.dataOffset + bs.dataLength]);
      assert residualData[..at] == left;
    }

    /** One sample through the decoder, which takes as much as it wants: the object follows Step. */
    method Decode(sample: seq<byte>, takes: nat, ghost taken: seq<byte>) returns (out: seq<byte>)
      requires Valid()
      modifies this`residualLength, this`residualData, this`seqHeaderInserted, residualData
      ensures Valid() && (residualData == old(residualData) || fresh(residualData))
      ensures History(Carried(), taken + out) == Step(headers, old(History(Carried(), taken)), Feed(sample, takes))
    {
      out := [];
      var bs := new Bitstream();
      if |sample| == 0 { return; }
      var sts := ConstructFrame(sample, bs);
      ghost var frame := bs.data[..];
      assert bs.Contents() == frame;
      out := bs.Take(takes);
      SaveResidualData(bs);
    }
  }
}
