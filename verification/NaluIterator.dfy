/**
 The cursor that hands out the NAL units of a buffer one by one. Its contract is
 that the units still to come are exactly those the whole-buffer cut predicts.
 */
module NaluIterator {
  import opened Bytes
  import opened NalUnits

  datatype ReturnCode = NALU_OK | NALU_PARTIAL | NALU_INVALID | NALU_EOS

  function CodeOf(s: Status): ReturnCode {
    match s
    case Ok => NALU_OK
    case Partial => NALU_PARTIAL
    case Invalid => NALU_INVALID
  }

  /** A buffer the start-code scanner may be given: it reads four bytes at a time. */
  predicate Scannable(nalSize: nat, buffer: seq<byte>) {
    nalSize > 0 || buffer == [] || |buffer| > 3
  }

  /** All units of a buffer; a zero prefix size selects Annex B. */
  function Cut(nalSize: nat, buffer: seq<byte>): seq<Unit> {
    if nalSize > 0 then PrefixedUnits(buffer, nalSize, 0) else AnnexBCut(buffer)
  }

  class Iterator {
    const nalSize: nat
    const buffer: seq<byte>
    var curPos: nat
    var nextRtp: nat
    var nalPos: nat
    var nalDataPos: nat
    var nal: byte

    ghost predicate Valid()
      reads this
    {
      if nalSize > 0 then nextRtp == curPos
      else Scannable(nalSize, buffer) && (curPos == |buffer| || Visible(buffer, curPos))
    }

    /** The units not handed out yet. */
    ghost function Remaining(): seq<Unit>
      requires Valid()
      reads this
    {
      if nalSize > 0 then PrefixedUnits(buffer, nalSize, curPos) else AnnexBUnits(buffer, curPos)
    }

    constructor (buffer: seq<byte>, nalSize: nat)
      requires Scannable(nalSize, buffer)
      ensures Valid() && this.buffer == buffer && this.nalSize == nalSize
      ensures Remaining() == Cut(nalSize, buffer)
    {
      this.nalSize, this.buffer := nalSize, buffer;
      curPos, nextRtp, nalPos, nalDataPos := 0, 0, 0, 0;
      nal := 0;
      new;
      if nalSize == 0 && |buffer| > 3 {
        var found := FindNextStartCode();
      }
    }

    method FindNextStartCode() returns (found: bool)
      requires |buffer| > 3 && curPos <= |buffer|
      modifies this`curPos
      ensures curPos == NextStartCode(buffer, old(curPos))
      ensures found <==> curPos < |buffer|
    {
      var p := curPos;
      while p < |buffer| - 4
        invariant curPos == old(curPos) <= p <= |buffer|
        invariant NextStartCode(buffer, p) == NextStartCode(buffer, old(curPos))
        decreases |buffer| - p
      {
        if buffer[p] == 0 && buffer[p + 1] == 0 && buffer[p + 2] == 1 {
          curPos := p;
          return true;
        }
        p := p + 1;
      }
      curPos := |buffer|;
      return false;
    }

    /** The big-endian length in front of the current unit; the cursor moves behind it. */
    method ReadPrefix() returns (size: nat)
      requires curPos + nalSize <= |buffer|
      modifies this`curPos
      ensures curPos == old(curPos) + nalSize
      ensures size == BigEndian(buffer[old(curPos)..curPos])
    {
      size := 0;
      for i := 0 to nalSize
        invariant curPos == old(curPos) + i
        invariant size == BigEndian(buffer[old(curPos)..curPos])
      {
        ghost var read := buffer[old(curPos)..curPos + 1];
        assert read[..|read| - 1] == buffer[old(curPos)..curPos];
        size := size * 256 + buffer[curPos];
        curPos := curPos + 1;
      }
    }

    /** Moves over one length-prefixed unit. */
    method NextPrefixed() returns (isPartial: bool)
      requires Valid() && nalSize > 0 && curPos + nalSize < |buffer|
      modifies this`curPos, this`nextRtp, this`nalPos, this`nalDataPos
      ensures Valid()
      ensures var u := old(Remaining())[0];
              nalPos == u.start && nalDataPos == u.dataStart && curPos == u.end && (isPartial <==> u.end > |buffer|)
    {
      isPartial := false;
      nalPos := curPos;
      nalDataPos := curPos + nalSize;
      var size := ReadPrefix();
      nextRtp := nextRtp + size + nalSize;
      if nextRtp > |buffer| {
        curPos := |buffer|;
        isPartial := true;
      }
      curPos := nextRtp;
    }

    /** Moves over one start code and the unit behind it. */
    method NextAnnexB() returns (isPartial: bool)
      requires Valid() && nalSize == 0 && curPos < |buffer|
      modifies this`curPos, this`nalPos, this`nalDataPos
      ensures Valid()
      ensures var u := old(Remaining())[0];
              nalPos == u.start && nalDataPos == u.dataStart && curPos == u.end && (isPartial <==> u.end == |buffer|)
    {
      // The zero-skipping loop of the source: its guard fails wherever the scanner stops.
      assert !(buffer[curPos] == 0 && !StartCodeAt(buffer, curPos) && curPos < |buffer| - 3);
      nalPos := curPos;
      nalDataPos := curPos + 3;
      curPos := nalDataPos;
      var found := FindNextStartCode();
      isPartial := !found;
    }

    /** Hands out the next unit: the code, the extent and the header are those of the first remaining unit. */
    method Next() returns (rc: ReturnCode)
      requires Valid()
      modifies this
      ensures Valid()
      ensures rc == NALU_EOS <==> old(Remaining()) == []
      ensures rc == NALU_EOS ==> unchanged(this)
      ensures rc != NALU_EOS ==>
                var u := old(Remaining())[0];
                rc == CodeOf(u.status) && nalPos == u.start && nalDataPos == u.dataStart &&
                curPos == u.end && nal == u.header && Remaining() == old(Remaining())[1..]
    {
      if curPos + nalSize >= |buffer| { return NALU_EOS; }
      var isPartial;
      if nalSize > 0 {
        isPartial := NextPrefixed();
      } else {
        isPartial := NextAnnexB();
      }
      nal := buffer[nalDataPos];
      var isValid := nal / 128 == 0 && NaluType(nal) > 0 && NaluType(nal) <= 12;
      if isPartial && isValid { return NALU_PARTIAL; }
      return if isValid then NALU_OK else NALU_INVALID;
    }
  }
}
