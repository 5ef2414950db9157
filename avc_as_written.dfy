/**
 * Four steps of `avc_get_video_frame` and `send_packet` as the source writes
 * them, next to inputs on which they go wrong. The rest of the model
 * (`Avc.ReadUnit`, `Avc.Mark`, `Avc.CodedPicBuffer.GetVideoFrame`) uses the
 * corrected behaviour; the lemmas here also state what the correction gives.
 */
module AvcAsWritten {
  import opened Wrappers
  import opened Avc
  import opened AvcLayout

  // 1. The frame-mode length check.

  /**
   * The frame-mode length check as written: the length is compared with the bytes
   * left counted from the start of the 4-byte length field, not from the NAL, and
   * a failing check only logs a warning.
   */
  predicate WarnsAsWritten(data: seq<Byte>, consumed: nat)
    requires consumed + 4 <= |data|
  {
    LengthBefore(data, consumed + 4, false) > |data| - consumed
  }

  /** Whether the NAL announced by the length field at `consumed` runs past the end of the packet. */
  predicate Overruns(data: seq<Byte>, consumed: nat)
    requires consumed + 4 <= |data|
  {
    consumed + 4 + LengthBefore(data, consumed + 4, false) > |data|
  }

  /**
   * The check as written lets through exactly the overruns by one to four bytes;
   * the corrected turn (`ReadUnit`) refuses every overrun.
   */
  lemma GuardMissesByFour(data: seq<Byte>, consumed: nat)
    requires consumed + 4 <= |data|
    ensures var len := LengthBefore(data, consumed + 4, false);
      (Overruns(data, consumed) && !WarnsAsWritten(data, consumed)) <==> |data| - consumed - 4 < len <= |data| - consumed
    ensures Overruns(data, consumed) <==> ReadUnit(data, false, consumed) == Err(LengthOverrun)
  {
  }

  /** A 6-byte packet announcing a 5-byte NAL: no warning, yet the NAL would end at byte 9. */
  lemma GuardMissesExample()
    ensures var d: seq<Byte> := [0, 0, 0, 5, 0x65, 0x88];
      && !WarnsAsWritten(d, 0) && Overruns(d, 0)
      && ReadUnit(d, false, 0) == Err(LengthOverrun)
      && Split(d, false) == Err(LengthOverrun)
  {
    var d: seq<Byte> := [0, 0, 0, 5, 0x65, 0x88];
    assert LengthBefore(d, 4, false) == 5;
  }

  // 2. The marker write.

  /**
   * The marker write as written: in frame mode slot `total - 1` is written whatever
   * `total` is. `None` stands for the write at index -1, outside the table.
   */
  function MarkAsWritten(ns: seq<Nalu>, isHeader: bool): Option<seq<Nalu>> {
    if isHeader then Some(ns)
    else
      var slot := |ns| - 1;
      if slot < 0 then None else Some(ns[..slot] + [ns[slot].(marker := true)])
  }

  /** The write falls outside the table exactly for a frame that keeps no NAL; otherwise it agrees with `Mark`. */
  lemma MarkAsWrittenAgrees(ns: seq<Nalu>, isHeader: bool)
    ensures MarkAsWritten(ns, isHeader) == None <==> !isHeader && ns == []
    ensures MarkAsWritten(ns, isHeader).Some? ==> MarkAsWritten(ns, isHeader).value == Mark(ns, isHeader)
  {
  }

  /** A frame holding only an access-unit delimiter keeps no NAL, so the marker would be written at index -1. */
  lemma MarkOutsideExample()
    ensures var d: seq<Byte> := [0, 0, 0, 2, 0x09, 0xF0];
      && SplitFrom(d, false, 0, []) == Ok([])
      && MarkAsWritten([], false) == None
      && Split(d, false) == Ok([])
  {
    var d: seq<Byte> := [0, 0, 0, 2, 0x09, 0xF0];
    assert LengthBefore(d, 4, false) == 2;
    assert ReadUnit(d, false, 0) == Ok(Nalu(4, 2, false));
    assert !Keeps(d[4]);
  }

  // 3. The full table.

  /**
   * The table as the source leaves it when its loop stops: the NALs stored so
   * far, none marked, also when it stops because all 100 slots are taken (it
   * returns -1 before the marker write and `send_packet` ignores that result).
   * Where the loop would read past the packet the model stops as well.
   */
  function FilledAsWritten(data: seq<Byte>, isHeader: bool, consumed: nat, acc: seq<Nalu>): seq<Nalu>
    decreases |data| - consumed
  {
    if consumed >= |data| || |acc| >= MaxNalus then acc
    else
      match ReadUnit(data, isHeader, consumed)
      case Err(_) => acc
      case Ok(n) =>
        var acc' := if Keeps(data[n.offset]) then acc + [n] else acc;
        FilledAsWritten(data, isHeader, n.offset + n.len, acc')
  }

  /** Only the loop's own slot check reports `BuffersFull`: a single turn never does. */
  lemma ReadUnitNotFull(data: seq<Byte>, isHeader: bool, consumed: nat)
    ensures ReadUnit(data, isHeader, consumed) != Err(BuffersFull)
  {
  }

  /** When the corrected split stops for lack of slots, the source's table holds 100 entries. */
  lemma {:induction false} FilledWhenFull(data: seq<Byte>, isHeader: bool, consumed: nat, acc: seq<Nalu>)
    requires SplitFrom(data, isHeader, consumed, acc) == Err(BuffersFull) && |acc| <= MaxNalus
    ensures |FilledAsWritten(data, isHeader, consumed, acc)| == MaxNalus
    decreases |data| - consumed
  {
    if consumed < |data| && |acc| < MaxNalus {
      ReadUnitNotFull(data, isHeader, consumed);
      var n := ReadUnit(data, isHeader, consumed).value;
      var acc' := if Keeps(data[n.offset]) then acc + [n] else acc;
      SplitFromNext(data, isHeader, consumed, acc);
      FilledWhenFull(data, isHeader, n.offset + n.len, acc');
    }
  }

  /** No entry of the source's table is marked when its loop stops. */
  lemma {:induction false} FilledUnmarked(data: seq<Byte>, isHeader: bool, consumed: nat, acc: seq<Nalu>)
    requires MarkerCount(acc) == 0
    ensures MarkerCount(FilledAsWritten(data, isHeader, consumed, acc)) == 0
    decreases |data| - consumed
  {
    if consumed < |data| && |acc| < MaxNalus && ReadUnit(data, isHeader, consumed).Ok? {
      var n := ReadUnit(data, isHeader, consumed).value;
      if Keeps(data[n.offset]) {
        assert (acc + [n])[..|acc|] == acc;
      }
      var acc' := if Keeps(data[n.offset]) then acc + [n] else acc;
      FilledUnmarked(data, isHeader, n.offset + n.len, acc');
    }
  }

  /**
   * A packet with more NALs to store than the table has slots: the source sends
   * the first 100 of them with no marker bit, so the frame is never closed; the
   * corrected split reports `BuffersFull` and `GetVideoFrame` empties the table.
   */
  lemma OverflowSendsUnmarked(data: seq<Byte>, isHeader: bool)
    requires Split(data, isHeader) == Err(BuffersFull)
    ensures var t := FilledAsWritten(data, isHeader, 0, []);
      |t| == MaxNalus && MarkerCount(t) == 0
  {
    FilledWhenFull(data, isHeader, 0, []);
    FilledUnmarked(data, isHeader, 0, []);
  }

  /** Every frame whose loop runs out of slots before its last NAL is such a packet. */
  lemma OverflowFrame(ps: seq<Payload>)
    requires !FitsTable(0, ps)
    ensures Split(FrameOf(ps), false) == Err(BuffersFull)
    ensures var t := FilledAsWritten(FrameOf(ps), false, 0, []);
      |t| == MaxNalus && MarkerCount(t) == 0
  {
    SplitFrame(ps);
    OverflowSendsUnmarked(FrameOf(ps), false);
  }

  // 4. The sign of the frame-mode length.

  /**
   * The frame-mode length as the source reads it: the four bytes are shifted into
   * a signed 32-bit `int`, so a first byte of 0x80 or more gives a negative length
   * (taking the usual two's-complement result of the shift).
   */
  function SignedLengthAsWritten(data: seq<Byte>, consumed: nat): int
    requires consumed + 4 <= |data|
  {
    var u := LengthBefore(data, consumed + 4, false);
    if u >= 0x8000_0000 then u - 0x1_0000_0000 else u
  }

  /** Where one frame-mode turn of the source leaves `consumed`: 4 for the field, then the length, whatever its sign. */
  function NextAsWritten(data: seq<Byte>, consumed: nat): int
    requires consumed + 4 <= |data|
  {
    consumed + 4 + SignedLengthAsWritten(data, consumed)
  }

  /** The length the source reads is negative exactly when the field's first byte is 0x80 or more. */
  lemma NegativeLengthIff(data: seq<Byte>, consumed: nat)
    requires consumed + 4 <= |data|
    ensures SignedLengthAsWritten(data, consumed) < 0 <==> data[consumed] >= 0x80
  {
    var c := consumed;
    assert ReadBe(data, c + 1, 1) == data[c] as nat;
    assert ReadBe(data, c + 2, 2) == ReadBe(data, c + 1, 1) * 0x100 + data[c + 1] as nat;
    assert ReadBe(data, c + 3, 3) == ReadBe(data, c + 2, 2) * 0x100 + data[c + 2] as nat;
    assert ReadBe(data, c + 4, 4) == ReadBe(data, c + 3, 3) * 0x100 + data[c + 3] as nat;
  }

  /**
   * The 5-byte frame `FF FF FF FC 09` reads length -4, so its turn ends back at
   * position 0 (and `video_stream` back at the packet's start) without storing the
   * AUD with nal_ref_idc 0 it looks at: the loop state repeats and the loop never
   * ends. The corrected split refuses the frame.
   */
  lemma NegativeLengthRepeats()
    ensures var d: seq<Byte> := [0xFF, 0xFF, 0xFF, 0xFC, 0x09];
      && SignedLengthAsWritten(d, 0) == -4
      && NextAsWritten(d, 0) == 0
      && !Keeps(d[4])
      && ReadUnit(d, false, 0) == Err(LengthOverrun)
      && Split(d, false) == Err(LengthOverrun)
  {
    var d: seq<Byte> := [0xFF, 0xFF, 0xFF, 0xFC, 0x09];
    assert LengthBefore(d, 4, false) == 0xFFFF_FFFC;
  }
}
