/**
 * The H.264 access-unit splitter of the FTL output (`avc_get_video_frame`).
 *
 * A video packet is cut into NAL units, each recorded as an offset and a length
 * into the packet (the source's `nalu_t` holds the address of the NAL inside the packet).
 * Two layouts are understood:
 *  - frame mode: every NAL is preceded by a 4-byte big-endian length, the
 *    length-prefixed sample format of ISO/IEC 14496-15;
 *  - header mode: the parameter-set blob of an AVCDecoderConfigurationRecord
 *    (section 5.2.4.1 of ISO/IEC 14496-15): 6 bytes of prefix, then for each
 *    parameter set a 2-byte big-endian length and the NAL, consecutive sets being
 *    separated by one byte.
 * SEI, access-unit-delimiter and filler NALs whose nal_ref_idc is 0 are dropped.
 */
module Avc {
  import opened Wrappers

  /** An octet of a packet. */
  newtype Byte = x: int | 0 <= x < 0x100

  /** Number of slots of the NAL table (`nalus[100]` of `frame_of_nalus_t`). */
  const MaxNalus: nat := 100

  /** Bytes that precede the first length field of a parameter-set blob. */
  const HeaderPrefixLen: nat := 6

  // nal_unit_type values of Table 7-1 of ITU-T H.264 that the splitter may drop.
  const NalSei: Byte := 6
  const NalAud: Byte := 9
  const NalFiller: Byte := 12

  /** nal_unit_type: the low five bits of the NAL header byte (section 7.3.1 of ITU-T H.264). */
  function NalType(b: Byte): Byte { b % 0x20 }

  /** nal_ref_idc: the two bits above nal_unit_type. */
  function NalRefIdc(b: Byte): Byte { b / 0x20 % 4 }

  /** The NAL header byte with the given fields and a zero forbidden_zero_bit. */
  function NalHeader(refIdc: Byte, nalType: Byte): (b: Byte)
    requires refIdc < 4 && nalType < 32
    ensures NalType(b) == nalType && NalRefIdc(b) == refIdc
    ensures b < 0x80
  {
    refIdc * 0x20 + nalType
  }

  /**
   * Whether a NAL whose header byte is `b` is stored in the access unit: every NAL
   * but an SEI, access-unit delimiter or filler whose nal_ref_idc is 0. Those are
   * exactly the six header bytes listed here, with and without the forbidden bit
   * (`KeepsByFields`).
   */
  predicate Keeps(b: Byte) {
    b != 0x06 && b != 0x09 && b != 0x0C && b != 0x86 && b != 0x89 && b != 0x8C
  }

  /** The filter as the source states it: stored unless the type is filler, SEI or AUD and nal_ref_idc is 0. */
  lemma KeepsByFields(b: Byte)
    ensures Keeps(b) <==> (NalType(b) != NalFiller && NalType(b) != NalSei && NalType(b) != NalAud) || NalRefIdc(b) != 0
  {
    var t, r := NalType(b), NalRefIdc(b);
    assert b == (b / 0x20) * 0x20 + t;
    if r == 0 {
      assert b / 0x20 == 0 || b / 0x20 == 4;
    }
  }

  /** A NAL is stored exactly when it is not SEI, AUD or filler, or it is flagged as a reference. */
  lemma KeepsIff(refIdc: Byte, nalType: Byte)
    requires refIdc < 4 && nalType < 32
    ensures Keeps(NalHeader(refIdc, nalType)) <==> (nalType !in {6, 9, 12} || refIdc != 0)
  {
    KeepsByFields(NalHeader(refIdc, nalType));
  }

  /** The unsigned number written most significant byte first in the `width` bytes that end at position `end`. */
  function ReadBe(data: seq<Byte>, end: nat, width: nat): nat
    requires width <= end <= |data|
    decreases width
  {
    if width == 0 then 0 else ReadBe(data, end - 1, width - 1) * 0x100 + data[end - 1] as nat
  }

  /** Width of the big-endian length field in front of each NAL. */
  function LengthWidth(isHeader: bool): nat {
    if isHeader then 2 else 4
  }

  /** The length field that ends just before position `start`. */
  function LengthBefore(data: seq<Byte>, start: nat, isHeader: bool): nat
    requires LengthWidth(isHeader) <= start <= |data|
  {
    ReadBe(data, start, LengthWidth(isHeader))
  }

  /** One entry of the NAL table: where the NAL starts in the packet, its length, and the marker bit. */
  datatype Nalu = Nalu(offset: nat, len: nat, marker: bool)

  datatype SplitError =
    | BuffersFull     // a NAL remains but all 100 slots are taken
    | LengthOverrun   // a length field promises more bytes than the packet holds
    | Truncated       // a length field or a NAL header byte lies past the end of the packet

  /** A stored NAL: it lies inside the packet, follows its own length field, and passes the filter. */
  predicate WellPlaced(data: seq<Byte>, isHeader: bool, n: Nalu) {
    && LengthWidth(isHeader) <= n.offset < |data|
    && n.offset + n.len <= |data|
    && LengthBefore(data, n.offset, isHeader) == n.len
    && Keeps(data[n.offset])
  }

  /** Stored NALs appear in parse order and do not overlap. */
  predicate Ordered(ns: seq<Nalu>) {
    forall i :: 0 <= i < |ns| - 1 ==> ns[i].offset + ns[i].len < ns[i + 1].offset
  }

  /** Whether every stored NAL ends at or before position `consumed`. */
  predicate EndsBy(ns: seq<Nalu>, consumed: nat) {
    |ns| > 0 ==> ns[|ns| - 1].offset + ns[|ns| - 1].len <= consumed
  }

  /** Where the length field of the NAL that begins at `consumed` lies. */
  function FieldAt(isHeader: bool, consumed: nat): nat {
    if !isHeader then consumed
    else if consumed == 0 then HeaderPrefixLen
    else consumed + 1
  }

  /**
   * One turn of the splitting loop, from the position `consumed`: the start and the
   * length of the next NAL, or why it cannot be read.
   */
  function ReadUnit(data: seq<Byte>, isHeader: bool, consumed: nat): Result<Nalu, SplitError>
  {
    var start := FieldAt(isHeader, consumed) + LengthWidth(isHeader);
    if start > |data| then Err(Truncated)
    else
      var len := LengthBefore(data, start, isHeader);
      if len > |data| - start then Err(LengthOverrun)
      else if start == |data| then Err(Truncated)
      else Ok(Nalu(start, len, false))
  }

  /**
   * The splitting loop from position `consumed`, with the NALs `acc` already stored:
   * every NAL that passes the filter is appended, in parse order, without a marker.
   */
  function SplitFrom(data: seq<Byte>, isHeader: bool, consumed: nat, acc: seq<Nalu>): Result<seq<Nalu>, SplitError>
    decreases |data| - consumed
  {
    if consumed >= |data| then Ok(acc)
    else if |acc| >= MaxNalus then Err(BuffersFull)
    else
      match ReadUnit(data, isHeader, consumed)
      case Err(e) => Err(e)
      case Ok(n) =>
        var acc' := if Keeps(data[n.offset]) then acc + [n] else acc;
        SplitFrom(data, isHeader, n.offset + n.len, acc')
  }

  /** When the splitting loop succeeds from a position inside the packet, that turn read a NAL into a free slot. */
  lemma SplitFromOkTurn(data: seq<Byte>, isHeader: bool, consumed: nat, acc: seq<Nalu>)
    requires consumed < |data| && SplitFrom(data, isHeader, consumed, acc).Ok?
    ensures |acc| < MaxNalus && ReadUnit(data, isHeader, consumed).Ok?
  {
  }

  /** The splitting loop never shrinks the table and never fills more than the 100 slots. */
  lemma {:induction false} SplitFromGrows(data: seq<Byte>, isHeader: bool, consumed: nat, acc: seq<Nalu>)
    requires SplitFrom(data, isHeader, consumed, acc).Ok?
    ensures var ns := SplitFrom(data, isHeader, consumed, acc).value;
      |acc| <= |ns| && (|ns| > |acc| ==> |ns| <= MaxNalus)
    decreases |data| - consumed
  {
    if consumed < |data| {
      SplitFromOkTurn(data, isHeader, consumed, acc);
      var n := ReadUnit(data, isHeader, consumed).value;
      var acc' := if Keeps(data[n.offset]) then acc + [n] else acc;
      SplitFromNext(data, isHeader, consumed, acc);
      SplitFromGrows(data, isHeader, n.offset + n.len, acc');
    }
  }

  /** The splitting loop leaves the entries already stored in place. */
  lemma {:induction false} SplitFromKeepsAt(data: seq<Byte>, isHeader: bool, consumed: nat, acc: seq<Nalu>, j: nat)
    requires SplitFrom(data, isHeader, consumed, acc).Ok? && j < |acc|
    ensures var ns := SplitFrom(data, isHeader, consumed, acc).value;
      j < |ns| && ns[j] == acc[j]
    decreases |data| - consumed
  {
    if consumed < |data| {
      SplitFromOkTurn(data, isHeader, consumed, acc);
      var n := ReadUnit(data, isHeader, consumed).value;
      var acc' := if Keeps(data[n.offset]) then acc + [n] else acc;
      SplitFromNext(data, isHeader, consumed, acc);
      SplitFromKeepsAt(data, isHeader, n.offset + n.len, acc', j);
    }
  }

  /** Every turn that reads a NAL moves forward: the loop resumes past the NAL's start. */
  lemma ReadUnitAdvances(data: seq<Byte>, isHeader: bool, consumed: nat)
    requires ReadUnit(data, isHeader, consumed).Ok?
    ensures var n := ReadUnit(data, isHeader, consumed).value;
      consumed < n.offset <= n.offset + n.len <= |data|
  {
  }

  /**
   * A 4-byte length field whose first byte is 0x80 or more announces at least 2 GiB,
   * so in a packet shorter than that the turn is refused with `LengthOverrun`.
   */
  lemma HighLengthRefused(data: seq<Byte>, consumed: nat)
    requires consumed + 4 <= |data| < 0x8000_0000 && data[consumed] >= 0x80
    ensures LengthBefore(data, consumed + 4, false) >= 0x8000_0000
    ensures ReadUnit(data, false, consumed) == Err(LengthOverrun)
  {
    var c := consumed;
    assert ReadBe(data, c + 1, 1) == data[c] as nat;
    assert ReadBe(data, c + 2, 2) == ReadBe(data, c + 1, 1) * 0x100 + data[c + 1] as nat;
    assert ReadBe(data, c + 3, 3) == ReadBe(data, c + 2, 2) * 0x100 + data[c + 2] as nat;
    assert ReadBe(data, c + 4, 4) == ReadBe(data, c + 3, 3) * 0x100 + data[c + 3] as nat;
  }

  /** A NAL read by one turn of the loop and passing the filter is well placed. */
  lemma ReadUnitPlaced(data: seq<Byte>, isHeader: bool, consumed: nat)
    requires ReadUnit(data, isHeader, consumed).Ok?
    requires Keeps(data[ReadUnit(data, isHeader, consumed).value.offset])
    ensures WellPlaced(data, isHeader, ReadUnit(data, isHeader, consumed).value)
    ensures !ReadUnit(data, isHeader, consumed).value.marker
  {
  }

  /**
   * Every entry the splitting loop adds lies inside the packet right after its own
   * length field, passes the filter and carries no marker.
   */
  lemma {:induction false} SplitFromPlacedAt(data: seq<Byte>, isHeader: bool, consumed: nat, acc: seq<Nalu>, i: nat)
    requires SplitFrom(data, isHeader, consumed, acc).Ok?
    requires |acc| <= i < |SplitFrom(data, isHeader, consumed, acc).value|
    ensures var ns := SplitFrom(data, isHeader, consumed, acc).value;
      WellPlaced(data, isHeader, ns[i]) && !ns[i].marker
    decreases |data| - consumed
  {
    if consumed < |data| {
      SplitFromOkTurn(data, isHeader, consumed, acc);
      var n := ReadUnit(data, isHeader, consumed).value;
      var acc' := if Keeps(data[n.offset]) then acc + [n] else acc;
      SplitFromNext(data, isHeader, consumed, acc);
      if i < |acc'| {
        SplitFromKeepsAt(data, isHeader, n.offset + n.len, acc', i);
        ReadUnitPlaced(data, isHeader, consumed);
      } else {
        SplitFromPlacedAt(data, isHeader, n.offset + n.len, acc', i);
      }
    }
  }

  /** The splitting loop adds entries in parse order, without overlap. */
  lemma {:induction false} SplitFromOrdered(data: seq<Byte>, isHeader: bool, consumed: nat, acc: seq<Nalu>)
    requires SplitFrom(data, isHeader, consumed, acc).Ok?
    requires Ordered(acc) && EndsBy(acc, consumed)
    ensures Ordered(SplitFrom(data, isHeader, consumed, acc).value)
    decreases |data| - consumed
  {
    if consumed < |data| {
      SplitFromOkTurn(data, isHeader, consumed, acc);
      var n := ReadUnit(data, isHeader, consumed).value;
      var acc' := if Keeps(data[n.offset]) then acc + [n] else acc;
      SplitFromNext(data, isHeader, consumed, acc);
      SplitFromOrdered(data, isHeader, n.offset + n.len, acc');
    }
  }

  /** One turn of the splitting loop that reads a NAL: the loop goes on after it, with the NAL stored if it passes the filter. */
  lemma SplitFromNext(data: seq<Byte>, isHeader: bool, consumed: nat, acc: seq<Nalu>)
    requires consumed < |data| && |acc| < MaxNalus && ReadUnit(data, isHeader, consumed).Ok?
    ensures var n := ReadUnit(data, isHeader, consumed).value;
      SplitFrom(data, isHeader, consumed, acc)
      == SplitFrom(data, isHeader, n.offset + n.len, if Keeps(data[n.offset]) then acc + [n] else acc)
  {
  }

  /** One turn of the splitting loop that cannot read a NAL: the loop stops with that error. */
  lemma SplitFromFails(data: seq<Byte>, isHeader: bool, consumed: nat, acc: seq<Nalu>, e: SplitError)
    requires consumed < |data| && |acc| < MaxNalus
    requires ReadUnit(data, isHeader, consumed) == Err(e)
    ensures SplitFrom(data, isHeader, consumed, acc) == Err(e)
  {
  }

  /** The marker bit is set on the last stored NAL, in frame mode only. */
  function Mark(ns: seq<Nalu>, isHeader: bool): seq<Nalu> {
    if !isHeader && |ns| > 0 then ns[..|ns| - 1] + [ns[|ns| - 1].(marker := true)] else ns
  }

  /**
   * The table after `avc_get_video_frame` has split `data` behind the entries `acc`
   * already in it and marked the last entry, or the error that stopped it.
   */
  function SplitOnto(data: seq<Byte>, isHeader: bool, acc: seq<Nalu>): Result<seq<Nalu>, SplitError> {
    match SplitFrom(data, isHeader, 0, acc)
    case Ok(ns) => Ok(Mark(ns, isHeader))
    case Err(e) => Err(e)
  }

  /** Every entry of a table split from empty lies right after its length field, passes the filter and is unmarked. */
  lemma SplitPlaced(data: seq<Byte>, isHeader: bool)
    requires SplitFrom(data, isHeader, 0, []).Ok?
    ensures var ns := SplitFrom(data, isHeader, 0, []).value;
      forall i :: 0 <= i < |ns| ==> WellPlaced(data, isHeader, ns[i]) && !ns[i].marker
  {
    var ns := SplitFrom(data, isHeader, 0, []).value;
    forall i | 0 <= i < |ns|
      ensures WellPlaced(data, isHeader, ns[i]) && !ns[i].marker
    {
      SplitFromPlacedAt(data, isHeader, 0, [], i);
    }
  }

  /** The access unit of one packet: the table filled from empty (`send_packet` empties it first). */
  function Split(data: seq<Byte>, isHeader: bool): Result<seq<Nalu>, SplitError> {
    SplitOnto(data, isHeader, [])
  }

  /**
   * A split access unit fits the table, its entries lie in parse order inside the
   * packet right after their length fields and pass the filter, and exactly the last
   * one carries the marker bit, in frame mode only. An empty packet gives an empty unit.
   */
  lemma SplitWellFormed(data: seq<Byte>, isHeader: bool)
    ensures var r := Split(data, isHeader);
      && (r.Ok? ==> |r.value| <= MaxNalus && Ordered(r.value))
      && (r.Ok? ==> forall i :: 0 <= i < |r.value| ==> WellPlaced(data, isHeader, r.value[i]))
      && (r.Ok? ==> forall i :: 0 <= i < |r.value| ==> (r.value[i].marker <==> !isHeader && i == |r.value| - 1))
      && (|data| == 0 ==> r == Ok([]))
  {
    if Split(data, isHeader).Ok? {
      SplitFromGrows(data, isHeader, 0, []);
      SplitPlaced(data, isHeader);
      SplitFromOrdered(data, isHeader, 0, []);
    }
  }

  /** Number of entries that carry the marker bit. */
  function MarkerCount(ns: seq<Nalu>): nat {
    if ns == [] then 0
    else MarkerCount(ns[..|ns| - 1]) + (if ns[|ns| - 1].marker then 1 else 0)
  }

  lemma {:induction false} MarkerCountNone(ns: seq<Nalu>)
    requires forall i :: 0 <= i < |ns| ==> !ns[i].marker
    ensures MarkerCount(ns) == 0
  {
    if ns != [] {
      MarkerCountNone(ns[..|ns| - 1]);
    }
  }

  /** A split frame carries exactly one marker bit when it stores any NAL; a parameter-set header none. */
  lemma SplitMarkerCount(data: seq<Byte>, isHeader: bool)
    requires Split(data, isHeader).Ok?
    ensures var ns := Split(data, isHeader).value;
      MarkerCount(ns) == if !isHeader && |ns| > 0 then 1 else 0
  {
    var ns := Split(data, isHeader).value;
    SplitWellFormed(data, isHeader);
    if !isHeader && |ns| > 0 {
      MarkerCountNone(ns[..|ns| - 1]);
    } else {
      MarkerCountNone(ns);
    }
  }

  /**
   * The NAL table of the stream (`frame_of_nalus_t`): a fixed array of 100 entries,
   * of which the first `total` are in use.
   */
  class CodedPicBuffer {
    const nalus: array<Nalu>
    var total: nat

    ghost predicate Valid()
      reads this
    {
      nalus.Length == MaxNalus && total <= MaxNalus
    }

    /** The entries in use. */
    ghost function Units(): seq<Nalu>
      reads this, nalus
      requires Valid()
    {
      nalus[..total]
    }

    constructor ()
      ensures Valid() && fresh(nalus) && total == 0
    {
      nalus := new Nalu[MaxNalus](_ => Nalu(0, 0, false));
      total := 0;
    }

    /**
     * Splits `data` into NAL units appended after the entries in use, then marks the
     * last entry in frame mode. On an error the table is emptied, so that no partial
     * access unit is left behind.
     */
    method GetVideoFrame(data: seq<Byte>, isHeader: bool) returns (status: Result<(), SplitError>)
      requires Valid()
      modifies this, nalus
      ensures Valid()
      ensures var r := SplitOnto(data, isHeader, old(Units()));
        && status.Ok? == r.Ok?
        && (r.Ok? ==> Units() == r.value)
        && (r.Err? ==> status.error == r.error && total == 0)
    {
      ghost var units := nalus[..total];
      ghost var res := SplitFrom(data, isHeader, 0, units);
      var consumed: nat := 0;
      while consumed < |data|
        invariant Valid() && nalus[..total] == units
        invariant SplitFrom(data, isHeader, consumed, units) == res
        decreases |data| - consumed
      {
        if total >= nalus.Length {
          total := 0;
          return Err(BuffersFull);
        }
        var next := ReadUnit(data, isHeader, consumed);
        if next.Err? {
          SplitFromFails(data, isHeader, consumed, units, next.error);
          total := 0;
          return Err(next.error);
        }
        var n := next.value;
        SplitFromNext(data, isHeader, consumed, units);
        if Keeps(data[n.offset]) {
          nalus[total] := n;
          total := total + 1;
          units := units + [n];
        }
        consumed := n.offset + n.len;
      }
      if !isHeader && total > 0 {
        nalus[total - 1] := nalus[total - 1].(marker := true);
      }
      assert nalus[..total] == Mark(units, isHeader);
      status := Ok(());
    }
  }
}
