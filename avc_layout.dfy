/**
 * The layouts the splitter reads, built from their parts: a length-prefixed frame
 * (ISO/IEC 14496-15, section 5.3.4.2) and the parameter-set blob of an
 * AVCDecoderConfigurationRecord (ISO/IEC 14496-15, section 5.2.4.1) with one
 * sequence and one picture parameter set. The lemmas show that splitting such
 * a packet gives back exactly the NAL units it was built from.
 */
module AvcLayout {
  import opened Wrappers
  import opened Avc

  /** 256 to the power `width`: the first number a field of `width` bytes cannot hold. */
  function Pow256(width: nat): (r: nat)
    ensures r > 0
  {
    if width == 0 then 1 else 0x100 * Pow256(width - 1)
  }

  /** The `width`-byte big-endian encoding of `n`, as written in front of each NAL. */
  function BigEndianBytes(n: nat, width: nat): (r: seq<Byte>)
    requires n < Pow256(width)
    ensures |r| == width
  {
    if width == 0 then [] else BigEndianBytes(n / 0x100, width - 1) + [(n % 0x100) as Byte]
  }

  /** Writing a number into a packet and reading it back gives the number. */
  lemma {:induction false} ReadBeOfBytes(data: seq<Byte>, end: nat, n: nat, width: nat)
    requires width <= end <= |data| && n < Pow256(width)
    requires data[end - width..end] == BigEndianBytes(n, width)
    ensures ReadBe(data, end, width) == n
    decreases width
  {
    if width > 0 {
      var r := BigEndianBytes(n, width);
      assert data[end - 1] == r[width - 1];
      assert data[end - width..end - 1] == r[..width - 1] == BigEndianBytes(n / 0x100, width - 1);
      ReadBeOfBytes(data, end - 1, n / 0x100, width - 1);
    }
  }

  /** Reading a field and writing the number back gives the same bytes. */
  lemma {:induction false} BytesOfReadBe(data: seq<Byte>, end: nat, width: nat)
    requires width <= end <= |data|
    ensures ReadBe(data, end, width) < Pow256(width)
    ensures BigEndianBytes(ReadBe(data, end, width), width) == data[end - width..end]
    decreases width
  {
    if width > 0 {
      var n := ReadBe(data, end, width);
      var m := ReadBe(data, end - 1, width - 1);
      BytesOfReadBe(data, end - 1, width - 1);
      assert n / 0x100 == m && n % 0x100 == data[end - 1] as nat;
      assert data[end - width..end] == data[end - width..end - 1] + [data[end - 1]];
    }
  }

  /** A NAL unit that fits the frame layout: it has a header byte and its length fits 32 bits. */
  type Payload = p: seq<Byte> | 0 < |p| < 0x1_0000_0000 witness [0]

  /** The length field of a frame NAL. */
  function LengthField(p: Payload): seq<Byte> {
    BigEndianBytes(|p|, 4)
  }

  /** The frame that carries `ps`, each NAL behind its 4-byte big-endian length. */
  function FrameOf(ps: seq<Payload>): seq<Byte> {
    if ps == [] then [] else LengthField(ps[0]) + ps[0] + FrameOf(ps[1..])
  }

  /**
   * Whether `data` holds, from position `at` to its end, length fields announcing the
   * NAL units `ps`, each followed by a NAL that starts with the right header byte.
   */
  predicate FrameAt(data: seq<Byte>, at: nat, ps: seq<Payload>)
    decreases |ps|
  {
    if ps == [] then at == |data|
    else
      var p := ps[0];
      && at + 4 + |p| <= |data|
      && LengthBefore(data, at + 4, false) == |p|
      && data[at + 4] == p[0]
      && FrameAt(data, at + 4 + |p|, ps[1..])
  }

  /** Whether the NAL units `ps` lie in `data` behind their length fields, starting from position `at`. */
  predicate ContentAt(data: seq<Byte>, at: nat, ps: seq<Payload>)
    decreases |ps|
  {
    ps != [] ==>
      var p := ps[0];
      && at + 4 + |p| <= |data|
      && data[at + 4..at + 4 + |p|] == p
      && ContentAt(data, at + 4 + |p|, ps[1..])
  }

  /** The table entries, without markers, that splitting a frame laid out from position `at` should store. */
  function FrameNalus(at: nat, ps: seq<Payload>): seq<Nalu>
    decreases |ps|
  {
    if ps == [] then []
    else (if Keeps(ps[0][0]) then [Nalu(at + 4, |ps[0]|, false)] else []) + FrameNalus(at + 4 + |ps[0]|, ps[1..])
  }

  /** The NAL units of `ps` that the filter keeps, in order. */
  function KeptPayloads(ps: seq<Payload>): seq<seq<Byte>> {
    if ps == [] then []
    else (if Keeps(ps[0][0]) then [ps[0]] else []) + KeptPayloads(ps[1..])
  }

  /**
   * Whether the splitting loop over the frame NAL units `ps`, with `stored` entries
   * already in the table, finds a free slot at the top of every turn: only the NALs
   * kept before a turn count against the 100 slots.
   */
  predicate FitsTable(stored: nat, ps: seq<Payload>)
    decreases |ps|
  {
    ps != [] ==> stored < MaxNalus && FitsTable(stored + if Keeps(ps[0][0]) then 1 else 0, ps[1..])
  }

  /** A frame that fits has a free slot at its first turn, and the rest of it fits behind what that turn stores. */
  lemma FitsTableNext(stored: nat, ps: seq<Payload>)
    requires ps != [] && FitsTable(stored, ps)
    ensures stored < MaxNalus && FitsTable(stored + if Keeps(ps[0][0]) then 1 else 0, ps[1..])
  {
  }

  /** The loop fits the table exactly when fewer than 100 entries are in use before the last NAL's turn. */
  lemma {:induction false} FitsTableCount(stored: nat, ps: seq<Payload>)
    ensures FitsTable(stored, ps) <==> ps == [] || stored + |KeptPayloads(ps[..|ps| - 1])| < MaxNalus
    decreases |ps|
  {
    if |ps| > 1 {
      var k := if Keeps(ps[0][0]) then 1 else 0;
      FitsTableCount(stored + k, ps[1..]);
      var init := ps[..|ps| - 1];
      assert init[0] == ps[0] && init[1..] == ps[1..][..|ps[1..]| - 1];
      assert |KeptPayloads(init)| == k + |KeptPayloads(init[1..])|;
      KeptPayloadsLength(init);
    } else if |ps| == 1 {
      assert ps[..0] == [];
    }
  }

  /** At most all the NAL units are kept. */
  lemma {:induction false} KeptPayloadsLength(ps: seq<Payload>)
    ensures |KeptPayloads(ps)| <= |ps|
    decreases |ps|
  {
    if ps != [] {
      KeptPayloadsLength(ps[1..]);
    }
  }

  /** The bytes each table entry points at (what `send_packet` hands to the ingest library). */
  function Payloads(data: seq<Byte>, ns: seq<Nalu>): seq<seq<Byte>>
    requires forall i :: 0 <= i < |ns| ==> ns[i].offset + ns[i].len <= |data|
  {
    if ns == [] then [] else [data[ns[0].offset..ns[0].offset + ns[0].len]] + Payloads(data, ns[1..])
  }

  /** The payloads are one per entry, in table order. */
  lemma {:induction false} PayloadsAt(data: seq<Byte>, ns: seq<Nalu>)
    requires forall i :: 0 <= i < |ns| ==> ns[i].offset + ns[i].len <= |data|
    ensures var ps := Payloads(data, ns);
      |ps| == |ns| && forall i :: 0 <= i < |ns| ==> ps[i] == data[ns[i].offset..ns[i].offset + ns[i].len]
    decreases |ns|
  {
    if ns != [] {
      PayloadsAt(data, ns[1..]);
    }
  }

  /** `FrameOf` lays its NAL units out as `FrameAt` and `ContentAt` describe, wherever it is placed in a packet. */
  lemma {:induction false} FrameOfAt(data: seq<Byte>, at: nat, ps: seq<Payload>)
    requires at <= |data| && data[at..] == FrameOf(ps)
    ensures FrameAt(data, at, ps) && ContentAt(data, at, ps)
    decreases |ps|
  {
    if ps != [] {
      var p := ps[0];
      FrameOfFirst(data, at, ps);
      FrameOfAt(data, at + 4 + |p|, ps[1..]);
    }
  }

  /** The first length field and NAL of a frame placed at `at`, and the rest of the frame behind them. */
  lemma FrameOfFirst(data: seq<Byte>, at: nat, ps: seq<Payload>)
    requires at <= |data| && data[at..] == FrameOf(ps) && ps != []
    ensures var p := ps[0];
      && at + 4 + |p| <= |data|
      && ReadBe(data, at + 4, 4) == |p|
      && data[at + 4] == p[0]
      && data[at + 4..at + 4 + |p|] == p
      && data[at + 4 + |p|..] == FrameOf(ps[1..])
  {
    var p := ps[0];
    var e := LengthField(p);
    var rest := FrameOf(ps[1..]);
    var f := data[at..];
    assert f == e + p + rest;
    assert data[at..at + 4] == f[..4] == e;
    assert data[at + 4..at + 4 + |p|] == f[4..4 + |p|] == p;
    assert data[at + 4 + |p|..] == f[4 + |p|..] == rest;
    LengthFieldReads(data, at, p);
  }

  /** A length field written by `LengthField` reads back as the NAL's length. */
  lemma LengthFieldReads(data: seq<Byte>, at: nat, p: Payload)
    requires at + 4 <= |data| && data[at..at + 4] == LengthField(p)
    ensures ReadBe(data, at + 4, 4) == |p|
  {
    ReadBeOfBytes(data, at + 4, |p|, 4);
  }

  /** The frame built by `FrameOf` fills a whole packet. */
  lemma FrameOfAtStart(ps: seq<Payload>)
    ensures FrameAt(FrameOf(ps), 0, ps) && ContentAt(FrameOf(ps), 0, ps)
  {
    assert FrameOf(ps)[0..] == FrameOf(ps);
    FrameOfAt(FrameOf(ps), 0, ps);
  }

  /** One turn of the splitting loop over a frame, as a step of `SplitFrom`. */
  lemma SplitFromFrameTurn(data: seq<Byte>, at: nat, ps: seq<Payload>, acc: seq<Nalu>, next: nat, acc': seq<Nalu>)
    requires ps != [] && FrameAt(data, at, ps) && |acc| < MaxNalus
    requires next == at + 4 + |ps[0]|
    requires acc' == acc + if Keeps(ps[0][0]) then [Nalu(at + 4, |ps[0]|, false)] else []
    ensures FrameAt(data, next, ps[1..])
    ensures SplitFrom(data, false, at, acc) == SplitFrom(data, false, next, acc')
  {
    var p := ps[0];
    assert ReadUnit(data, false, at) == Ok(Nalu(at + 4, |p|, false));
    SplitFromNext(data, false, at, acc);
    if Keeps(p[0]) {
      assert acc' == acc + [Nalu(at + 4, |p|, false)];
    } else {
      assert acc' == acc;
    }
  }

  /** One turn of the splitting loop over a frame that fits the table: the rest of the frame fits behind it. */
  lemma FitsTableTurn(data: seq<Byte>, at: nat, ps: seq<Payload>, acc: seq<Nalu>, next: nat, acc': seq<Nalu>)
    requires ps != [] && FrameAt(data, at, ps) && FitsTable(|acc|, ps)
    requires next == at + 4 + |ps[0]|
    requires acc' == acc + if Keeps(ps[0][0]) then [Nalu(at + 4, |ps[0]|, false)] else []
    ensures FrameAt(data, next, ps[1..]) && FitsTable(|acc'|, ps[1..])
    ensures SplitFrom(data, false, at, acc) == SplitFrom(data, false, next, acc')
  {
    FitsTableNext(|acc|, ps);
    SplitFromFrameTurn(data, at, ps, acc, next, acc');
  }

  /**
   * Splitting a frame laid out in `data` from position `at`, behind any stored entries
   * `acc`, stores exactly the entries `FrameNalus` predicts, whenever every turn finds
   * a free slot.
   */
  lemma {:induction false} SplitFromFrame(data: seq<Byte>, at: nat, ps: seq<Payload>, acc: seq<Nalu>)
    requires FrameAt(data, at, ps) && FitsTable(|acc|, ps)
    ensures SplitFrom(data, false, at, acc) == Ok(acc + FrameNalus(at, ps))
    decreases |ps|
  {
    if ps == [] {
      assert acc + FrameNalus(at, ps) == acc;
    } else {
      var p := ps[0];
      var next := at + 4 + |p|;
      var here := if Keeps(p[0]) then [Nalu(at + 4, |p|, false)] else [];
      var acc' := acc + here;
      var rest := FrameNalus(next, ps[1..]);
      assert SplitFrom(data, false, at, acc) == SplitFrom(data, false, next, acc') == Ok(acc' + rest) by {
        FitsTableTurn(data, at, ps, acc, next, acc');
        SplitFromFrame(data, next, ps[1..], acc');
      }
      assert acc' + rest == acc + FrameNalus(at, ps) by {
        FrameNalusCons(acc, at, ps, here);
      }
    }
  }

  lemma FrameNalusCons(acc: seq<Nalu>, at: nat, ps: seq<Payload>, here: seq<Nalu>)
    requires ps != [] && here == if Keeps(ps[0][0]) then [Nalu(at + 4, |ps[0]|, false)] else []
    ensures acc + here + FrameNalus(at + 4 + |ps[0]|, ps[1..]) == acc + FrameNalus(at, ps)
  {
    assert acc + here + FrameNalus(at + 4 + |ps[0]|, ps[1..]) == acc + (here + FrameNalus(at + 4 + |ps[0]|, ps[1..]));
  }

  /**
   * A frame splits without error, into the entries `FrameNalus` predicts with the last
   * one marked, exactly when every turn finds a free slot; otherwise the split stops
   * with `BuffersFull`.
   */
  lemma SplitFrame(ps: seq<Payload>)
    ensures FitsTable(0, ps) ==> Split(FrameOf(ps), false) == Ok(Mark(FrameNalus(0, ps), false))
    ensures !FitsTable(0, ps) ==> Split(FrameOf(ps), false) == Err(BuffersFull)
  {
    var data := FrameOf(ps);
    var ns := FrameNalus(0, ps);
    if FitsTable(0, ps) {
      assert SplitFrom(data, false, 0, []) == Ok(ns) by {
        FrameOfAtStart(ps);
        SplitFromFrame(data, 0, ps, []);
        assert [] + ns == ns;
      }
    } else {
      assert SplitFrom(data, false, 0, []) == Err(BuffersFull) by {
        FrameOfAtStart(ps);
        SplitFromFrameOverflow(data, 0, ps, []);
      }
    }
  }

  /** The entries `FrameNalus` predicts point at exactly the kept NAL units. */
  lemma {:induction false} FrameNalusPayloads(data: seq<Byte>, at: nat, ps: seq<Payload>)
    requires ContentAt(data, at, ps)
    ensures var ns := FrameNalus(at, ps);
      && (forall i :: 0 <= i < |ns| ==> ns[i].offset + ns[i].len <= |data|)
      && Payloads(data, ns) == KeptPayloads(ps)
    decreases |ps|
  {
    if ps != [] {
      var p := ps[0];
      var next := at + 4 + |p|;
      FrameNalusPayloads(data, next, ps[1..]);
      var ns := FrameNalus(at, ps);
      var tail := FrameNalus(next, ps[1..]);
      if Keeps(p[0]) {
        assert ns == [Nalu(at + 4, |p|, false)] + tail;
        assert ns[1..] == tail;
      } else {
        assert ns == tail;
      }
    }
  }

  /** Setting the marker bit does not change what the entries point at. */
  lemma {:induction false} PayloadsIgnoreMark(data: seq<Byte>, ns: seq<Nalu>)
    requires forall i :: 0 <= i < |ns| ==> ns[i].offset + ns[i].len <= |data|
    ensures var ms := Mark(ns, false);
      && (forall i :: 0 <= i < |ms| ==> ms[i].offset + ms[i].len <= |data|)
      && Payloads(data, ms) == Payloads(data, ns)
    decreases |ns|
  {
    if |ns| > 1 {
      PayloadsIgnoreMark(data, ns[1..]);
      assert Mark(ns, false) == [ns[0]] + Mark(ns[1..], false);
      assert Mark(ns, false)[1..] == Mark(ns[1..], false);
    }
  }

  /**
   * Round trip: a frame splits without error exactly when every turn finds a free
   * slot, and then the entries point at exactly the NAL units that pass the filter,
   * in order.
   */
  lemma SplitFramePayloads(ps: seq<Payload>)
    ensures Split(FrameOf(ps), false).Ok? <==> FitsTable(0, ps)
    ensures Split(FrameOf(ps), false).Ok? ==>
      var ns := Split(FrameOf(ps), false).value;
      (forall i :: 0 <= i < |ns| ==> ns[i].offset + ns[i].len <= |FrameOf(ps)|)
      && Payloads(FrameOf(ps), ns) == KeptPayloads(ps)
  {
    var data := FrameOf(ps);
    var ns := FrameNalus(0, ps);
    SplitFrame(ps);
    if FitsTable(0, ps) {
      assert (forall i :: 0 <= i < |ns| ==> ns[i].offset + ns[i].len <= |data|) && Payloads(data, ns) == KeptPayloads(ps) by {
        FrameOfAtStart(ps);
        FrameNalusPayloads(data, 0, ps);
      }
      PayloadsIgnoreMark(data, ns);
    }
  }

  /**
   * A frame of one-byte NAL units: an IDR slice, an SEI, an access-unit delimiter and
   * a filler NAL with nal_ref_idc 0, then a reference P slice. Only the two slices
   * are stored, in order, and the P slice carries the marker bit.
   */
  lemma SplitFilterExample()
    ensures var ps: seq<Payload> := [[0x65], [0x06], [0x09], [0x0C], [0x41]];
      Split(FrameOf(ps), false) == Ok([Nalu(4, 1, false), Nalu(24, 1, true)])
  {
    var ps: seq<Payload> := [[0x65], [0x06], [0x09], [0x0C], [0x41]];
    var ns := [Nalu(4, 1, false), Nalu(24, 1, false)];
    assert FrameNalus(0, ps) == ns by {
      assert FrameNalus(20, ps[4..]) == [Nalu(24, 1, false)];
      assert ps[3..][0] == [0x0C] && ps[3..][1..] == ps[4..];
      assert FrameNalus(15, ps[3..]) == FrameNalus(20, ps[4..]);
      assert ps[2..][0] == [0x09] && ps[2..][1..] == ps[3..];
      assert FrameNalus(10, ps[2..]) == FrameNalus(15, ps[3..]);
      assert ps[1..][0] == [0x06] && ps[1..][1..] == ps[2..];
      assert FrameNalus(5, ps[1..]) == FrameNalus(10, ps[2..]);
      assert Keeps(ps[0][0]) && |ps[0]| == 1;
      assert FrameNalus(0, ps) == [Nalu(4, 1, false)] + FrameNalus(5, ps[1..]);
    }
    assert Mark(ns, false) == [Nalu(4, 1, false), Nalu(24, 1, true)] by {
      assert Mark(ns, false) == ns[..1] + [ns[1].(marker := true)];
    }
    SplitFrame(ps);
  }

  /** When every NAL unit passes the filter the split gives back all of them. */
  lemma {:induction false} KeptPayloadsAll(ps: seq<Payload>)
    requires forall i :: 0 <= i < |ps| ==> Keeps(ps[i][0])
    ensures KeptPayloads(ps) == ps
    decreases |ps|
  {
    if ps != [] {
      KeptPayloadsAll(ps[1..]);
    }
  }

  /** A loop over a frame that runs out of slots at some turn stops with `BuffersFull`. */
  lemma {:induction false} SplitFromFrameOverflow(data: seq<Byte>, at: nat, ps: seq<Payload>, acc: seq<Nalu>)
    requires FrameAt(data, at, ps) && !FitsTable(|acc|, ps)
    ensures SplitFrom(data, false, at, acc) == Err(BuffersFull)
    decreases |ps|
  {
    var p := ps[0];
    var next := at + 4 + |p|;
    assert at < |data|;
    if |acc| < MaxNalus {
      var acc' := acc + if Keeps(p[0]) then [Nalu(at + 4, |p|, false)] else [];
      assert SplitFrom(data, false, at, acc) == SplitFrom(data, false, next, acc') && FrameAt(data, next, ps[1..]) by {
        SplitFromFrameTurn(data, at, ps, acc, next, acc');
      }
      SplitFromFrameOverflow(data, next, ps[1..], acc');
    }
  }

  /** The splitter refuses a frame of more than 100 NAL units that all pass the filter rather than overrunning its table. */
  lemma SplitFrameFull(ps: seq<Payload>)
    requires |ps| > MaxNalus
    requires forall i :: 0 <= i < |ps| ==> Keeps(ps[i][0])
    ensures Split(FrameOf(ps), false) == Err(BuffersFull)
  {
    var init := ps[..|ps| - 1];
    assert KeptPayloads(init) == init by {
      KeptPayloadsAll(init);
    }
    FitsTableCount(0, ps);
    SplitFrame(ps);
  }

  /**
   * The parameter-set blob of a decoder configuration record with one SPS and one
   * PPS: the six bytes before the first length field, the SPS behind its 2-byte
   * length, the one byte (the picture-parameter-set count) between the sets, and
   * the PPS behind its 2-byte length.
   */
  function HeaderOf(prefix: seq<Byte>, sps: seq<Byte>, between: Byte, pps: seq<Byte>): seq<Byte>
    requires |prefix| == HeaderPrefixLen && |sps| < 0x1_0000 && |pps| < 0x1_0000
  {
    prefix + BigEndianBytes(|sps|, 2) + sps + [between] + BigEndianBytes(|pps|, 2) + pps
  }

  /** Where the parts of a parameter-set blob lie. */
  lemma HeaderParts(prefix: seq<Byte>, sps: seq<Byte>, between: Byte, pps: seq<Byte>)
    requires |prefix| == HeaderPrefixLen && 0 < |sps| < 0x1_0000 && 0 < |pps| < 0x1_0000
    ensures var data := HeaderOf(prefix, sps, between, pps);
      && |data| == 11 + |sps| + |pps|
      && LengthBefore(data, 8, true) == |sps|
      && LengthBefore(data, 11 + |sps|, true) == |pps|
      && data[8] == sps[0] && data[11 + |sps|] == pps[0]
      && data[8..8 + |sps|] == sps
      && data[11 + |sps|..11 + |sps| + |pps|] == pps
  {
    var data := HeaderOf(prefix, sps, between, pps);
    var l1 := BigEndianBytes(|sps|, 2);
    var l2 := BigEndianBytes(|pps|, 2);
    var s := |sps|;
    assert data[6..8] == l1;
    assert data[8..8 + s] == sps;
    assert data[9 + s..11 + s] == l2;
    assert data[11 + s..11 + s + |pps|] == pps;
    ReadBeOfBytes(data, 8, |sps|, 2);
    ReadBeOfBytes(data, 11 + s, |pps|, 2);
  }

  /**
   * Splitting a parameter-set blob stores the SPS at offset 8 and the PPS three
   * bytes after the SPS's end, neither marked.
   */
  lemma SplitHeader(prefix: seq<Byte>, sps: seq<Byte>, between: Byte, pps: seq<Byte>)
    requires |prefix| == HeaderPrefixLen && 0 < |sps| < 0x1_0000 && 0 < |pps| < 0x1_0000
    requires Keeps(sps[0]) && Keeps(pps[0])
    ensures var data := HeaderOf(prefix, sps, between, pps);
      && Split(data, true) == Ok([Nalu(8, |sps|, false), Nalu(11 + |sps|, |pps|, false)])
      && data[8..8 + |sps|] == sps
      && data[11 + |sps|..11 + |sps| + |pps|] == pps
  {
    var data := HeaderOf(prefix, sps, between, pps);
    HeaderParts(prefix, sps, between, pps);
    var s := |sps|;
    var n1 := Nalu(8, s, false);
    var n2 := Nalu(11 + s, |pps|, false);
    assert ReadUnit(data, true, 0) == Ok(n1);
    SplitFromNext(data, true, 0, []);
    assert ReadUnit(data, true, 8 + s) == Ok(n2);
    SplitFromNext(data, true, 8 + s, [] + [n1]);
    assert [] + [n1] + [n2] == [n1, n2];
  }
}
