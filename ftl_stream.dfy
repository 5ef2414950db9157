/**
 * The state of one FTL output (`struct ftl_stream`) that the producer side and the
 * send side update in place: the packet queue with its drop-policy scalars, the
 * frame and byte counters, and the NAL table.
 *
 * Every method here runs, in the source, entirely under `packets_mutex` or on the
 * send thread alone, so each is modelled as one sequential step. The ingest
 * library's send call is a function parameter.
 */
module FtlOutput {
  import opened Wrappers
  import opened Avc
  import opened AvcLayout
  import opened Packets

  /** The media kind passed to the ingest library (`FTL_VIDEO_DATA`, `FTL_AUDIO_DATA`). */
  datatype MediaType = VideoData | AudioData

  /**
   * The ingest library's media send (`ftl_ingest_send_media_dts`): given the kind,
   * the dts, the payload and the marker bit, the number of bytes it reports sent.
   */
  type MediaSend = (MediaType, int, seq<Byte>, bool) -> int

  /** The NAL units `send_packet` sends for a packet: the split access unit of a video packet, nothing otherwise. */
  function SentUnit(p: Packet, isHeader: bool): seq<Nalu> {
    if p.kind == Video && Split(p.data, isHeader).Ok? then Split(p.data, isHeader).value else []
  }

  /** Whether every entry of `ns` lies inside `data`. */
  predicate Inside(data: seq<Byte>, ns: seq<Nalu>) {
    forall i :: 0 <= i < |ns| ==> ns[i].offset + ns[i].len <= |data|
  }

  /** One call of the ingest library's media send: the kind, the dts, the payload and the marker bit. */
  datatype MediaCall = MediaCall(kind: MediaType, dtsUsec: int, payload: seq<Byte>, marker: bool)

  /** The call that sends the NAL unit `n` of a video packet: its bytes, with its marker bit. */
  function UnitCall(dtsUsec: int, data: seq<Byte>, n: Nalu): MediaCall
    requires n.offset + n.len <= |data|
  {
    MediaCall(VideoData, dtsUsec, data[n.offset..n.offset + n.len], n.marker)
  }

  /** The calls that send the NAL units `ns` of a video packet, one after the other. */
  function UnitCalls(dtsUsec: int, data: seq<Byte>, ns: seq<Nalu>): seq<MediaCall>
    requires Inside(data, ns)
  {
    if ns == [] then []
    else UnitCalls(dtsUsec, data, ns[..|ns| - 1]) + [UnitCall(dtsUsec, data, ns[|ns| - 1])]
  }

  /** Sending one more NAL unit appends its call. */
  lemma UnitCallsSnoc(dtsUsec: int, data: seq<Byte>, ns: seq<Nalu>, n: Nalu)
    requires Inside(data, ns) && n.offset + n.len <= |data|
    ensures Inside(data, ns + [n])
    ensures UnitCalls(dtsUsec, data, ns + [n]) == UnitCalls(dtsUsec, data, ns) + [UnitCall(dtsUsec, data, n)]
  {
    assert (ns + [n])[..|ns|] == ns;
  }

  /** The calls are one per NAL unit, in table order. */
  lemma {:induction false} UnitCallsAt(dtsUsec: int, data: seq<Byte>, ns: seq<Nalu>)
    requires Inside(data, ns)
    ensures var cs := UnitCalls(dtsUsec, data, ns);
      |cs| == |ns| && forall i :: 0 <= i < |ns| ==> cs[i] == UnitCall(dtsUsec, data, ns[i])
  {
    if ns != [] {
      UnitCallsAt(dtsUsec, data, ns[..|ns| - 1]);
    }
  }

  /** The sum of the byte counts the ingest library reports for the calls `cs`. */
  function BytesOf(send: MediaSend, cs: seq<MediaCall>): int {
    if cs == [] then 0
    else
      var c := cs[|cs| - 1];
      BytesOf(send, cs[..|cs| - 1]) + send(c.kind, c.dtsUsec, c.payload, c.marker)
  }

  /** One more call adds its reported bytes. */
  lemma BytesOfSnoc(send: MediaSend, cs: seq<MediaCall>, c: MediaCall)
    ensures BytesOf(send, cs + [c]) == BytesOf(send, cs) + send(c.kind, c.dtsUsec, c.payload, c.marker)
  {
    assert (cs + [c])[..|cs|] == cs;
  }

  /** One turn of the NAL loop: the next unit's call is appended, its bytes added and its marker counted. */
  lemma SendStep(send: MediaSend, dtsUsec: int, data: seq<Byte>, done: seq<Nalu>, n: Nalu, calls: seq<MediaCall>, bytes: int)
    requires Inside(data, done) && n.offset + n.len <= |data|
    requires calls == UnitCalls(dtsUsec, data, done) && bytes == BytesOf(send, calls)
    ensures Inside(data, done + [n])
    ensures UnitCalls(dtsUsec, data, done + [n]) == calls + [UnitCall(dtsUsec, data, n)]
    ensures BytesOf(send, calls + [UnitCall(dtsUsec, data, n)])
      == bytes + send(VideoData, dtsUsec, data[n.offset..n.offset + n.len], n.marker)
    ensures MarkerCount(done + [n]) == MarkerCount(done) + if n.marker then 1 else 0
  {
    UnitCallsSnoc(dtsUsec, data, done, n);
    BytesOfSnoc(send, calls, UnitCall(dtsUsec, data, n));
    assert (done + [n])[..|done|] == done;
  }

  /** The next entry of a table whose entries in use lie inside `data`: it lies inside too, and extends the prefix read so far. */
  lemma TableStep(data: seq<Byte>, nalus: array<Nalu>, i: nat, total: nat)
    requires i < total <= nalus.Length && Inside(data, nalus[..total])
    ensures nalus[i].offset + nalus[i].len <= |data|
    ensures nalus[..i + 1] == nalus[..i] + [nalus[i]]
  {
    assert nalus[i] == nalus[..total][i];
  }

  /** Every NAL unit `send_packet` sends lies inside the packet. */
  lemma SentUnitInside(p: Packet, isHeader: bool)
    ensures Inside(p.data, SentUnit(p, isHeader))
  {
    SplitWellFormed(p.data, isHeader);
  }

  /** The calls `send_packet` makes for a packet: one per stored NAL of a video packet, the whole of an audio packet. */
  function PacketCalls(p: Packet, isHeader: bool): seq<MediaCall> {
    if p.kind == Audio then [MediaCall(AudioData, p.dtsUsec, p.data, false)]
    else
      SentUnitInside(p, isHeader);
      UnitCalls(p.dtsUsec, p.data, SentUnit(p, isHeader))
  }

  /**
   * For a video packet, `send_packet` makes one video call per stored NAL, in table
   * order, each with the packet's dts and the NAL's bytes; in frame mode only the
   * last call carries the marker bit, in header mode none does.
   */
  lemma VideoCalls(p: Packet, isHeader: bool)
    requires p.kind == Video
    ensures var ns, cs := SentUnit(p, isHeader), PacketCalls(p, isHeader);
      && |cs| == |ns|
      && forall i :: 0 <= i < |cs| ==>
        && ns[i].offset + ns[i].len <= |p.data|
        && cs[i] == MediaCall(VideoData, p.dtsUsec, p.data[ns[i].offset..ns[i].offset + ns[i].len], ns[i].marker)
        && (cs[i].marker <==> !isHeader && i == |cs| - 1)
  {
    SentUnitInside(p, isHeader);
    SplitWellFormed(p.data, isHeader);
    UnitCallsAt(p.dtsUsec, p.data, SentUnit(p, isHeader));
  }

  /**
   * End to end for a frame: sending a video packet that carries the frame `ps`
   * makes exactly one call per NAL unit that passes the filter, in order, with that
   * unit's bytes, and marks only the last call, when every turn of the split finds
   * a free slot; otherwise it makes no call.
   */
  lemma FrameCalls(p: Packet, ps: seq<Payload>)
    requires p.kind == Video && p.data == FrameOf(ps)
    ensures var cs, kept := PacketCalls(p, false), KeptPayloads(ps);
      && (FitsTable(0, ps) ==>
            && |cs| == |kept|
            && forall i :: 0 <= i < |cs| ==> cs[i].payload == kept[i] && (cs[i].marker <==> i == |cs| - 1))
      && (!FitsTable(0, ps) ==> cs == [])
  {
    var ns, cs, kept := SentUnit(p, false), PacketCalls(p, false), KeptPayloads(ps);
    VideoCalls(p, false);
    SplitFramePayloads(ps);
    if FitsTable(0, ps) {
      PayloadsAt(p.data, ns);
    }
  }

  /**
   * Sending a packet counts one frame exactly when it is a video frame (not a
   * parameter-set header) that splits without error and keeps at least one NAL.
   */
  lemma FramesSentBy(p: Packet, isHeader: bool)
    ensures MarkerCount(SentUnit(p, isHeader)) == (
      if p.kind == Video && !isHeader && Split(p.data, isHeader).Ok? && |Split(p.data, isHeader).value| > 0
      then 1 else 0)
  {
    if p.kind == Video && Split(p.data, isHeader).Ok? {
      SplitMarkerCount(p.data, isHeader);
    }
  }

  class FtlStream {
    var packets: seq<Packet>
    var lastDtsUsec: int
    var minDropDtsUsec: int
    var minPriority: int
    var droppedFrames: int
    var framesSent: int
    var totalBytesSent: int
    var active: bool
    var disconnected: bool
    /** `drop_threshold_usec`, fixed when the stream starts. */
    const dropThresholdUsec: int
    /** `OBS_NAL_PRIORITY_HIGHEST`: the drop priority of packets a drop never removes. */
    const highestPriority: int
    /** `coded_pic_buffer`. */
    const pics: CodedPicBuffer

    ghost predicate Valid()
      reads this, pics
    {
      pics.Valid()
    }

    /** The queue and the drop-policy scalars, as a value. */
    function State(): Queue
      reads this
    {
      Queue(packets, lastDtsUsec, minDropDtsUsec, minPriority, droppedFrames)
    }

    /** The counters the send side keeps. */
    function Counters(): (int, int)
      reads this
    {
      (framesSent, totalBytesSent)
    }

    /** A stream that is active and connected, with an empty queue and zeroed counters. */
    constructor (dropThresholdUsec: int, highestPriority: int)
      ensures Valid() && fresh(pics) && fresh(pics.nalus)
      ensures State() == Queue([], 0, 0, 0, 0) && Counters() == (0, 0)
      ensures active && !disconnected
      ensures this.dropThresholdUsec == dropThresholdUsec && this.highestPriority == highestPriority
    {
      packets := [];
      lastDtsUsec := 0;
      minDropDtsUsec := 0;
      minPriority := 0;
      droppedFrames := 0;
      framesSent := 0;
      totalBytesSent := 0;
      active := true;
      disconnected := false;
      this.dropThresholdUsec := dropThresholdUsec;
      this.highestPriority := highestPriority;
      pics := new CodedPicBuffer();
    }

    /** `add_packet`: queues the packet at the back and records its dts as the latest. */
    method Enqueue(p: Packet) returns (added: bool)
      modifies this
      ensures added && State() == Push(old(State()), p)
      ensures Counters() == old(Counters()) && active == old(active) && disconnected == old(disconnected)
    {
      packets := packets + [p];
      lastDtsUsec := p.dtsUsec;
      return true;
    }

    /** `get_next_packet`: takes the front packet off the queue, if there is one. */
    method PopFront() returns (r: Option<Packet>)
      modifies this
      ensures (r, State()) == Pop(old(State()))
      ensures Counters() == old(Counters()) && active == old(active) && disconnected == old(disconnected)
    {
      if packets == [] {
        return None;
      }
      r := Some(packets[0]);
      packets := packets[1..];
    }

    /** `free_packets`: pops and releases every queued packet; the result is how many there were. */
    method FreePackets() returns (freed: nat)
      modifies this
      ensures freed == |old(packets)| && State() == old(State()).(packets := [])
      ensures Counters() == old(Counters()) && active == old(active) && disconnected == old(disconnected)
    {
      freed := |packets|;
      while packets != []
        invariant State() == old(State()).(packets := packets)
        invariant Counters() == old(Counters()) && active == old(active) && disconnected == old(disconnected)
        decreases |packets|
      {
        packets := packets[1..];
      }
    }

    /**
     * `drop_frames`: pops every packet, keeping audio and highest-priority video in a
     * new queue and counting the rest as dropped, while noting the largest drop
     * priority thrown away and the dts of the last packet seen.
     */
    method DropFrames()
      modifies this
      ensures State() == Drop(old(State()), highestPriority)
      ensures Counters() == old(Counters()) && active == old(active) && disconnected == old(disconnected)
    {
      var newBuf: seq<Packet> := [];
      var dropPriority := 0;
      var lastDropDtsUsec := 0;
      var numFramesDropped := 0;
      ghost var q := packets;
      ghost var i := 0;
      while packets != []
        invariant 0 <= i <= |q| && packets == q[i..]
        invariant newBuf == Kept(q[..i], highestPriority)
        invariant dropPriority == MaxDropPriority(q[..i], highestPriority)
        invariant numFramesDropped == |Removed(q[..i], highestPriority)|
        invariant lastDropDtsUsec == LastDts(q[..i])
        invariant State() == old(State()).(packets := packets)
        invariant Counters() == old(Counters()) && active == old(active) && disconnected == old(disconnected)
        decreases |packets|
      {
        var packet := packets[0];
        packets := packets[1..];
        lastDropDtsUsec := packet.dtsUsec;
        if packet.kind == Audio || packet.dropPriority == highestPriority {
          newBuf := newBuf + [packet];
        } else {
          if dropPriority < packet.dropPriority {
            dropPriority := packet.dropPriority;
          }
          numFramesDropped := numFramesDropped + 1;
        }
        assert q[..i + 1][..i] == q[..i];
        i := i + 1;
      }
      assert q[..i] == q;
      packets := newBuf;
      minPriority := dropPriority;
      minDropDtsUsec := lastDropDtsUsec;
      droppedFrames := droppedFrames + numFramesDropped;
    }

    /** `check_to_drop_frames`: drops when enough old-enough video spans more than the threshold. */
    method CheckToDrop()
      modifies this
      ensures State() == CheckDrop(old(State()), dropThresholdUsec, highestPriority)
      ensures Counters() == old(Counters()) && active == old(active) && disconnected == old(disconnected)
    {
      if |packets| < MinPacketsToDrop {
        return;
      }
      var first := packets[0];
      if first.dtsUsec < minDropDtsUsec {
        return;
      }
      var bufferDurationUsec := lastDtsUsec - first.dtsUsec;
      if bufferDurationUsec > dropThresholdUsec {
        DropFrames();
      }
    }

    /** `add_video_packet`: the drop check, then the priority gate, then queueing. */
    method AddVideo(p: Packet) returns (added: bool)
      modifies this
      ensures (State(), added) == Packets.AddVideo(old(State()), p, dropThresholdUsec, highestPriority)
      ensures Counters() == old(Counters()) && active == old(active) && disconnected == old(disconnected)
    {
      CheckToDrop();
      if p.priority < minPriority {
        droppedFrames := droppedFrames + 1;
        return false;
      } else {
        minPriority := 0;
      }
      added := Enqueue(p);
    }

    /**
     * `ftl_stream_data`: while the stream is active and connected, video goes
     * through the drop policy and audio is queued; otherwise nothing changes.
     * The result says whether the packet was queued.
     */
    method Data(p: Packet) returns (added: bool)
      modifies this
      ensures if old(disconnected) || !old(active) then !added && State() == old(State())
        else (State(), added) == Submit(old(State()), p, dropThresholdUsec, highestPriority)
      ensures Counters() == old(Counters()) && active == old(active) && disconnected == old(disconnected)
    {
      if disconnected || !active {
        return false;
      }
      if p.kind == Video {
        added := AddVideo(p);
      } else {
        added := Enqueue(p);
      }
    }

    /**
     * The NAL loop of `send_packet`: sends every stored NAL of the table in order,
     * counting each marked one as a sent frame, and returns the bytes reported.
     * `calls` records the sends made.
     */
    method SendUnits(p: Packet, send: MediaSend) returns (bytesSent: int, ghost calls: seq<MediaCall>)
      requires Valid() && Inside(p.data, pics.Units())
      modifies this`framesSent
      ensures calls == UnitCalls(p.dtsUsec, p.data, pics.Units())
      ensures bytesSent == BytesOf(send, calls)
      ensures framesSent == old(framesSent) + MarkerCount(pics.Units())
      ensures State() == old(State()) && active == old(active) && disconnected == old(disconnected)
      ensures totalBytesSent == old(totalBytesSent)
    {
      bytesSent := 0;
      calls := [];
      var i := 0;
      while i < pics.total
        invariant i <= pics.total && Inside(p.data, pics.nalus[..i])
        invariant calls == UnitCalls(p.dtsUsec, p.data, pics.nalus[..i]) && bytesSent == BytesOf(send, calls)
        invariant framesSent == old(framesSent) + MarkerCount(pics.nalus[..i])
      {
        var nalu := pics.nalus[i];
        TableStep(p.data, pics.nalus, i, pics.total);
        SendStep(send, p.dtsUsec, p.data, pics.nalus[..i], nalu, calls, bytesSent);
        bytesSent := bytesSent + send(VideoData, p.dtsUsec, p.data[nalu.offset..nalu.offset + nalu.len], nalu.marker);
        calls := calls + [UnitCall(p.dtsUsec, p.data, nalu)];
        if nalu.marker {
          framesSent := framesSent + 1;
        }
        i := i + 1;
      }
      assert pics.nalus[..i] == pics.Units();
    }

    /**
     * `send_packet`: a video packet is split into the NAL table (emptied first) and
     * each stored NAL is sent, a marked one counting as a sent frame; an audio
     * packet is sent whole and leaves the table alone. The bytes reported are added
     * to the total. The split's status is ignored, as in the source; a failed split
     * leaves the table empty. `calls` records the sends made.
     */
    method SendPacket(p: Packet, isHeader: bool, send: MediaSend) returns (ret: int, ghost calls: seq<MediaCall>)
      requires Valid()
      modifies this, pics, pics.nalus
      ensures Valid() && ret == 0
      ensures p.kind == Video ==> pics.Units() == SentUnit(p, isHeader)
      ensures p.kind == Audio ==> pics.Units() == old(pics.Units())
      ensures calls == PacketCalls(p, isHeader)
      ensures State() == old(State()) && active == old(active) && disconnected == old(disconnected)
      ensures framesSent == old(framesSent) + MarkerCount(SentUnit(p, isHeader))
      ensures totalBytesSent == old(totalBytesSent) + BytesOf(send, calls)
    {
      var bytesSent := 0;
      if p.kind == Video {
        pics.total := 0;
        var _ := pics.GetVideoFrame(p.data, isHeader);
        assert pics.Units() == SentUnit(p, isHeader) && Inside(p.data, pics.Units()) by {
          SentUnitInside(p, isHeader);
        }
        bytesSent, calls := SendUnits(p, send);
      } else {
        bytesSent := bytesSent + send(AudioData, p.dtsUsec, p.data, false);
        calls := [MediaCall(AudioData, p.dtsUsec, p.data, false)];
        assert BytesOf(send, calls) == bytesSent by {
          BytesOfSnoc(send, [], calls[0]);
          assert [] + [calls[0]] == calls;
        }
      }
      totalBytesSent := totalBytesSent + bytesSent;
      return 0, calls;
    }
  }
}
