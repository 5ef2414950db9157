/**
 * The packet queue of the FTL output and its latency-driven drop policy, as values.
 *
 * Encoded packets wait in a FIFO until the send thread takes them. When the queued
 * video spans more than a threshold, every packet that is neither audio nor of the
 * highest drop priority is thrown away, and later video packets are refused until
 * one arrives whose priority reaches the highest drop priority thrown away.
 * `FtlOutput.FtlStream` performs these operations in place; the functions here are
 * their specification.
 */
module Packets {
  import opened Wrappers
  import opened Avc

  datatype EncoderType = Video | Audio

  /** An encoded packet (`struct encoder_packet`), with the fields the output reads. */
  datatype Packet = Packet(
    kind: EncoderType,
    data: seq<Byte>,
    dtsUsec: int,
    sysDtsUsec: int,
    keyframe: bool,
    priority: int,
    dropPriority: int,
    trackIdx: nat)

  /**
   * The queue and the drop-policy scalars of the stream: `packets`,
   * `last_dts_usec`, `min_drop_dts_usec`, `min_priority` and `dropped_frames`.
   */
  datatype Queue = Queue(
    packets: seq<Packet>,
    lastDtsUsec: int,
    minDropDtsUsec: int,
    minPriority: int,
    droppedFrames: int)

  /** A packet a drop keeps: audio, or video whose drop priority is the highest one. */
  predicate Survives(p: Packet, highest: int) {
    p.kind == Audio || p.dropPriority == highest
  }

  /** The packets of `q` a drop keeps, in their order. */
  function Kept(q: seq<Packet>, highest: int): seq<Packet> {
    if q == [] then []
    else Kept(q[..|q| - 1], highest) + (if Survives(q[|q| - 1], highest) then [q[|q| - 1]] else [])
  }

  /** The packets of `q` a drop throws away, in their order. */
  function Removed(q: seq<Packet>, highest: int): seq<Packet> {
    if q == [] then []
    else Removed(q[..|q| - 1], highest) + (if Survives(q[|q| - 1], highest) then [] else [q[|q| - 1]])
  }

  /** The largest drop priority among the packets a drop throws away, starting from 0. */
  function MaxDropPriority(q: seq<Packet>, highest: int): int {
    if q == [] then 0
    else
      var m := MaxDropPriority(q[..|q| - 1], highest);
      var p := q[|q| - 1];
      if !Survives(p, highest) && m < p.dropPriority then p.dropPriority else m
  }

  /** The dts of the last packet a drop looks at, or 0 when the queue is empty. */
  function LastDts(q: seq<Packet>): int {
    if q == [] then 0 else q[|q| - 1].dtsUsec
  }

  /** `add_packet`: the packet goes to the back of the queue and becomes the latest dts. */
  function Push(s: Queue, p: Packet): Queue {
    s.(packets := s.packets + [p], lastDtsUsec := p.dtsUsec)
  }

  /** `get_next_packet`: the front packet, if any, and the queue without it. */
  function Pop(s: Queue): (Option<Packet>, Queue) {
    if s.packets == [] then (None, s)
    else (Some(s.packets[0]), s.(packets := s.packets[1..]))
  }

  /**
   * `drop_frames`: only the survivors stay; the next video packet must reach the
   * largest drop priority thrown away; no drop may happen again before the dts of
   * the last packet looked at; the removed packets are counted as dropped frames.
   */
  function Drop(s: Queue, highest: int): Queue {
    s.(packets := Kept(s.packets, highest),
       minPriority := MaxDropPriority(s.packets, highest),
       minDropDtsUsec := LastDts(s.packets),
       droppedFrames := s.droppedFrames + |Removed(s.packets, highest)|)
  }

  /** Number of queued packets below which no drop is considered. */
  const MinPacketsToDrop: nat := 5

  /**
   * The trigger of `check_to_drop_frames`: at least five packets are queued, the
   * front packet is not older than the last drop, and the queue spans more than
   * the threshold.
   */
  predicate DropDue(s: Queue, thresholdUsec: int) {
    && |s.packets| >= MinPacketsToDrop
    && s.packets[0].dtsUsec >= s.minDropDtsUsec
    && s.lastDtsUsec - s.packets[0].dtsUsec > thresholdUsec
  }

  /** `check_to_drop_frames`. */
  function CheckDrop(s: Queue, thresholdUsec: int, highest: int): Queue {
    if DropDue(s, thresholdUsec) then Drop(s, highest) else s
  }

  /**
   * `add_video_packet`: after the drop check, a packet below the current minimum
   * priority is refused and counted as dropped; any other packet clears the
   * minimum and is queued. The flag says whether the packet was queued.
   */
  function AddVideo(s: Queue, p: Packet, thresholdUsec: int, highest: int): (Queue, bool) {
    var c := CheckDrop(s, thresholdUsec, highest);
    if p.priority < c.minPriority then (c.(droppedFrames := c.droppedFrames + 1), false)
    else (Push(c.(minPriority := 0), p), true)
  }

  /** The queueing step of `ftl_stream_data`: video goes through the drop policy, audio is always queued. */
  function Submit(s: Queue, p: Packet, thresholdUsec: int, highest: int): (Queue, bool) {
    if p.kind == Video then AddVideo(s, p, thresholdUsec, highest) else (Push(s, p), true)
  }

  // Properties of the drop.

  /** A drop splits the queue: what it keeps and what it throws away are together the old queue. */
  lemma {:induction false} KeptRemovedPartition(q: seq<Packet>, highest: int)
    ensures multiset(Kept(q, highest)) + multiset(Removed(q, highest)) == multiset(q)
    ensures |Kept(q, highest)| + |Removed(q, highest)| == |q|
  {
    if q != [] {
      var init, last := q[..|q| - 1], q[|q| - 1];
      KeptRemovedPartition(init, highest);
      assert q == init + [last];
    }
  }

  /** What a drop keeps survives, what it throws away does not. */
  lemma {:induction false} KeptSurvive(q: seq<Packet>, highest: int)
    ensures forall i :: 0 <= i < |Kept(q, highest)| ==> Survives(Kept(q, highest)[i], highest)
    ensures forall i :: 0 <= i < |Removed(q, highest)| ==> !Survives(Removed(q, highest)[i], highest)
  {
    if q != [] {
      KeptSurvive(q[..|q| - 1], highest);
    }
  }

  /** Every surviving packet of the queue is kept, as often as it occurs; no removed one is. */
  lemma KeptCount(q: seq<Packet>, highest: int, p: Packet)
    ensures multiset(Kept(q, highest))[p] == if Survives(p, highest) then multiset(q)[p] else 0
  {
    KeptRemovedPartition(q, highest);
    KeptSurvive(q, highest);
    if Survives(p, highest) {
      assert p !in Removed(q, highest);
    } else {
      assert p !in Kept(q, highest);
    }
  }

  /** A drop keeps order: filtering a queue is filtering its two halves one after the other. */
  lemma {:induction false} KeptAppend(a: seq<Packet>, b: seq<Packet>, highest: int)
    ensures Kept(a + b, highest) == Kept(a, highest) + Kept(b, highest)
    decreases |b|
  {
    if b == [] {
      assert a + b == a;
    } else {
      var init, last := b[..|b| - 1], b[|b| - 1];
      assert (a + b)[..|a + b| - 1] == a + init;
      KeptAppend(a, init, highest);
    }
  }

  /** A queue holding only survivors is left as it is. */
  lemma {:induction false} KeptAllSurvive(q: seq<Packet>, highest: int)
    requires forall i :: 0 <= i < |q| ==> Survives(q[i], highest)
    ensures Kept(q, highest) == q
  {
    if q != [] {
      KeptAllSurvive(q[..|q| - 1], highest);
    }
  }

  /** The largest drop priority is at least 0 and at least that of every removed packet, and it is 0 or one of theirs. */
  lemma {:induction false} MaxDropPriorityIsMax(q: seq<Packet>, highest: int)
    ensures var m := MaxDropPriority(q, highest);
      && m >= 0
      && (forall p :: p in Removed(q, highest) ==> p.dropPriority <= m)
      && (m == 0 || exists p :: p in Removed(q, highest) && p.dropPriority == m)
  {
    if q != [] {
      MaxDropPriorityIsMax(q[..|q| - 1], highest);
    }
  }

  /**
   * After a drop, the queue is exactly its old survivors in their order, the removed
   * packets are counted, the minimum priority is the largest drop priority removed
   * and the next drop waits for the dts of the old last packet.
   */
  lemma DropState(s: Queue, highest: int)
    ensures var d := Drop(s, highest);
      && (forall i :: 0 <= i < |d.packets| ==> Survives(d.packets[i], highest))
      && (forall p :: multiset(d.packets)[p] == if Survives(p, highest) then multiset(s.packets)[p] else 0)
      && d.droppedFrames == s.droppedFrames + |s.packets| - |d.packets|
      && d.minDropDtsUsec == (if s.packets == [] then 0 else s.packets[|s.packets| - 1].dtsUsec)
      && d.lastDtsUsec == s.lastDtsUsec
  {
    KeptRemovedPartition(s.packets, highest);
    KeptSurvive(s.packets, highest);
    forall p ensures multiset(Kept(s.packets, highest))[p] == if Survives(p, highest) then multiset(s.packets)[p] else 0 {
      KeptCount(s.packets, highest, p);
    }
  }

  /** A second drop right after the first keeps the same packets and removes none. */
  lemma DropIdempotent(s: Queue, highest: int)
    ensures Drop(Drop(s, highest), highest).packets == Drop(s, highest).packets
    ensures Drop(Drop(s, highest), highest).droppedFrames == Drop(s, highest).droppedFrames
    ensures Drop(Drop(s, highest), highest).minPriority == 0
  {
    var k := Kept(s.packets, highest);
    KeptSurvive(s.packets, highest);
    KeptAllSurvive(k, highest);
    KeptRemovedPartition(k, highest);
    MaxDropPriorityIsMax(k, highest);
  }

  // Properties of the drop check and of queueing.

  /** The drop check changes nothing unless a drop is due, and then it is exactly a drop. */
  lemma CheckDropCases(s: Queue, thresholdUsec: int, highest: int)
    ensures DropDue(s, thresholdUsec) ==> CheckDrop(s, thresholdUsec, highest) == Drop(s, highest)
    ensures |s.packets| < MinPacketsToDrop ==> CheckDrop(s, thresholdUsec, highest) == s
    ensures |s.packets| > 0 && s.packets[0].dtsUsec < s.minDropDtsUsec ==> CheckDrop(s, thresholdUsec, highest) == s
    ensures |s.packets| > 0 && s.lastDtsUsec - s.packets[0].dtsUsec <= thresholdUsec ==> CheckDrop(s, thresholdUsec, highest) == s
  {
  }

  /** Queueing appends at the back and nothing else in the queue moves. */
  lemma PushPop(s: Queue, p: Packet)
    ensures Pop(Push(s, p)).0 == if s.packets == [] then Some(p) else Some(s.packets[0])
    ensures Pop(Push(s, p)).1.packets == if s.packets == [] then [] else s.packets[1..] + [p]
  {
    if s.packets != [] {
      assert (s.packets + [p])[1..] == s.packets[1..] + [p];
    }
  }

  /** Popping every packet of a queue gives them back in the order they were pushed. */
  function Drain(s: Queue): (r: seq<Packet>)
    ensures r == s.packets
    decreases |s.packets|
  {
    match Pop(s)
    case (None, _) => []
    case (Some(p), rest) => [p] + Drain(rest)
  }

  /**
   * A video packet below the current minimum priority, after the drop check, is
   * refused and counted; any other is queued at the back, clears the minimum and
   * becomes the latest dts.
   */
  lemma AddVideoCases(s: Queue, p: Packet, thresholdUsec: int, highest: int)
    ensures var c := CheckDrop(s, thresholdUsec, highest);
      var (t, added) := AddVideo(s, p, thresholdUsec, highest);
      && (added <==> p.priority >= c.minPriority)
      && (!added ==> t.packets == c.packets && t.droppedFrames == c.droppedFrames + 1 && t.minPriority == c.minPriority)
      && (added ==> t.packets == c.packets + [p] && t.minPriority == 0 && t.lastDtsUsec == p.dtsUsec
                    && t.droppedFrames == c.droppedFrames)
  {
  }

  /** Audio is always queued; video passes the drop policy. */
  lemma SubmitAudio(s: Queue, p: Packet, thresholdUsec: int, highest: int)
    requires p.kind == Audio
    ensures Submit(s, p, thresholdUsec, highest) == (s.(packets := s.packets + [p], lastDtsUsec := p.dtsUsec), true)
  {
  }
}
