/**
 * What the send thread (`send_thread`) sends from the queue, abstracted from its
 * semaphore and event plumbing: packets leave the queue in order; every keyframe
 * is preceded by the parameter-set headers; once the output is stopping, a stop
 * timestamp of 0 ends the loop at once, and otherwise the first packet whose
 * system dts reaches the stop timestamp is discarded and ends the loop.
 */
module SendThread {
  import opened Packets

  /** One call into the send path: the parameter-set headers (`send_headers`) or a queued packet (`send_packet`). */
  datatype Send = Headers(dtsUsec: int) | Media(packet: Packet)

  /** The packets the loop sends from queue `q`, `stopping` and `stopTs` being the stop event and `stop_ts`. */
  function SentPackets(q: seq<Packet>, stopping: bool, stopTs: int): seq<Packet>
    decreases |q|
  {
    if q == [] then []
    else if stopping && stopTs == 0 then []
    else if stopping && q[0].sysDtsUsec >= stopTs then []
    else [q[0]] + SentPackets(q[1..], stopping, stopTs)
  }

  /**
   * The packets sent are a prefix of the queue: all of it when not stopping;
   * when stopping with a non-zero stop timestamp, exactly the packets before the
   * first one at or past that timestamp; nothing when the stop timestamp is 0.
   */
  lemma {:induction false} SentPacketsPrefix(q: seq<Packet>, stopping: bool, stopTs: int)
    ensures var r := SentPackets(q, stopping, stopTs);
      && |r| <= |q| && r == q[..|r|]
      && (!stopping ==> r == q)
      && (stopping && stopTs == 0 ==> r == [])
      && (stopping ==> forall i :: 0 <= i < |r| ==> r[i].sysDtsUsec < stopTs)
      && (stopping && |r| < |q| ==> stopTs == 0 || q[|r|].sysDtsUsec >= stopTs)
    decreases |q|
  {
    if q != [] && !(stopping && stopTs == 0) && !(stopping && q[0].sysDtsUsec >= stopTs) {
      SentPacketsPrefix(q[1..], stopping, stopTs);
    }
  }

  /** The calls made for one packet: the headers first when it is a keyframe. */
  function SendsFor(p: Packet): seq<Send> {
    if p.keyframe then [Headers(p.dtsUsec), Media(p)] else [Media(p)]
  }

  /** The calls made for a sequence of packets, in order. */
  function Sends(ps: seq<Packet>): seq<Send> {
    if ps == [] then [] else Sends(ps[..|ps| - 1]) + SendsFor(ps[|ps| - 1])
  }

  /** Whether every keyframe in the calls `s` comes right after headers carrying its own dts. */
  predicate KeyframesHeaded(s: seq<Send>) {
    forall i :: 0 <= i < |s| && s[i].Media? && s[i].packet.keyframe ==> i > 0 && s[i - 1] == Headers(s[i].packet.dtsUsec)
  }

  /** Every keyframe sent comes right after headers carrying its own dts. */
  lemma {:induction false} KeyframesFollowHeaders(ps: seq<Packet>)
    ensures KeyframesHeaded(Sends(ps))
  {
    if ps != [] {
      var init := ps[..|ps| - 1];
      KeyframesFollowHeaders(init);
      var p := ps[|ps| - 1];
      var a, b := Sends(init), SendsFor(p);
      var s: seq<Send> := a + b;
      assert Sends(ps) == s;
      forall i | 0 <= i < |s| && s[i].Media? && s[i].packet.keyframe
        ensures i > 0 && s[i - 1] == Headers(s[i].packet.dtsUsec)
      {
        if i >= |a| {
          assert s[i] == b[i - |a|];
          if i > |a| {
            assert s[i - 1] == b[0];
          }
        } else {
          assert s[i] == a[i] && KeyframesHeaded(a);
          assert s[i - 1] == a[i - 1];
        }
      }
    }
  }

  /** The media calls are the packets, in order. */
  lemma {:induction false} MediaInOrder(ps: seq<Packet>)
    ensures MediaOf(Sends(ps)) == ps
  {
    if ps != [] {
      var init, p := ps[..|ps| - 1], ps[|ps| - 1];
      var a, b := Sends(init), SendsFor(p);
      assert MediaOf(a + b) == init + [p] by {
        MediaInOrder(init);
        MediaOfAppend(a, b);
        MediaOfSendsFor(p);
      }
      assert Sends(ps) == a + b;
      assert init + [p] == ps;
    }
  }

  lemma MediaOfSendsFor(p: Packet)
    ensures MediaOf(SendsFor(p)) == [p]
  {
    var s := SendsFor(p);
    if p.keyframe {
      assert s[..1] == [Headers(p.dtsUsec)] && s[..1][..0] == [];
      assert MediaOf(s[..1]) == [];
    } else {
      assert s[..0] == [];
    }
  }

  /** The packets of the media calls of `s`, in order. */
  function MediaOf(s: seq<Send>): seq<Packet> {
    if s == [] then [] else MediaOf(s[..|s| - 1]) + (if s[|s| - 1].Media? then [s[|s| - 1].packet] else [])
  }

  lemma {:induction false} MediaOfAppend(a: seq<Send>, b: seq<Send>)
    ensures MediaOf(a + b) == MediaOf(a) + MediaOf(b)
    decreases |b|
  {
    if b == [] {
      assert a + b == a;
    } else {
      assert (a + b)[..|a + b| - 1] == a + b[..|b| - 1];
      MediaOfAppend(a, b[..|b| - 1]);
    }
  }
}
