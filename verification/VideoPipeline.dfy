/**
 The H.264 send path as a whole: packetizer, send queue, and the receiver on the other side.

 Whatever the interleaving of encoder and timer, once the queue has drained, a receiver that gets the sent packets
 in order and without loss hands the encoded buffers to its video decoder, if all their packets could be queued.
 */
module VideoPipeline {
  import opened Common
  import opened H264Startcode
  import opened H264Packetize
  import D = H264Depacketize
  import R = H264RoundTrip
  import W = H264Weight
  import K = H264Dropped
  import F = H264Frames
  import Q = VideoSendQueue

  /** The queue entries packet_handler makes of the packets of one frame. */
  function Entries(ps: seq<Packet>, pt: nat, offset: U32, ts: U64): (es: seq<Q.Entry<Byte>>)
    ensures |es| == |ps|
    ensures forall i :: 0 <= i < |ps| ==> es[i] == Q.Queued(pt, offset, ps[i].marker, ts, ps[i].Bytes())
  {
    seq(|ps|, i requires 0 <= i < |ps| => Q.Queued(pt, offset, ps[i].marker, ts, ps[i].Bytes()))
  }

  /** What arrives at the receiver: marker and payload of every RTP packet. */
  function OnTheWire(es: seq<Q.Entry<Byte>>): (ps: seq<Packet>)
    ensures |ps| == |es|
    ensures forall i :: 0 <= i < |es| ==> ps[i] == Packet(es[i].marker, [], es[i].bytes)
  {
    seq(|es|, i requires 0 <= i < |es| => Packet(es[i].marker, [], es[i].bytes))
  }

  predicate SameContent(a: seq<Packet>, b: seq<Packet>) {
    |a| == |b| && forall i :: 0 <= i < |a| ==> a[i].marker == b[i].marker && a[i].Bytes() == b[i].Bytes()
  }

  /** The receiver does not see where a payload header ends. */
  lemma {:induction false} RunSeesContent(d: D.State, a: seq<Packet>, b: seq<Packet>, sq: nat, key: bool)
    requires SameContent(a, b)
    ensures D.Run(d, a, sq, key) == D.Run(d, b, sq, key)
    decreases |a|
  {
    if a == [] {
    } else {
      assert a[0].marker == b[0].marker && a[0].Bytes() == b[0].Bytes();
      forall i | 0 <= i < |a| - 1
        ensures a[1..][i].marker == b[1..][i].marker && a[1..][i].Bytes() == b[1..][i].Bytes()
      {
        assert a[1..][i] == a[i + 1] && b[1..][i] == b[i + 1];
      }
      RunSeesContent(D.Step(d, a[0].marker, sq % 65536, a[0].Bytes(), key).0, a[1..], b[1..], sq + 1, key);
    }
  }

  lemma WireKeepsContent(ps: seq<Packet>, pt: nat, offset: U32, ts: U64)
    ensures SameContent(OnTheWire(Entries(ps, pt, offset, ts)), ps)
  {
    var w := OnTheWire(Entries(ps, pt, offset, ts));
    forall i | 0 <= i < |ps| ensures w[i].marker == ps[i].marker && w[i].Bytes() == ps[i].Bytes() {
      assert w[i] == Packet(ps[i].marker, [], ps[i].Bytes());
      assert [] + ps[i].Bytes() == ps[i].Bytes();
    }
  }

  /** A frame that started on an empty queue has been sent whole and in order as soon as the queue is empty again. */
  lemma FrameSentWhole(s: Q.Sys<Byte>, es: seq<Q.Event<Byte>>, t: Q.Sys<Byte>, frame: seq<Q.Entry<Byte>>)
    requires Q.Inv(s) && s.sendq == [] && Q.Run(s, es, t)
    requires t.sendq == [] && t.calls == s.calls + [frame]
    ensures t.sent == s.sent + frame
  {
    Q.RunInv(s, es, t);
    assert t.calls[..|t.calls| - 1] == s.calls;
    assert t.sent + [] == t.sent && s.sent + [] == s.sent;
  }

  /**
   End to end, for every interleaving: the packets of an encoded buffer go through the paced queue to an
   idle receiver, and it hands the buffer to its video decoder, from the first start code onwards, if and only
   if all packets could be queued and every NAL unit is deliverable.
   */
  lemma PipelineDelivers(s: Q.Sys<Byte>, es: seq<Q.Event<Byte>>, t: Q.Sys<Byte>, buf: seq<Byte>, kept: seq<bool>, pktsize: nat,
                         pt: nat, offset: U32, ts: U64, d: D.State, sq: nat, key: bool)
    requires F.Encoded(buf) && 2 < pktsize < SIZE_T && |kept| == |F.Frame(buf, pktsize)|
    requires Q.Inv(s) && s.sendq == [] && Q.Run(s, es, t) && t.sendq == []
    requires t.calls == s.calls + [Entries(K.Keep(F.Frame(buf, pktsize), kept), pt, offset, ts)]
    requires F.Idle(d)
    ensures |s.sent| <= |t.sent|
    ensures D.Run(d, OnTheWire(t.sent[|s.sent|..]), sq, key).delivered == d.delivered + [buf[FirstStart(buf)..]]
            <==> K.AllTrue(kept) && F.FrameDeliverable(d.gotKeyframe, buf, pktsize)
  {
    var ps := K.Keep(F.Frame(buf, pktsize), kept);
    var frame := Entries(ps, pt, offset, ts);
    FrameSentWhole(s, es, t, frame);
    assert t.sent[|s.sent|..] == frame;
    WireKeepsContent(ps, pt, offset, ts);
    RunSeesContent(d, OnTheWire(frame), ps, sq, key);
    F.FrameExactly(d, buf, kept, pktsize, sq, key);
  }

  // ---------------------------------------------------------------- any number of frames

  /** The queue entries of the frames, one encode call each. */
  ghost function Calls(frames: seq<seq<Packet>>, pt: nat, offset: U32, ts: seq<U64>): (calls: seq<seq<Q.Entry<Byte>>>)
    requires |ts| == |frames|
    ensures |calls| == |frames|
    ensures forall k :: 0 <= k < |frames| ==> calls[k] == Entries(frames[k], pt, offset, ts[k])
  {
    seq(|frames|, k requires 0 <= k < |frames| => Entries(frames[k], pt, offset, ts[k]))
  }

  function AllOnTheWire(calls: seq<seq<Q.Entry<Byte>>>): (frames: seq<seq<Packet>>)
    ensures |frames| == |calls| && forall k :: 0 <= k < |calls| ==> frames[k] == OnTheWire(calls[k])
  {
    seq(|calls|, k requires 0 <= k < |calls| => OnTheWire(calls[k]))
  }

  lemma {:induction false} FlattenJoin(a: seq<seq<Q.Entry<Byte>>>, b: seq<seq<Q.Entry<Byte>>>)
    ensures Q.Flatten(a + b) == Q.Flatten(a) + Q.Flatten(b)
    decreases |b|
  {
    if b == [] {
      assert a + b == a;
    } else {
      var n := |b| - 1;
      FlattenJoin(a, b[..n]);
      assert (a + b)[..|a + b| - 1] == a + b[..n];
      assert Q.Flatten(a) + (Q.Flatten(b[..n]) + b[n]) == Q.Flatten(a) + Q.Flatten(b[..n]) + b[n];
    }
  }

  lemma FlattenOne(c: seq<Q.Entry<Byte>>)
    ensures Q.Flatten([c]) == c
  {
    assert [c][..0] == [];
    assert Q.Flatten<Byte>([]) == [];
  }

  lemma WireAppend(a: seq<Q.Entry<Byte>>, b: seq<Q.Entry<Byte>>)
    ensures OnTheWire(a + b) == OnTheWire(a) + OnTheWire(b)
  {
  }

  lemma WireTail(calls: seq<seq<Q.Entry<Byte>>>)
    requires calls != []
    ensures F.Wire(AllOnTheWire(calls)) == OnTheWire(calls[0]) + F.Wire(AllOnTheWire(calls[1..]))
  {
    assert AllOnTheWire(calls)[1..] == AllOnTheWire(calls[1..]);
  }

  /** The packets on the wire are those of the encode calls, one after the other. */
  lemma {:induction false} WireOfCalls(calls: seq<seq<Q.Entry<Byte>>>)
    ensures OnTheWire(Q.Flatten(calls)) == F.Wire(AllOnTheWire(calls))
    decreases |calls|
  {
    if calls == [] {
    } else {
      var first, others := calls[0], calls[1..];
      assert calls == [first] + others;
      FlattenJoin([first], others);
      FlattenOne(first);
      WireOfCalls(others);
      WireAppend(first, Q.Flatten(others));
      WireTail(calls);
    }
  }

  predicate AllSame(a: seq<seq<Packet>>, b: seq<seq<Packet>>) {
    |a| == |b| && forall k :: 0 <= k < |a| ==> SameContent(a[k], b[k])
  }

  lemma {:induction false} RunAllSeesContent(d: D.State, a: seq<seq<Packet>>, b: seq<seq<Packet>>, sq: nat, keys: seq<bool>)
    requires AllSame(a, b) && |a| == |keys|
    ensures F.RunAll(d, a, sq, keys) == F.RunAll(d, b, sq, keys)
    decreases |a|
  {
    if a == [] {
    } else {
      RunSeesContent(d, a[0], b[0], sq, keys[0]);
      RunAllSeesContent(D.Run(d, a[0], sq, keys[0]), a[1..], b[1..], sq + |a[0]|, keys[1..]);
    }
  }

  lemma {:induction false} ReportsSeeContent(a: seq<seq<Packet>>, b: seq<seq<Packet>>, i: nat, key: nat -> bool)
    requires AllSame(a, b)
    ensures F.Reports(a, i, key) == F.Reports(b, i, key)
    decreases |a|
  {
    if a == [] {
    } else {
      assert SameContent(a[0], b[0]);
      ReportsSeeContent(a[1..], b[1..], i + |a[0]|, key);
    }
  }

  lemma CallsKeepContent(frames: seq<seq<Packet>>, pt: nat, offset: U32, ts: seq<U64>)
    requires |ts| == |frames|
    ensures AllSame(AllOnTheWire(Calls(frames, pt, offset, ts)), frames)
  {
    forall k | 0 <= k < |frames| ensures SameContent(AllOnTheWire(Calls(frames, pt, offset, ts))[k], frames[k]) {
      WireKeepsContent(frames[k], pt, offset, ts[k]);
    }
  }

  lemma MarkersOnTheWire(a: seq<seq<Packet>>, b: seq<seq<Packet>>)
    requires AllSame(a, b) && F.AllMarkersLast(b)
    ensures F.AllMarkersLast(a)
  {
    forall k | 0 <= k < |a| ensures W.MarkerOnlyLast(a[k]) {
      assert SameContent(a[k], b[k]) && W.MarkerOnlyLast(b[k]);
    }
  }

  /** Feeding what comes out of the queue is running the frames one by one. */
  lemma FeedOfCalls(d: D.State, frames: seq<seq<Packet>>, pt: nat, offset: U32, ts: seq<U64>, sq: nat, key: nat -> bool)
    requires |ts| == |frames| && F.AllMarkersLast(frames)
    ensures F.Feed(d, OnTheWire(Q.Flatten(Calls(frames, pt, offset, ts))), sq, 0, key)
         == F.RunAll(d, frames, sq, F.Reports(frames, 0, key))
  {
    var calls := Calls(frames, pt, offset, ts);
    var wire := AllOnTheWire(calls);
    WireOfCalls(calls);
    CallsKeepContent(frames, pt, offset, ts);
    MarkersOnTheWire(wire, frames);
    F.FeedAll(d, wire, sq, 0, key);
    ReportsSeeContent(wire, frames, 0, key);
    RunAllSeesContent(d, wire, frames, sq, F.Reports(frames, 0, key));
  }

  /**
   The same for any number of frames, whatever the timer did in between: the receiver is fed with what was sent, and
   hands on all buffers, unchanged and in order, if and only if all packets could be queued and every NAL unit of
   every frame is deliverable.
   */
  lemma PipelineDeliversAll(s: Q.Sys<Byte>, es: seq<Q.Event<Byte>>, t: Q.Sys<Byte>, bufs: seq<seq<Byte>>, kept: seq<seq<bool>>,
                            pktsize: nat, pt: nat, offset: U32, ts: seq<U64>, d: D.State, sq: nat, key: nat -> bool)
    requires F.AllEncoded(bufs) && 2 < pktsize < SIZE_T && |ts| == |bufs| && F.Masks(bufs, kept, pktsize)
    requires Q.Inv(s) && s.sendq == [] && Q.Run(s, es, t) && t.sendq == []
    requires t.calls == s.calls + Calls(F.Frames(bufs, kept, pktsize), pt, offset, ts)
    requires F.Idle(d)
    ensures |s.sent| <= |t.sent|
    ensures var keys := F.Reports(F.Frames(bufs, kept, pktsize), 0, key);
            F.Feed(d, OnTheWire(t.sent[|s.sent|..]), sq, 0, key).delivered == d.delivered + F.Originals(bufs)
            <==> F.AllKept(kept) && F.FramesDeliverable(d.gotKeyframe, bufs, keys, pktsize)
  {
    var frames := F.Frames(bufs, kept, pktsize);
    var calls := Calls(frames, pt, offset, ts);
    Q.RunInv(s, es, t);
    FlattenJoin(s.calls, calls);
    assert t.sent + [] == t.sent && s.sent + [] == s.sent;
    assert t.sent[|s.sent|..] == Q.Flatten(calls);
    F.FramesHaveMarkersLast(bufs, kept, pktsize);
    FeedOfCalls(d, frames, pt, offset, ts, sq, key);
    F.FramesExactly(d, bufs, kept, pktsize, sq, F.Reports(frames, 0, key));
  }
}
