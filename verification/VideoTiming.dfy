/**
 The timestamps of the video path: from the frames of the encoder through packet_handler and the paced queue of
 baresip/src/video.c to update_rtp_timestamp of the receiver.
 */
module VideoTiming {
  import opened Common
  import opened H264Startcode
  import opened H264Packetize
  import Q = VideoSendQueue
  import P = VideoPipeline
  import T = RtpTimestamp

  /** For every packet the timestamp of its frame, in the order of sending. */
  function Stamps(frames: seq<seq<Packet>>, ts: seq<U64>): seq<U64>
    requires |ts| == |frames|
  {
    if frames == [] then []
    else
      var n := |frames| - 1;
      Stamps(frames[..n], ts[..n]) + seq(|frames[n]|, _ => ts[n])
  }

  /** Entry e is a packet of a frame with timestamp stamp. */
  predicate Carries(e: Q.Entry<Byte>, pt: nat, offset: U32, stamp: U64) {
    e.pt == pt && e.ts == (offset + stamp) % B32
  }

  lemma QueuedCarries(pt: nat, offset: U32, marker: bool, ts: U64, bytes: seq<Byte>)
    ensures Carries(Q.Queued(pt, offset, marker, ts, bytes), pt, offset, ts)
  {
  }

  predicate AllCarry(es: seq<Q.Entry<Byte>>, pt: nat, offset: U32, stamps: seq<U64>) {
    |es| == |stamps| && forall i :: 0 <= i < |es| ==> Carries(es[i], pt, offset, stamps[i])
  }

  lemma EntriesCarry(ps: seq<Packet>, pt: nat, offset: U32, ts: U64)
    ensures AllCarry(P.Entries(ps, pt, offset, ts), pt, offset, seq(|ps|, _ => ts))
  {
    forall i | 0 <= i < |ps| ensures Carries(P.Entries(ps, pt, offset, ts)[i], pt, offset, ts) {
      QueuedCarries(pt, offset, ps[i].marker, ts, ps[i].Bytes());
    }
  }

  /** Every entry of a frame carries the payload type and the low half of the frame's timestamp plus the offset. */
  lemma {:induction false} CallsCarry(frames: seq<seq<Packet>>, pt: nat, offset: U32, ts: seq<U64>)
    requires |ts| == |frames|
    ensures AllCarry(Q.Flatten(P.Calls(frames, pt, offset, ts)), pt, offset, Stamps(frames, ts))
    decreases |frames|
  {
    if frames == [] {
    } else {
      var n := |frames| - 1;
      CallsCarry(frames[..n], pt, offset, ts[..n]);
      EntriesCarry(frames[n], pt, offset, ts[n]);
      assert P.Calls(frames, pt, offset, ts)[..n] == P.Calls(frames[..n], pt, offset, ts[..n]);
    }
  }

  /** The receiver's timestamp state after the packets. */
  function Received(es: seq<Q.Entry<Byte>>): T.Recv {
    if es == [] then T.FRESH else T.VideoStep(Received(es[..|es| - 1]), es[|es| - 1].ts)
  }

  /** The same stream, begun offset ticks later. */
  function Shifted(stamps: seq<U64>, offset: U32): (u: seq<nat>)
    ensures |u| == |stamps| && forall i :: 0 <= i < |u| ==> u[i] == offset + stamps[i]
  {
    seq(|stamps|, i requires 0 <= i < |stamps| => offset + stamps[i])
  }

  lemma ShiftedLast(stamps: seq<U64>, offset: U32)
    requires stamps != []
    ensures var n := |stamps| - 1; Shifted(stamps, offset)[..n] == Shifted(stamps[..n], offset)
    ensures T.VideoRun(Shifted(stamps, offset))
            == T.VideoStep(T.VideoRun(Shifted(stamps[..|stamps| - 1], offset)), (offset + stamps[|stamps| - 1]) % B32)
  {
    var n := |stamps| - 1;
    assert Shifted(stamps, offset)[..n] == Shifted(stamps[..n], offset);
  }

  lemma {:induction false} ReceivedIsRun(es: seq<Q.Entry<Byte>>, pt: nat, offset: U32, stamps: seq<U64>)
    requires AllCarry(es, pt, offset, stamps)
    ensures Received(es) == T.VideoRun(Shifted(stamps, offset))
    decreases |es|
  {
    if es == [] {
    } else {
      var n := |es| - 1;
      ReceivedIsRun(es[..n], pt, offset, stamps[..n]);
      ShiftedLast(stamps, offset);
      assert Carries(es[n], pt, offset, stamps[n]);
    }
  }

  lemma ElapsedArrives(es: seq<Q.Entry<Byte>>, pt: nat, offset: U32, stamps: seq<U64>)
    requires AllCarry(es, pt, offset, stamps) && T.Forward(stamps) && stamps != []
    ensures stamps[0] as int + T.Duration(Received(es)) as int == stamps[|stamps| - 1]
  {
    ReceivedIsRun(es, pt, offset, stamps);
    T.ForwardDuration(Shifted(stamps, offset));
  }

  /** The queue has been empty, and is empty again after the frames have been encoded. */
  ghost predicate Sent(s: Q.Sys<Byte>, es: seq<Q.Event<Byte>>, t: Q.Sys<Byte>, frames: seq<seq<Packet>>, pt: nat, offset: U32, ts: seq<U64>)
    requires |ts| == |frames|
  {
    && Q.Inv(s) && s.sendq == [] && Q.Run(s, es, t) && t.sendq == []
    && t.calls == s.calls + P.Calls(frames, pt, offset, ts)
  }

  /**
   Whatever the interleaving of encoder and timer: every packet that was sent carries the payload type and the
   timestamp of its frame, and the receiver measures the time from the first to the last of these frames, for all
   64-bit timestamps that step forward by less than 2^31 and any offset.
   */
  lemma TimestampsArrive(s: Q.Sys<Byte>, es: seq<Q.Event<Byte>>, t: Q.Sys<Byte>, frames: seq<seq<Packet>>, pt: nat,
                         offset: U32, ts: seq<U64>)
    requires |ts| == |frames| && Sent(s, es, t, frames, pt, offset, ts)
    ensures |s.sent| <= |t.sent|
    ensures var sent, stamps := t.sent[|s.sent|..], Stamps(frames, ts);
            && AllCarry(sent, pt, offset, stamps)
            && (stamps != [] && T.Forward(stamps) ==> stamps[0] as int + T.Duration(Received(sent)) as int == stamps[|stamps| - 1])
  {
    var calls, stamps := P.Calls(frames, pt, offset, ts), Stamps(frames, ts);
    Q.RunInv(s, es, t);
    P.FlattenJoin(s.calls, calls);
    assert t.sent + [] == t.sent && s.sent + [] == s.sent;
    assert t.sent[|s.sent|..] == Q.Flatten(calls);
    CallsCarry(frames, pt, offset, ts);
    if stamps != [] && T.Forward(stamps) {
      ElapsedArrives(Q.Flatten(calls), pt, offset, stamps);
    }
  }

  // ---------------------------------------------------------------- frames that are sent

  /** A forward stream from a to b. */
  predicate Spans(stamps: seq<U64>, a: U64, b: U64) {
    stamps != [] && T.Forward(stamps) && stamps[0] == a && stamps[|stamps| - 1] == b
  }

  lemma SpansOn(stamps: seq<U64>, a: U64, b: U64, c: U64, n: nat)
    requires Spans(stamps, a, b) && 0 <= c - b < B31 && n > 0
    ensures Spans(stamps + seq(n, _ => c), a, c)
  {
    var all := stamps + seq(n, _ => c);
    forall k | 1 <= k < |all| ensures 0 <= all[k] - all[k - 1] < B31 {
      assert k < |stamps| || all[k] == c;
    }
  }

  /** If every frame has a packet, the packets step forward as the frames do. */
  lemma {:induction false} StampsForward(frames: seq<seq<Packet>>, ts: seq<U64>)
    requires |ts| == |frames| && frames != [] && T.Forward(ts) && forall k :: 0 <= k < |frames| ==> frames[k] != []
    ensures Spans(Stamps(frames, ts), ts[0], ts[|ts| - 1])
    decreases |frames|
  {
    var n := |frames| - 1;
    if n == 0 {
      assert Stamps(frames, ts) == seq(|frames[0]|, _ => ts[0]);
    } else {
      T.ForwardPrefix(ts, n);
      StampsForward(frames[..n], ts[..n]);
      SpansOn(Stamps(frames[..n], ts[..n]), ts[0], ts[n - 1], ts[n], |frames[n]|);
    }
  }

  /** Frames of which at least one packet was queued each: the receiver measures the time from the first to the last. */
  lemma FramesElapsed(s: Q.Sys<Byte>, es: seq<Q.Event<Byte>>, t: Q.Sys<Byte>, frames: seq<seq<Packet>>, pt: nat,
                      offset: U32, ts: seq<U64>)
    requires |ts| == |frames| && Sent(s, es, t, frames, pt, offset, ts)
    requires frames != [] && T.Forward(ts) && forall k :: 0 <= k < |frames| ==> frames[k] != []
    ensures |s.sent| <= |t.sent|
    ensures ts[0] as int + T.Duration(Received(t.sent[|s.sent|..])) as int == ts[|ts| - 1]
  {
    TimestampsArrive(s, es, t, frames, pt, offset, ts);
    StampsForward(frames, ts);
  }

  // ---------------------------------------------------------------- the sender's own record

  /** What packet_handler remembers after packets with these timestamps. */
  function Marked(stamps: seq<U64>): Q.Marks {
    if stamps == [] then Q.Marks(0, 0) else Q.Mark(Marked(stamps[..|stamps| - 1]), stamps[|stamps| - 1])
  }

  lemma {:induction false} MarkedExactly(stamps: seq<U64>)
    requires stamps != [] && T.Forward(stamps)
    ensures Marked(stamps).last == stamps[|stamps| - 1]
    ensures stamps[0] != 0 ==> Marked(stamps).base == stamps[0]
    ensures stamps[0] == 0 ==> (Marked(stamps).base == 0 <==> stamps[|stamps| - 1] == 0)
    decreases |stamps|
  {
    var n := |stamps| - 1;
    if n == 0 {
      assert Marked(stamps[..0]) == Q.Marks(0, 0);
    } else {
      T.ForwardPrefix(stamps, n);
      MarkedExactly(stamps[..n]);
      assert stamps[..n][n - 1] == stamps[n - 1] <= stamps[n];
    }
  }

  /**
   The sender takes a timestamp of 0 for no timestamp yet.  The time between its first and last timestamp is the
   one the receiver measures if and only if the first frame has another timestamp, or all of them have this one.
   */
  lemma DurationsAgreeExactly(es: seq<Q.Entry<Byte>>, pt: nat, offset: U32, stamps: seq<U64>)
    requires AllCarry(es, pt, offset, stamps) && T.Forward(stamps) && stamps != []
    ensures Marked(stamps).base as int + T.Duration(Received(es)) as int == Marked(stamps).last
            <==> stamps[0] != 0 || stamps[|stamps| - 1] == 0
  {
    ElapsedArrives(es, pt, offset, stamps);
    MarkedExactly(stamps);
  }
}
