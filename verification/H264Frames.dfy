/**
 Encoded frames one after the other: the receiver hands on all of them, unchanged and in order, if and only if
 every packet was queued and every NAL of every frame is deliverable.
 */
module H264Frames {
  import opened H264Startcode
  import opened H264Packetize
  import opened H264Depacketize
  import opened H264RoundTrip
  import opened H264Weight
  import opened H264Exact
  import opened H264Dropped

  /** The receiver over the packets of several frames; keys[k] is what the video decoder reports about frame k. */
  function RunAll(d: State, frames: seq<seq<Packet>>, sq: nat, keys: seq<bool>): State
    requires |keys| == |frames|
    decreases |frames|
  {
    if frames == [] then d
    else RunAll(Run(d, frames[0], sq, keys[0]), frames[1..], sq + |frames[0]|, keys[1..])
  }

  ghost predicate Idle(d: State) { d.acc == [] && !d.frag }

  /** Without the marker nothing is handed on; with it at most one picture is, and the receiver is idle then. */
  ghost predicate AtMostOne(d: State, e: State, key: bool) {
    || (e.delivered == d.delivered)
    || (|e.delivered| == |d.delivered| + 1 && d.delivered <= e.delivered && Idle(e) && e.gotKeyframe == (d.gotKeyframe || key))
  }

  /** What a packet may do, by its marker. */
  ghost predicate MayDeliver(d: State, e: State, marker: bool, key: bool) {
    if marker then AtMostOne(d, e, key) else e.delivered == d.delivered && e.gotKeyframe == d.gotKeyframe
  }

  lemma FinishMayDeliver(d: State, t: State, marker: bool, key: bool)
    requires t.delivered == d.delivered && t.gotKeyframe == d.gotKeyframe
    ensures MayDeliver(d, Finish(t, marker, key).0, marker, key)
  {
  }

  lemma FragmentMayDeliver(d: State, t: State, marker: bool, sq: nat, src: seq<Byte>, key: bool)
    requires t.delivered == d.delivered && t.gotKeyframe == d.gotKeyframe && |src| >= 1
    ensures MayDeliver(d, FragmentStep(t, marker, sq, src, key).0, marker, key)
  {
    if |src| >= 2 {
      var fu := FuDecode(src[1]);
      var t1 := if fu.s then Started(t, src[0], fu.typ) else t;
      FinishMayDeliver(d, t1.(acc := t1.acc + src[2..], frag := !fu.e, fragSeq := sq), marker, key);
    }
  }

  lemma StepMayDeliver(d: State, marker: bool, sq: nat, src: seq<Byte>, key: bool)
    ensures MayDeliver(d, Step(d, marker, sq, src, key).0, marker, key)
  {
    if src != [] {
      var typ := src[0] & 0x1f;
      var d1 := if d.frag && typ != FU_A then d.Rewound().(frag := false) else d;
      if 1 <= typ <= 23 {
        FinishMayDeliver(d, d1.(acc := d1.acc + SC + src), marker, key);
      } else if typ == FU_A {
        FragmentMayDeliver(d, d1, marker, sq, src, key);
      } else if typ == STAP_A {
        FinishMayDeliver(d, d1.(acc := d1.acc + Stap(src[1..]).0), marker, key);
      }
    }
  }

  lemma {:induction false} FrameAtMostOne(d: State, ps: seq<Packet>, sq: nat, key: bool)
    requires MarkerOnlyLast(ps)
    ensures AtMostOne(d, Run(d, ps, sq, key), key)
    decreases |ps|
  {
    if ps == [] {
    } else {
      var p := ps[0];
      StepMayDeliver(d, p.marker, sq % 65536, p.Bytes(), key);
      var e := Step(d, p.marker, sq % 65536, p.Bytes(), key).0;
      if p.marker {
        assert ps[1..] == [];
        assert Run(e, [], sq + 1, key) == e;
      } else {
        assert forall i :: 0 <= i < |ps[1..]| - 1 ==> ps[1..][i] == ps[i + 1];
        FrameAtMostOne(e, ps[1..], sq + 1, key);
      }
    }
  }

  predicate AllMarkersLast(frames: seq<seq<Packet>>) { forall k :: 0 <= k < |frames| ==> MarkerOnlyLast(frames[k]) }

  /** As many pictures as frames at most, and none is taken back. */
  lemma {:induction false} RunAllAtMost(d: State, frames: seq<seq<Packet>>, sq: nat, keys: seq<bool>)
    requires |keys| == |frames| && AllMarkersLast(frames)
    ensures var e := RunAll(d, frames, sq, keys);
            d.delivered <= e.delivered && |e.delivered| <= |d.delivered| + |frames|
    decreases |frames|
  {
    if frames == [] {
    } else {
      FrameAtMostOne(d, frames[0], sq, keys[0]);
      RunAllAtMost(Run(d, frames[0], sq, keys[0]), frames[1..], sq + |frames[0]|, keys[1..]);
    }
  }

  /** A buffer the packetizer accepts. */
  ghost predicate Encoded(buf: seq<Byte>) { |buf| < SIZE_T && NoEmptyNal(buf) && FirstStart(buf) < |buf| }

  ghost predicate AllEncoded(bufs: seq<seq<Byte>>) { forall k :: 0 <= k < |bufs| ==> Encoded(bufs[k]) }

  lemma EncodedIsSendable(buf: seq<Byte>, pktsize: nat)
    requires Encoded(buf) && 2 < pktsize
    ensures Sendable(AllNals(buf)) && AllTerminate(AllNals(buf), pktsize)
  {
    SendableNals(buf);
    SendableTerminates(AllNals(buf), pktsize);
  }

  /** The packets of a frame. */
  ghost function Frame(buf: seq<Byte>, pktsize: nat): seq<Packet>
    requires Encoded(buf) && 2 < pktsize < SIZE_T
  {
    EncodedIsSendable(buf, pktsize);
    SendNals(AllNals(buf), pktsize)
  }

  /** Which packets of the frames the sender could queue. */
  ghost predicate Masks(bufs: seq<seq<Byte>>, kept: seq<seq<bool>>, pktsize: nat)
    requires AllEncoded(bufs) && 2 < pktsize < SIZE_T
  {
    |kept| == |bufs| && forall k :: 0 <= k < |bufs| ==> |kept[k]| == |Frame(bufs[k], pktsize)|
  }

  /** What is sent of the frames. */
  ghost function Frames(bufs: seq<seq<Byte>>, kept: seq<seq<bool>>, pktsize: nat): (frames: seq<seq<Packet>>)
    requires AllEncoded(bufs) && 2 < pktsize < SIZE_T && Masks(bufs, kept, pktsize)
    ensures |frames| == |bufs| && forall k :: 0 <= k < |bufs| ==> frames[k] == Keep(Frame(bufs[k], pktsize), kept[k])
  {
    seq(|bufs|, k requires 0 <= k < |bufs| => Keep(Frame(bufs[k], pktsize), kept[k]))
  }

  predicate AllKept(kept: seq<seq<bool>>) { forall k :: 0 <= k < |kept| ==> AllTrue(kept[k]) }

  lemma FramesTail(bufs: seq<seq<Byte>>, kept: seq<seq<bool>>, pktsize: nat)
    requires AllEncoded(bufs) && 2 < pktsize < SIZE_T && bufs != [] && Masks(bufs, kept, pktsize)
    ensures AllEncoded(bufs[1..]) && Masks(bufs[1..], kept[1..], pktsize)
    ensures Frames(bufs, kept, pktsize)[1..] == Frames(bufs[1..], kept[1..], pktsize)
    ensures Frames(bufs, kept, pktsize)[0] == Keep(Frame(bufs[0], pktsize), kept[0])
    ensures AllKept(kept) <==> AllTrue(kept[0]) && AllKept(kept[1..])
  {
    if AllTrue(kept[0]) && AllKept(kept[1..]) {
      forall k | 0 <= k < |kept| ensures AllTrue(kept[k]) {
        if k > 0 {
          assert kept[k] == kept[1..][k - 1];
        }
      }
    }
  }

  /** What the video decoder should get: every buffer from its first start code on. */
  ghost function Originals(bufs: seq<seq<Byte>>): (pictures: seq<seq<Byte>>)
    ensures |pictures| == |bufs|
  {
    if bufs == [] then [] else [bufs[0][FirstStart(bufs[0])..]] + Originals(bufs[1..])
  }

  ghost predicate FrameDeliverable(gotKeyframe: bool, buf: seq<Byte>, pktsize: nat)
    requires Encoded(buf) && 2 < pktsize < SIZE_T
  {
    EncodedIsSendable(buf, pktsize);
    AllDeliverable(0, gotKeyframe, AllNals(buf), pktsize)
  }

  /** Every NAL of every frame is deliverable; a frame that is reported as a key frame counts for the ones after it. */
  ghost predicate FramesDeliverable(gotKeyframe: bool, bufs: seq<seq<Byte>>, keys: seq<bool>, pktsize: nat)
    requires |keys| == |bufs| && AllEncoded(bufs) && 2 < pktsize < SIZE_T
    decreases |bufs|
  {
    bufs == [] ||
    (&& FrameDeliverable(gotKeyframe, bufs[0], pktsize)
     && FramesDeliverable(gotKeyframe || keys[0], bufs[1..], keys[1..], pktsize))
  }

  /** One frame. */
  lemma FrameExactly(d: State, buf: seq<Byte>, kept: seq<bool>, pktsize: nat, sq: nat, key: bool)
    requires Idle(d) && Encoded(buf) && 2 < pktsize < SIZE_T && |kept| == |Frame(buf, pktsize)|
    ensures var e := Run(d, Keep(Frame(buf, pktsize), kept), sq, key);
            && (e.delivered == d.delivered + [buf[FirstStart(buf)..]]
                <==> AllTrue(kept) && FrameDeliverable(d.gotKeyframe, buf, pktsize))
            && AtMostOne(d, e, key)
  {
    EncodedIsSendable(buf, pktsize);
    LaterMarkers(AllNals(buf), pktsize);
    KeepMarkers(Frame(buf, pktsize), kept);
    FrameAtMostOne(d, Keep(Frame(buf, pktsize), kept), sq, key);
    if AllTrue(kept) {
      KeepAll(Frame(buf, pktsize), kept);
      EndToEndExactly(d, buf, pktsize, sq, key);
    } else {
      DroppedIsLost(d, buf, pktsize, kept, sq, key);
    }
  }

  lemma FramesHaveMarkersLast(bufs: seq<seq<Byte>>, kept: seq<seq<bool>>, pktsize: nat)
    requires AllEncoded(bufs) && 2 < pktsize < SIZE_T && Masks(bufs, kept, pktsize)
    ensures AllMarkersLast(Frames(bufs, kept, pktsize))
  {
    forall k | 0 <= k < |bufs| ensures MarkerOnlyLast(Frames(bufs, kept, pktsize)[k]) {
      EncodedIsSendable(bufs[k], pktsize);
      LaterMarkers(AllNals(bufs[k]), pktsize);
      KeepMarkers(Frame(bufs[k], pktsize), kept[k]);
    }
  }

  /** From d over e to f, with as many pictures as there are frames: the first frame gave the first picture. */
  lemma FirstPicture(d: State, e: State, f: State, first: seq<Byte>, others: seq<seq<Byte>>, key: bool)
    requires AtMostOne(d, e, key) && e.delivered <= f.delivered && |f.delivered| <= |e.delivered| + |others|
    ensures f.delivered == d.delivered + ([first] + others)
            <==> e.delivered == d.delivered + [first] && f.delivered == e.delivered + others
  {
    assert d.delivered + [first] + others == d.delivered + ([first] + others);
    if f.delivered == d.delivered + ([first] + others) {
      assert |e.delivered| == |d.delivered| + 1;
      assert e.delivered == f.delivered[..|d.delivered| + 1];
    }
  }

  /** The first of several frames leads to e, all of them to f. */
  lemma {:induction false} FirstFrame(d: State, bufs: seq<seq<Byte>>, kept: seq<seq<bool>>, pktsize: nat, sq: nat,
                                      keys: seq<bool>)
    returns (e: State, f: State, sq1: nat)
    requires Idle(d) && AllEncoded(bufs) && 2 < pktsize < SIZE_T && |keys| == |bufs| && bufs != [] && Masks(bufs, kept, pktsize)
    ensures AllEncoded(bufs[1..]) && Masks(bufs[1..], kept[1..], pktsize)
    ensures AllKept(kept) <==> AllTrue(kept[0]) && AllKept(kept[1..])
    ensures f == RunAll(d, Frames(bufs, kept, pktsize), sq, keys)
              == RunAll(e, Frames(bufs[1..], kept[1..], pktsize), sq1, keys[1..])
    ensures AtMostOne(d, e, keys[0]) && e.delivered <= f.delivered && |f.delivered| <= |e.delivered| + |bufs| - 1
    ensures e.delivered == d.delivered + [bufs[0][FirstStart(bufs[0])..]]
            <==> AllTrue(kept[0]) && FrameDeliverable(d.gotKeyframe, bufs[0], pktsize)
  {
    var frames := Frames(bufs, kept, pktsize);
    FramesTail(bufs, kept, pktsize);
    FramesHaveMarkersLast(bufs[1..], kept[1..], pktsize);
    e, sq1 := Run(d, frames[0], sq, keys[0]), sq + |frames[0]|;
    f := RunAll(e, frames[1..], sq1, keys[1..]);
    FrameExactly(d, bufs[0], kept[0], pktsize, sq, keys[0]);
    RunAllAtMost(e, frames[1..], sq1, keys[1..]);
  }

  /**
   Any number of frames: an idle receiver hands all encoded buffers to the video decoder, unchanged and in order,
   if and only if every packet was queued and every NAL of every frame is deliverable.
   */
  lemma {:induction false} FramesExactly(d: State, bufs: seq<seq<Byte>>, kept: seq<seq<bool>>, pktsize: nat, sq: nat,
                                         keys: seq<bool>)
    requires Idle(d) && AllEncoded(bufs) && 2 < pktsize < SIZE_T && |keys| == |bufs| && Masks(bufs, kept, pktsize)
    ensures RunAll(d, Frames(bufs, kept, pktsize), sq, keys).delivered == d.delivered + Originals(bufs)
            <==> AllKept(kept) && FramesDeliverable(d.gotKeyframe, bufs, keys, pktsize)
    decreases |bufs|
  {
    if bufs == [] {
      assert d.delivered + [] == d.delivered;
    } else {
      var e, f, sq1 := FirstFrame(d, bufs, kept, pktsize, sq, keys);
      var first := bufs[0][FirstStart(bufs[0])..];
      FirstPicture(d, e, f, first, Originals(bufs[1..]), keys[0]);
      if e.delivered == d.delivered + [first] {
        assert |e.delivered| == |d.delivered| + 1;
        FramesExactly(e, bufs[1..], kept[1..], pktsize, sq1, keys[1..]);
      }
    }
  }

  // ---------------------------------------------------------------- the packets as they come

  /** The receiver over packets as they come; key(i) is what the video decoder reports if packet i completes a picture. */
  function Feed(d: State, ps: seq<Packet>, sq: nat, i: nat, key: nat -> bool): State
    decreases |ps|
  {
    if ps == [] then d
    else Feed(Step(d, ps[0].marker, sq % 65536, ps[0].Bytes(), key(i)).0, ps[1..], sq + 1, i + 1, key)
  }

  function Wire(frames: seq<seq<Packet>>): seq<Packet> {
    if frames == [] then [] else frames[0] + Wire(frames[1..])
  }

  /** The reports at the ends of the frames. */
  function Reports(frames: seq<seq<Packet>>, i: nat, key: nat -> bool): (keys: seq<bool>)
    ensures |keys| == |frames|
  {
    if frames == [] then []
    else [frames[0] != [] && key(i + |frames[0]| - 1)] + Reports(frames[1..], i + |frames[0]|, key)
  }

  lemma KeyWithoutMarker(d: State, p: Packet, sq: nat, k: bool, l: bool)
    requires p.marker ==> k == l
    ensures Step(d, p.marker, sq, p.Bytes(), k) == Step(d, p.marker, sq, p.Bytes(), l)
  {
  }

  lemma {:induction false} FeedAppend(d: State, a: seq<Packet>, b: seq<Packet>, sq: nat, i: nat, key: nat -> bool)
    ensures Feed(d, a + b, sq, i, key) == Feed(Feed(d, a, sq, i, key), b, sq + |a|, i + |a|, key)
    decreases |a|
  {
    if a == [] {
      assert a + b == b;
    } else {
      assert (a + b)[1..] == a[1..] + b;
      FeedAppend(Step(d, a[0].marker, sq % 65536, a[0].Bytes(), key(i)).0, a[1..], b, sq + 1, i + 1, key);
    }
  }

  lemma MarkerTail(ps: seq<Packet>)
    requires ps != [] && MarkerOnlyLast(ps)
    ensures MarkerOnlyLast(ps[1..]) && (ps[0].marker ==> |ps| == 1)
  {
    assert forall j :: 0 <= j < |ps[1..]| ==> ps[1..][j] == ps[j + 1];
  }

  /** Within a frame only the report at its end matters. */
  lemma {:induction false} FeedIsRun(d: State, ps: seq<Packet>, sq: nat, i: nat, key: nat -> bool, k: bool)
    requires MarkerOnlyLast(ps) && (ps != [] ==> key(i + |ps| - 1) == k)
    ensures Feed(d, ps, sq, i, key) == Run(d, ps, sq, k)
    decreases |ps|
  {
    if ps == [] {
    } else {
      MarkerTail(ps);
      KeyWithoutMarker(d, ps[0], sq % 65536, k, key(i));
      FeedIsRun(Step(d, ps[0].marker, sq % 65536, ps[0].Bytes(), k).0, ps[1..], sq + 1, i + 1, key, k);
    }
  }

  lemma {:induction false} RunAllCons(d: State, frame: seq<Packet>, frames: seq<seq<Packet>>, sq: nat, k: bool, keys: seq<bool>)
    requires |keys| == |frames|
    ensures RunAll(d, [frame] + frames, sq, [k] + keys) == RunAll(Run(d, frame, sq, k), frames, sq + |frame|, keys)
  {
    assert ([frame] + frames)[1..] == frames && ([k] + keys)[1..] == keys;
  }

  /** Feeding the packets of all frames is running the frames one by one. */
  lemma {:induction false} FeedAll(d: State, frames: seq<seq<Packet>>, sq: nat, i: nat, key: nat -> bool)
    requires AllMarkersLast(frames)
    ensures Feed(d, Wire(frames), sq, i, key) == RunAll(d, frames, sq, Reports(frames, i, key))
    decreases |frames|
  {
    if frames == [] {
    } else {
      var frame, others := frames[0], frames[1..];
      var k := frame != [] && key(i + |frame| - 1);
      assert [frame] + others == frames;
      FeedAppend(d, frame, Wire(others), sq, i, key);
      FeedIsRun(d, frame, sq, i, key, k);
      FeedAll(Run(d, frame, sq, k), others, sq + |frame|, i + |frame|, key);
      RunAllCons(d, frame, others, sq, k, Reports(others, i + |frame|, key));
    }
  }
}
