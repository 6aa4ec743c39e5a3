/**
 The other half of the H.264 round trip: a picture reaches the video decoder unchanged only if every NAL
 of it is deliverable.

 A NAL that is not taken in as it is may be dropped, cut, or taken for an aggregation of other NALs, and
 later NALs may continue it.  In each case it adds less than it weighs, empties the buffer, or changes a byte for
 good.
 */
module H264Exact {
  import opened H264Startcode
  import opened H264Packetize
  import opened H264Depacketize
  import opened H264RoundTrip
  import opened H264Weight

  // ---------------------------------------------------------------- the first NAL that is not deliverable

  /** The outcome of a NAL: another picture with it, or a doomed buffer without it. */
  ghost predicate Loses(d: State, e: State, marker: bool, target: seq<Byte>, k: int) {
    if marker then e.delivered != d.delivered + [target]
    else e.delivered == d.delivered && Doomed(e, target, k)
  }

  lemma EmptiedLoses(d: State, e: State, marker: bool, target: seq<Byte>, k: int)
    requires Emptied(d, e) && k >= 1
    ensures Loses(d, e, marker, target, k)
  {
    assert Weight([]) == 0;
    assert Light(e, k - 1);
    assert |d.delivered| < |d.delivered + [target]|;
  }

  lemma LightPicture(d: State, e: State, target: seq<Byte>, k: int)
    requires e.delivered == d.delivered || (exists x :: e.delivered == d.delivered + [x] && Weight(x) <= k)
    requires Weight(target) > k
    ensures e.delivered != d.delivered + [target]
  {
    if e.delivered != d.delivered {
      var x :| e.delivered == d.delivered + [x] && Weight(x) <= k;
      LastInjective(d.delivered, x, target);
    }
  }

  /** A NAL sent as one packet. */
  lemma SingleLoses(d: State, nal: seq<Byte>, marker: bool, sq: nat, key: bool, target: seq<Byte>, k: int)
    requires !d.frag && Light(d, k) && nal != []
    requires marker ==> Weight(target) >= k + |nal|
    requires !(&& nal[0] & 0x80 == 0 && 1 <= nal[0] & 0x1f <= 23
               && (nal[0] & 0x1f == NAL_SLICE ==> d.gotKeyframe)
               && (marker || |d.acc| + 3 + |nal| <= DECODE_MAXSZ))
    ensures Loses(d, Step(d, marker, sq, nal, key).0, marker, target, k + |nal|)
  {
    var e := Step(d, marker, sq, nal, key).0;
    var typ := nal[0] & 0x1f;
    if (typ == FU_A || typ == STAP_A) && nal[0] & 0x80 == 0 {
      StepLight(d, marker, sq, nal, key, k);
      assert Cost(nal) <= |nal| - 1;
      if marker {
        LightPicture(d, e, target, k + Cost(nal));
      } else {
        LightMonotone(e, k + Cost(nal), k + |nal| - 1);
      }
    } else if e == d {
      LightMonotone(d, k, k + |nal| - 1);
      assert |d.delivered| < |d.delivered + [target]|;
    } else {
      assert |d.acc + SC + nal| == |d.acc| + 3 + |nal|;
      EmptiedLoses(d, e, marker, target, k + |nal|);
    }
  }

  lemma ChangedHeaderLoses(d: State, e: State, nal: seq<Byte>, h: Byte, marker: bool, key: bool, target: seq<Byte>, k: int)
    requires nal != [] && h != nal[0] && k >= 0 && TookBytes(d, e, SC + [h] + nal[1..], marker, key)
    requires d.acc + (SC + nal) <= target && (marker ==> target == d.acc + (SC + nal))
    ensures Loses(d, e, marker, target, k + |nal|)
  {
    var x, i := d.acc + (SC + [h] + nal[1..]), |d.acc| + 3;
    assert (d.acc + (SC + nal))[i] == nal[0];
    assert target[i] == nal[0] && x[i] == h;
    if marker {
      LastInjective(d.delivered, x, target);
    } else {
      assert Differs(e, target, i);
    }
  }

  /** A fragmented NAL. */
  lemma FragmentedLoses(d: State, nal: seq<Byte>, marker: bool, sz: nat, sq: nat, key: bool, target: seq<Byte>, k: int)
    requires !d.frag && k >= 0 && sz > 0 && |nal| > 1 + sz
    requires d.acc + (SC + nal) <= target && (marker ==> target == d.acc + (SC + nal))
    requires !(nal[0] & 0x80 == 0 && Fits(|d.acc|, 3 + |nal|, marker, LastFragment(|nal| - 1, sz)))
    ensures Loses(d, Run(d, Fragments(nal[0], true, true, marker, nal[1..], sz), sq, key), marker, target, k + |nal|)
  {
    var d1 := AfterFirstFragment(d, nal, marker, sz, sq, key);
    var h := nal[0] & 0x7f;
    IndicatorBits(nal[0]);
    FragmentedFrom(d, d1, h, nal[1..], sz, marker, sq, key);
    var e := Collect(Finish(d1, false, key).0, nal[1..][sz..], sz, marker, sq + 1, key);
    if Fits(|d.acc|, 3 + |nal|, marker, LastFragment(|nal| - 1, sz)) {
      ChangedHeaderLoses(d, e, nal, h, marker, key, target, k);
    } else {
      EmptiedLoses(d, e, marker, target, k + |nal|);
    }
  }

  /** A NAL that is not deliverable loses the picture. */
  lemma {:induction false} NalLoses(d: State, nal: seq<Byte>, marker: bool, pktsize: nat, sq: nat, key: bool,
                                    target: seq<Byte>, k: int)
    requires !d.frag && Light(d, k) && nal != [] && |nal| < SIZE_T && 2 < pktsize < SIZE_T
    requires d.acc + (SC + nal) <= target && (marker ==> target == d.acc + (SC + nal) && Weight(target) >= k + |nal|)
    requires !Deliverable(|d.acc|, d.gotKeyframe, nal, marker, pktsize)
    ensures Loses(d, Run(d, NalPackets(true, true, marker, nal[0], nal[1..], pktsize), sq, key), marker, target, k + |nal|)
  {
    WholeNalPackets(marker, nal[0], nal[1..], pktsize);
    if |nal| - 1 <= pktsize {
      OnePacket(d, nal, marker, sq, key);
      SingleLoses(d, nal, marker, sq % 65536, key, target, k);
    } else {
      FragmentedLoses(d, nal, marker, pktsize - 2, sq, key, target, k);
    }
  }

  // ---------------------------------------------------------------- whole pictures

  lemma {:induction false} LastNalArrived(d: State, nals: seq<seq<Byte>>, pktsize: nat, sq: nat, key: bool,
                                          target: seq<Byte>, k: int)
    requires !d.frag && Light(d, k) && 2 < pktsize < SIZE_T && |nals| == 1
    requires Sendable(nals) && AllTerminate(nals, pktsize)
    requires target == d.acc + Join(nals) && Weight(target) >= k + Total(nals)
    requires Run(d, SendNals(nals, pktsize), sq, key).delivered == d.delivered + [target]
    ensures Deliverable(|d.acc|, d.gotKeyframe, nals[0], true, pktsize)
  {
    var nal := nals[0];
    var ps := NalPackets(true, true, true, nal[0], nal[1..], pktsize);
    JoinSingle(nals);
    assert nals[1..] == [];
    assert Total(nals) == |nal| + Total([]);
    assert SendNals([], pktsize) == [];
    assert SendNals(nals, pktsize) == ps + [];
    assert ps + [] == ps;
    if !Deliverable(|d.acc|, d.gotKeyframe, nal, true, pktsize) {
      NalLoses(d, nal, true, pktsize, sq, key, target, k);
    }
  }

  lemma {:induction false} AfterFirst(d: State, nals: seq<seq<Byte>>, pktsize: nat, sq: nat, key: bool) returns (e: State, n: nat)
    requires |nals| > 1 && 2 < pktsize < SIZE_T && AllTerminate(nals, pktsize)
    ensures AllTerminate(nals[1..], pktsize)
    ensures e == Run(d, NalPackets(true, true, false, nals[0][0], nals[0][1..], pktsize), sq, key)
    ensures Run(d, SendNals(nals, pktsize), sq, key) == Run(e, SendNals(nals[1..], pktsize), sq + n, key)
  {
    e, n := SendFirst(d, nals, false, pktsize, sq, key);
  }

  lemma PictureSplit(nals: seq<seq<Byte>>, acc: seq<Byte>, pktsize: nat)
    requires nals != [] && Sendable(nals) && WellFormed(nals) && AllTerminate(nals, pktsize)
    ensures nals[0] != [] && |nals[0]| < SIZE_T && NoInnerCode(nals[0], |nals| == 1)
    ensures Sendable(nals[1..]) && WellFormed(nals[1..]) && AllTerminate(nals[1..], pktsize)
    ensures acc + Join(nals) == acc + (SC + nals[0]) + Join(nals[1..]) && Total(nals) == |nals[0]| + Total(nals[1..])
  {
    WellFormedTail(nals);
    JoinStep(acc, nals);
  }

  lemma LaterMarkers(nals: seq<seq<Byte>>, pktsize: nat)
    requires pktsize < SIZE_T && AllTerminate(nals, pktsize)
    ensures MarkerOnlyLast(SendNals(nals, pktsize))
  {
    MarkerOnLastPacketOnly(nals, pktsize);
  }

  lemma RestDoomed(e: State, rest: seq<seq<Byte>>, pktsize: nat, sq: nat, key: bool, target: seq<Byte>, k: int)
    requires 2 < pktsize < SIZE_T && Sendable(rest) && AllTerminate(rest, pktsize)
    requires Doomed(e, target, k) && Weight(target) >= k + Total(rest)
    ensures Run(e, SendNals(rest, pktsize), sq, key).delivered != e.delivered + [target]
  {
    SendCost(rest, pktsize);
    LaterMarkers(rest, pktsize);
    RunDoomed(e, SendNals(rest, pktsize), sq, key, target, k);
  }

  /** A NAL that is not deliverable loses the picture, whatever NAL units follow it. */
  lemma {:induction false} FirstLoses(d: State, nal: seq<Byte>, rest: seq<seq<Byte>>, pktsize: nat, sq: nat, sq1: nat, key: bool,
                                      target: seq<Byte>, k: int)
    requires !d.frag && Light(d, k) && 2 < pktsize < SIZE_T && nal != [] && |nal| < SIZE_T
    requires Sendable(rest) && AllTerminate(rest, pktsize)
    requires d.acc + (SC + nal) <= target && Weight(target) >= k + |nal| + Total(rest)
    requires !Deliverable(|d.acc|, d.gotKeyframe, nal, false, pktsize)
    ensures var e := Run(d, NalPackets(true, true, false, nal[0], nal[1..], pktsize), sq, key);
            Run(e, SendNals(rest, pktsize), sq1, key).delivered != d.delivered + [target]
  {
    NalLoses(d, nal, false, pktsize, sq, key, target, k);
    RestDoomed(Run(d, NalPackets(true, true, false, nal[0], nal[1..], pktsize), sq, key),
               rest, pktsize, sq1, key, target, k + |nal|);
  }

  lemma TookLight(d: State, e: State, nal: seq<Byte>, key: bool, k: int)
    requires Light(d, k) && nal != [] && Took(d, e, nal, false, key)
    ensures Light(e, k + |nal|)
  {
    WeightBehindCode(nal);
    WeightAppend(d.acc, SC + nal);
  }

  /** A NAL before the last one was deliverable, and the receiver has taken it in. */
  lemma {:induction false} NextNalArrived(d: State, e: State, nal: seq<Byte>, rest: seq<seq<Byte>>, pktsize: nat,
                                          sq: nat, sq1: nat, key: bool, target: seq<Byte>, k: int)
    requires !d.frag && Light(d, k) && 2 < pktsize < SIZE_T && nal != [] && |nal| < SIZE_T && NoInnerCode(nal, false)
    requires Sendable(rest) && AllTerminate(rest, pktsize)
    requires target == d.acc + (SC + nal) + Join(rest) && Weight(target) >= k + |nal| + Total(rest)
    requires e == Run(d, NalPackets(true, true, false, nal[0], nal[1..], pktsize), sq, key)
    requires Run(e, SendNals(rest, pktsize), sq1, key).delivered == d.delivered + [target]
    ensures Deliverable(|d.acc|, d.gotKeyframe, nal, false, pktsize) && Took(d, e, nal, false, key)
    ensures Light(e, k + |nal|)
  {
    if !Deliverable(|d.acc|, d.gotKeyframe, nal, false, pktsize) {
      FirstLoses(d, nal, rest, pktsize, sq, sq1, key, target, k);
    }
    NalRoundTrip(d, nal, false, pktsize, sq, key);
    TookLight(d, e, nal, key, k);
  }

  /** The first of several NAL units was deliverable, and the rest of the picture arrives behind it. */
  lemma {:induction false} FirstArrived(d: State, nals: seq<seq<Byte>>, pktsize: nat, sq: nat, key: bool,
                                        target: seq<Byte>, k: int) returns (e: State, n: nat)
    requires !d.frag && Light(d, k) && 2 < pktsize < SIZE_T && |nals| > 1
    requires Sendable(nals) && WellFormed(nals) && AllTerminate(nals, pktsize)
    requires target == d.acc + Join(nals) && Weight(target) >= k + Total(nals)
    requires Run(d, SendNals(nals, pktsize), sq, key).delivered == d.delivered + [target]
    ensures Deliverable(|d.acc|, d.gotKeyframe, nals[0], false, pktsize)
    ensures !e.frag && Light(e, k + |nals[0]|) && e.gotKeyframe == d.gotKeyframe && |e.acc| == |d.acc| + 3 + |nals[0]|
    ensures Sendable(nals[1..]) && WellFormed(nals[1..]) && AllTerminate(nals[1..], pktsize)
    ensures target == e.acc + Join(nals[1..]) && Weight(target) >= k + |nals[0]| + Total(nals[1..])
    ensures Run(e, SendNals(nals[1..], pktsize), sq + n, key).delivered == e.delivered + [target]
  {
    var nal, rest := nals[0], nals[1..];
    PictureSplit(nals, d.acc, pktsize);
    e, n := AfterFirst(d, nals, pktsize, sq, key);
    NextNalArrived(d, e, nal, rest, pktsize, sq, sq + n, key, target, k);
  }

  /** A picture that arrives as it was sent had only deliverable NAL units. */
  lemma {:induction false} ArrivedIsDeliverable(d: State, nals: seq<seq<Byte>>, pktsize: nat, sq: nat, key: bool,
                                                target: seq<Byte>, k: int)
    requires !d.frag && Light(d, k) && 2 < pktsize < SIZE_T
    requires Sendable(nals) && WellFormed(nals) && AllTerminate(nals, pktsize)
    requires target == d.acc + Join(nals) && Weight(target) >= k + Total(nals)
    requires Run(d, SendNals(nals, pktsize), sq, key).delivered == d.delivered + [target]
    ensures AllDeliverable(|d.acc|, d.gotKeyframe, nals, pktsize)
    decreases |nals|
  {
    if nals == [] {
    } else if |nals| == 1 {
      LastNalArrived(d, nals, pktsize, sq, key, target, k);
      SingleDeliverable(|d.acc|, d.gotKeyframe, nals, pktsize);
    } else {
      var e, n := FirstArrived(d, nals, pktsize, sq, key, target, k);
      ArrivedIsDeliverable(e, nals[1..], pktsize, sq + n, key, target, k + |nals[0]|);
      MoreDeliverable(|d.acc|, |e.acc|, d.gotKeyframe, nals, pktsize);
    }
  }

  /** A buffer that arrives as it was sent had only deliverable NAL units. */
  lemma {:induction false} OnlyIfDeliverable(d: State, buf: seq<Byte>, nals: seq<seq<Byte>>, pktsize: nat, sq: nat, key: bool)
    requires d.acc == [] && !d.frag && 2 < pktsize < SIZE_T && nals == AllNals(buf)
    requires Sendable(nals) && WellFormed(nals) && AllTerminate(nals, pktsize)
    requires Run(d, SendNals(nals, pktsize), sq, key).delivered == d.delivered + [buf[FirstStart(buf)..]]
    ensures AllDeliverable(0, d.gotKeyframe, nals, pktsize)
  {
    var target := buf[FirstStart(buf)..];
    JoinOfNals(buf, FirstStart(buf));
    JoinWeight(nals);
    assert d.acc + Join(nals) == target;
    assert Weight([]) == 0;
    ArrivedIsDeliverable(d, nals, pktsize, sq, key, target, 0);
  }

  /**
   End to end, exactly: an idle receiver hands the video decoder the buffer that was packetized, from its first
   start code onwards, if and only if every NAL of it is deliverable.
   */
  lemma {:induction false} EndToEndExactly(d: State, buf: seq<Byte>, pktsize: nat, sq: nat, key: bool)
    requires d.acc == [] && !d.frag
    requires |buf| < SIZE_T && 2 < pktsize < SIZE_T && NoEmptyNal(buf) && FirstStart(buf) < |buf|
    ensures Sendable(AllNals(buf)) && AllTerminate(AllNals(buf), pktsize)
    ensures Run(d, SendNals(AllNals(buf), pktsize), sq, key).delivered == d.delivered + [buf[FirstStart(buf)..]]
            <==> AllDeliverable(0, d.gotKeyframe, AllNals(buf), pktsize)
  {
    var nals := AllNals(buf);
    SendableNals(buf);
    SendableTerminates(nals, pktsize);
    if AllDeliverable(0, d.gotKeyframe, nals, pktsize) {
      EndToEnd(d, buf, pktsize, sq, key);
    }
    if Run(d, SendNals(nals, pktsize), sq, key).delivered == d.delivered + [buf[FirstStart(buf)..]] {
      OnlyIfDeliverable(d, buf, nals, pktsize, sq, key);
    }
  }
}
