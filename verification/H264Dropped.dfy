/**
 A sender that runs out of memory: packet_handler of baresip/src/video.c does not queue a packet, and since sequence
 numbers are given on sending, the receiver cannot see that it is missing.

 A frame of which a packet was dropped never arrives as it was sent: what is left weighs too little.
 */
module H264Dropped {
  import opened H264Startcode
  import opened H264Packetize
  import opened H264Depacketize
  import opened H264RoundTrip
  import opened H264Weight
  import opened H264Exact

  /** The packets that are queued. */
  function Keep(ps: seq<Packet>, kept: seq<bool>): seq<Packet>
    requires |kept| == |ps|
  {
    if ps == [] then []
    else if kept[0] then [ps[0]] + Keep(ps[1..], kept[1..])
    else Keep(ps[1..], kept[1..])
  }

  predicate AllTrue(kept: seq<bool>) { forall i :: 0 <= i < |kept| ==> kept[i] }

  lemma {:induction false} KeepAll(ps: seq<Packet>, kept: seq<bool>)
    requires |kept| == |ps| && AllTrue(kept)
    ensures Keep(ps, kept) == ps
    decreases |ps|
  {
    if ps == [] {
    } else {
      KeepAll(ps[1..], kept[1..]);
    }
  }

  lemma AllTrueCons(kept: seq<bool>)
    requires kept != []
    ensures AllTrue(kept) <==> kept[0] && AllTrue(kept[1..])
  {
    if kept[0] && AllTrue(kept[1..]) {
      forall i | 0 <= i < |kept| ensures kept[i] {
        if i > 0 {
          assert kept[i] == kept[1..][i - 1];
        }
      }
    }
  }

  lemma {:induction false} KeepAppend(a: seq<Packet>, b: seq<Packet>, kept: seq<bool>)
    requires |kept| == |a| + |b|
    ensures Keep(a + b, kept) == Keep(a, kept[..|a|]) + Keep(b, kept[|a|..])
    ensures AllTrue(kept) <==> AllTrue(kept[..|a|]) && AllTrue(kept[|a|..])
    decreases |a|
  {
    if a == [] {
      assert a + b == b && kept[0..] == kept;
    } else {
      KeepAppend(a[1..], b, kept[1..]);
      assert (a + b)[1..] == a[1..] + b;
      assert kept[..|a|][1..] == kept[1..][..|a| - 1] && kept[1..][|a| - 1..] == kept[|a|..];
      AllTrueCons(kept);
      AllTrueCons(kept[..|a|]);
    }
  }

  lemma {:induction false} KeepMarkers(ps: seq<Packet>, kept: seq<bool>)
    requires |kept| == |ps| && MarkerOnlyLast(ps)
    ensures MarkerOnlyLast(Keep(ps, kept)) && |Keep(ps, kept)| <= |ps|
    decreases |ps|
  {
    if ps == [] {
    } else {
      assert forall i :: 0 <= i < |ps[1..]| ==> ps[1..][i] == ps[i + 1];
      KeepMarkers(ps[1..], kept[1..]);
      if kept[0] {
        var rest := Keep(ps[1..], kept[1..]);
        assert forall i :: 1 <= i < |Keep(ps, kept)| ==> Keep(ps, kept)[i] == rest[i - 1];
      }
    }
  }

  // ---------------------------------------------------------------- what is left weighs too little

  /** One less if something is missing. */
  function Less(n: nat, kept: seq<bool>): int { if AllTrue(kept) then n else n - 1 }

  lemma KeepFirst(ps: seq<Packet>, kept: seq<bool>)
    requires |kept| == |ps| >= 1
    ensures CostAll(Keep(ps, kept)) == (if kept[0] then Cost(ps[0].Bytes()) else 0) + CostAll(Keep(ps[1..], kept[1..]))
  {
    if kept[0] {
      var rest := Keep(ps[1..], kept[1..]);
      assert Keep(ps, kept)[1..] == rest;
    }
  }

  lemma {:induction false} KeptFragmentsCost(hdr: Byte, s: bool, marker: bool, body: seq<Byte>, sz: nat, kept: seq<bool>)
    requires sz > 0 && body != [] && |kept| == |Fragments(hdr, s, true, marker, body, sz)|
    ensures CostAll(Keep(Fragments(hdr, s, true, marker, body, sz), kept)) <= Less(|body| + (if s then 1 else 0), kept)
    decreases |body|
  {
    var ps := Fragments(hdr, s, true, marker, body, sz);
    FragmentCost(ps[0], hdr, s, |body| <= sz);
    KeepFirst(ps, kept);
    AllTrueCons(kept);
    if |body| > sz {
      var tail := Fragments(hdr, false, true, marker, body[sz..], sz);
      assert ps[1..] == tail;
      KeptFragmentsCost(hdr, false, marker, body[sz..], sz, kept[1..]);
    } else {
      assert ps[1..] == [] && kept[1..] == [];
    }
  }

  lemma {:induction false} KeptNalCost(nal: seq<Byte>, marker: bool, pktsize: nat, kept: seq<bool>)
    requires nal != [] && |nal| < SIZE_T && 2 < pktsize < SIZE_T
    requires |kept| == |NalPackets(true, true, marker, nal[0], nal[1..], pktsize)|
    ensures CostAll(Keep(NalPackets(true, true, marker, nal[0], nal[1..], pktsize), kept)) <= Less(|nal|, kept)
  {
    WholeNalPackets(marker, nal[0], nal[1..], pktsize);
    if |nal| - 1 <= pktsize {
      var p := Packet(marker, [nal[0]], nal[1..]);
      WholeCost(nal, marker);
      KeepFirst([p], kept);
      assert [p][1..] == [] && kept[1..] == [];
      AllTrueCons(kept);
      assert CostAll([p]) == Cost(p.Bytes()) + CostAll([]);
    } else {
      KeptFragmentsCost(nal[0], true, marker, nal[1..], pktsize - 2, kept);
    }
  }

  lemma {:induction false} KeptCost(nals: seq<seq<Byte>>, pktsize: nat, kept: seq<bool>)
    requires Sendable(nals) && 2 < pktsize < SIZE_T && AllTerminate(nals, pktsize) && |kept| == |SendNals(nals, pktsize)|
    ensures CostAll(Keep(SendNals(nals, pktsize), kept)) <= Less(Total(nals), kept)
    decreases |nals|
  {
    if nals == [] {
    } else {
      var ps := NalPackets(true, true, |nals| == 1, nals[0][0], nals[0][1..], pktsize);
      var qs := SendNals(nals[1..], pktsize);
      assert SendNals(nals, pktsize) == ps + qs;
      KeepAppend(ps, qs, kept);
      KeptNalCost(nals[0], |nals| == 1, pktsize, kept[..|ps|]);
      KeptCost(nals[1..], pktsize, kept[|ps|..]);
      CostAppend(Keep(ps, kept[..|ps|]), Keep(qs, kept[|ps|..]));
    }
  }

  /** A frame of which a packet was dropped does not arrive as it was sent, although the sequence numbers show no gap. */
  lemma {:induction false} DroppedIsLost(d: State, buf: seq<Byte>, pktsize: nat, kept: seq<bool>, sq: nat, key: bool)
    requires d.acc == [] && !d.frag && |buf| < SIZE_T && 2 < pktsize < SIZE_T && NoEmptyNal(buf)
    requires AllTerminate(AllNals(buf), pktsize) && |kept| == |SendNals(AllNals(buf), pktsize)| && !AllTrue(kept)
    ensures Run(d, Keep(SendNals(AllNals(buf), pktsize), kept), sq, key).delivered != d.delivered + [buf[FirstStart(buf)..]]
  {
    var nals, target := AllNals(buf), buf[FirstStart(buf)..];
    SendableNals(buf);
    KeptCost(nals, pktsize, kept);
    JoinOfNals(buf, FirstStart(buf));
    JoinWeight(nals);
    LaterMarkers(nals, pktsize);
    KeepMarkers(SendNals(nals, pktsize), kept);
    assert Weight([]) == 0;
    assert Doomed(d, target, 1);
    RunDoomed(d, Keep(SendNals(nals, pktsize), kept), sq, key, target, 1);
  }
}
