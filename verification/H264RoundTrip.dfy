/**
 The packetizer of baresip/src/h264.c against the receiver of baresip/modules/avcodec/decode.c:
 the receiver rebuilds the byte stream NAL by NAL exactly when every NAL is deliverable.
 */
module H264RoundTrip {
  import opened H264Startcode
  import opened H264Packetize
  import opened H264Depacketize

  ghost predicate TookBytes(d: State, e: State, bytes: seq<Byte>, marker: bool, key: bool) {
    && !e.frag
    && e.lost == d.lost
    && if marker
       then e.acc == [] && e.delivered == d.delivered + [d.acc + bytes] && e.gotKeyframe == (d.gotKeyframe || key)
       else e.acc == d.acc + bytes && e.delivered == d.delivered && e.gotKeyframe == d.gotKeyframe
  }

  /** From d to e the receiver took in exactly the NAL, and handed the picture on if the marker was set. */
  ghost predicate Took(d: State, e: State, nal: seq<Byte>, marker: bool, key: bool) {
    TookBytes(d, e, SC + nal, marker, key)
  }

  /** The receiver gave up: its buffer is empty and nothing was handed on. */
  ghost predicate Emptied(d: State, e: State) { e.acc == [] && !e.frag && e.delivered == d.delivered }

  /** Length of the last fragment when size bytes are cut every sz bytes. */
  function LastFragment(size: nat, sz: nat): (n: nat)
    requires sz > 0 || size == 0
    ensures n <= size && (size > 0 ==> n > 0)
    decreases size
  {
    if size > sz then LastFragment(size - sz, sz) else size
  }

  /** The bytes buffered whenever a packet without marker is complete stay within the receiver's limit. */
  predicate Fits(buffered: nat, size: nat, marker: bool, last: nat) {
    buffered + size - (if marker then last else 0) <= 524288
  }

  /**
   A NAL the receiver can rebuild behind a buffer of the given length.  The forbidden bit must be clear.
   A NAL that goes out as a packet of its own must not carry one of the types RFC 6184 uses for
   packets that are not NALs, and a slice needs an earlier key frame.
   */
  predicate Deliverable(buffered: nat, gotKeyframe: bool, nal: seq<Byte>, marker: bool, pktsize: nat)
    requires nal != [] && pktsize > 2
  {
    && nal[0] & 0x80 == 0
    && if |nal| - 1 <= pktsize then
         && 1 <= nal[0] & 0x1f <= 23
         && (nal[0] & 0x1f == 1 ==> gotKeyframe)
         && (marker || buffered + 3 + |nal| <= 524288)
       else
         Fits(buffered, 3 + |nal|, marker, LastFragment(|nal| - 1, pktsize - 2))
  }

  // ---------------------------------------------------------------- fragments

  lemma IndicatorBits(hdr: Byte)
    ensures var i := (hdr & 0x60) | FU_A; i & 0x1f == FU_A && i & 0x80 == 0 && (i & 0x60) | (hdr & 0x1f) == hdr & 0x7f
    ensures hdr & 0x7f == hdr <==> hdr & 0x80 == 0
  {
  }

  /** A fragment that does not start a NAL, seen from the receiver. */
  function Continue(d: State, payload: seq<Byte>, e: bool, marker: bool, sq: nat, key: bool): State {
    if !d.frag then d.(lost := d.lost + 1)
    else if (sq - d.fragSeq) % 65536 != 1 then d.Rewound().(frag := false)
    else Finish(d.(acc := d.acc + payload, frag := !e, fragSeq := sq), marker, key).0
  }

  /** The receiver over the fragments of body behind the first one. */
  function Collect(d: State, body: seq<Byte>, sz: nat, marker: bool, sq: nat, key: bool): State
    requires sz > 0
    decreases |body|
  {
    if |body| > sz
    then Collect(Continue(d, body[..sz], false, false, sq % 65536, key), body[sz..], sz, marker, sq + 1, key)
    else Continue(d, body, true, marker, sq % 65536, key)
  }

  lemma StartedBits(d: State, hdr: Byte)
    ensures Started(d, (hdr & 0x60) | FU_A, hdr & 0x1f) == Started(d, hdr, hdr & 0x1f)
    ensures !d.frag ==> Started(d, hdr, hdr & 0x1f)
                        == d.(fragStart := |d.acc|, frag := true, acc := d.acc + SC + [hdr & 0x7f])
  {
    assert ((hdr & 0x60) | FU_A) & 0x60 == hdr & 0x60;
    assert (hdr & 0x60) | (hdr & 0x1f) == hdr & 0x7f;
  }

  lemma StepOnFragment(d: State, p: Packet, hdr: Byte, s: bool, e: bool, sq: nat, key: bool)
    requires p.hdr == [(hdr & 0x60) | FU_A, FuHeader(s, e, hdr & 0x1f)]
    ensures Step(d, p.marker, sq, p.Bytes(), key).0
         == if s then
              var d1 := Started(d, hdr, hdr & 0x1f);
              Finish(d1.(acc := d1.acc + p.payload, frag := !e, fragSeq := sq), p.marker, key).0
            else Continue(d, p.payload, e, p.marker, sq, key)
  {
    IndicatorBits(hdr);
    FuRoundTrip(s, e, hdr);
    var src := p.Bytes();
    assert src[0] == p.hdr[0] && src[1] == p.hdr[1] && src[2..] == p.payload;
    StartedBits(d, hdr);
  }

  lemma {:induction false} RunIsCollect(d: State, hdr: Byte, marker: bool, body: seq<Byte>, sz: nat, sq: nat, key: bool)
    requires sz > 0
    ensures Run(d, Fragments(hdr, false, true, marker, body, sz), sq, key) == Collect(d, body, sz, marker, sq, key)
    decreases |body|
  {
    var ps := Fragments(hdr, false, true, marker, body, sz);
    StepOnFragment(d, ps[0], hdr, false, |body| <= sz, sq % 65536, key);
    if |body| > sz {
      assert ps[1..] == Fragments(hdr, false, true, marker, body[sz..], sz);
      RunIsCollect(Continue(d, body[..sz], false, false, sq % 65536, key), hdr, marker, body[sz..], sz, sq + 1, key);
    } else {
      assert ps[1..] == [];
    }
  }

  /** Without a started NAL, further fragments are only counted as lost. */
  lemma {:induction false} DeadFragments(d: State, body: seq<Byte>, sz: nat, marker: bool, sq: nat, key: bool)
    requires sz > 0 && !d.frag
    ensures var e := Collect(d, body, sz, marker, sq, key); e.lost > d.lost && e == d.(lost := e.lost)
    decreases |body|
  {
    if |body| > sz {
      DeadFragments(d.(lost := d.lost + 1), body[sz..], sz, marker, sq + 1, key);
    }
  }

  /** The fragments after the first one complete the NAL if the buffer limit allows it, and only then. */
  lemma {:induction false} TailFragments(d: State, body: seq<Byte>, sz: nat, marker: bool, sq: nat, key: bool)
    requires sz > 0 && d.frag && |d.acc| <= DECODE_MAXSZ && (sq - d.fragSeq) % 65536 == 1
    ensures var e := Collect(d, body, sz, marker, sq, key);
            if Fits(|d.acc|, |body|, marker, LastFragment(|body|, sz))
            then TookBytes(d, e, body, marker, key)
            else Emptied(d, e) && (e.lost > d.lost || (!marker && e.lost == d.lost))
    decreases |body|
  {
    if |body| > sz {
      var d1 := d.(acc := d.acc + body[..sz], fragSeq := sq % 65536);
      if |d1.acc| <= DECODE_MAXSZ {
        TailFragments(d1, body[sz..], sz, marker, sq + 1, key);
        assert d1.acc + body[sz..] == d.acc + body;
      } else {
        DeadFragments(d1.Reset(), body[sz..], sz, marker, sq + 1, key);
      }
    }
  }

  lemma LastInjective(l: seq<seq<Byte>>, x: seq<Byte>, y: seq<Byte>)
    ensures l + [x] == l + [y] <==> x == y
  {
    assert (l + [x])[|l|] == x;
    assert (l + [y])[|l|] == y;
  }

  /** The bytes taken in are determined by the two states. */
  lemma TookBytesUnique(d: State, e: State, a: seq<Byte>, b: seq<Byte>, marker: bool, key: bool)
    requires TookBytes(d, e, a, marker, key)
    ensures TookBytes(d, e, b, marker, key) <==> d.acc + a == d.acc + b
  {
    LastInjective(d.delivered, d.acc + a, d.acc + b);
  }

  lemma RebuiltBytes(acc: seq<Byte>, h: Byte, hdr: Byte, body: seq<Byte>)
    ensures acc + (SC + ([h] + body)) == acc + (SC + ([hdr] + body)) <==> h == hdr
  {
    assert (acc + (SC + ([h] + body)))[|acc| + 3] == h;
    assert (acc + (SC + ([hdr] + body)))[|acc| + 3] == hdr;
  }

  lemma TookExactly(d: State, e: State, nal: seq<Byte>, h: Byte, fits: bool, marker: bool, key: bool)
    requires nal != []
    requires if fits
             then TookBytes(d, e, SC + [h] + nal[1..], marker, key)
             else Emptied(d, e) && (e.lost > d.lost || !marker)
    ensures Took(d, e, nal, marker, key) <==> fits && h == nal[0]
  {
    var body := nal[1..];
    assert nal == [nal[0]] + body;
    assert SC + [h] + body == SC + ([h] + body);
    RebuiltBytes(d.acc, h, nal[0], body);
    if fits {
      TookBytesUnique(d, e, SC + ([h] + body), SC + nal, marker, key);
    } else {
      assert |d.acc + (SC + nal)| > 0;
    }
  }

  /** The first fragment buffers a start code, the rebuilt header and sz bytes. */
  lemma AfterFirstFragment(d: State, nal: seq<Byte>, marker: bool, sz: nat, sq: nat, key: bool) returns (d1: State)
    requires !d.frag && sz > 0 && |nal| > 1 + sz
    ensures d1 == d.(fragStart := |d.acc|, frag := true, fragSeq := sq % 65536,
                     acc := d.acc + SC + [nal[0] & 0x7f] + nal[1..][..sz])
    ensures Run(d, Fragments(nal[0], true, true, marker, nal[1..], sz), sq, key)
         == Collect(Finish(d1, false, key).0, nal[1..][sz..], sz, marker, sq + 1, key)
  {
    var hdr, body := nal[0], nal[1..];
    var ps := Fragments(hdr, true, true, marker, body, sz);
    d1 := d.(fragStart := |d.acc|, frag := true, fragSeq := sq % 65536,
             acc := d.acc + SC + [hdr & 0x7f] + body[..sz]);
    StepOnFragment(d, ps[0], hdr, true, false, sq % 65536, key);
    StartedBits(d, hdr);
    assert ps[1..] == Fragments(hdr, false, true, marker, body[sz..], sz);
    RunIsCollect(Finish(d1, false, key).0, hdr, marker, body[sz..], sz, sq + 1, key);
  }

  lemma FragmentedFrom(d: State, d1: State, h: Byte, body: seq<Byte>, sz: nat, marker: bool, sq: nat, key: bool)
    requires !d.frag && 0 < sz < |body|
    requires d1 == d.(fragStart := |d.acc|, frag := true, fragSeq := sq % 65536, acc := d.acc + SC + [h] + body[..sz])
    ensures var e := Collect(Finish(d1, false, key).0, body[sz..], sz, marker, sq + 1, key);
            if Fits(|d.acc|, 4 + |body|, marker, LastFragment(|body|, sz))
            then TookBytes(d, e, SC + [h] + body, marker, key)
            else Emptied(d, e) && (e.lost > d.lost || !marker)
  {
    if |d1.acc| <= DECODE_MAXSZ {
      TailFragments(d1, body[sz..], sz, marker, sq + 1, key);
      assert d1.acc + body[sz..] == d.acc + (SC + [h] + body);
    } else {
      DeadFragments(d1.Reset(), body[sz..], sz, marker, sq + 1, key);
    }
  }

  /** A fragmented NAL. */
  lemma FragmentedNal(d: State, nal: seq<Byte>, marker: bool, sz: nat, sq: nat, key: bool)
    requires !d.frag && sz > 0 && |nal| > 1 + sz
    ensures var e := Run(d, Fragments(nal[0], true, true, marker, nal[1..], sz), sq, key);
            Took(d, e, nal, marker, key)
            <==> nal[0] & 0x80 == 0 && Fits(|d.acc|, 3 + |nal|, marker, LastFragment(|nal| - 1, sz))
  {
    var d1 := AfterFirstFragment(d, nal, marker, sz, sq, key);
    IndicatorBits(nal[0]);
    FragmentedFrom(d, d1, nal[0] & 0x7f, nal[1..], sz, marker, sq, key);
    var e := Collect(Finish(d1, false, key).0, nal[1..][sz..], sz, marker, sq + 1, key);
    TookExactly(d, e, nal, nal[0] & 0x7f, Fits(|d.acc|, 3 + |nal|, marker, LastFragment(|nal| - 1, sz)), marker, key);
  }

  // ---------------------------------------------------------------- packets of one NAL

  lemma CodeBehind(a: seq<Byte>, b: seq<Byte>, k: nat)
    ensures Code(a + b, |a| + k) <==> Code(b, k)
  {
  }

  lemma {:induction false} StapStartsWithCode(src: seq<Byte>)
    ensures Stap(src).0 == [] || (Code(Stap(src).0, 0) && src != [])
  {
  }

  lemma {:induction false} StapUnitIsNotTheNal(nal: seq<Byte>, len: nat, isLast: bool)
    requires |nal| >= 3 && NoInnerCode(nal, isLast)
    ensures StapUnit(nal[1..], len).0 != SC + nal
  {
    var src := nal[1..];
    if |src| >= 3 && len <= |src| - 2 {
      var unit, out1 := SC + src[2..2 + len], Stap(src[2 + len..]).0;
      assert StapUnit(src, len).0 == unit + out1;
      if out1 != [] {
        StapStartsWithCode(src[2 + len..]);
        CodeBehind(unit, out1, 0);
        CodeBehind(SC, nal, len);
      }
    }
  }

  /** STAP-A output is too short for the NAL if it has one unit, and has a start code the NAL lacks otherwise. */
  lemma {:induction false} StapIsNotTheNal(nal: seq<Byte>, isLast: bool)
    requires nal != [] && NoInnerCode(nal, isLast)
    ensures Stap(nal[1..]).0 != SC + nal
  {
    if |nal| >= 3 {
      StapUnitIsNotTheNal(nal, StapLength(nal[1..]), isLast);
    }
  }

  lemma AppendInjective(a: seq<Byte>, x: seq<Byte>, y: seq<Byte>)
    ensures a + x == a + y <==> x == y
  {
    assert x == (a + x)[|a|..];
    assert y == (a + y)[|a|..];
  }

  /** A packet that changes the buffer from acc to acc + out, or is not taken at all, rebuilds the NAL only if out does. */
  lemma NotTaken(d: State, e: State, out: seq<Byte>, nal: seq<Byte>, marker: bool, key: bool)
    requires out != SC + nal && !d.frag
    requires || e == d.(acc := d.acc + out)
             || e == Finish(d.(acc := d.acc + out), marker, key).0
    ensures !Took(d, e, nal, marker, key)
  {
    AppendInjective(d.acc, out, SC + nal);
    LastInjective(d.delivered, d.acc + out, d.acc + (SC + nal));
    assert |d.acc + (SC + nal)| > 0;
  }

  lemma StartedAppend(acc: seq<Byte>, hdr: seq<Byte>, payload: seq<Byte>)
    ensures acc + SC + hdr + payload == acc + (SC + hdr + payload)
  {
  }

  lemma FakeStart(d: State, e: State, nal: seq<Byte>, out: seq<Byte>, fu: Fu, marker: bool, sq: nat, key: bool)
    requires !d.frag && |nal| >= 2 && |out| == |nal| + 2
    requires out == SC + [(nal[0] & 0x60) | fu.typ] + nal[2..]
    requires var d1 := Started(d, nal[0], fu.typ);
             e == Finish(d1.(acc := d1.acc + nal[2..], frag := !fu.e, fragSeq := sq), marker, key).0
    ensures !Took(d, e, nal, marker, key)
  {
    var d1 := Started(d, nal[0], fu.typ);
    assert d1.acc == d.acc + SC + [(nal[0] & 0x60) | fu.typ];
    StartedAppend(d.acc, [(nal[0] & 0x60) | fu.typ], nal[2..]);
    assert d1.acc + nal[2..] == d.acc + out;
    assert |d.acc + (SC + nal)| > |d.acc + out|;
    LastInjective(d.delivered, d.acc + out, d.acc + (SC + nal));
  }

  /** A packet of type FU-A that the sender meant as a NAL of its own is never taken for that NAL. */
  lemma FakeFragment(d: State, nal: seq<Byte>, marker: bool, sq: nat, key: bool)
    requires !d.frag && nal != []
    ensures !Took(d, FragmentStep(d, marker, sq, nal, key).0, nal, marker, key)
  {
    var e := FragmentStep(d, marker, sq, nal, key).0;
    if |nal| < 2 {
      assert d.acc + [] == d.acc;
      NotTaken(d, e, [], nal, marker, key);
    } else {
      var fu := FuDecode(nal[1]);
      if fu.s {
        var out := SC + [(nal[0] & 0x60) | fu.typ] + nal[2..];
        FakeStart(d, e, nal, out, fu, marker, sq, key);
      }
    }
  }

  /** A NAL sent as a packet of its own. */
  lemma SingleNal(d: State, nal: seq<Byte>, marker: bool, sq: nat, key: bool)
    requires !d.frag && nal != [] && NoInnerCode(nal, marker)
    ensures Took(d, Step(d, marker, sq, nal, key).0, nal, marker, key)
            <==> && nal[0] & 0x80 == 0
                 && 1 <= nal[0] & 0x1f <= 23
                 && (nal[0] & 0x1f == NAL_SLICE ==> d.gotKeyframe)
                 && (marker || |d.acc| + 3 + |nal| <= DECODE_MAXSZ)
  {
    var e := Step(d, marker, sq, nal, key).0;
    var typ := nal[0] & 0x1f;
    assert d.acc + [] == d.acc;
    if (typ == NAL_SLICE && !d.gotKeyframe) || nal[0] & 0x80 != 0 {
      NotTaken(d, e, [], nal, marker, key);
    } else if 1 <= typ <= 23 {
      assert d.acc + SC + nal == d.acc + (SC + nal);
      assert |d.acc + (SC + nal)| > 0;
    } else if typ == FU_A {
      FakeFragment(d, nal, marker, sq, key);
    } else if typ == STAP_A {
      StapIsNotTheNal(nal, marker);
      NotTaken(d, e, Stap(nal[1..]).0, nal, marker, key);
    } else {
      NotTaken(d, e, [], nal, marker, key);
    }
  }

  lemma {:induction false} OnePacket(d: State, nal: seq<Byte>, marker: bool, sq: nat, key: bool)
    requires nal != []
    ensures Run(d, [Packet(marker, [nal[0]], nal[1..])], sq, key) == Step(d, marker, sq % 65536, nal, key).0
  {
    var p := Packet(marker, [nal[0]], nal[1..]);
    assert p.Bytes() == nal;
    assert [p][1..] == [];
    assert Run(Step(d, marker, sq % 65536, nal, key).0, [], sq + 1, key) == Step(d, marker, sq % 65536, nal, key).0;
  }

  /** The packets of one NAL leave the receiver with exactly that NAL if and only if it is deliverable. */
  lemma NalRoundTrip(d: State, nal: seq<Byte>, marker: bool, pktsize: nat, sq: nat, key: bool)
    requires !d.frag && nal != [] && |nal| < SIZE_T && 2 < pktsize < SIZE_T && NoInnerCode(nal, marker)
    ensures Took(d, Run(d, NalPackets(true, true, marker, nal[0], nal[1..], pktsize), sq, key), nal, marker, key)
            <==> Deliverable(|d.acc|, d.gotKeyframe, nal, marker, pktsize)
  {
    WholeNalPackets(marker, nal[0], nal[1..], pktsize);
    if |nal| - 1 <= pktsize {
      OnePacket(d, nal, marker, sq, key);
      SingleNal(d, nal, marker, sq % 65536, key);
    } else {
      FragmentedNal(d, nal, marker, pktsize - 2, sq, key);
    }
  }

  // ---------------------------------------------------------------- whole access units

  predicate Sendable(nals: seq<seq<Byte>>) {
    forall k :: 0 <= k < |nals| ==> nals[k] != [] && |nals[k]| < SIZE_T
  }

  /** Every NAL is deliverable behind the ones before it. */
  predicate AllDeliverable(buffered: nat, gotKeyframe: bool, nals: seq<seq<Byte>>, pktsize: nat)
    requires pktsize > 2 && Sendable(nals)
    decreases |nals|
  {
    nals == [] ||
    (&& Deliverable(buffered, gotKeyframe, nals[0], |nals| == 1, pktsize)
     && AllDeliverable(buffered + 3 + |nals[0]|, gotKeyframe, nals[1..], pktsize))
  }

  lemma SingleDeliverable(buffered: nat, gotKeyframe: bool, nals: seq<seq<Byte>>, pktsize: nat)
    requires pktsize > 2 && Sendable(nals) && |nals| == 1
    ensures AllDeliverable(buffered, gotKeyframe, nals, pktsize) <==> Deliverable(buffered, gotKeyframe, nals[0], true, pktsize)
  {
    assert nals[1..] == [];
  }

  lemma MoreDeliverable(buffered: nat, after: nat, gotKeyframe: bool, nals: seq<seq<Byte>>, pktsize: nat)
    requires pktsize > 2 && Sendable(nals) && |nals| > 1 && after == buffered + 3 + |nals[0]|
    requires Deliverable(buffered, gotKeyframe, nals[0], false, pktsize)
    ensures AllDeliverable(buffered, gotKeyframe, nals, pktsize) <==> AllDeliverable(after, gotKeyframe, nals[1..], pktsize)
  {
  }

  /** The receiver has taken in exactly the NALs sent so far, after every one of them. */
  ghost predicate Tracks(d: State, nals: seq<seq<Byte>>, pktsize: nat, sq: nat, key: bool)
    requires 2 < pktsize < SIZE_T && Sendable(nals)
    decreases |nals|
  {
    nals == [] ||
    var ps := NalPackets(true, true, |nals| == 1, nals[0][0], nals[0][1..], pktsize);
    var e := Run(d, ps, sq, key);
    && Took(d, e, nals[0], |nals| == 1, key)
    && Tracks(e, nals[1..], pktsize, sq + |ps|, key)
  }

  lemma WellFormedTail(nals: seq<seq<Byte>>)
    requires nals != [] && WellFormed(nals)
    ensures WellFormed(nals[1..]) && NoInnerCode(nals[0], |nals| == 1)
  {
  }

  lemma SendableTerminates(nals: seq<seq<Byte>>, pktsize: nat)
    requires Sendable(nals) && pktsize > 2
    ensures AllTerminate(nals, pktsize)
  {
  }

  /** Sending NAL units is sending the first one, which leads to e, and then the others. */
  lemma {:induction false} SendFirst(d: State, nals: seq<seq<Byte>>, marker: bool, pktsize: nat, sq: nat, key: bool)
    returns (e: State, n: nat)
    requires nals != [] && marker == (|nals| == 1) && pktsize < SIZE_T && AllTerminate(nals, pktsize)
    ensures AllTerminate(nals[1..], pktsize)
    ensures e == Run(d, NalPackets(true, true, marker, nals[0][0], nals[0][1..], pktsize), sq, key)
    ensures n == |NalPackets(true, true, marker, nals[0][0], nals[0][1..], pktsize)|
    ensures Run(d, SendNals(nals, pktsize), sq, key) == Run(e, SendNals(nals[1..], pktsize), sq + n, key)
  {
    var ps, qs := NalPackets(true, true, marker, nals[0][0], nals[0][1..], pktsize), SendNals(nals[1..], pktsize);
    assert SendNals(nals, pktsize) == ps + qs;
    RunAppend(d, ps, qs, sq, key);
    e, n := Run(d, ps, sq, key), |ps|;
  }

  /** What tracking says about the state after the first NAL unit. */
  lemma {:induction false} TracksFirst(d: State, e: State, nals: seq<seq<Byte>>, marker: bool, pktsize: nat,
                                       sq: nat, n: nat, key: bool)
    requires nals != [] && marker == (|nals| == 1) && 2 < pktsize < SIZE_T && Sendable(nals)
    requires var ps := NalPackets(true, true, marker, nals[0][0], nals[0][1..], pktsize);
             e == Run(d, ps, sq, key) && n == |ps|
    ensures Tracks(d, nals, pktsize, sq, key)
            <==> Took(d, e, nals[0], marker, key) && Tracks(e, nals[1..], pktsize, sq + n, key)
  {
  }

  lemma {:induction false} TracksStep(d: State, nals: seq<seq<Byte>>, marker: bool, pktsize: nat, sq: nat, key: bool)
    returns (e: State, n: nat)
    requires nals != [] && marker == (|nals| == 1) && !d.frag && 2 < pktsize < SIZE_T && Sendable(nals)
    requires NoInnerCode(nals[0], marker)
    ensures Sendable(nals[1..]) && (marker ==> nals[1..] == [])
    ensures Took(d, e, nals[0], marker, key) <==> Deliverable(|d.acc|, d.gotKeyframe, nals[0], marker, pktsize)
    ensures Tracks(d, nals, pktsize, sq, key)
            <==> Took(d, e, nals[0], marker, key) && Tracks(e, nals[1..], pktsize, sq + n, key)
  {
    var ps := NalPackets(true, true, marker, nals[0][0], nals[0][1..], pktsize);
    e, n := Run(d, ps, sq, key), |ps|;
    NalRoundTrip(d, nals[0], marker, pktsize, sq, key);
    TracksFirst(d, e, nals, marker, pktsize, sq, n, key);
  }

  /** For every split of a buffer: the receiver follows the sender NAL by NAL if and only if all are deliverable. */
  lemma {:induction false} TracksExactly(d: State, nals: seq<seq<Byte>>, pktsize: nat, sq: nat, key: bool)
    requires !d.frag && 2 < pktsize < SIZE_T && Sendable(nals) && WellFormed(nals)
    ensures Tracks(d, nals, pktsize, sq, key) <==> AllDeliverable(|d.acc|, d.gotKeyframe, nals, pktsize)
    decreases |nals|
  {
    if nals == [] {
    } else if |nals| == 1 {
      WellFormedTail(nals);
      var e, n := TracksStep(d, nals, true, pktsize, sq, key);
      SingleDeliverable(|d.acc|, d.gotKeyframe, nals, pktsize);
    } else {
      WellFormedTail(nals);
      var e, n := TracksStep(d, nals, false, pktsize, sq, key);
      if Took(d, e, nals[0], false, key) {
        TracksExactly(e, nals[1..], pktsize, sq + n, key);
        MoreDeliverable(|d.acc|, |e.acc|, d.gotKeyframe, nals, pktsize);
        assert Tracks(d, nals, pktsize, sq, key) <==> Tracks(e, nals[1..], pktsize, sq + n, key);
      } else {
        assert !Tracks(d, nals, pktsize, sq, key);
      }
    }
  }

  /** A tracking receiver takes in the first NAL unit and goes on tracking. */
  lemma {:induction false} TrackedFirst(d: State, nals: seq<seq<Byte>>, marker: bool, pktsize: nat, sq: nat, key: bool)
    returns (e: State, n: nat)
    requires nals != [] && marker == (|nals| == 1) && 2 < pktsize < SIZE_T && Sendable(nals) && AllTerminate(nals, pktsize)
    requires Tracks(d, nals, pktsize, sq, key)
    ensures Took(d, e, nals[0], marker, key)
    ensures Sendable(nals[1..]) && AllTerminate(nals[1..], pktsize) && Tracks(e, nals[1..], pktsize, sq + n, key)
    ensures Run(d, SendNals(nals, pktsize), sq, key) == Run(e, SendNals(nals[1..], pktsize), sq + n, key)
  {
    e, n := SendFirst(d, nals, marker, pktsize, sq, key);
    TracksFirst(d, e, nals, marker, pktsize, sq, n, key);
  }

  lemma JoinSingle(nals: seq<seq<Byte>>)
    requires |nals| == 1
    ensures Join(nals) == SC + nals[0]
  {
    assert nals[1..] == [];
    assert Join([]) == [];
  }

  lemma LastPicture(d: State, e: State, nals: seq<seq<Byte>>, pktsize: nat, sq: nat, key: bool)
    requires |nals| == 1 && pktsize < SIZE_T && Took(d, e, nals[0], true, key)
    ensures nals[1..] == [] && Run(e, SendNals([], pktsize), sq, key) == e
    ensures e.delivered == d.delivered + [d.acc + Join(nals)]
  {
    JoinSingle(nals);
  }

  lemma JoinStep(acc: seq<Byte>, nals: seq<seq<Byte>>)
    requires nals != []
    ensures acc + Join(nals) == acc + (SC + nals[0]) + Join(nals[1..])
  {
  }

  /** From d over e, which has taken in the first NAL, to f, which has handed on the rest. */
  lemma PictureGrows(d: State, e: State, f: State, nals: seq<seq<Byte>>, key: bool)
    requires nals != [] && Took(d, e, nals[0], false, key)
    requires f.delivered == e.delivered + [e.acc + Join(nals[1..])]
    ensures f.delivered == d.delivered + [d.acc + Join(nals)]
  {
    JoinStep(d.acc, nals);
  }

  /** A receiver that tracks a non-empty list hands the joined NALs to the video decoder, once. */
  lemma {:induction false} TrackedIsDelivered(d: State, nals: seq<seq<Byte>>, pktsize: nat, sq: nat, key: bool)
    requires nals != [] && 2 < pktsize < SIZE_T && Sendable(nals)
    requires Tracks(d, nals, pktsize, sq, key)
    ensures AllTerminate(nals, pktsize)
    ensures var e := Run(d, SendNals(nals, pktsize), sq, key);
            && e.delivered == d.delivered + [d.acc + Join(nals)]
            && e.acc == [] && !e.frag && e.lost == d.lost
    decreases |nals|
  {
    SendableTerminates(nals, pktsize);
    if |nals| == 1 {
      var e, n := TrackedFirst(d, nals, true, pktsize, sq, key);
      LastPicture(d, e, nals, pktsize, sq + n, key);
    } else {
      var e, n := TrackedFirst(d, nals, false, pktsize, sq, key);
      TrackedIsDelivered(e, nals[1..], pktsize, sq + n, key);
      PictureGrows(d, e, Run(e, SendNals(nals[1..], pktsize), sq + n, key), nals, key);
    }
  }

  lemma SendableNals(buf: seq<Byte>)
    requires NoEmptyNal(buf) && |buf| < SIZE_T
    ensures Sendable(AllNals(buf)) && WellFormed(AllNals(buf))
  {
    NalsNonEmpty(buf, FirstStart(buf));
    NalsWellFormed(buf, FirstStart(buf));
  }

  /**
   End to end: whatever buffer is packetized, an idle receiver gives the video decoder that buffer from
   its first start code onwards, as one picture, provided each NAL is deliverable.
   */
  lemma EndToEnd(d: State, buf: seq<Byte>, pktsize: nat, sq: nat, key: bool)
    requires d.acc == [] && !d.frag
    requires |buf| < SIZE_T && 2 < pktsize < SIZE_T && NoEmptyNal(buf) && FirstStart(buf) < |buf|
    requires Sendable(AllNals(buf)) && AllDeliverable(0, d.gotKeyframe, AllNals(buf), pktsize)
    ensures AllTerminate(AllNals(buf), pktsize)
    ensures var e := Run(d, SendNals(AllNals(buf), pktsize), sq, key);
            e.delivered == d.delivered + [buf[FirstStart(buf)..]] && e.acc == [] && !e.frag && e.lost == d.lost
  {
    var nals := AllNals(buf);
    SendableNals(buf);
    NalsEmptyExactlyAtEnd(buf, FirstStart(buf));
    TracksExactly(d, nals, pktsize, sq, key);
    TrackedIsDelivered(d, nals, pktsize, sq, key);
    JoinOfNals(buf, FirstStart(buf));
    assert [] + Join(nals) == Join(nals);
  }

  /** The plain case: ordinary NAL types, forbidden bits clear, a key frame seen, at most 512 KiB. */
  lemma {:induction false} OrdinaryIsDeliverable(buffered: nat, nals: seq<seq<Byte>>, pktsize: nat)
    requires pktsize > 2 && Sendable(nals)
    requires forall k :: 0 <= k < |nals| ==> nals[k][0] & 0x80 == 0 && 1 <= nals[k][0] & 0x1f <= 23
    requires buffered + |Join(nals)| <= 524288
    ensures AllDeliverable(buffered, true, nals, pktsize)
    decreases |nals|
  {
    if nals == [] {
    } else {
      OrdinaryIsDeliverable(buffered + 3 + |nals[0]|, nals[1..], pktsize);
    }
  }
}
