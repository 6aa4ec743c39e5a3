/**
 The weight of the receiver's buffer: its length without start codes.

 No packet adds more weight than it carries, whatever the state of the receiver, so a buffer that is too light, or
 that has a wrong byte, never becomes the picture that was sent.
 */
module H264Weight {
  import opened H264Startcode
  import opened H264Packetize
  import opened H264Depacketize
  import opened H264RoundTrip

  // ---------------------------------------------------------------- weight

  /** The number of start codes that a byte follows. */
  function Codes(s: seq<Byte>): nat {
    if |s| < 4 then 0 else (if Code(s, 0) then 1 else 0) + Codes(s[1..])
  }

  function Weight(s: seq<Byte>): int { |s| - 3 * Codes(s) }

  lemma {:induction false} CodesAppend(a: seq<Byte>, b: seq<Byte>)
    ensures Codes(a + b) >= Codes(a) + Codes(b)
    decreases |a|
  {
    if a == [] {
      assert a + b == b;
    } else {
      assert (a + b)[1..] == a[1..] + b;
      CodesAppend(a[1..], b);
    }
  }

  /** Appending adds at most the weight of what is appended. */
  lemma WeightAppend(a: seq<Byte>, b: seq<Byte>)
    ensures Weight(a + b) <= Weight(a) + Weight(b)
  {
    CodesAppend(a, b);
  }

  lemma WeightBound(a: seq<Byte>, b: seq<Byte>)
    ensures Weight(a + b) <= Weight(a) + |b|
  {
    WeightAppend(a, b);
  }

  /** A start code in front of something weighs nothing. */
  lemma WeightBehindCode(x: seq<Byte>)
    ensures Weight(SC + x) <= if x == [] then 3 else |x|
  {
    if x != [] {
      assert Code(SC + x, 0);
    }
  }

  lemma {:induction false} CodesSkip(s: seq<Byte>, q: nat)
    requires q <= |s| && forall i :: 0 <= i < q ==> !StartcodeAt(s, i, |s|)
    ensures Codes(s) == Codes(s[q..])
    decreases q
  {
    if q == 0 {
    } else {
      forall i | 0 <= i < q - 1 ensures !StartcodeAt(s[1..], i, |s[1..]|) {
        CodeBehind(s[..1], s[1..], i);
        assert s[..1] + s[1..] == s;
        assert !StartcodeAt(s, i + 1, |s|);
      }
      CodesSkip(s[1..], q - 1);
      assert s[1..][q - 1..] == s[q..];
      assert !StartcodeAt(s, 0, |s|);
    }
  }

  function Total(nals: seq<seq<Byte>>): nat {
    if nals == [] then 0 else |nals[0]| + Total(nals[1..])
  }

  /** From one start code to the next one there is one start code. */
  lemma {:induction false} CodesStep(s: seq<Byte>, q: nat)
    requires StartcodeAt(s, 0, |s|) && 3 < q <= |s| && FindStartcode(s, 3, |s|) == q
    ensures Codes(s) == 1 + Codes(s[q..])
  {
    forall i | 0 <= i < q - 1 ensures !StartcodeAt(s[1..], i, |s[1..]|) {
      CodeBehind(s[..1], s[1..], i);
      assert s[..1] + s[1..] == s;
      if i >= 2 {
        assert !StartcodeAt(s, i + 1, |s|);
      }
    }
    CodesSkip(s[1..], q - 1);
    assert s[1..][q - 1..] == s[q..];
  }

  /** Joined NAL units weigh as much as the NAL units. */
  lemma {:induction false} JoinWeight(nals: seq<seq<Byte>>)
    requires WellFormed(nals)
    ensures Weight(Join(nals)) == Total(nals)
    decreases |nals|
  {
    if nals == [] {
    } else {
      var s, q := Join(nals), 3 + |nals[0]|;
      FindInJoin([], nals);
      assert [] + s == s;
      assert s[0] == 0 && s[1] == 0 && s[2] == 1;
      CodesStep(s, q);
      WellFormedTail(nals);
      JoinWeight(nals[1..]);
      assert s[q..] == Join(nals[1..]);
    }
  }

  // ---------------------------------------------------------------- what a packet can add

  /** An upper bound for the weight a packet adds. */
  function Cost(src: seq<Byte>): nat {
    if src == [] then 0
    else
      var typ := src[0] & 0x1f;
      if typ == FU_A then if |src| < 2 then 0 else |src| - 2 + (if FuDecode(src[1]).s then 1 else 0)
      else if typ == STAP_A then |src| - 1
      else |src|
  }

  /** The buffer, and what a rewind would leave of it, weigh at most k. */
  ghost predicate Light(d: State, k: int) {
    Valid(d) && k >= 0 && Weight(d.acc) <= k && (d.frag ==> Weight(d.acc[..d.fragStart]) <= k)
  }

  lemma LightMonotone(d: State, k: int, l: int)
    requires Light(d, k) && k <= l
    ensures Light(d, l)
  {
  }

  lemma {:induction false} StapWeight(src: seq<Byte>)
    ensures src == [] ==> Stap(src).0 == []
    ensures Weight(Stap(src).0) <= |src|
    decreases |src|, 1
  {
    if |src| >= 2 {
      StapUnitWeight(src, StapLength(src));
    }
  }

  /** A start code in front of bytes adds one to the count. */
  lemma CodeInFront(x: seq<Byte>)
    requires x != []
    ensures Weight(SC + x) <= Weight(x)
  {
    var s := SC + x;
    assert Code(s, 0);
    assert s[1..] == [0, 1] + x;
    CodesAppend([0, 1], x);
  }

  lemma {:induction false} StapUnitWeight(src: seq<Byte>, len: nat)
    requires |src| >= 2
    ensures Weight(StapUnit(src, len).0) <= |src|
    decreases |src|, 0
  {
    if len <= |src| - 2 && |src| >= 3 {
      var unit, out := src[2..2 + len], Stap(src[2 + len..]).0;
      StapWeight(src[2 + len..]);
      WeightBehindCode(unit);
      if len > 0 {
        WeightAppend(SC + unit, out);
      } else if out == [] {
        assert SC + unit + out == SC;
      } else {
        assert SC + unit + out == SC + out;
        CodesAppend(SC + out, []);
        CodeInFront(out);
      }
    }
  }

  /** A packet ends: from a light state the next state is light, or a light picture is handed on. */
  ghost predicate EndsLight(d: State, e: State, marker: bool, k: int) {
    if marker
    then e.delivered == d.delivered || (exists x :: e.delivered == d.delivered + [x] && Weight(x) <= k)
    else e.delivered == d.delivered && Light(e, k)
  }

  lemma FinishLight(d: State, marker: bool, key: bool, k: int)
    requires Light(d, k)
    ensures EndsLight(d, Finish(d, marker, key).0, marker, k)
  {
    assert Weight([]) == 0;
  }

  lemma RewoundLight(d: State, k: int)
    requires Light(d, k) && d.frag
    ensures Light(d.Rewound(), k) && Light(d.Rewound().(frag := false), k)
  {
    var t := d.Rewound();
    assert t.acc[..t.fragStart] == t.acc;
  }

  lemma StartedLight(d: State, hdr: Byte, typ: Byte, k: int)
    requires Light(d, k)
    ensures Light(Started(d, hdr, typ), k + 1)
  {
    if d.frag {
      RewoundLight(d, k);
    }
    var d1 := if d.frag then d.Rewound() else d;
    var h := (hdr & 0x60) | typ;
    WeightBehindCode([h]);
    WeightAppend(d1.acc, SC + [h]);
    assert d1.acc + SC + [h] == d1.acc + (SC + [h]);
    assert (d1.acc + SC + [h])[..|d1.acc|] == d1.acc;
  }

  lemma AppendLight(d: State, x: seq<Byte>, sq: nat, frag: bool, k: int)
    requires Light(d, k) && d.frag
    ensures Light(d.(acc := d.acc + x, frag := frag, fragSeq := sq), k + |x|)
  {
    WeightBound(d.acc, x);
    assert (d.acc + x)[..d.fragStart] == d.acc[..d.fragStart];
  }

  lemma FragmentLight(d: State, marker: bool, sq: nat, src: seq<Byte>, key: bool, k: int)
    requires Light(d, k) && |src| >= 1 && src[0] & 0x1f == FU_A
    ensures EndsLight(d, FragmentStep(d, marker, sq, src, key).0, marker, k + Cost(src))
  {
    if |src| >= 2 {
      var fu := FuDecode(src[1]);
      if !fu.s && !d.frag {
      } else if !fu.s && (sq - d.fragSeq) % 65536 != 1 {
        RewoundLight(d, k);
      } else {
        var d1 := if fu.s then Started(d, src[0], fu.typ) else d;
        var k1 := if fu.s then k + 1 else k;
        if fu.s {
          StartedLight(d, src[0], fu.typ, k);
        }
        AppendLight(d1, src[2..], sq, !fu.e, k1);
        FinishLight(d1.(acc := d1.acc + src[2..], frag := !fu.e, fragSeq := sq), marker, key, k + Cost(src));
      }
    }
  }

  lemma AddLight(d: State, x: seq<Byte>, marker: bool, key: bool, k: int, w: nat)
    requires Light(d, k) && !d.frag && Weight(x) <= w
    ensures Light(d.(acc := d.acc + x), k + w)
    ensures EndsLight(d, Finish(d.(acc := d.acc + x), marker, key).0, marker, k + w)
  {
    WeightAppend(d.acc, x);
    FinishLight(d.(acc := d.acc + x), marker, key, k + w);
  }

  lemma WholeLight(d: State, x: seq<Byte>, marker: bool, key: bool, k: int, w: nat, src: seq<Byte>)
    requires Light(d, k) && !d.frag && src != [] && x == SC + src && w == |src|
    ensures EndsLight(d, Finish(d.(acc := d.acc + SC + src), marker, key).0, marker, k + w)
  {
    WeightBehindCode(src);
    assert d.acc + SC + src == d.acc + x;
    AddLight(d, x, marker, key, k, w);
  }

  lemma StepLight(d: State, marker: bool, sq: nat, src: seq<Byte>, key: bool, k: int)
    requires Light(d, k)
    ensures EndsLight(d, Step(d, marker, sq, src, key).0, marker, k + Cost(src))
  {
    if src != [] {
      var typ := src[0] & 0x1f;
      var d1 := if d.frag && typ != FU_A then d.Rewound().(frag := false) else d;
      if d.frag && typ != FU_A {
        RewoundLight(d, k);
      }
      if typ == FU_A {
        FragmentLight(d, marker, sq, src, key, k);
      } else if 1 <= typ <= 23 {
        WholeLight(d1, SC + src, marker, key, k, |src|, src);
      } else if typ == STAP_A {
        StapWeight(src[1..]);
        AddLight(d1, Stap(src[1..]).0, marker, key, k, |src| - 1);
      }
    }
  }

  // ---------------------------------------------------------------- a changed byte

  /** A byte of the buffer that no rewind removes differs from the picture that was sent. */
  ghost predicate Differs(d: State, target: seq<Byte>, i: nat) {
    Valid(d) && i < |d.acc| && i < |target| && d.acc[i] != target[i] && (d.frag ==> i < d.fragStart)
  }

  /** The packet keeps the difference, empties the buffer, or hands on a different picture. */
  ghost predicate KeepsDifference(d: State, e: State, marker: bool, target: seq<Byte>, i: nat) {
    if marker
    then e.delivered == d.delivered || (exists x :: e.delivered == d.delivered + [x] && x != target)
    else e.delivered == d.delivered && (Differs(e, target, i) || (e.acc == [] && !e.frag))
  }

  lemma FinishDiffers(d: State, marker: bool, key: bool, target: seq<Byte>, i: nat)
    requires Differs(d, target, i)
    ensures KeepsDifference(d, Finish(d, marker, key).0, marker, target, i)
  {
  }

  lemma RewoundDiffers(d: State, target: seq<Byte>, i: nat)
    requires Differs(d, target, i) && d.frag
    ensures Differs(d.Rewound(), target, i) && Differs(d.Rewound().(frag := false), target, i)
  {
  }

  lemma StartedDiffers(d: State, hdr: Byte, typ: Byte, target: seq<Byte>, i: nat)
    requires Differs(d, target, i)
    ensures Differs(Started(d, hdr, typ), target, i)
  {
    if d.frag {
      RewoundDiffers(d, target, i);
    }
  }

  lemma AppendDiffers(d: State, x: seq<Byte>, sq: nat, frag: bool, target: seq<Byte>, i: nat)
    requires Differs(d, target, i) && d.frag
    ensures Differs(d.(acc := d.acc + x, frag := frag, fragSeq := sq), target, i)
  {
  }

  lemma FragmentDiffers(d: State, marker: bool, sq: nat, src: seq<Byte>, key: bool, target: seq<Byte>, i: nat)
    requires Differs(d, target, i) && |src| >= 1
    ensures KeepsDifference(d, FragmentStep(d, marker, sq, src, key).0, marker, target, i)
  {
    if |src| >= 2 {
      var fu := FuDecode(src[1]);
      if !fu.s && !d.frag {
      } else if !fu.s && (sq - d.fragSeq) % 65536 != 1 {
        RewoundDiffers(d, target, i);
      } else {
        var d1 := if fu.s then Started(d, src[0], fu.typ) else d;
        if fu.s {
          StartedDiffers(d, src[0], fu.typ, target, i);
        }
        AppendDiffers(d1, src[2..], sq, !fu.e, target, i);
        FinishDiffers(d1.(acc := d1.acc + src[2..], frag := !fu.e, fragSeq := sq), marker, key, target, i);
      }
    }
  }

  lemma StepDiffers(d: State, marker: bool, sq: nat, src: seq<Byte>, key: bool, target: seq<Byte>, i: nat)
    requires Differs(d, target, i)
    ensures KeepsDifference(d, Step(d, marker, sq, src, key).0, marker, target, i)
  {
    if src != [] {
      var typ := src[0] & 0x1f;
      if d.frag {
        RewoundDiffers(d, target, i);
      }
      var d1 := if d.frag && typ != FU_A then d.Rewound().(frag := false) else d;
      if typ == FU_A {
        FragmentDiffers(d, marker, sq, src, key, target, i);
      } else if 1 <= typ <= 23 {
        FinishDiffers(d1.(acc := d1.acc + SC + src), marker, key, target, i);
      } else if typ == STAP_A {
        FinishDiffers(d1.(acc := d1.acc + Stap(src[1..]).0), marker, key, target, i);
      }
    }
  }

  // ---------------------------------------------------------------- a lost picture stays lost

  /** After NAL units of total weight k the buffer is too light, or has a wrong byte. */
  ghost predicate Doomed(d: State, target: seq<Byte>, k: int) {
    k >= 1 && (Light(d, k - 1) || exists i :: Differs(d, target, i))
  }

  lemma OtherPicture(d: State, e: State, target: seq<Byte>)
    requires e.delivered == d.delivered || (exists x :: e.delivered == d.delivered + [x] && x != target)
    ensures e.delivered != d.delivered + [target]
  {
    if e.delivered != d.delivered {
      var x :| e.delivered == d.delivered + [x] && x != target;
      LastInjective(d.delivered, x, target);
    }
  }

  lemma StepDoomed(d: State, marker: bool, sq: nat, src: seq<Byte>, key: bool, target: seq<Byte>, k: int)
    requires Doomed(d, target, k) && Weight(target) >= k + Cost(src)
    ensures var e := Step(d, marker, sq, src, key).0;
            if marker then e.delivered != d.delivered + [target]
            else e.delivered == d.delivered && Doomed(e, target, k + Cost(src))
  {
    var e := Step(d, marker, sq, src, key).0;
    if Light(d, k - 1) {
      StepLight(d, marker, sq, src, key, k - 1);
    } else {
      var i :| Differs(d, target, i);
      StepDiffers(d, marker, sq, src, key, target, i);
    }
    if marker {
      OtherPicture(d, e, target);
    }
  }

  function CostAll(ps: seq<Packet>): nat {
    if ps == [] then 0 else Cost(ps[0].Bytes()) + CostAll(ps[1..])
  }

  predicate MarkerOnlyLast(ps: seq<Packet>) { forall i :: 0 <= i < |ps| - 1 ==> !ps[i].marker }

  lemma {:induction false} RunDoomed(d: State, ps: seq<Packet>, sq: nat, key: bool, target: seq<Byte>, k: int)
    requires Doomed(d, target, k) && MarkerOnlyLast(ps) && Weight(target) >= k + CostAll(ps)
    ensures Run(d, ps, sq, key).delivered != d.delivered + [target]
    decreases |ps|
  {
    if ps == [] {
      assert |d.delivered| < |d.delivered + [target]|;
    } else {
      var p := ps[0];
      StepDoomed(d, p.marker, sq % 65536, p.Bytes(), key, target, k);
      var e := Step(d, p.marker, sq % 65536, p.Bytes(), key).0;
      if p.marker {
        assert ps[1..] == [];
        assert Run(e, [], sq + 1, key) == e;
      } else {
        forall i | 0 <= i < |ps[1..]| - 1 ensures !ps[1..][i].marker {
          assert ps[1..][i] == ps[i + 1];
        }
        RunDoomed(e, ps[1..], sq + 1, key, target, k + Cost(p.Bytes()));
      }
    }
  }

  // ---------------------------------------------------------------- the cost of NAL units

  lemma FragmentCost(p: Packet, hdr: Byte, s: bool, e: bool)
    requires p.hdr == [(hdr & 0x60) | FU_A, FuHeader(s, e, hdr & 0x1f)]
    ensures Cost(p.Bytes()) == |p.payload| + (if s then 1 else 0)
  {
    IndicatorBits(hdr);
    FuRoundTrip(s, e, hdr);
    assert p.Bytes()[0] == p.hdr[0] && p.Bytes()[1] == p.hdr[1];
  }

  lemma {:induction false} FragmentsCost(hdr: Byte, s: bool, marker: bool, body: seq<Byte>, sz: nat)
    requires sz > 0
    ensures CostAll(Fragments(hdr, s, true, marker, body, sz)) <= |body| + (if s then 1 else 0)
    decreases |body|
  {
    var ps := Fragments(hdr, s, true, marker, body, sz);
    FragmentCost(ps[0], hdr, s, |body| <= sz);
    if |body| > sz {
      FragmentsCost(hdr, false, marker, body[sz..], sz);
      assert ps[1..] == Fragments(hdr, false, true, marker, body[sz..], sz);
    } else {
      assert ps[1..] == [];
    }
  }

  lemma WholeCost(nal: seq<Byte>, marker: bool)
    requires nal != []
    ensures CostAll([Packet(marker, [nal[0]], nal[1..])]) <= |nal|
  {
    var p := Packet(marker, [nal[0]], nal[1..]);
    assert p.Bytes() == nal;
    assert [p][1..] == [];
    assert CostAll([p]) == Cost(nal) + CostAll([]);
  }

  lemma {:induction false} NalCost(nal: seq<Byte>, marker: bool, pktsize: nat)
    requires nal != [] && |nal| < SIZE_T && 2 < pktsize < SIZE_T
    ensures CostAll(NalPackets(true, true, marker, nal[0], nal[1..], pktsize)) <= |nal|
  {
    WholeNalPackets(marker, nal[0], nal[1..], pktsize);
    if |nal| - 1 <= pktsize {
      WholeCost(nal, marker);
    } else {
      FragmentsCost(nal[0], true, marker, nal[1..], pktsize - 2);
    }
  }

  lemma {:induction false} CostAppend(a: seq<Packet>, b: seq<Packet>)
    ensures CostAll(a + b) == CostAll(a) + CostAll(b)
    decreases |a|
  {
    if a == [] {
      assert a + b == b;
    } else {
      assert (a + b)[1..] == a[1..] + b;
      CostAppend(a[1..], b);
    }
  }

  lemma {:induction false} SendCost(nals: seq<seq<Byte>>, pktsize: nat)
    requires Sendable(nals) && 2 < pktsize < SIZE_T && AllTerminate(nals, pktsize)
    ensures CostAll(SendNals(nals, pktsize)) <= Total(nals)
    decreases |nals|
  {
    if nals == [] {
    } else {
      var ps := NalPackets(true, true, |nals| == 1, nals[0][0], nals[0][1..], pktsize);
      NalCost(nals[0], |nals| == 1, pktsize);
      SendCost(nals[1..], pktsize);
      CostAppend(ps, SendNals(nals[1..], pktsize));
    }
  }
}
