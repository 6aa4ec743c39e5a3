/**
 The receiver of baresip/modules/avcodec/decode.c, seen as one that keeps NAL units instead of bytes.

 The source collects bytes in a buffer and cuts the buffer back when a fragmented NAL unit turns out to be
 incomplete.  Whatever packets arrive, in whatever order, that is the same as keeping a list of complete units and
 at most one open unit.
 */
module H264Units {
  import opened Common
  import opened H264Startcode
  import opened H264Packetize
  import opened H264Depacketize

  /** A NAL unit of which some fragments are here, and the sequence number of the last one. */
  datatype Open = Open(nal: seq<Byte>, sq: nat)

  /** The complete units since the last picture, the open one, and the pictures handed on, each a list of units. */
  datatype Units = Units(units: seq<seq<Byte>>, open: Option<Open>, gotKeyframe: bool, lost: nat, pictures: seq<seq<seq<Byte>>>)

  // ---------------------------------------------------------------- what a packet is

  datatype Kind =
    | Empty
    | Single
    | First(nal: seq<Byte>, end: bool)
    | Next(payload: seq<Byte>, end: bool)
    | Stub
    | Several(units: seq<seq<Byte>>, whole: bool)
    | Unknown

  /** The units of an aggregation, each behind its length in network order, and whether it ends well. */
  function Disaggregated(src: seq<Byte>): (seq<seq<Byte>>, bool)
    decreases |src|, 1
  {
    if |src| < 2 then ([], true) else FirstAnd(src, 256 * (src[0] as nat) + (src[1] as nat))
  }

  /** The same, when the first unit has n bytes. */
  function FirstAnd(src: seq<Byte>, n: nat): (seq<seq<Byte>>, bool)
    requires |src| >= 2
    decreases |src|, 0
  {
    if |src| == 2 || n > |src| - 2 then ([], false)
    else
      var rest := Disaggregated(src[2 + n..]);
      ([src[2..2 + n]] + rest.0, rest.1)
  }

  function Classify(src: seq<Byte>): Kind {
    if src == [] then Empty
    else
      var typ := src[0] & 0x1f;
      if 1 <= typ <= 23 then Single
      else if typ == 24 then Several(Disaggregated(src[1..]).0, Disaggregated(src[1..]).1)
      else if typ != 28 then Unknown
      else if |src| == 1 then Stub
      else if src[1] & 0x80 != 0 then First([(src[0] & 0x60) | (src[1] & 0x1f)] + src[2..], src[1] & 0x40 != 0)
      else Next(src[2..], src[1] & 0x40 != 0)
  }

  // ---------------------------------------------------------------- the receiver of units

  function Dropped(u: Units): Units { if u.open.Some? then u.(open := None, lost := u.lost + 1) else u }

  /** A unit that is complete, or that waits for its next fragment. */
  function Put(u: Units, nal: seq<Byte>, end: bool, sq: nat): Units {
    if end then u.(units := u.units + [nal], open := None) else u.(open := Some(Open(nal, sq)))
  }

  function Size(u: Units): nat { |Join(u.units)| + if u.open.Some? then 3 + |u.open.value.nal| else 0 }

  function Nothing(u: Units): Units { u.(units := [], open := None) }

  function Closed(u: Units, marker: bool, key: bool): (Units, Err) {
    if !marker then if Size(u) > 524288 then (Nothing(u), ENOMEM) else (u, Ok)
    else if u.open.Some? then (Nothing(u), EPROTO)
    else (Nothing(u).(pictures := u.pictures + [u.units], gotKeyframe := u.gotKeyframe || key), Ok)
  }

  /** The number that follows, in 16 bits. */
  predicate OneHigher(last: nat, sq: nat) { sq % 65536 == (last + 1) % 65536 }

  /** A packet that is looked at. */
  function TakeKind(u: Units, kind: Kind, marker: bool, sq: nat, src: seq<Byte>, key: bool): (Units, Err) {
    match kind
    case Empty => (u, EBADMSG)
    case Stub => (u, ENOENT)
    case Unknown => (Dropped(u), EBADMSG)
    case Single => Closed(Put(Dropped(u), src, true, sq), marker, key)
    case Several(units, whole) =>
      var v := Dropped(u).(units := u.units + units);
      if whole then Closed(v, marker, key) else (v, EBADMSG)
    case First(nal, end) => Closed(Put(Dropped(u), nal, end, sq), marker, key)
    case Next(payload, end) =>
      if u.open == None then (u.(lost := u.lost + 1), Ok)
      else if !OneHigher(u.open.value.sq, sq) then (Dropped(u), Ok)
      else Closed(Put(u, u.open.value.nal + payload, end, sq), marker, key)
  }

  /** A packet: slices before the first key frame and packets with the forbidden bit are not looked at. */
  function Take(u: Units, marker: bool, sq: nat, src: seq<Byte>, key: bool): (Units, Err) {
    if src == [] then (u, EBADMSG)
    else if src[0] & 0x1f == 1 && !u.gotKeyframe then (u, EPROTO)
    else if src[0] & 0x80 != 0 then (u, EBADMSG)
    else TakeKind(u, Classify(src), marker, sq, src, key)
  }

  // ---------------------------------------------------------------- the buffer stands for the units

  function JoinAll(pictures: seq<seq<seq<Byte>>>): (js: seq<seq<Byte>>)
    ensures |js| == |pictures| && forall k :: 0 <= k < |pictures| ==> js[k] == Join(pictures[k])
  {
    seq(|pictures|, k requires 0 <= k < |pictures| => Join(pictures[k]))
  }

  function OpenBytes(u: Units): seq<Byte> { if u.open.Some? then SC + u.open.value.nal else [] }

  ghost predicate BufferIs(d: State, u: Units) {
    && d.acc == Join(u.units) + OpenBytes(u)
    && (d.frag <==> u.open.Some?)
    && (d.frag ==> d.fragStart == |Join(u.units)| && d.fragSeq == u.open.value.sq)
  }

  ghost predicate Refines(d: State, u: Units) {
    && BufferIs(d, u)
    && d.gotKeyframe == u.gotKeyframe && d.lost == u.lost && d.delivered == JoinAll(u.pictures)
  }

  lemma {:induction false} JoinAppend(a: seq<seq<Byte>>, b: seq<seq<Byte>>)
    ensures Join(a + b) == Join(a) + Join(b)
    decreases |a|
  {
    if a == [] {
      assert a + b == b;
    } else {
      assert (a + b)[1..] == a[1..] + b;
      JoinAppend(a[1..], b);
    }
  }

  lemma JoinOne(nal: seq<Byte>)
    ensures Join([nal]) == SC + nal
  {
    assert [nal][1..] == [];
    assert Join([]) == [];
  }

  lemma DroppedRefines(d: State, u: Units)
    requires Refines(d, u)
    ensures Refines(if d.frag then d.Rewound().(frag := false) else d, Dropped(u))
    ensures d.frag ==> d.Rewound().acc == Join(u.units)
  {
    if d.frag {
      assert d.acc[..d.fragStart] == Join(u.units);
      assert Join(u.units) + [] == Join(u.units);
    }
  }

  lemma NothingRefines(d: State, u: Units)
    requires Refines(d, u)
    ensures Refines(d.Reset(), Nothing(u))
  {
    assert Join([]) + [] == [];
  }

  lemma ClosedRefines(d: State, u: Units, marker: bool, key: bool)
    requires Refines(d, u)
    ensures Refines(Finish(d, marker, key).0, Closed(u, marker, key).0)
    ensures Finish(d, marker, key).1 == Closed(u, marker, key).1
  {
    NothingRefines(d, u);
    assert |d.acc| == Size(u);
    if marker && !d.frag {
      assert d.acc == Join(u.units);
      assert JoinAll(u.pictures + [u.units]) == JoinAll(u.pictures) + [Join(u.units)];
    }
  }

  /** One unit more, behind a start code: complete, or open. */
  lemma PutRefines(d: State, u: Units, e: State, nal: seq<Byte>, end: bool, sq: nat)
    requires e.gotKeyframe == u.gotKeyframe && e.lost == u.lost && e.delivered == JoinAll(u.pictures)
    requires e.acc == Join(u.units) + (SC + nal) && e.frag == !end && e.fragSeq == sq && e.fragStart == |Join(u.units)|
    ensures Refines(e, Put(u, nal, end, sq))
  {
    JoinAppend(u.units, [nal]);
    JoinOne(nal);
    assert Join(u.units + [nal]) + [] == Join(u.units + [nal]);
  }

  /** Without an open unit the buffer is the join of the units. */
  lemma BufferOfUnits(d: State, u: Units)
    requires d.gotKeyframe == u.gotKeyframe && d.lost == u.lost && d.delivered == JoinAll(u.pictures)
    requires !d.frag && u.open == None
    ensures Refines(d, u) <==> d.acc == Join(u.units)
  {
    assert Join(u.units) + [] == Join(u.units);
  }

  lemma SeveralRefines(d: State, u: Units, units: seq<seq<Byte>>)
    requires Refines(d, u) && !d.frag
    ensures Refines(d.(acc := d.acc + Join(units)), u.(units := u.units + units))
  {
    BufferOfUnits(d, u);
    JoinAppend(u.units, units);
    BufferOfUnits(d.(acc := d.acc + Join(units)), u.(units := u.units + units));
  }

  lemma SingleRefines(d: State, u: Units, src: seq<Byte>, sq: nat)
    requires Refines(d, u) && !d.frag
    ensures Refines(d.(acc := d.acc + SC + src), Put(u, src, true, sq))
  {
    JoinOne(src);
    assert d.acc + SC + src == d.acc + (SC + src);
    SeveralRefines(d, u, [src]);
  }

  lemma JoinCons(nal: seq<Byte>, nals: seq<seq<Byte>>)
    ensures Join([nal] + nals) == SC + nal + Join(nals)
  {
    assert ([nal] + nals)[1..] == nals;
  }

  lemma {:induction false} StapIsDisaggregated(src: seq<Byte>)
    ensures Stap(src) == (Join(Disaggregated(src).0), Disaggregated(src).1)
    decreases |src|, 1
  {
    if |src| >= 2 {
      var n := StapLength(src);
      assert Stap(src) == StapUnit(src, n) && Disaggregated(src) == FirstAnd(src, n);
      UnitIsFirst(src, n);
    }
  }

  lemma {:induction false} UnitIsFirst(src: seq<Byte>, n: nat)
    requires |src| >= 2
    ensures StapUnit(src, n) == (Join(FirstAnd(src, n).0), FirstAnd(src, n).1)
    decreases |src|, 0
  {
    if |src| > 2 && n <= |src| - 2 {
      var tail := src[2 + n..];
      StapIsDisaggregated(tail);
      JoinCons(src[2..2 + n], Disaggregated(tail).0);
    }
  }

  lemma FuBits(v: Byte)
    ensures FuDecode(v).s <==> v & 0x80 != 0
    ensures FuDecode(v).e <==> v & 0x40 != 0
    ensures FuDecode(v).typ == v & 0x1f
  {
  }

  lemma FirstRefines(d: State, u: Units, hdr: Byte, typ: Byte, payload: seq<Byte>, end: bool, sq: nat)
    requires Refines(d, u)
    ensures var d1 := Started(d, hdr, typ);
            Refines(d1.(acc := d1.acc + payload, frag := !end, fragSeq := sq),
                    Put(Dropped(u), [(hdr & 0x60) | typ] + payload, end, sq))
  {
    var d0 := if d.frag then d.Rewound() else d;
    DroppedRefines(d, u);
    assert Join(u.units) + [] == Join(u.units);
    assert d0.acc == Join(u.units);
    var d1 := Started(d, hdr, typ);
    var h := (hdr & 0x60) | typ;
    assert d1.acc + payload == Join(u.units) + (SC + ([h] + payload));
    PutRefines(d, Dropped(u), d1.(acc := d1.acc + payload, frag := !end, fragSeq := sq), [h] + payload, end, sq);
  }

  lemma NumberFollows(sq: nat, last: nat)
    ensures (sq - last) % 65536 == 1 <==> OneHigher(last, sq)
  {
  }

  lemma NextRefines(d: State, u: Units, payload: seq<Byte>, end: bool, sq: nat)
    requires Refines(d, u) && d.frag
    ensures Refines(d.(acc := d.acc + payload, frag := !end, fragSeq := sq), Put(u, u.open.value.nal + payload, end, sq))
  {
    var nal := u.open.value.nal;
    assert d.acc + payload == Join(u.units) + (SC + (nal + payload));
    PutRefines(d, u, d.(acc := d.acc + payload, frag := !end, fragSeq := sq), nal + payload, end, sq);
  }

  ghost predicate SameStep(r: (State, Err), v: (Units, Err)) { Refines(r.0, v.0) && r.1 == v.1 }

  lemma FirstFragment(d: State, u: Units, marker: bool, sq: nat, src: seq<Byte>, key: bool, fu: Fu)
    requires Refines(d, u) && |src| >= 2 && fu == FuDecode(src[1]) && fu.s
    ensures SameStep(FragmentStep(d, marker, sq, src, key),
                     TakeKind(u, First([(src[0] & 0x60) | fu.typ] + src[2..], fu.e), marker, sq, src, key))
  {
    var d1 := Started(d, src[0], fu.typ);
    FirstRefines(d, u, src[0], fu.typ, src[2..], fu.e, sq);
    ClosedRefines(d1.(acc := d1.acc + src[2..], frag := !fu.e, fragSeq := sq),
                  Put(Dropped(u), [(src[0] & 0x60) | fu.typ] + src[2..], fu.e, sq), marker, key);
  }

  lemma NextTaken(d: State, u: Units, marker: bool, sq: nat, payload: seq<Byte>, end: bool, key: bool)
    requires Refines(d, u) && d.frag
    ensures SameStep(Finish(d.(acc := d.acc + payload, frag := !end, fragSeq := sq), marker, key),
                     Closed(Put(u, u.open.value.nal + payload, end, sq), marker, key))
  {
    NextRefines(d, u, payload, end, sq);
    ClosedRefines(d.(acc := d.acc + payload, frag := !end, fragSeq := sq),
                  Put(u, u.open.value.nal + payload, end, sq), marker, key);
  }

  lemma NextFragment(d: State, u: Units, marker: bool, sq: nat, src: seq<Byte>, key: bool, fu: Fu)
    requires Refines(d, u) && |src| >= 2 && fu == FuDecode(src[1]) && !fu.s
    ensures SameStep(FragmentStep(d, marker, sq, src, key), TakeKind(u, Next(src[2..], fu.e), marker, sq, src, key))
  {
    var r, v := FragmentStep(d, marker, sq, src, key), TakeKind(u, Next(src[2..], fu.e), marker, sq, src, key);
    if d.frag {
      NumberFollows(sq, d.fragSeq);
      if (sq - d.fragSeq) % 65536 == 1 {
        NextTaken(d, u, marker, sq, src[2..], fu.e, key);
        assert r == Finish(d.(acc := d.acc + src[2..], frag := !fu.e, fragSeq := sq), marker, key);
        assert v == Closed(Put(u, u.open.value.nal + src[2..], fu.e, sq), marker, key);
      } else {
        DroppedRefines(d, u);
        assert r == (d.Rewound().(frag := false), Ok) && v == (Dropped(u), Ok);
      }
    } else {
      assert r == (d.(lost := d.lost + 1), Ok) && v == (u.(lost := u.lost + 1), Ok);
    }
  }

  lemma FragmentRefines(d: State, u: Units, marker: bool, sq: nat, src: seq<Byte>, key: bool)
    requires Refines(d, u) && src != [] && src[0] & 0x1f == 28
    ensures SameStep(FragmentStep(d, marker, sq, src, key), TakeKind(u, Classify(src), marker, sq, src, key))
  {
    if |src| >= 2 {
      var fu := FuDecode(src[1]);
      FuBits(src[1]);
      if fu.s {
        FirstFragment(d, u, marker, sq, src, key, fu);
      } else {
        NextFragment(d, u, marker, sq, src, key, fu);
      }
    }
  }

  lemma SingleTaken(d: State, u: Units, marker: bool, sq: nat, src: seq<Byte>, key: bool)
    requires Refines(d, u) && !d.frag
    ensures SameStep(Finish(d.(acc := d.acc + SC + src), marker, key), Closed(Put(u, src, true, sq), marker, key))
  {
    SingleRefines(d, u, src, sq);
    ClosedRefines(d.(acc := d.acc + SC + src), Put(u, src, true, sq), marker, key);
  }

  lemma SeveralTaken(d: State, u: Units, units: seq<seq<Byte>>, marker: bool, key: bool)
    requires Refines(d, u) && !d.frag
    ensures var d1, u1 := d.(acc := d.acc + Join(units)), u.(units := u.units + units);
            Refines(d1, u1) && SameStep(Finish(d1, marker, key), Closed(u1, marker, key))
  {
    SeveralRefines(d, u, units);
    ClosedRefines(d.(acc := d.acc + Join(units)), u.(units := u.units + units), marker, key);
  }

  lemma WholeRefines(d: State, u: Units, marker: bool, sq: nat, src: seq<Byte>, key: bool)
    requires Refines(d, u) && src != [] && src[0] & 0x1f != 28 && src[0] & 0x80 == 0
    requires src[0] & 0x1f == 1 ==> u.gotKeyframe
    ensures SameStep(Step(d, marker, sq, src, key), TakeKind(u, Classify(src), marker, sq, src, key))
  {
    var typ := src[0] & 0x1f;
    var d1 := if d.frag then d.Rewound().(frag := false) else d;
    DroppedRefines(d, u);
    var r, v := Step(d, marker, sq, src, key), TakeKind(u, Classify(src), marker, sq, src, key);
    if 1 <= typ <= 23 {
      SingleTaken(d1, Dropped(u), marker, sq, src, key);
      assert r == Finish(d1.(acc := d1.acc + SC + src), marker, key);
      assert v == Closed(Put(Dropped(u), src, true, sq), marker, key);
    } else if typ == 24 {
      var units, whole := Disaggregated(src[1..]).0, Disaggregated(src[1..]).1;
      StapIsDisaggregated(src[1..]);
      SeveralTaken(d1, Dropped(u), units, marker, key);
      var d2, u2 := d1.(acc := d1.acc + Join(units)), Dropped(u).(units := u.units + units);
      assert r == if whole then Finish(d2, marker, key) else (d2, EBADMSG);
      assert v == if whole then Closed(u2, marker, key) else (u2, EBADMSG);
    } else {
      assert r == (d1, EBADMSG) && v == (Dropped(u), EBADMSG);
    }
  }

  /** Every packet, well formed or not, has the same effect and the same result on both receivers. */
  lemma StepRefines(d: State, u: Units, marker: bool, sq: nat, src: seq<Byte>, key: bool)
    requires Refines(d, u)
    ensures SameStep(Step(d, marker, sq, src, key), Take(u, marker, sq, src, key))
  {
    if src != [] && !(src[0] & 0x1f == 1 && !u.gotKeyframe) && src[0] & 0x80 == 0 {
      if src[0] & 0x1f == 28 {
        FragmentRefines(d, u, marker, sq, src, key);
      } else {
        WholeRefines(d, u, marker, sq, src, key);
      }
    }
  }

  // ---------------------------------------------------------------- any packets in any order

  /** A packet as it arrives; key is what the video decoder would report about a picture it completes. */
  datatype Arrival = Arrival(marker: bool, sq: nat, bytes: seq<Byte>, key: bool)

  function Receive(d: State, ps: seq<Arrival>): State {
    if ps == [] then d
    else
      var n := |ps| - 1;
      Step(Receive(d, ps[..n]), ps[n].marker, ps[n].sq, ps[n].bytes, ps[n].key).0
  }

  function TakeAll(u: Units, ps: seq<Arrival>): Units {
    if ps == [] then u
    else
      var n := |ps| - 1;
      Take(TakeAll(u, ps[..n]), ps[n].marker, ps[n].sq, ps[n].bytes, ps[n].key).0
  }

  /** The buffer of the source refines the receiver of units, whatever packets arrive. */
  lemma {:induction false} ReceiverKeepsUnits(d: State, u: Units, ps: seq<Arrival>)
    requires Refines(d, u)
    ensures Refines(Receive(d, ps), TakeAll(u, ps))
    decreases |ps|
  {
    if ps == [] {
    } else {
      var n := |ps| - 1;
      ReceiverKeepsUnits(d, u, ps[..n]);
      StepRefines(Receive(d, ps[..n]), TakeAll(u, ps[..n]), ps[n].marker, ps[n].sq, ps[n].bytes, ps[n].key);
    }
  }
}
