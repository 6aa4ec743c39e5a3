/**
 A stream of NAL units as the packetizer of baresip/src/h264.c sends it, and what each of its packets carries.
 */
module H264Stream {
  import opened H264Startcode
  import opened H264Packetize
  import opened H264Depacketize
  import opened H264RoundTrip

  /** A NAL unit of the stream; the marker is set on the last one of an access unit. */
  datatype Unit = Unit(nal: seq<Byte>, marker: bool)

  /**
   What the receiver can tell apart: a NAL that goes out as one packet must not look like an aggregation or a
   fragment, and fragments have no room for the forbidden bit.
   */
  predicate Plain(nal: seq<Byte>, pktsize: nat) {
    && nal != [] && |nal| < SIZE_T
    && if |nal| - 1 <= pktsize then nal[0] & 0x80 != 0 || (nal[0] & 0x1f != STAP_A && nal[0] & 0x1f != FU_A)
       else nal[0] & 0x80 == 0
  }

  predicate AllPlain(us: seq<Unit>, pktsize: nat) { forall u :: 0 <= u < |us| ==> Plain(us[u].nal, pktsize) }

  function UnitPackets(u: Unit, pktsize: nat): seq<Packet>
    requires 2 < pktsize < SIZE_T && Plain(u.nal, pktsize)
  {
    NalPackets(true, true, u.marker, u.nal[0], u.nal[1..], pktsize)
  }

  /** The packets of the stream. */
  function Stream(us: seq<Unit>, pktsize: nat): seq<Packet>
    requires 2 < pktsize < SIZE_T && AllPlain(us, pktsize)
  {
    if us == [] then []
    else
      var n := |us| - 1;
      Stream(us[..n], pktsize) + UnitPackets(us[n], pktsize)
  }

  // ---------------------------------------------------------------- which part of which NAL a packet carries

  datatype Piece =
    | Whole(u: nat)
    | Part(u: nat, from: nat, to: nat, size: nat) // bytes from..to of a body of size bytes
  {
    predicate Ends() { Whole? || to == size }
  }

  predicate Carries(p: Packet, x: Piece, u: Unit) {
    u.nal != [] &&
    match x
    case Whole(_) => p == Packet(u.marker, [u.nal[0]], u.nal[1..])
    case Part(_, from, to, size) =>
      && size == |u.nal| - 1 && from <= to <= size && u.nal[0] & 0x80 == 0
      && p == Packet(u.marker && to == size, [(u.nal[0] & 0x60) | FU_A, FuHeader(from == 0, to == size, u.nal[0] & 0x1f)],
                     u.nal[1..][from..to])
  }

  /** The number of NAL units that end before packet i. */
  function Passed(xs: seq<Piece>, n: nat, i: nat): nat
    requires i <= |xs|
  {
    if i < |xs| then xs[i].u else n
  }

  /** What follows piece i. */
  predicate Follows(xs: seq<Piece>, n: nat, i: nat)
    requires i < |xs|
  {
    && Passed(xs, n, i + 1) == (if xs[i].Ends() then xs[i].u + 1 else xs[i].u)
    && (!xs[i].Ends() ==> i + 1 < |xs| && xs[i + 1].Part? && xs[i + 1].from == xs[i].to)
  }

  /** xs tells what packet i of the stream is. */
  predicate DescribesAt(us: seq<Unit>, ps: seq<Packet>, xs: seq<Piece>, pktsize: nat, i: nat) {
    && i < |xs| == |ps| && xs[i].u < |us| && Carries(ps[i], xs[i], us[xs[i].u]) && Follows(xs, |us|, i)
    && (xs[i].Whole? ==> |us[xs[i].u].nal| - 1 <= pktsize)
    && (xs[i].Part? && xs[i].from > 0 ==> i > 0 && !xs[i - 1].Ends())
  }

  /** Piece by piece, xs tells what the packets of the stream are. */
  ghost predicate Describes(us: seq<Unit>, ps: seq<Packet>, xs: seq<Piece>, pktsize: nat) {
    && |xs| == |ps| && Passed(xs, |us|, 0) == 0
    && forall i :: 0 <= i < |xs| ==> DescribesAt(us, ps, xs, pktsize, i)
  }

  function Pieces(u: nat, from: nat, size: nat, sz: nat): (xs: seq<Piece>)
    requires sz > 0 && from <= size
    ensures |xs| >= 1
    decreases size - from
  {
    if size - from > sz then [Part(u, from, from + sz, size)] + Pieces(u, from + sz, size, sz)
    else [Part(u, from, size, size)]
  }

  predicate UnitAt(unit: Unit, u: nat, ps: seq<Packet>, xs: seq<Piece>, i: nat) {
    && i < |xs| == |ps| && xs[i].u == u && Carries(ps[i], xs[i], unit) && Follows(xs, u + 1, i)
    && (i > 0 ==> !xs[i - 1].Ends())
  }

  /** xs tells what the packets of one NAL are. */
  ghost predicate DescribesUnit(unit: Unit, u: nat, ps: seq<Packet>, xs: seq<Piece>) {
    |xs| == |ps| >= 1 && forall i :: 0 <= i < |xs| ==> UnitAt(unit, u, ps, xs, i)
  }

  lemma DescribesCons(unit: Unit, u: nat, p: Packet, x: Piece, ps: seq<Packet>, xs: seq<Piece>)
    requires DescribesUnit(unit, u, ps, xs) && x.u == u && Carries(p, x, unit)
    requires x.Part? && x.to < x.size && xs[0].Part? && xs[0].from == x.to
    ensures DescribesUnit(unit, u, [p] + ps, [x] + xs)
  {
    var ps1, xs1 := [p] + ps, [x] + xs;
    assert UnitAt(unit, u, ps, xs, 0);
    forall i | 0 <= i < |xs1| ensures UnitAt(unit, u, ps1, xs1, i) {
      if i > 0 {
        assert xs1[i] == xs[i - 1] && ps1[i] == ps[i - 1] && UnitAt(unit, u, ps, xs, i - 1);
      }
    }
  }

  lemma DescribesLast(unit: Unit, u: nat, p: Packet, x: Piece)
    requires x.u == u && Carries(p, x, unit) && x.Ends()
    ensures DescribesUnit(unit, u, [p], [x])
  {
  }

  /** The fragments of a NAL, from byte from of its body on. */
  lemma {:induction false} FragmentPieces(unit: Unit, u: nat, body: seq<Byte>, s: bool, from: nat, sz: nat)
    requires unit.nal != [] && unit.nal[0] & 0x80 == 0 && body == unit.nal[1..] && sz > 0 && from <= |body| && s == (from == 0)
    ensures var xs := Pieces(u, from, |body|, sz);
            && DescribesUnit(unit, u, Fragments(unit.nal[0], s, true, unit.marker, body[from..], sz), xs)
            && xs[0].Part? && xs[0].from == from
    decreases |body| - from
  {
    var rest := body[from..];
    var ps := Fragments(unit.nal[0], s, true, unit.marker, rest, sz);
    if |rest| > sz {
      FragmentPieces(unit, u, body, false, from + sz, sz);
      assert rest[sz..] == body[from + sz..] && rest[..sz] == body[from..from + sz];
      var ps1 := Fragments(unit.nal[0], false, true, unit.marker, body[from + sz..], sz);
      assert ps == [ps[0]] + ps1;
      DescribesCons(unit, u, ps[0], Part(u, from, from + sz, |body|), ps1, Pieces(u, from + sz, |body|, sz));
    } else {
      assert rest == body[from..|body|];
      DescribesLast(unit, u, ps[0], Part(u, from, |body|, |body|));
    }
  }

  lemma {:induction false} AllParts(u: nat, from: nat, size: nat, sz: nat)
    requires sz > 0 && from <= size
    ensures forall i :: 0 <= i < |Pieces(u, from, size, sz)| ==> Pieces(u, from, size, sz)[i].Part?
    decreases size - from
  {
    if size - from > sz {
      AllParts(u, from + sz, size, sz);
    }
  }

  /** The pieces of one NAL. */
  function UnitShape(unit: Unit, u: nat, pktsize: nat): (xs: seq<Piece>)
    requires 2 < pktsize && unit.nal != []
    ensures |xs| >= 1
  {
    if |unit.nal| - 1 <= pktsize then [Whole(u)] else Pieces(u, 0, |unit.nal| - 1, pktsize - 2)
  }

  lemma {:induction false} UnitPieces(unit: Unit, u: nat, pktsize: nat)
    requires 2 < pktsize < SIZE_T && Plain(unit.nal, pktsize)
    ensures var xs := UnitShape(unit, u, pktsize);
            && DescribesUnit(unit, u, UnitPackets(unit, pktsize), xs) && (xs[0].Whole? || xs[0].from == 0)
            && (|unit.nal| - 1 <= pktsize || forall i :: 0 <= i < |xs| ==> xs[i].Part?)
  {
    var body := unit.nal[1..];
    WholeNalPackets(unit.marker, unit.nal[0], body, pktsize);
    if |body| <= pktsize {
      DescribesLast(unit, u, Packet(unit.marker, [unit.nal[0]], body), Whole(u));
    } else {
      FragmentPieces(unit, u, body, true, 0, pktsize - 2);
      assert body[0..] == body;
      AllParts(u, 0, |body|, pktsize - 2);
    }
  }

  lemma DescribedJoin(us: seq<Unit>, ps: seq<Packet>, a: seq<Piece>, qs: seq<Packet>, b: seq<Piece>, pktsize: nat)
    requires us != [] && Describes(us[..|us| - 1], ps, a, pktsize)
    requires DescribesUnit(us[|us| - 1], |us| - 1, qs, b) && (b[0].Whole? || b[0].from == 0)
    requires |us[|us| - 1].nal| - 1 <= pktsize || forall i :: 0 <= i < |b| ==> b[i].Part?
    ensures Describes(us, ps + qs, a + b, pktsize)
  {
    var n, xs := |us| - 1, a + b;
    forall i | 0 <= i < |xs| ensures DescribesAt(us, ps + qs, xs, pktsize, i) {
      if i < |a| {
        assert DescribesAt(us[..n], ps, a, pktsize, i);
        assert xs[i] == a[i] && us[..n][a[i].u] == us[a[i].u];
        if i + 1 == |a| {
          assert UnitAt(us[n], n, qs, b, 0);
        }
      } else {
        assert UnitAt(us[n], n, qs, b, i - |a|);
      }
    }
    if a == [] {
      assert UnitAt(us[n], n, qs, b, 0);
    }
  }

  /** The pieces of the stream. */
  function Shape(us: seq<Unit>, pktsize: nat): seq<Piece>
    requires 2 < pktsize && AllPlain(us, pktsize)
  {
    if us == [] then []
    else
      var n := |us| - 1;
      Shape(us[..n], pktsize) + UnitShape(us[n], n, pktsize)
  }

  lemma {:induction false} Described(us: seq<Unit>, pktsize: nat)
    requires 2 < pktsize < SIZE_T && AllPlain(us, pktsize)
    ensures Describes(us, Stream(us, pktsize), Shape(us, pktsize), pktsize)
    decreases |us|
  {
    if us == [] {
    } else {
      var n := |us| - 1;
      Described(us[..n], pktsize);
      UnitPieces(us[n], n, pktsize);
      DescribedJoin(us, Stream(us[..n], pktsize), Shape(us[..n], pktsize), UnitPackets(us[n], pktsize),
                    UnitShape(us[n], n, pktsize), pktsize);
    }
  }

  // ---------------------------------------------------------------- the stream of the packetizer

  lemma UnitsAppend(a: seq<Unit>, c: seq<Unit>, u: Unit)
    ensures a + (c + [u]) == (a + c) + [u]
  {
  }

  lemma UnitsLast(b: seq<Unit>, pktsize: nat) returns (c: seq<Unit>, u: Unit)
    requires b != [] && AllPlain(b, pktsize)
    ensures b == c + [u] && |c| < |b| && AllPlain(c, pktsize) && Plain(u.nal, pktsize)
  {
    c, u := b[..|b| - 1], b[|b| - 1];
  }

  lemma StreamSnoc(us: seq<Unit>, u: Unit, pktsize: nat)
    requires 2 < pktsize < SIZE_T && AllPlain(us, pktsize) && Plain(u.nal, pktsize)
    ensures AllPlain(us + [u], pktsize) && Stream(us + [u], pktsize) == Stream(us, pktsize) + UnitPackets(u, pktsize)
  {
    assert (us + [u])[..|us|] == us;
  }

  lemma StreamAppendOne(a: seq<Unit>, c: seq<Unit>, u: Unit, pktsize: nat)
    requires 2 < pktsize < SIZE_T && AllPlain(a, pktsize) && AllPlain(c, pktsize) && Plain(u.nal, pktsize)
    requires AllPlain(a + c, pktsize)
    requires Stream(a + c, pktsize) == Stream(a, pktsize) + Stream(c, pktsize)
    ensures AllPlain(c + [u], pktsize) && AllPlain(a + (c + [u]), pktsize)
    ensures Stream(a + (c + [u]), pktsize) == Stream(a, pktsize) + Stream(c + [u], pktsize)
  {
    StreamSnoc(a + c, u, pktsize);
    StreamSnoc(c, u, pktsize);
    UnitsAppend(a, c, u);
    PacketsAppend(Stream(a, pktsize), Stream(c, pktsize), UnitPackets(u, pktsize));
  }

  lemma {:induction false} StreamAppend(a: seq<Unit>, b: seq<Unit>, pktsize: nat)
    requires 2 < pktsize < SIZE_T && AllPlain(a, pktsize) && AllPlain(b, pktsize)
    ensures AllPlain(a + b, pktsize) && Stream(a + b, pktsize) == Stream(a, pktsize) + Stream(b, pktsize)
    decreases |b|
  {
    if b == [] {
      assert a + b == a;
    } else {
      var c, u := UnitsLast(b, pktsize);
      StreamAppend(a, c, pktsize);
      StreamAppendOne(a, c, u, pktsize);
    }
  }

  /** The NAL units of an access unit, with the marker on the last one. */
  function AccessUnit(nals: seq<seq<Byte>>): (us: seq<Unit>)
    ensures |us| == |nals|
  {
    seq(|nals|, k requires 0 <= k < |nals| => Unit(nals[k], k == |nals| - 1))
  }

  lemma AccessUnitCons(nals: seq<seq<Byte>>, pktsize: nat)
    requires nals != [] && AllPlain(AccessUnit(nals), pktsize)
    ensures AccessUnit(nals) == [Unit(nals[0], |nals| == 1)] + AccessUnit(nals[1..])
    ensures Plain(nals[0], pktsize) && AllPlain(AccessUnit(nals[1..]), pktsize)
  {
    var us, rest := AccessUnit(nals), AccessUnit(nals[1..]);
    forall u | 0 <= u < |rest| ensures rest[u] == us[u + 1] && Plain(rest[u].nal, pktsize) {
      assert Plain(us[u + 1].nal, pktsize);
    }
    assert Plain(us[0].nal, pktsize);
  }

  lemma StreamOne(u: Unit, pktsize: nat)
    requires 2 < pktsize < SIZE_T && Plain(u.nal, pktsize)
    ensures AllPlain([u], pktsize) && Stream([u], pktsize) == UnitPackets(u, pktsize)
  {
    assert [u][..0] == [];
    assert Stream([], pktsize) == [];
    assert [] + UnitPackets(u, pktsize) == UnitPackets(u, pktsize);
  }

  /** The stream of an access unit is what the packetizer sends. */
  lemma {:induction false} AccessUnitStream(nals: seq<seq<Byte>>, pktsize: nat)
    requires 2 < pktsize < SIZE_T && AllPlain(AccessUnit(nals), pktsize) && AllTerminate(nals, pktsize)
    ensures Stream(AccessUnit(nals), pktsize) == SendNals(nals, pktsize)
    decreases |nals|
  {
    if nals == [] {
    } else {
      var u, rest := Unit(nals[0], |nals| == 1), AccessUnit(nals[1..]);
      AccessUnitCons(nals, pktsize);
      StreamOne(u, pktsize);
      StreamAppend([u], rest, pktsize);
      AccessUnitStream(nals[1..], pktsize);
      assert SendNals(nals, pktsize) == UnitPackets(u, pktsize) + SendNals(nals[1..], pktsize);
    }
  }
}
