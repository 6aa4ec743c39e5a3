/**
 Where the NAL units of the pictures come from, at the receiver of baresip/modules/avcodec/decode.c, when packets are
 lost, repeated or reordered in any way and may be anything at all.
 */
module H264Sources {
  import opened Common
  import opened H264Startcode
  import opened H264Packetize
  import opened H264Depacketize
  import opened H264Units

  /** A packet with what it is. */
  datatype Piece = Piece(kind: Kind, sq: nat, bytes: seq<Byte>)

  function PieceOf(p: Arrival): Piece { Piece(Classify(p.bytes), p.sq, p.bytes) }

  function Pieces(ps: seq<Arrival>): (qs: seq<Piece>)
    ensures |qs| == |ps| && forall i :: 0 <= i < |ps| ==> qs[i] == PieceOf(ps[i])
  {
    seq(|ps|, i requires 0 <= i < |ps| => PieceOf(ps[i]))
  }

  /** The unit is the whole packet, or one of those it aggregates. */
  predicate InPacket(p: Piece, unit: seq<Byte>) {
    match p.kind
    case Single => unit == p.bytes
    case Several(units, _) => unit in units
    case _ => false
  }

  /**
   The unit is put together from the arrivals at these positions, in this order: a first fragment and next ones, each
   numbered one higher than the fragment before it.  end says whether the last of them is the end of a unit; the
   others are not.
   */
  predicate Builds(ps: seq<Piece>, at: seq<nat>, unit: seq<Byte>, end: bool)
    decreases |at|
  {
    && at != []
    && var n := |at| - 1;
    && at[n] < |ps|
    && match ps[at[n]].kind
       case First(nal, e) => n == 0 && unit == nal && e == end
       case Next(payload, e) =>
         && n > 0 && e == end && at[n - 1] < at[n]
         && OneHigher(ps[at[n - 1]].sq, ps[at[n]].sq)
         && |payload| <= |unit| && unit[|unit| - |payload|..] == payload
         && Builds(ps, at[..n], unit[..|unit| - |payload|], false)
       case _ => false
  }

  /** The unit arrived whole, or in consecutive fragments from its beginning to its end. */
  ghost predicate Sourced(ps: seq<Piece>, unit: seq<Byte>) {
    || (exists i :: 0 <= i < |ps| && InPacket(ps[i], unit))
    || (exists at :: Builds(ps, at, unit, true))
  }

  ghost predicate AllSourced(ps: seq<Piece>, units: seq<seq<Byte>>) {
    forall k :: 0 <= k < |units| ==> Sourced(ps, units[k])
  }

  ghost predicate PicturesSourced(ps: seq<Piece>, pictures: seq<seq<seq<Byte>>>) {
    forall k :: 0 <= k < |pictures| ==> AllSourced(ps, pictures[k])
  }

  ghost predicate OpenSourced(ps: seq<Piece>, open: Option<Open>) {
    open.Some? ==> exists at :: Builds(ps, at, open.value.nal, false) && ps[at[|at| - 1]].sq == open.value.sq
  }

  ghost predicate Inv(ps: seq<Piece>, u: Units) {
    AllSourced(ps, u.units) && PicturesSourced(ps, u.pictures) && OpenSourced(ps, u.open)
  }

  // ---------------------------------------------------------------- one more packet

  lemma {:induction false} BuildsMore(ps: seq<Piece>, p: Piece, at: seq<nat>, unit: seq<Byte>, end: bool)
    requires Builds(ps, at, unit, end)
    ensures Builds(ps + [p], at, unit, end)
    decreases |at|
  {
    var n := |at| - 1;
    var kind := ps[at[n]].kind;
    if kind.Next? {
      BuildsMore(ps, p, at[..n], unit[..|unit| - |kind.payload|], false);
    }
  }

  lemma SourcedMore(ps: seq<Piece>, p: Piece, unit: seq<Byte>)
    requires Sourced(ps, unit)
    ensures Sourced(ps + [p], unit)
  {
    if i :| 0 <= i < |ps| && InPacket(ps[i], unit) {
      assert InPacket((ps + [p])[i], unit);
    } else {
      var at: seq<nat> :| Builds(ps, at, unit, true);
      BuildsMore(ps, p, at, unit, true);
    }
  }

  lemma AllSourcedMore(ps: seq<Piece>, p: Piece, units: seq<seq<Byte>>)
    requires AllSourced(ps, units)
    ensures AllSourced(ps + [p], units)
  {
    forall k | 0 <= k < |units| ensures Sourced(ps + [p], units[k]) {
      SourcedMore(ps, p, units[k]);
    }
  }

  lemma InvMore(ps: seq<Piece>, p: Piece, u: Units)
    requires Inv(ps, u)
    ensures Inv(ps + [p], u)
  {
    AllSourcedMore(ps, p, u.units);
    forall k | 0 <= k < |u.pictures| ensures AllSourced(ps + [p], u.pictures[k]) {
      AllSourcedMore(ps, p, u.pictures[k]);
    }
    if u.open.Some? {
      var at: seq<nat> :| Builds(ps, at, u.open.value.nal, false) && ps[at[|at| - 1]].sq == u.open.value.sq;
      BuildsMore(ps, p, at, u.open.value.nal, false);
    }
  }

  lemma ClosedInv(ps: seq<Piece>, u: Units, marker: bool, key: bool)
    requires Inv(ps, u)
    ensures Inv(ps, Closed(u, marker, key).0)
  {
  }

  lemma PutInv(ps: seq<Piece>, u: Units, at: seq<nat>, nal: seq<Byte>, end: bool, sq: nat)
    requires Inv(ps, u) && Builds(ps, at, nal, end) && ps[at[|at| - 1]].sq == sq
    ensures Inv(ps, Put(u, nal, end, sq))
  {
  }

  lemma UnitsInv(ps: seq<Piece>, u: Units, units: seq<seq<Byte>>)
    requires Inv(ps, u) && AllSourced(ps, units)
    ensures Inv(ps, u.(units := u.units + units))
  {
  }

  lemma NextBuilds(ps: seq<Piece>, at: seq<nat>, i: nat, nal: seq<Byte>, payload: seq<Byte>, end: bool)
    requires Builds(ps, at, nal, false) && at[|at| - 1] < i < |ps|
    requires ps[i].kind == Next(payload, end) && OneHigher(ps[at[|at| - 1]].sq, ps[i].sq)
    ensures Builds(ps, at + [i], nal + payload, end)
  {
    var unit := nal + payload;
    assert (at + [i])[..|at|] == at;
    assert unit[|unit| - |payload|..] == payload && unit[..|unit| - |payload|] == nal;
  }

  /** A next fragment with the right number continues the chain of the open unit. */
  lemma ChainGrows(ps: seq<Piece>, p: Piece, at: seq<nat>, open: Open, payload: seq<Byte>, end: bool)
    requires Builds(ps, at, open.nal, false) && ps[at[|at| - 1]].sq == open.sq
    requires p.kind == Next(payload, end) && OneHigher(open.sq, p.sq)
    ensures Builds(ps + [p], at + [|ps|], open.nal + payload, end)
  {
    BuildsMore(ps, p, at, open.nal, false);
    NextBuilds(ps + [p], at, |ps|, open.nal, payload, end);
  }

  lemma NextInv(ps: seq<Piece>, p: Piece, u: Units, payload: seq<Byte>, end: bool)
    requires Inv(ps, u) && Inv(ps + [p], u) && p.kind == Next(payload, end)
    requires u.open.Some? && OneHigher(u.open.value.sq, p.sq)
    ensures Inv(ps + [p], Put(u, u.open.value.nal + payload, end, p.sq))
  {
    var open := u.open.value;
    var at: seq<nat> :| Builds(ps, at, open.nal, false) && ps[at[|at| - 1]].sq == open.sq;
    ChainGrows(ps, p, at, open, payload, end);
    PutInv(ps + [p], u, at + [|ps|], open.nal + payload, end, p.sq);
  }

  lemma FirstInv(ps: seq<Piece>, u: Units, nal: seq<Byte>, end: bool)
    requires Inv(ps, u) && ps != [] && ps[|ps| - 1].kind == First(nal, end)
    ensures Inv(ps, Put(u, nal, end, ps[|ps| - 1].sq))
  {
    assert Builds(ps, [|ps| - 1], nal, end);
    PutInv(ps, u, [|ps| - 1], nal, end, ps[|ps| - 1].sq);
  }

  lemma PacketInv(ps: seq<Piece>, u: Units, units: seq<seq<Byte>>)
    requires Inv(ps, u) && ps != [] && forall k :: 0 <= k < |units| ==> InPacket(ps[|ps| - 1], units[k])
    ensures Inv(ps, u.(units := u.units + units))
  {
    UnitsInv(ps, u, units);
  }

  lemma TakeKindInv(ps: seq<Piece>, p: Piece, u: Units, marker: bool, key: bool)
    requires Inv(ps, u)
    ensures Inv(ps + [p], TakeKind(u, p.kind, marker, p.sq, p.bytes, key).0)
  {
    var qs, v := ps + [p], Dropped(u);
    InvMore(ps, p, u);
    var t := TakeKind(u, p.kind, marker, p.sq, p.bytes, key).0;
    match p.kind {
      case Single =>
        PacketInv(qs, v, [p.bytes]);
        ClosedInv(qs, Put(v, p.bytes, true, p.sq), marker, key);
        assert t == Closed(Put(v, p.bytes, true, p.sq), marker, key).0;
      case Several(units, whole) =>
        var w := v.(units := u.units + units);
        PacketInv(qs, v, units);
        ClosedInv(qs, w, marker, key);
        assert t == if whole then Closed(w, marker, key).0 else w;
      case First(nal, end) =>
        FirstInv(qs, v, nal, end);
        ClosedInv(qs, Put(v, nal, end, p.sq), marker, key);
        assert t == Closed(Put(v, nal, end, p.sq), marker, key).0;
      case Next(payload, end) =>
        if u.open.Some? && OneHigher(u.open.value.sq, p.sq) {
          var w := Put(u, u.open.value.nal + payload, end, p.sq);
          NextInv(ps, p, u, payload, end);
          ClosedInv(qs, w, marker, key);
          assert t == Closed(w, marker, key).0;
        } else {
          assert t == if u.open == None then u.(lost := u.lost + 1) else v;
        }
      case _ =>
        assert t == u || t == v;
    }
  }

  // ---------------------------------------------------------------- any packets in any order

  const NOTHING: Units := Units([], None, false, 0, [])

  lemma {:induction false} TakeAllInv(ps: seq<Arrival>)
    ensures Inv(Pieces(ps), TakeAll(NOTHING, ps))
    decreases |ps|
  {
    if ps == [] {
    } else {
      var n := |ps| - 1;
      var before, u, p := Pieces(ps[..n]), TakeAll(NOTHING, ps[..n]), ps[n];
      TakeAllInv(ps[..n]);
      InvMore(before, PieceOf(p), u);
      TakeKindInv(before, PieceOf(p), u, p.marker, p.key);
      assert Pieces(ps) == before + [PieceOf(p)];
    }
  }

  /**
   Whatever arrives: every picture a new receiver hands on is joined from units, each of which arrived whole or in
   consecutive fragments from its beginning to its end.
   */
  lemma PicturesHaveSources(ps: seq<Arrival>) returns (pictures: seq<seq<seq<Byte>>>)
    ensures Receive(State([], 0, false, 0, false, 0, []), ps).delivered == JoinAll(pictures)
    ensures PicturesSourced(Pieces(ps), pictures)
  {
    var d := State([], 0, false, 0, false, 0, []);
    assert Join(NOTHING.units) + OpenBytes(NOTHING) == [];
    ReceiverKeepsUnits(d, NOTHING, ps);
    TakeAllInv(ps);
    pictures := TakeAll(NOTHING, ps).pictures;
  }
}
