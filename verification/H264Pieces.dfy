/**
 h264_nal_send of baresip/src/h264.c called several times for one NAL unit: with the first piece, with those in
 between, and with the last one.  The receiver of baresip/modules/avcodec/decode.c puts the pieces together again.
 */
module H264Pieces {
  import opened H264Startcode
  import opened H264Packetize
  import opened H264Depacketize
  import opened H264RoundTrip

  /** The pieces of a NAL body, one call each; first says whether the first of them begins the NAL unit. */
  function PiecePackets(first: bool, marker: bool, hdr: Byte, pieces: seq<seq<Byte>>, maxsz: nat): seq<Packet>
    requires 2 < maxsz < SIZE_T && forall k :: 0 <= k < |pieces| ==> |pieces[k]| < SIZE_T
  {
    if pieces == [] then []
    else NalPackets(first, |pieces| == 1, marker, hdr, pieces[0], maxsz) + PiecePackets(false, marker, hdr, pieces[1..], maxsz)
  }

  /** A NAL unit is open, and the next fragment has number sq. */
  ghost predicate Expects(d: State, sq: nat) { d.frag && (sq - d.fragSeq) % 65536 == 1 }

  /** What a fragment that is not the last one leaves behind. */
  function Grown(d: State, bytes: seq<Byte>, sq: nat): State { d.(acc := d.acc + bytes, fragSeq := sq % 65536) }

  lemma GrownExpects(d: State, bytes: seq<Byte>, sq: nat)
    requires d.frag
    ensures Expects(Grown(d, bytes, sq), sq + 1)
  {
  }

  lemma SameNumber(sq: nat, last: nat)
    ensures (sq % 65536 - last) % 65536 == (sq - last) % 65536
  {
  }

  /** One fragment behind others. */
  lemma NextFragment(d: State, p: Packet, hdr: Byte, e: bool, sq: nat, key: bool)
    requires p.hdr == [(hdr & 0x60) | FU_A, FuHeader(false, e, hdr & 0x1f)]
    requires Expects(d, sq) && |d.acc| + |p.payload| <= DECODE_MAXSZ && (p.marker ==> e)
    ensures var d1 := Step(d, p.marker, sq % 65536, p.Bytes(), key).0;
            if e then TookBytes(d, d1, p.payload, p.marker, key) else d1 == Grown(d, p.payload, sq)
  {
    StepOnFragment(d, p, hdr, false, e, sq % 65536, key);
    SameNumber(sq, d.fragSeq);
  }

  lemma OneRun(d: State, p: Packet, sq: nat, key: bool)
    ensures Run(d, [p], sq, key) == Step(d, p.marker, sq % 65536, p.Bytes(), key).0
  {
    assert [p][1..] == [];
    assert Run(Step(d, p.marker, sq % 65536, p.Bytes(), key).0, [], sq + 1, key) == Step(d, p.marker, sq % 65536, p.Bytes(), key).0;
  }

  /** From d to e a piece was added; if it was not the last one, the unit is still open. */
  ghost predicate Added(d: State, e: State, bytes: seq<Byte>, last: bool, marker: bool, sq: nat, key: bool) {
    if last then TookBytes(d, e, bytes, marker, key)
    else Expects(e, sq) && e == d.(acc := d.acc + bytes, fragSeq := e.fragSeq)
  }

  lemma AddedTwice(d: State, e: State, f: State, a: seq<Byte>, b: seq<Byte>, last: bool, marker: bool, m: nat, sq: nat, key: bool)
    requires Added(d, e, a, false, false, m, key) && Added(e, f, b, last, marker, sq, key)
    ensures Added(d, f, a + b, last, marker, sq, key)
  {
    assert d.acc + a + b == d.acc + (a + b);
  }

  /** A body that is too long is cut: a full fragment, and the fragments of the rest. */
  lemma FirstCut(hdr: Byte, s: bool, last: bool, marker: bool, body: seq<Byte>, sz: nat) returns (p: Packet, rest: seq<Packet>)
    requires 0 < sz < |body|
    ensures p == Packet(false, [(hdr & 0x60) | FU_A, FuHeader(s, false, hdr & 0x1f)], body[..sz])
    ensures rest == Fragments(hdr, false, last, marker, body[sz..], sz)
    ensures Fragments(hdr, s, last, marker, body, sz) == [p] + rest
  {
    p := Packet(false, [(hdr & 0x60) | FU_A, FuHeader(s, false, hdr & 0x1f)], body[..sz]);
    rest := Fragments(hdr, false, last, marker, body[sz..], sz);
  }

  lemma RunCons(d: State, p: Packet, rest: seq<Packet>, sq: nat, key: bool)
    ensures Run(d, [p] + rest, sq, key) == Run(Step(d, p.marker, sq % 65536, p.Bytes(), key).0, rest, sq + 1, key)
  {
    assert ([p] + rest)[1..] == rest;
  }

  /** The fragments of a piece that does not begin the unit. */
  lemma {:induction false} PieceAdded(d: State, hdr: Byte, last: bool, marker: bool, body: seq<Byte>, sz: nat, sq: nat, key: bool)
    requires sz > 0 && Expects(d, sq) && |d.acc| + |body| <= DECODE_MAXSZ
    ensures var ps := Fragments(hdr, false, last, marker, body, sz);
            Added(d, Run(d, ps, sq, key), body, last, marker, sq + |ps|, key)
    decreases |body|
  {
    if |body| > sz {
      var p, rest := FirstCut(hdr, false, last, marker, body, sz);
      var d1 := Grown(d, body[..sz], sq);
      NextFragment(d, p, hdr, false, sq, key);
      GrownExpects(d, body[..sz], sq);
      RunCons(d, p, rest, sq, key);
      PieceAdded(d1, hdr, last, marker, body[sz..], sz, sq + 1, key);
      AddedTwice(d, d1, Run(d1, rest, sq + 1, key), body[..sz], body[sz..], last, marker, sq + 1, sq + 1 + |rest|, key);
      assert body[..sz] + body[sz..] == body;
    } else {
      var p := Packet(marker && last, [(hdr & 0x60) | FU_A, FuHeader(false, last, hdr & 0x1f)], body);
      NextFragment(d, p, hdr, last, sq, key);
      OneRun(d, p, sq, key);
      if !last {
        GrownExpects(d, body, sq);
      }
    }
  }

  lemma NotWhole(first: bool, last: bool, marker: bool, hdr: Byte, body: seq<Byte>, maxsz: nat)
    requires 2 < maxsz < SIZE_T && |body| < SIZE_T && !(first && last)
    ensures NalPackets(first, last, marker, hdr, body, maxsz) == Fragments(hdr, first, last, marker, body, maxsz - 2)
  {
    assert FragmentSize(maxsz) == maxsz - 2;
  }

  /** The pieces behind the first one. */
  lemma {:induction false} PiecesAdded(d: State, hdr: Byte, pieces: seq<seq<Byte>>, marker: bool, maxsz: nat, sq: nat, key: bool)
    requires 2 < maxsz < SIZE_T && (forall k :: 0 <= k < |pieces| ==> |pieces[k]| < SIZE_T) && pieces != []
    requires Expects(d, sq) && |d.acc| + |Concat(pieces)| <= DECODE_MAXSZ
    ensures TookBytes(d, Run(d, PiecePackets(false, marker, hdr, pieces, maxsz), sq, key), Concat(pieces), marker, key)
    decreases |pieces|
  {
    var body, rest := pieces[0], pieces[1..];
    var last := |pieces| == 1;
    var ps, qs := Fragments(hdr, false, last, marker, body, maxsz - 2), PiecePackets(false, marker, hdr, rest, maxsz);
    NotWhole(false, last, marker, hdr, body, maxsz);
    var e := Run(d, ps, sq, key);
    PieceAdded(d, hdr, last, marker, body, maxsz - 2, sq, key);
    RunAppend(d, ps, qs, sq, key);
    if last {
      assert rest == [] && qs == [] && Run(e, qs, sq + |ps|, key) == e;
      assert Concat(rest) == [] && body + [] == body;
    } else {
      PiecesAdded(e, hdr, rest, marker, maxsz, sq + |ps|, key);
      AddedTwice(d, e, Run(e, qs, sq + |ps|, key), body, Concat(rest), true, marker, sq + |ps|, sq, key);
    }
  }

  /** A NAL unit has been begun with these bytes. */
  function Begun(d: State, bytes: seq<Byte>, fragSeq: nat): State {
    d.(acc := d.acc + bytes, fragStart := |d.acc|, frag := true, fragSeq := fragSeq)
  }

  lemma FirstFragment(d: State, p: Packet, hdr: Byte, sq: nat, key: bool)
    requires p.hdr == [(hdr & 0x60) | FU_A, FuHeader(true, false, hdr & 0x1f)] && !p.marker
    requires !d.frag && |d.acc| + 4 + |p.payload| <= DECODE_MAXSZ
    ensures Step(d, false, sq % 65536, p.Bytes(), key).0 == Begun(d, SC + [hdr & 0x7f] + p.payload, sq % 65536)
  {
    StepOnFragment(d, p, hdr, true, false, sq % 65536, key);
    StartedBits(d, hdr);
    assert d.acc + SC + [hdr & 0x7f] + p.payload == d.acc + (SC + [hdr & 0x7f] + p.payload);
  }

  lemma BegunExpects(d: State, bytes: seq<Byte>, sq: nat)
    ensures Expects(Begun(d, bytes, sq % 65536), sq + 1)
  {
  }

  lemma BegunGrows(d: State, d1: State, e: State, a: seq<Byte>, b: seq<Byte>, sq: nat, key: bool)
    requires d1 == Begun(d, a, d1.fragSeq) && Added(d1, e, b, false, false, sq, key)
    ensures e == Begun(d, a + b, e.fragSeq)
  {
    assert d.acc + a + b == d.acc + (a + b);
  }

  /** The fragments of the first piece. */
  lemma FirstPiece(d: State, hdr: Byte, marker: bool, body: seq<Byte>, sz: nat, sq: nat, key: bool)
    requires !d.frag && sz > 0 && |d.acc| + 4 + |body| <= DECODE_MAXSZ
    ensures var ps := Fragments(hdr, true, false, marker, body, sz);
            var e := Run(d, ps, sq, key);
            Expects(e, sq + |ps|) && e == Begun(d, SC + [hdr & 0x7f] + body, e.fragSeq)
  {
    var h := SC + [hdr & 0x7f];
    if |body| > sz {
      var p, rest := FirstCut(hdr, true, false, marker, body, sz);
      var d1 := Begun(d, h + body[..sz], sq % 65536);
      FirstFragment(d, p, hdr, sq, key);
      BegunExpects(d, h + body[..sz], sq);
      RunCons(d, p, rest, sq, key);
      PieceAdded(d1, hdr, false, marker, body[sz..], sz, sq + 1, key);
      BegunGrows(d, d1, Run(d1, rest, sq + 1, key), h + body[..sz], body[sz..], sq + 1 + |rest|, key);
      assert h + body[..sz] + body[sz..] == h + body;
    } else {
      var p := Packet(false, [(hdr & 0x60) | FU_A, FuHeader(true, false, hdr & 0x1f)], body);
      FirstFragment(d, p, hdr, sq, key);
      BegunExpects(d, h + body, sq);
      OneRun(d, p, sq, key);
    }
  }

  lemma TookFromBegun(d: State, d1: State, e: State, a: seq<Byte>, b: seq<Byte>, marker: bool, key: bool)
    requires d1 == Begun(d, a, d1.fragSeq) && TookBytes(d1, e, b, marker, key)
    ensures TookBytes(d, e, a + b, marker, key)
  {
    assert d.acc + a + b == d.acc + (a + b);
  }

  /**
   However a NAL body is cut into two or more pieces, empty ones included, and whatever the fragment size: the
   receiver takes in the header without the forbidden bit and the whole body, as one NAL unit, and hands the picture
   on if the marker was set.
   */
  lemma PiecesRebuilt(d: State, hdr: Byte, pieces: seq<seq<Byte>>, marker: bool, maxsz: nat, sq: nat, key: bool)
    requires 2 < maxsz < SIZE_T && (forall k :: 0 <= k < |pieces| ==> |pieces[k]| < SIZE_T) && |pieces| >= 2
    requires !d.frag && |d.acc| + 4 + |Concat(pieces)| <= 524288
    ensures TookBytes(d, Run(d, PiecePackets(true, marker, hdr, pieces, maxsz), sq, key),
                      SC + [hdr & 0x7f] + Concat(pieces), marker, key)
  {
    var body, rest, h := pieces[0], pieces[1..], SC + [hdr & 0x7f];
    var ps, qs := Fragments(hdr, true, false, marker, body, maxsz - 2), PiecePackets(false, marker, hdr, rest, maxsz);
    NotWhole(true, false, marker, hdr, body, maxsz);
    FirstPiece(d, hdr, marker, body, maxsz - 2, sq, key);
    RunAppend(d, ps, qs, sq, key);
    var d1 := Run(d, ps, sq, key);
    PiecesAdded(d1, hdr, rest, marker, maxsz, sq + |ps|, key);
    TookFromBegun(d, d1, Run(d1, qs, sq + |ps|, key), h + body, Concat(rest), marker, key);
    assert h + body + Concat(rest) == h + Concat(pieces);
  }
}
