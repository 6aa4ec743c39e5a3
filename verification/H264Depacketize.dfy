/**
 The receiver of baresip/modules/avcodec/decode.c: avcodec_decode_h264 with the header parsers of
 baresip/src/h264.c and rem/src/h264/nal.c.

 Packets are collected, behind Annex-B start codes, in a buffer that is handed to the video decoder
 when a packet with the marker arrives.
 */
module H264Depacketize {
  import opened H264Startcode
  import opened H264Packetize

  const DECODE_MAXSZ: nat := 524288
  const STAP_A: Byte := 24
  const NAL_SLICE: Byte := 1

  datatype Err = Ok | EBADMSG | EPROTO | ENOENT | ENOMEM

  datatype Fu = Fu(s: bool, e: bool, r: bool, typ: Byte)

  /** h264_fu_hdr_decode */
  function FuDecode(v: Byte): Fu {
    Fu((v >> 7) & 1 == 1, (v >> 6) & 1 == 1, (v >> 5) & 1 == 1, v & 0x1f)
  }

  /** The FU header the fragmenter writes is read back unchanged. */
  lemma FuRoundTrip(s: bool, e: bool, hdr: Byte)
    ensures FuDecode(FuHeader(s, e, hdr & 0x1f)) == Fu(s, e, false, hdr & 0x1f)
  {
  }

  const SC: seq<Byte> := [0, 0, 1]

  /**
   The fields of struct viddec_state that packets change.  acc is the content of its buffer, whose
   position is always at its end; delivered lists the buffers handed to the video decoder.
   */
  datatype State = State(acc: seq<Byte>, fragStart: nat, frag: bool, fragSeq: nat, gotKeyframe: bool,
                         lost: nat, delivered: seq<seq<Byte>>)
  {
    /** fragment_rewind */
    function Rewound(): State
    {
      this.(acc := if fragStart <= |acc| then acc[..fragStart] else acc, lost := lost + 1)
    }

    function Reset(): State { this.(acc := [], frag := false) }
  }

  /** A fragmented NAL began inside the buffer, so a rewind only ever shortens it. */
  ghost predicate Valid(d: State) { d.frag ==> d.fragStart <= |d.acc| }

  /** The 16-bit big-endian length in front of an aggregated unit. */
  function StapLength(src: seq<Byte>): nat
    requires |src| >= 2
  {
    256 * (src[0] as nat) + (src[1] as nat)
  }

  /** The aggregated units of a STAP-A payload behind start codes, up to the first malformed one. */
  function Stap(src: seq<Byte>): (r: (seq<Byte>, bool))
    decreases |src|, 1
  {
    if |src| < 2 then ([], true) else StapUnit(src, StapLength(src))
  }

  /** The same, when the first unit has length len. */
  function StapUnit(src: seq<Byte>, len: nat): (r: (seq<Byte>, bool))
    requires |src| >= 2
    decreases |src|, 0
  {
    if |src| - 2 < len || |src| - 2 < 1 then ([], false)
    else
      var rest := Stap(src[2 + len..]);
      (SC + src[2..2 + len] + rest.0, rest.1)
  }

  lemma {:induction false} StapUnfold(acc: seq<Byte>, src: seq<Byte>, len: nat)
    requires |src| >= 3 && len <= |src| - 2
    ensures acc + StapUnit(src, len).0 == (acc + (SC + src[2..2 + len])) + Stap(src[2 + len..]).0
    ensures StapUnit(src, len).1 == Stap(src[2 + len..]).1
  {
  }

  /** The common end of the handler: size check without the marker, decoding with it. */
  function Finish(d: State, marker: bool, key: bool): (State, Err) {
    if !marker then
      if |d.acc| > DECODE_MAXSZ then (d.Reset(), ENOMEM) else (d, Ok)
    else if d.frag then (d.Reset(), EPROTO)
    else (d.Reset().(delivered := d.delivered + [d.acc], gotKeyframe := d.gotKeyframe || key), Ok)
  }

  /** A fragmented NAL begins: its header is rebuilt behind a start code. */
  function Started(d: State, hdr: Byte, typ: Byte): State {
    var d1 := if d.frag then d.Rewound() else d;
    d1.(fragStart := |d1.acc|, frag := true, acc := d1.acc + SC + [(hdr & 0x60) | typ])
  }

  function FragmentStep(d: State, marker: bool, sq: nat, src: seq<Byte>, key: bool): (State, Err)
    requires |src| >= 1
  {
    if |src| < 2 then (d, ENOENT)
    else
      var fu := FuDecode(src[1]);
      if !fu.s && !d.frag then (d.(lost := d.lost + 1), Ok)
      else if !fu.s && (sq - d.fragSeq) % 65536 != 1 then (d.Rewound().(frag := false), Ok)
      else
        var d1 := if fu.s then Started(d, src[0], fu.typ) else d;
        Finish(d1.(acc := d1.acc + src[2..], frag := !fu.e, fragSeq := sq), marker, key)
  }

  /** One packet.  key is what the video decoder reports about the picture, if it is called. */
  function Step(d: State, marker: bool, sq: nat, src: seq<Byte>, key: bool): (State, Err) {
    if src == [] then (d, EBADMSG)
    else
      var typ := src[0] & 0x1f;
      if typ == NAL_SLICE && !d.gotKeyframe then (d, EPROTO)
      else if src[0] & 0x80 != 0 then (d, EBADMSG)
      else
        var d1 := if d.frag && typ != FU_A then d.Rewound().(frag := false) else d;
        if 1 <= typ <= 23 then Finish(d1.(acc := d1.acc + SC + src), marker, key)
        else if typ == FU_A then FragmentStep(d1, marker, sq, src, key)
        else if typ == STAP_A then
          var (out, ok) := Stap(src[1..]);
          var d2 := d1.(acc := d1.acc + out);
          if ok then Finish(d2, marker, key) else (d2, EBADMSG)
        else (d1, EBADMSG)
  }

  /** The receiver object: the fields of struct viddec_state, updated in place. */
  class Decoder {
    var acc: seq<Byte>
    var fragStart: nat
    var frag: bool
    var fragSeq: nat
    var gotKeyframe: bool
    var lost: nat
    var delivered: seq<seq<Byte>>

    function Abs(): State
      reads this
    {
      State(acc, fragStart, frag, fragSeq, gotKeyframe, lost, delivered)
    }

    constructor ()
      ensures Abs() == State([], 0, false, 0, false, 0, [])
    {
      acc, fragStart, frag, fragSeq, gotKeyframe, lost, delivered := [], 0, false, 0, false, 0, [];
    }

    /** Drop the fragments collected so far. */
    method FragmentRewind()
      modifies this
      ensures Abs() == old(Abs()).Rewound()
    {
      if fragStart <= |acc| {
        acc := acc[..fragStart];
      }
      lost := lost + 1;
    }

    method FinishPacket(marker: bool, key: bool) returns (err: Err)
      modifies this
      ensures (Abs(), err) == Finish(old(Abs()), marker, key)
    {
      err := Ok;
      if !marker {
        if |acc| <= DECODE_MAXSZ {
          return;
        }
        err := ENOMEM;
      } else if frag {
        err := EPROTO;
      } else {
        delivered := delivered + [acc];
        gotKeyframe := gotKeyframe || key;
      }
      acc, frag := [], false;
    }

    method ReadStap(src: seq<Byte>) returns (ok: bool)
      modifies `acc
      ensures ok == Stap(src).1
      ensures acc == old(acc) + Stap(src).0
    {
      var rest := src;
      ok := true;
      while |rest| >= 2
        invariant ok
        invariant acc + Stap(rest).0 == old(acc) + Stap(src).0
        invariant Stap(rest).1 == Stap(src).1
        decreases |rest|
      {
        var len := StapLength(rest);
        if |rest| - 2 < len || |rest| - 2 < 1 {
          ok := false;
          return;
        }
        StapUnfold(acc, rest, len);
        acc := acc + (SC + rest[2..2 + len]);
        rest := rest[2 + len..];
      }
    }

    /** Begin a fragmented NAL, forgetting one that was never completed. */
    method StartFragment(hdr: Byte, typ: Byte)
      modifies this
      ensures Abs() == Started(old(Abs()), hdr, typ)
    {
      if frag {
        FragmentRewind();
      }
      fragStart, frag := |acc|, true;
      acc := acc + SC + [(hdr & 0x60) | typ];
    }

    method ReadFragment(marker: bool, sq: nat, src: seq<Byte>, key: bool) returns (err: Err)
      requires |src| >= 1
      modifies this
      ensures (Abs(), err) == FragmentStep(old(Abs()), marker, sq, src, key)
    {
      if |src| < 2 {
        return ENOENT;
      }
      var fu := FuDecode(src[1]);
      if fu.s {
        StartFragment(src[0], fu.typ);
      } else if !frag {
        lost := lost + 1;
        return Ok;
      } else if (sq - fragSeq) % 65536 != 1 {
        FragmentRewind();
        frag := false;
        return Ok;
      }
      acc, frag, fragSeq := acc + src[2..], !fu.e, sq;
      err := FinishPacket(marker, key);
    }

    method Decode(marker: bool, sq: nat, src: seq<Byte>, key: bool) returns (err: Err)
      modifies this
      ensures (Abs(), err) == Step(old(Abs()), marker, sq, src, key)
    {
      if src == [] {
        return EBADMSG;
      }
      var typ := src[0] & 0x1f;
      if typ == NAL_SLICE && !gotKeyframe {
        return EPROTO;
      }
      if src[0] & 0x80 != 0 {
        return EBADMSG;
      }
      if frag && typ != FU_A {
        FragmentRewind();
        frag := false;
      }
      if 1 <= typ <= 23 {
        acc := acc + SC + src;
      } else if typ == FU_A {
        err := ReadFragment(marker, sq, src, key);
        return;
      } else if typ == STAP_A {
        var ok := ReadStap(src[1..]);
        if !ok {
          return EBADMSG;
        }
      } else {
        return EBADMSG;
      }
      err := FinishPacket(marker, key);
    }
  }

  /** The receiver fed with packets that carry consecutive sequence numbers from sq on. */
  function Run(d: State, ps: seq<Packet>, sq: nat, key: bool): State
    decreases |ps|
  {
    if ps == [] then d
    else Run(Step(d, ps[0].marker, sq % 65536, ps[0].Bytes(), key).0, ps[1..], sq + 1, key)
  }

  lemma {:induction false} RunAppend(d: State, a: seq<Packet>, b: seq<Packet>, sq: nat, key: bool)
    ensures Run(d, a + b, sq, key) == Run(Run(d, a, sq, key), b, sq + |a|, key)
    decreases |a|
  {
    if a == [] {
      assert a + b == b;
    } else {
      assert (a + b)[1..] == a[1..] + b;
      RunAppend(Step(d, a[0].marker, sq % 65536, a[0].Bytes(), key).0, a[1..], b, sq + 1, key);
    }
  }

  /** From a valid state d the receiver may reach e: valid again, with nothing taken back from the video decoder. */
  ghost predicate Keeps(d: State, e: State) { Valid(e) && d.delivered <= e.delivered }

  lemma FinishKeeps(d: State, marker: bool, key: bool)
    requires Valid(d)
    ensures Keeps(d, Finish(d, marker, key).0)
  {
  }

  lemma FragmentKeeps(d: State, marker: bool, sq: nat, src: seq<Byte>, key: bool)
    requires Valid(d) && |src| >= 1
    ensures Keeps(d, FragmentStep(d, marker, sq, src, key).0)
  {
    if |src| >= 2 {
      var fu := FuDecode(src[1]);
      if fu.s || (d.frag && (sq - d.fragSeq) % 65536 == 1) {
        var d1 := if fu.s then Started(d, src[0], fu.typ) else d;
        FinishKeeps(d1.(acc := d1.acc + src[2..], frag := !fu.e, fragSeq := sq), marker, key);
      }
    }
  }

  /** Every packet, well formed or not, keeps the state valid. */
  lemma StepKeeps(d: State, marker: bool, sq: nat, src: seq<Byte>, key: bool)
    requires Valid(d)
    ensures Keeps(d, Step(d, marker, sq, src, key).0)
  {
    if src != [] {
      var typ := src[0] & 0x1f;
      var d1 := if d.frag && typ != FU_A then d.Rewound().(frag := false) else d;
      FinishKeeps(d1.(acc := d1.acc + SC + src), marker, key);
      FragmentKeeps(d1, marker, sq, src, key);
      var d2 := d1.(acc := d1.acc + Stap(src[1..]).0);
      FinishKeeps(d2, marker, key);
    }
  }

  /** The receiver stays valid, and pictures once delivered stay delivered, whatever packets arrive. */
  lemma {:induction false} RunKeeps(d: State, ps: seq<Packet>, sq: nat, key: bool)
    requires Valid(d)
    ensures Keeps(d, Run(d, ps, sq, key))
    decreases |ps|
  {
    if ps == [] {
    } else {
      var e := Step(d, ps[0].marker, sq % 65536, ps[0].Bytes(), key).0;
      StepKeeps(d, ps[0].marker, sq % 65536, ps[0].Bytes(), key);
      RunKeeps(e, ps[1..], sq + 1, key);
      assert Run(d, ps, sq, key) == Run(e, ps[1..], sq + 1, key);
    }
  }
}
