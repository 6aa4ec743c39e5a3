/**
 The Annex-B splitter and the FU-A fragmenter of baresip/src/h264.c.

 A packet handler receives, for every packet, the marker, a payload header and a slice of the
 buffer; the model records these calls as a sequence of packets.
 */
module H264Packetize {
  import opened H264Startcode

  datatype Packet = Packet(marker: bool, hdr: seq<Byte>, payload: seq<Byte>) {
    function Bytes(): seq<Byte> { hdr + payload }
  }

  const FU_A: Byte := 28
  const SIZE_T: nat := 0x1_0000_0000_0000_0000

  function Concat(parts: seq<seq<Byte>>): seq<Byte> {
    if parts == [] then [] else parts[0] + Concat(parts[1..])
  }

  function Payloads(packets: seq<Packet>): seq<seq<Byte>> {
    seq(|packets|, i requires 0 <= i < |packets| => packets[i].payload)
  }

  // ---------------------------------------------------------------- h264_nal_send

  /** maxsz - 2 in size_t arithmetic: it wraps around for maxsz below 2. */
  function FragmentSize(maxsz: nat): nat
    requires maxsz < SIZE_T
  {
    (maxsz + SIZE_T - 2) % SIZE_T
  }

  /** The loop of the fragmenter makes progress; with maxsz == 2 it would send empty fragments for ever. */
  predicate Terminates(first: bool, last: bool, size: nat, maxsz: nat) {
    (first && last && size <= maxsz) || maxsz != 2 || size == 0
  }

  /** The FU header byte: start bit, end bit and type. */
  function FuHeader(s: bool, e: bool, typ: Byte): Byte {
    (if s then 0x80 else 0) | (if e then 0x40 else 0) | typ
  }

  /** The fragments of body when it is cut every sz bytes; s says whether the first one starts the NAL. */
  function Fragments(hdr: Byte, s: bool, last: bool, marker: bool, body: seq<Byte>, sz: nat): (ps: seq<Packet>)
    requires sz > 0 || body == []
    ensures |ps| >= 1
    decreases |body|
  {
    var indicator := (hdr & 0x60) | FU_A;
    if |body| > sz then
      [Packet(false, [indicator, FuHeader(s, false, hdr & 0x1f)], body[..sz])]
      + Fragments(hdr, false, last, marker, body[sz..], sz)
    else
      [Packet(marker && last, [indicator, FuHeader(s, last, hdr & 0x1f)], body)]
  }

  /** What h264_nal_send hands to the packet handler. */
  function NalPackets(first: bool, last: bool, marker: bool, hdr: Byte, body: seq<Byte>, maxsz: nat): (ps: seq<Packet>)
    requires maxsz < SIZE_T && |body| < SIZE_T
    requires Terminates(first, last, |body|, maxsz)
    ensures |ps| >= 1
  {
    if first && last && |body| <= maxsz then [Packet(marker, [hdr], body)]
    else Fragments(hdr, first, last, marker, body, FragmentSize(maxsz))
  }

  /** A whole NAL goes out as one packet, or in fragments of maxsz - 2 bytes. */
  lemma WholeNalPackets(marker: bool, hdr: Byte, body: seq<Byte>, maxsz: nat)
    requires 2 < maxsz < SIZE_T && |body| < SIZE_T
    ensures NalPackets(true, true, marker, hdr, body, maxsz)
         == if |body| <= maxsz then [Packet(marker, [hdr], body)]
            else Fragments(hdr, true, true, marker, body, maxsz - 2)
  {
    assert FragmentSize(maxsz) == maxsz - 2;
  }

  /** The byte operations of the source on a FU header are updates of its start and end bits. */
  lemma FuHeaderBits(s: bool, hdr: Byte)
    ensures FuHeader(s, false, hdr & 0x1f) & 0x7f == FuHeader(false, false, hdr & 0x1f)
    ensures FuHeader(s, false, hdr & 0x1f) | 0x40 == FuHeader(s, true, hdr & 0x1f)
    ensures FuHeader(true, false, hdr & 0x1f) == 0x80 | (hdr & 0x1f)
    ensures FuHeader(false, false, hdr & 0x1f) == hdr & 0x1f
  {
  }

  lemma FragmentsStep(done: seq<Packet>, hdr: Byte, s: bool, last: bool, marker: bool, rest: seq<Byte>, sz: nat)
    requires 0 < sz < |rest|
    ensures done + Fragments(hdr, s, last, marker, rest, sz)
         == done + [Packet(false, [(hdr & 0x60) | FU_A, FuHeader(s, false, hdr & 0x1f)], rest[..sz])]
                 + Fragments(hdr, false, last, marker, rest[sz..], sz)
  {
  }

  /** An error code as the set of its one bits: 0 is the empty set, and | is the union. */
  type Bits = set<nat>

  /** What the calls a to b - 1 of the packet handler return, or'ed together; pkth(i) is the result of call i. */
  function Errors(pkth: nat -> Bits, a: nat, b: nat): Bits {
    set i: nat, bit | a <= i < b && bit in pkth(i) :: bit
  }

  lemma ErrorsJoin(pkth: nat -> Bits, a: nat, b: nat, c: nat)
    requires a <= b <= c
    ensures Errors(pkth, a, c) == Errors(pkth, a, b) + Errors(pkth, b, c)
    ensures Errors(pkth, b, b + 1) == pkth(b)
  {
  }

  /** rtp_send_data: one more packet for the handler, whose result is added to the errors so far. */
  method SendData(err: Bits, packets: seq<Packet>, p: Packet, pkth: nat -> Bits, calls: nat)
    returns (err1: Bits, packets1: seq<Packet>)
    requires err == Errors(pkth, calls, calls + |packets|)
    ensures packets1 == packets + [p] && err1 == Errors(pkth, calls, calls + |packets1|)
  {
    ErrorsJoin(pkth, calls, calls + |packets|, calls + |packets| + 1);
    err1, packets1 := err + pkth(calls + |packets|), packets + [p];
  }

  /** The branch of h264_nal_send that cuts the body into FU-A packets. */
  method SendFragments(first: bool, last: bool, marker: bool, hdr: Byte, buf: seq<Byte>, sz: nat, pkth: nat -> Bits, calls: nat)
    returns (err: Bits, packets: seq<Packet>)
    requires sz > 0 || buf == []
    ensures packets == Fragments(hdr, first, last, marker, buf, sz)
    ensures err == Errors(pkth, calls, calls + |packets|)
  {
    var fuHdr0 := (hdr & 0x60) | FU_A;
    var fuHdr1 := if first then 0x80 | (hdr & 0x1f) else hdr & 0x1f;
    ghost var s := first;
    FuHeaderBits(s, hdr);
    var rest := buf;
    err, packets := {}, [];
    while |rest| > sz
      invariant sz > 0 || rest == []
      invariant fuHdr1 == FuHeader(s, false, hdr & 0x1f)
      invariant packets + Fragments(hdr, s, last, marker, rest, sz) == Fragments(hdr, first, last, marker, buf, sz)
      invariant err == Errors(pkth, calls, calls + |packets|)
    {
      FragmentsStep(packets, hdr, s, last, marker, rest, sz);
      FuHeaderBits(s, hdr);
      err, packets := SendData(err, packets, Packet(false, [fuHdr0, fuHdr1], rest[..sz]), pkth, calls);
      rest := rest[sz..];
      fuHdr1 := fuHdr1 & 0x7f;
      s := false;
    }
    if last {
      FuHeaderBits(s, hdr);
      fuHdr1 := fuHdr1 | 0x40;
    }
    err, packets := SendData(err, packets, Packet(marker && last, [fuHdr0, fuHdr1], rest), pkth, calls);
  }

  /** h264_nal_send; the packet handler has been called calls times before. */
  method NalSend(first: bool, last: bool, marker: bool, hdr: Byte, buf: seq<Byte>, maxsz: nat, pkth: nat -> Bits, calls: nat)
    returns (err: Bits, packets: seq<Packet>)
    requires maxsz < SIZE_T && |buf| < SIZE_T
    requires Terminates(first, last, |buf|, maxsz)
    ensures packets == NalPackets(first, last, marker, hdr, buf, maxsz)
    ensures err == Errors(pkth, calls, calls + |packets|)
  {
    if first && last && |buf| <= maxsz {
      err, packets := SendData({}, [], Packet(marker, [hdr], buf), pkth, calls);
      return;
    }
    err, packets := SendFragments(first, last, marker, hdr, buf, FragmentSize(maxsz), pkth, calls);
  }

  /** Fragment i of n: its headers, its marker and its length follow from i alone. */
  ghost predicate FragmentShape(ps: seq<Packet>, hdr: Byte, s: bool, last: bool, marker: bool, sz: nat) {
    forall i :: 0 <= i < |ps| ==>
      var final := i == |ps| - 1;
      && ps[i].hdr == [(hdr & 0x60) | 28, FuHeader(s && i == 0, last && final, hdr & 0x1f)]
      && ps[i].marker == (marker && last && final)
      && (if final then |ps[i].payload| <= sz else |ps[i].payload| == sz)
  }

  /** A fragment in front of others. */
  lemma PayloadsCons(p: Packet, tail: seq<Packet>)
    ensures Concat(Payloads([p] + tail)) == p.payload + Concat(Payloads(tail))
  {
    assert Payloads([p] + tail)[1..] == Payloads(tail);
  }

  /** The payloads of the fragments concatenate to the body. */
  lemma {:induction false} FragmentsConcat(hdr: Byte, s: bool, last: bool, marker: bool, body: seq<Byte>, sz: nat)
    requires sz > 0 || body == []
    ensures Concat(Payloads(Fragments(hdr, s, last, marker, body, sz))) == body
    decreases |body|
  {
    var ps := Fragments(hdr, s, last, marker, body, sz);
    if |body| > sz {
      FragmentsConcat(hdr, false, last, marker, body[sz..], sz);
      PayloadsCons(ps[0], Fragments(hdr, false, last, marker, body[sz..], sz));
      assert body == body[..sz] + body[sz..];
    } else {
      PayloadsCons(ps[0], []);
      assert Payloads([]) == [];
      assert ps == [ps[0]] + [];
      assert body + [] == body;
    }
  }

  lemma ShapeCons(p: Packet, tail: seq<Packet>, hdr: Byte, s: bool, last: bool, marker: bool, sz: nat)
    requires tail != [] && FragmentShape(tail, hdr, false, last, marker, sz)
    requires p.hdr == [(hdr & 0x60) | FU_A, FuHeader(s, false, hdr & 0x1f)] && !p.marker && |p.payload| == sz
    ensures FragmentShape([p] + tail, hdr, s, last, marker, sz)
  {
    var ps := [p] + tail;
    forall i | 1 <= i < |ps| ensures ps[i] == tail[i - 1] {}
  }

  /**
   Fragmentation marks the ends: the start bit is on the first fragment only, the end bit and the marker
   on the last one only, every fragment but the last is full, and none is empty unless the body is.
   */
  lemma {:induction false} FragmentsShape(hdr: Byte, s: bool, last: bool, marker: bool, body: seq<Byte>, sz: nat)
    requires sz > 0 || body == []
    ensures var ps := Fragments(hdr, s, last, marker, body, sz);
            && FragmentShape(ps, hdr, s, last, marker, sz)
            && (body != [] ==> forall i :: 0 <= i < |ps| ==> ps[i].payload != [])
            && (|body| > sz ==> |ps| >= 2)
    decreases |body|
  {
    var ps := Fragments(hdr, s, last, marker, body, sz);
    if |body| > sz {
      var tail := Fragments(hdr, false, last, marker, body[sz..], sz);
      FragmentsShape(hdr, false, last, marker, body[sz..], sz);
      assert ps == [ps[0]] + tail;
      ShapeCons(ps[0], tail, hdr, s, last, marker, sz);
    }
  }

  /** Every fragment packet of a whole NAL longer than maxsz fits in maxsz bytes, and there are at least two. */
  lemma LongNalIsFragmented(marker: bool, hdr: Byte, body: seq<Byte>, maxsz: nat)
    requires 2 < maxsz < |body| < SIZE_T
    ensures var ps := NalPackets(true, true, marker, hdr, body, maxsz);
            && |ps| >= 2
            && FragmentShape(ps, hdr, true, true, marker, maxsz - 2)
            && Concat(Payloads(ps)) == body
            && (forall i :: 0 <= i < |ps| ==> ps[i].payload != [] && |ps[i].Bytes()| <= maxsz)
  {
    assert FragmentSize(maxsz) == maxsz - 2;
    FragmentsShape(hdr, true, true, marker, body, maxsz - 2);
    FragmentsConcat(hdr, true, true, marker, body, maxsz - 2);
  }

  /** A packet of a whole NAL exceeds maxsz, by one byte, exactly when the NAL body has maxsz bytes. */
  lemma PacketSizeBound(marker: bool, hdr: Byte, body: seq<Byte>, maxsz: nat)
    requires 2 < maxsz < SIZE_T && |body| < SIZE_T
    ensures var ps := NalPackets(true, true, marker, hdr, body, maxsz);
            && (forall i :: 0 <= i < |ps| ==> |ps[i].Bytes()| <= maxsz + 1)
            && ((exists i :: 0 <= i < |ps| && |ps[i].Bytes()| > maxsz) <==> |body| == maxsz)
  {
    var ps := NalPackets(true, true, marker, hdr, body, maxsz);
    if |body| <= maxsz {
      assert |ps[0].Bytes()| == 1 + |body|;
    } else {
      LongNalIsFragmented(marker, hdr, body, maxsz);
    }
  }

  // ---------------------------------------------------------------- h264_packetize

  /** The NAL units of buf from the start code at r (or the end of buf) onwards. */
  function Nals(buf: seq<Byte>, r: nat): (nals: seq<seq<Byte>>)
    requires r == |buf| || StartcodeAt(buf, r, |buf|)
    decreases |buf| - r
  {
    if r == |buf| then []
    else
      var r1 := FindStartcode(buf, r + 3, |buf|);
      [buf[r + 3..r1]] + Nals(buf, r1)
  }

  function FirstStart(buf: seq<Byte>): nat { FindStartcode(buf, 0, |buf|) }

  function AllNals(buf: seq<Byte>): seq<seq<Byte>> { Nals(buf, FirstStart(buf)) }

  /** No start code directly follows another one.  The length r1 - r - 1 of the source would wrap otherwise. */
  ghost predicate NoEmptyNal(buf: seq<Byte>) {
    forall i :: StartcodeAt(buf, i, |buf|) ==> !StartcodeAt(buf, i + 3, |buf|)
  }

  lemma {:induction false} NalsNonEmpty(buf: seq<Byte>, r: nat)
    requires r == |buf| || StartcodeAt(buf, r, |buf|)
    requires NoEmptyNal(buf)
    ensures forall k :: 0 <= k < |Nals(buf, r)| ==> 1 <= |Nals(buf, r)[k]| <= |buf|
    decreases |buf| - r
  {
    if r < |buf| {
      var r1 := FindStartcode(buf, r + 3, |buf|);
      NalsNonEmpty(buf, r1);
    }
  }

  /** Two adjacent start codes make an empty NAL. */
  lemma {:induction false} AdjacentCodes(buf: seq<Byte>, r: nat, i: nat)
    requires r <= i && StartcodeAt(buf, r, |buf|)
    requires StartcodeAt(buf, i, |buf|) && StartcodeAt(buf, i + 3, |buf|)
    ensures exists k :: 0 <= k < |Nals(buf, r)| && Nals(buf, r)[k] == []
    decreases |buf| - r
  {
    var r1 := FindStartcode(buf, r + 3, |buf|);
    if i == r {
      assert Nals(buf, r)[0] == [];
    } else {
      assert r + 3 <= i;
      AdjacentCodes(buf, r1, i);
      var k :| 0 <= k < |Nals(buf, r1)| && Nals(buf, r1)[k] == [];
      assert Nals(buf, r)[k + 1] == [];
    }
  }

  /** The split has no empty NAL if and only if no start code directly follows another one. */
  lemma {:induction false} NoEmptyNalExactly(buf: seq<Byte>)
    ensures NoEmptyNal(buf) <==> forall k :: 0 <= k < |AllNals(buf)| ==> AllNals(buf)[k] != []
  {
    if NoEmptyNal(buf) {
      NalsNonEmpty(buf, FirstStart(buf));
    } else {
      var i :| StartcodeAt(buf, i, |buf|) && StartcodeAt(buf, i + 3, |buf|);
      AdjacentCodes(buf, FirstStart(buf), i);
      var k :| 0 <= k < |Nals(buf, FirstStart(buf))| && Nals(buf, FirstStart(buf))[k] == [];
      assert AllNals(buf)[k] == [];
    }
  }

  /** A start code directly after another one makes an empty NAL, for which the source computes the length -1. */
  lemma EmptyNalExample()
    ensures var buf: seq<Byte> := [0, 0, 1, 0, 0, 1, 0x65];
            !NoEmptyNal(buf) && |AllNals(buf)| >= 1 && AllNals(buf)[0] == []
  {
    var buf: seq<Byte> := [0, 0, 1, 0, 0, 1, 0x65];
    assert StartcodeAt(buf, 0, 7) && StartcodeAt(buf, 3, 7);
    assert FindStartcode(buf, 3, 7) == 3;
    assert AllNals(buf) == [buf[3..3]] + Nals(buf, 3);
  }

  /** The fragmenter terminates on every NAL of a list. */
  predicate AllTerminate(nals: seq<seq<Byte>>, pktsize: nat) {
    forall k :: 0 <= k < |nals| ==> nals[k] != [] && |nals[k]| < SIZE_T && Terminates(true, true, |nals[k]| - 1, pktsize)
  }

  /** The packets of a NAL list; only the last NAL is sent with the marker. */
  function SendNals(nals: seq<seq<Byte>>, pktsize: nat): (ps: seq<Packet>)
    requires pktsize < SIZE_T && AllTerminate(nals, pktsize)
  {
    if nals == [] then []
    else NalPackets(true, true, |nals| == 1, nals[0][0], nals[0][1..], pktsize) + SendNals(nals[1..], pktsize)
  }

  lemma {:induction false} NalsEmptyExactlyAtEnd(buf: seq<Byte>, r: nat)
    requires r == |buf| || StartcodeAt(buf, r, |buf|)
    ensures Nals(buf, r) == [] <==> r == |buf|
  {
  }

  /** One round of the splitter: the NAL at r is sent, and what is left are the NALs from r1 on. */
  lemma SendStep(buf: seq<Byte>, r: nat, pktsize: nat)
    requires |buf| < SIZE_T && pktsize < SIZE_T && NoEmptyNal(buf)
    requires StartcodeAt(buf, r, |buf|)
    requires AllTerminate(Nals(buf, r), pktsize)
    ensures var r1 := FindStartcode(buf, r + 3, |buf|);
            && r + 3 < r1
            && AllTerminate(Nals(buf, r1), pktsize)
            && Terminates(true, true, r1 - r - 4, pktsize)
            && SendNals(Nals(buf, r), pktsize)
               == NalPackets(true, true, r1 >= |buf|, buf[r + 3], buf[r + 4..r1], pktsize) + SendNals(Nals(buf, r1), pktsize)
  {
    var r1 := FindStartcode(buf, r + 3, |buf|);
    var nals := Nals(buf, r);
    assert nals[0] == buf[r + 3..r1];
    assert nals[1..] == Nals(buf, r1);
    NalsNonEmpty(buf, r);
    NalsEmptyExactlyAtEnd(buf, r1);
    assert nals[0][1..] == buf[r + 4..r1];
    forall k | 0 <= k < |Nals(buf, r1)|
      ensures Nals(buf, r1)[k] == nals[k + 1] {}
  }

  /** The loop that steps over the zeros of a start code and the 01 after them. */
  method SkipZeros(buf: seq<Byte>, start: nat) returns (r: nat)
    requires StartcodeAt(buf, start, |buf|)
    ensures r == start + 3
  {
    r := start;
    while buf[r] == 0
      invariant start <= r <= start + 2
      decreases start + 2 - r
    {
      r := r + 1;
    }
    r := r + 1;
  }

  /** The body of the loop: send the NAL behind the start code at start and find the next start code. */
  method SendOneNal(buf: seq<Byte>, base: nat, bigEndian: bool, start: nat, pktsize: nat, pkth: nat -> Bits, calls: nat)
    returns (err: Bits, sent: seq<Packet>, r1: nat)
    requires |buf| < SIZE_T && pktsize < SIZE_T && NoEmptyNal(buf)
    requires StartcodeAt(buf, start, |buf|)
    requires AllTerminate(Nals(buf, start), pktsize)
    ensures start < r1 <= |buf| && (r1 == |buf| || StartcodeAt(buf, r1, |buf|))
    ensures AllTerminate(Nals(buf, r1), pktsize)
    ensures SendNals(Nals(buf, start), pktsize) == sent + SendNals(Nals(buf, r1), pktsize)
    ensures err == Errors(pkth, calls, calls + |sent|)
  {
    SendStep(buf, start, pktsize);
    var r := SkipZeros(buf, start);
    r1 := ScanStartcode(buf, base, r, |buf|, bigEndian);
    err, sent := NalSend(true, true, r1 >= |buf|, buf[r], buf[r + 1..r1], pktsize, pkth, calls);
  }

  lemma PacketsAppend(a: seq<Packet>, b: seq<Packet>, c: seq<Packet>)
    ensures a + (b + c) == (a + b) + c
  {
  }

  /** h264_packetize: everything is sent, whatever the packet handler returns. */
  method Packetize(buf: seq<Byte>, base: nat, bigEndian: bool, pktsize: nat, pkth: nat -> Bits)
    returns (err: Bits, packets: seq<Packet>)
    requires |buf| < SIZE_T && pktsize < SIZE_T
    requires NoEmptyNal(buf)
    requires AllTerminate(AllNals(buf), pktsize)
    ensures packets == SendNals(AllNals(buf), pktsize)
    ensures err == Errors(pkth, 0, |packets|)
  {
    var end := |buf|;
    var r := ScanStartcode(buf, base, 0, end, bigEndian);
    err, packets := {}, [];
    while r < end
      invariant r == end || StartcodeAt(buf, r, end)
      invariant AllTerminate(Nals(buf, r), pktsize)
      invariant packets + SendNals(Nals(buf, r), pktsize) == SendNals(AllNals(buf), pktsize)
      invariant err == Errors(pkth, 0, |packets|)
      decreases end - r
    {
      var e, sent, r1 := SendOneNal(buf, base, bigEndian, r, pktsize, pkth, |packets|);
      PacketsAppend(packets, sent, SendNals(Nals(buf, r1), pktsize));
      ErrorsJoin(pkth, 0, |packets|, |packets| + |sent|);
      err := err + e;
      packets := packets + sent;
      r := r1;
    }
  }

  // ---------------------------------------------------------------- what the packets mean

  /** The Annex-B form of a NAL list: every NAL behind a three-byte start code. */
  function Join(nals: seq<seq<Byte>>): seq<Byte> {
    if nals == [] then [] else [0, 0, 1] + nals[0] + Join(nals[1..])
  }

  lemma SplitAtStartcode(buf: seq<Byte>, r: nat, r1: nat)
    requires StartcodeAt(buf, r, |buf|) && r + 3 <= r1 <= |buf|
    ensures buf[r..] == [0, 0, 1] + buf[r + 3..r1] + buf[r1..]
  {
    assert buf[r..] == buf[r..r + 3] + buf[r + 3..r1] + buf[r1..];
  }

  /** Splitting a buffer and joining the NALs gives the buffer back from its first start code onwards. */
  lemma {:induction false} JoinOfNals(buf: seq<Byte>, r: nat)
    requires r == |buf| || StartcodeAt(buf, r, |buf|)
    ensures Join(Nals(buf, r)) == buf[r..]
    decreases |buf| - r
  {
    if r < |buf| {
      var r1 := FindStartcode(buf, r + 3, |buf|);
      JoinOfNals(buf, r1);
      assert Nals(buf, r)[1..] == Nals(buf, r1);
      SplitAtStartcode(buf, r, r1);
    }
  }

  /** No start code inside a NAL: neither one that more bytes follow, nor, before another NAL, one at its end. */
  ghost predicate NoInnerCode(nal: seq<Byte>, isLast: bool) {
    forall j :: Code(nal, j) ==> isLast && j + 3 == |nal|
  }

  ghost predicate WellFormed(nals: seq<seq<Byte>>) {
    forall k :: 0 <= k < |nals| ==> nals[k] != [] && NoInnerCode(nals[k], k == |nals| - 1)
  }

  /** The NALs of any buffer without empty ones are well formed. */
  lemma {:induction false} NalsWellFormed(buf: seq<Byte>, r: nat)
    requires r == |buf| || StartcodeAt(buf, r, |buf|)
    requires NoEmptyNal(buf)
    ensures WellFormed(Nals(buf, r))
    decreases |buf| - r
  {
    if r < |buf| {
      var r1 := FindStartcode(buf, r + 3, |buf|);
      var nals := Nals(buf, r);
      NalsWellFormed(buf, r1);
      NalsEmptyExactlyAtEnd(buf, r1);
      assert nals[0] != [] by {
        NalsNonEmpty(buf, r);
      }
      forall j | Code(nals[0], j) ensures r1 == |buf| && j + 3 == |nals[0]| {
        assert Code(buf, r + 3 + j);
        assert !StartcodeAt(buf, r + 3 + j, |buf|);
      }
      forall k | 1 <= k < |nals| ensures nals[k] != [] && NoInnerCode(nals[k], k == |nals| - 1) {
        assert nals[k] == Nals(buf, r1)[k - 1];
      }
    }
  }

  lemma CodeInSlice(buf: seq<Byte>, p: nat, q: nat, i: nat)
    requires p <= i && i + 2 < q <= |buf|
    ensures Code(buf, i) <==> Code(buf[p..q], i - p)
  {
  }

  /** A stretch nal of buf without inner start codes ends the scan where the next start code, or nothing, follows. */
  lemma FindBehind(buf: seq<Byte>, p: nat, q: nat)
    requires p <= q <= |buf| && NoInnerCode(buf[p..q], q == |buf|)
    requires q == |buf| || StartcodeAt(buf, q, |buf|)
    ensures FindStartcode(buf, p, |buf|) == q
  {
    forall i | p <= i < q ensures !StartcodeAt(buf, i, |buf|) {
      if i + 2 < q {
        CodeInSlice(buf, p, q, i);
      }
    }
    SkipTo(buf, p, q, |buf|);
  }

  lemma {:induction false} JoinStartsWithCode(nals: seq<seq<Byte>>)
    requires nals != [] && nals[0] != []
    ensures |Join(nals)| > 3 && Code(Join(nals), 0)
  {
  }

  lemma StartcodeBehind(head: seq<Byte>, s: seq<Byte>)
    requires |s| > 3 && Code(s, 0)
    ensures StartcodeAt(head + s, |head|, |head + s|)
  {
  }

  /** In head ++ Join(nals) the scan behind the first start code of the joined part ends at the next NAL. */
  lemma {:induction false} FindInJoin(head: seq<Byte>, nals: seq<seq<Byte>>)
    requires nals != [] && WellFormed(nals)
    ensures var buf := head + Join(nals);
            var p := |head| + 3;
            && StartcodeAt(buf, |head|, |buf|)
            && p + |nals[0]| <= |buf|
            && FindStartcode(buf, p, |buf|) == p + |nals[0]|
            && buf[p..p + |nals[0]|] == nals[0]
  {
    var nal, rest := nals[0], Join(nals[1..]);
    var buf, p := head + Join(nals), |head| + 3;
    var q := p + |nal|;
    assert NoInnerCode(nal, |nals| == 1);
    JoinStartsWithCode(nals);
    StartcodeBehind(head, Join(nals));
    var front := head + [0, 0, 1] + nal;
    assert buf == front + rest;
    assert buf[p..q] == nal;
    if |nals| > 1 {
      assert nals[1..][0] != [];
      JoinStartsWithCode(nals[1..]);
      StartcodeBehind(front, rest);
    }
    FindBehind(buf, p, q);
  }

  /** Joining well-formed NALs and splitting the result gives the NALs back: the split is the only one. */
  lemma {:induction false} NalsOfJoin(head: seq<Byte>, nals: seq<seq<Byte>>)
    requires WellFormed(nals)
    ensures var buf := head + Join(nals);
            && (|head| == |buf| || StartcodeAt(buf, |head|, |buf|))
            && Nals(buf, |head|) == nals
    decreases |nals|
  {
    if nals == [] {
    } else {
      FindInJoin(head, nals);
      var head1 := head + [0, 0, 1] + nals[0];
      assert head + Join(nals) == head1 + Join(nals[1..]);
      NalsOfJoin(head1, nals[1..]);
    }
  }

  /** The marker is on exactly the last packet of an access unit. */
  lemma {:induction false} MarkerOnLastPacketOnly(nals: seq<seq<Byte>>, pktsize: nat)
    requires pktsize < SIZE_T && AllTerminate(nals, pktsize)
    ensures var ps := SendNals(nals, pktsize);
            && |ps| >= |nals|
            && forall i :: 0 <= i < |ps| ==> ps[i].marker == (i == |ps| - 1)
  {
    if nals == [] {
    } else {
      var marker, hdr, body := |nals| == 1, nals[0][0], nals[0][1..];
      var head := NalPackets(true, true, marker, hdr, body, pktsize);
      var tail := SendNals(nals[1..], pktsize);
      if |body| > pktsize {
        FragmentsShape(hdr, true, true, marker, body, FragmentSize(pktsize));
      }
      MarkerOnLastPacketOnly(nals[1..], pktsize);
      assert SendNals(nals, pktsize) == head + tail;
    }
  }
}
