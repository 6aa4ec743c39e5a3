/**
 The H.264 receiver of baresip/modules/avcodec/decode.c when packets are lost.

 Whatever packets of a stream of NAL units get lost, every picture handed to the video decoder consists of
 whole NAL units of the stream, each at most once and in the order of the stream: the rewind logic never lets
 a NAL through that is cut, or put together from two.
 */
module H264Loss {
  import opened H264Startcode
  import opened H264Packetize
  import opened H264Depacketize
  import opened H264RoundTrip
  import opened H264Stream

  /**
   The receiver after the first n packets.  Packet i has sequence number sq + i; arrived says which packets are
   not lost, key what the video decoder reports if packet i completes a picture.
   */
  function Lossy(d: State, ps: seq<Packet>, arrived: seq<bool>, n: nat, sq: nat, key: nat -> bool): State
    requires n <= |ps| == |arrived|
    decreases n
  {
    if n == 0 then d
    else
      var e := Lossy(d, ps, arrived, n - 1, sq, key);
      if arrived[n - 1] then Step(e, ps[n - 1].marker, (sq + n - 1) % 65536, ps[n - 1].Bytes(), key(n - 1)).0 else e
  }

  // ---------------------------------------------------------------- when sequence numbers mislead

  /** A packet that returns before the receiver forgets an incomplete NAL. */
  predicate Ignored(p: Packet, gotKeyframe: bool) {
    |p.hdr| == 1 && (p.hdr[0] & 0x80 != 0 || (p.hdr[0] & 0x1f == NAL_SLICE && !gotKeyframe))
  }

  /** A fragment without the end bit. */
  predicate Unfinished(p: Packet) { |p.hdr| == 2 && p.hdr[1] & 0x40 == 0 }

  /** A fragment without the start bit. */
  predicate Continues(p: Packet) { |p.hdr| == 2 && p.hdr[1] & 0x80 == 0 }

  /** Packet a is an unfinished fragment, and no fragment of its NAL up to it is lost. */
  predicate Gapless(ps: seq<Packet>, arrived: seq<bool>, a: nat)
    requires a < |ps| == |arrived|
    decreases a
  {
    arrived[a] && Unfinished(ps[a]) && (!Continues(ps[a]) || (a > 0 && Gapless(ps, arrived, a - 1)))
  }

  /** Packet b is not the one after packet a, but has its number. */
  predicate Aliased(a: nat, b: nat) { b != a + 1 && (b - a) % 65536 == 1 }

  /**
   The receiver holds the beginning of a NAL up to packet a, nothing it cares about arrives until packet b, and
   packet b is a continuation with the sequence number after that of packet a, but of another place in the stream.
   */
  predicate Splices(ps: seq<Packet>, arrived: seq<bool>, gotKeyframe: bool, a: nat, b: nat)
    requires |ps| == |arrived|
  {
    && a < b < |ps| && Aliased(a, b) && arrived[b] && Continues(ps[b]) && Gapless(ps, arrived, a)
    && forall c :: a < c < b && arrived[c] ==> Ignored(ps[c], gotKeyframe)
  }

  ghost predicate NoSplice(ps: seq<Packet>, arrived: seq<bool>, gotKeyframe: bool)
    requires |ps| == |arrived|
  {
    forall a: nat, b: nat :: !Splices(ps, arrived, gotKeyframe, a, b)
  }

  /** Once a key frame was seen it is enough that no 65536 packets in a row are lost. */
  lemma ShortGaps(ps: seq<Packet>, arrived: seq<bool>)
    requires |ps| == |arrived| && forall u :: 0 <= u < |ps| && |ps[u].hdr| == 1 ==> ps[u].hdr[0] & 0x80 == 0
    requires forall a :: 0 <= a && a + 65536 < |ps| && arrived[a] ==> exists c :: a < c <= a + 65536 && arrived[c]
    ensures NoSplice(ps, arrived, true)
  {
    forall a: nat, b: nat ensures !Splices(ps, arrived, true, a, b) {
      if a < b < |ps| && Aliased(a, b) && Gapless(ps, arrived, a) {
        assert b - a >= 65537;
        var c :| a < c <= a + 65536 && arrived[c];
        assert !Ignored(ps[c], true);
      }
    }
  }

  // ---------------------------------------------------------------- what one packet does

  /** The buffer without an incomplete NAL. */
  function Kept(d: State): seq<Byte>
    requires Valid(d)
  {
    if d.frag then d.acc[..d.fragStart] else d.acc
  }

  ghost predicate Dropped(d: State, e: State)
    requires Valid(d)
  {
    !e.frag && e.acc == Kept(d) && e.delivered == d.delivered && e.gotKeyframe == d.gotKeyframe
  }

  /** The buffer acc ends with a whole NAL: it is handed on with the marker, and kept without it if it is not too long. */
  ghost predicate Completed(d: State, e: State, acc: seq<Byte>, marker: bool) {
    && !e.frag && (d.gotKeyframe ==> e.gotKeyframe)
    && if marker then e.acc == [] && e.delivered == d.delivered + [acc]
       else e.acc == (if |acc| <= DECODE_MAXSZ then acc else []) && e.delivered == d.delivered
  }

  /** The buffer acc ends with an incomplete NAL that began at start; it is kept if it is not too long. */
  ghost predicate Opened(d: State, e: State, acc: seq<Byte>, start: nat, sq: nat) {
    && e.delivered == d.delivered && e.gotKeyframe == d.gotKeyframe
    && if |acc| <= DECODE_MAXSZ then e.frag && e.acc == acc && e.fragStart == start && e.fragSeq == sq
       else !e.frag && e.acc == []
  }

  lemma FinishOutcome(d: State, t: State, marker: bool, key: bool)
    requires t.delivered == d.delivered && t.gotKeyframe == d.gotKeyframe && (t.frag ==> !marker)
    ensures var e := Finish(t, marker, key).0;
            if t.frag then Opened(d, e, t.acc, t.fragStart, t.fragSeq) else Completed(d, e, t.acc, marker)
  {
  }

  /** NAL types that travel as packets of their own. */
  predicate Ordinary(h: Byte) { h & 0x80 == 0 && 1 <= h & 0x1f <= 23 }

  lemma StepOnWhole(d: State, p: Packet, x: Piece, u: Unit, pktsize: nat, sq: nat, key: bool)
    requires Valid(d) && x.Whole? && Carries(p, x, u) && Plain(u.nal, pktsize) && |u.nal| - 1 <= pktsize
    ensures var e := Step(d, p.marker, sq, p.Bytes(), key).0;
            if Ignored(p, d.gotKeyframe) then e == d
            else if !Ordinary(u.nal[0]) then Dropped(d, e)
            else Completed(d, e, Kept(d) + (SC + u.nal), p.marker)
  {
    assert p.Bytes() == u.nal;
    var d1 := if d.frag then d.Rewound().(frag := false) else d;
    assert d1.acc + SC + u.nal == Kept(d) + (SC + u.nal);
    FinishOutcome(d, d1.(acc := d1.acc + SC + u.nal), p.marker, key);
  }

  lemma StartedAcc(d: State, h: Byte)
    requires Valid(d) && h & 0x80 == 0
    ensures var d1 := Started(d, h, h & 0x1f);
            d1.acc == Kept(d) + SC + [h] && d1.fragStart == |Kept(d)| && d1.delivered == d.delivered
            && d1.gotKeyframe == d.gotKeyframe
  {
    assert (h & 0x60) | (h & 0x1f) == h & 0x7f;
    assert h & 0x7f == h;
  }

  lemma BodySlice(a: seq<Byte>, nal: seq<Byte>, to: nat)
    requires nal != [] && to <= |nal| - 1
    ensures a + SC + [nal[0]] + nal[1..][0..to] == a + (SC + nal[..1 + to])
    ensures nal[..|nal|] == nal
  {
    assert nal[..1 + to] == [nal[0]] + nal[1..][0..to];
  }

  lemma StartFinished(d: State, nal: seq<Byte>, to: nat, end: bool, marker: bool, sq: nat, key: bool)
    requires Valid(d) && nal != [] && nal[0] & 0x80 == 0 && to <= |nal| - 1 && end == (to == |nal| - 1) && (marker ==> end)
    ensures var d1 := Started(d, nal[0], nal[0] & 0x1f);
            var e := Finish(d1.(acc := d1.acc + nal[1..][0..to], frag := !end, fragSeq := sq), marker, key).0;
            if end then Completed(d, e, Kept(d) + (SC + nal), marker)
            else Opened(d, e, Kept(d) + (SC + nal[..1 + to]), |Kept(d)|, sq)
  {
    var d1 := Started(d, nal[0], nal[0] & 0x1f);
    StartedAcc(d, nal[0]);
    BodySlice(Kept(d), nal, to);
    FinishOutcome(d, d1.(acc := d1.acc + nal[1..][0..to], frag := !end, fragSeq := sq), marker, key);
  }

  lemma StepIsStart(d: State, p: Packet, x: Piece, u: Unit, sq: nat, key: bool)
    requires x.Part? && x.from == 0 && Carries(p, x, u)
    ensures var d1, end := Started(d, u.nal[0], u.nal[0] & 0x1f), x.to == x.size;
            Step(d, p.marker, sq, p.Bytes(), key).0
            == Finish(d1.(acc := d1.acc + u.nal[1..][0..x.to], frag := !end, fragSeq := sq), p.marker, key).0
  {
    StepOnFragment(d, p, u.nal[0], true, x.to == x.size, sq, key);
  }

  lemma StepOnStart(d: State, p: Packet, x: Piece, u: Unit, sq: nat, key: bool) returns (e: State)
    requires Valid(d) && x.Part? && x.from == 0 && Carries(p, x, u)
    ensures e == Step(d, p.marker, sq, p.Bytes(), key).0
    ensures x.to == x.size ==> Completed(d, e, Kept(d) + (SC + u.nal), p.marker)
    ensures x.to < x.size ==> Opened(d, e, Kept(d) + (SC + u.nal[..1 + x.to]), |Kept(d)|, sq)
  {
    var d1, end := Started(d, u.nal[0], u.nal[0] & 0x1f), x.to == x.size;
    e := Finish(d1.(acc := d1.acc + u.nal[1..][0..x.to], frag := !end, fragSeq := sq), p.marker, key).0;
    StepIsStart(d, p, x, u, sq, key);
    StartFinished(d, u.nal, x.to, end, p.marker, sq, key);
  }

  lemma StepOnLater(d: State, p: Packet, x: Piece, u: Unit, sq: nat, key: bool)
    requires Valid(d) && x.Part? && x.from > 0 && Carries(p, x, u)
    ensures var e := Step(d, p.marker, sq, p.Bytes(), key).0;
            if !d.frag || (sq - d.fragSeq) % 65536 != 1 then Dropped(d, e)
            else if x.to == x.size then Completed(d, e, d.acc + u.nal[1..][x.from..x.to], p.marker)
            else Opened(d, e, d.acc + u.nal[1..][x.from..x.to], d.fragStart, sq)
  {
    StepOnFragment(d, p, u.nal[0], false, x.to == x.size, sq, key);
  }

  /** From d packet p with a whole NAL leads to e. */
  ghost predicate WholeOutcome(d: State, p: Packet, nal: seq<Byte>, e: State)
    requires Valid(d) && nal != []
  {
    if Ignored(p, d.gotKeyframe) then e == d
    else if !Ordinary(nal[0]) then Dropped(d, e)
    else Completed(d, e, Kept(d) + (SC + nal), p.marker)
  }

  /** The same for the first fragment of a NAL. */
  ghost predicate StartOutcome(d: State, p: Packet, x: Piece, nal: seq<Byte>, n: nat, e: State)
    requires Valid(d) && x.Part? && x.from <= x.to <= x.size == |nal| - 1
  {
    if x.Ends() then Completed(d, e, Kept(d) + (SC + nal), p.marker)
    else Opened(d, e, Kept(d) + (SC + nal[..1 + x.to]), |Kept(d)|, n)
  }

  /** The same for a later one. */
  ghost predicate LaterOutcome(d: State, p: Packet, x: Piece, nal: seq<Byte>, n: nat, e: State)
    requires Valid(d) && x.Part? && x.from <= x.to <= x.size == |nal| - 1
  {
    if !d.frag || (n - d.fragSeq) % 65536 != 1 then Dropped(d, e)
    else if x.Ends() then Completed(d, e, d.acc + nal[1..][x.from..x.to], p.marker)
    else Opened(d, e, d.acc + nal[1..][x.from..x.to], d.fragStart, n)
  }

  ghost predicate Outcome(d: State, p: Packet, x: Piece, nal: seq<Byte>, n: nat, e: State)
    requires Valid(d) && nal != [] && (x.Part? ==> x.from <= x.to <= x.size == |nal| - 1)
  {
    if x.Whole? then WholeOutcome(d, p, nal, e)
    else if x.from == 0 then StartOutcome(d, p, x, nal, n, e)
    else LaterOutcome(d, p, x, nal, n, e)
  }

  lemma StepOutcome(d: State, p: Packet, x: Piece, u: Unit, pktsize: nat, n: nat, key: bool)
    requires Valid(d) && Carries(p, x, u) && Plain(u.nal, pktsize) && (x.Whole? ==> |u.nal| - 1 <= pktsize)
    ensures Outcome(d, p, x, u.nal, n, Step(d, p.marker, n, p.Bytes(), key).0)
  {
    if x.Whole? {
      StepOnWhole(d, p, x, u, pktsize, n, key);
    } else if x.from == 0 {
      var e := StepOnStart(d, p, x, u, n, key);
    } else {
      StepOnLater(d, p, x, u, n, key);
    }
  }

  // ---------------------------------------------------------------- whole NAL units in their order

  /** Positions of NAL units in the stream, ascending and below n. */
  predicate Ascending(ix: seq<nat>, n: nat) {
    && (forall k :: 0 <= k < |ix| ==> ix[k] < n)
    && (forall k, l :: 0 <= k < l < |ix| ==> ix[k] < ix[l])
  }

  function Select(us: seq<Unit>, ix: seq<nat>): seq<seq<Byte>>
    requires Ascending(ix, |us|)
  {
    seq(|ix|, k requires 0 <= k < |ix| => us[ix[k]].nal)
  }

  function Flat(pics: seq<seq<nat>>): seq<nat> {
    if pics == [] then [] else Flat(pics[..|pics| - 1]) + pics[|pics| - 1]
  }

  lemma AscendingParts(a: seq<nat>, b: seq<nat>, n: nat)
    requires Ascending(a + b, n)
    ensures Ascending(a, n) && Ascending(b, n)
  {
    forall k | 0 <= k < |a| ensures a[k] < n { assert (a + b)[k] == a[k]; }
    forall k | 0 <= k < |b| ensures b[k] < n { assert (a + b)[|a| + k] == b[k]; }
    forall k, l | 0 <= k < l < |a| ensures a[k] < a[l] { assert (a + b)[k] == a[k] && (a + b)[l] == a[l]; }
    forall k, l | 0 <= k < l < |b| ensures b[k] < b[l] { assert (a + b)[|a| + k] == b[k] && (a + b)[|a| + l] == b[l]; }
  }

  /** Every picture is made of the NAL units at its positions. */
  ghost predicate Pictures(us: seq<Unit>, pics: seq<seq<nat>>, pictures: seq<seq<Byte>>) {
    |pics| == |pictures| && forall k :: 0 <= k < |pics| ==> Ascending(pics[k], |us|) && pictures[k] == Join(Select(us, pics[k]))
  }

  /** What the sender sent and what arrived. */
  datatype Setup = Setup(us: seq<Unit>, ps: seq<Packet>, xs: seq<Piece>, arrived: seq<bool>, sq: nat, got: bool)

  function Sent(us: seq<Unit>, pktsize: nat, arrived: seq<bool>, sq: nat, got: bool): Setup
    requires 2 < pktsize < SIZE_T && AllPlain(us, pktsize)
  {
    Setup(us, Stream(us, pktsize), Shape(us, pktsize), arrived, sq, got)
  }

  /** Which NAL units are in which picture, which ones are buffered, and the last fragment taken in. */
  datatype Witness = Witness(pics: seq<seq<nat>>, cur: seq<nat>, m: nat)

  ghost predicate Ready(c: Setup, pktsize: nat) {
    Describes(c.us, c.ps, c.xs, pktsize) && AllPlain(c.us, pktsize) && |c.ps| == |c.arrived|
  }

  /** What the description says about packet i. */
  ghost predicate At(c: Setup, i: nat) {
    && i < |c.xs| == |c.ps| == |c.arrived| && c.xs[i].u < |c.us| && Follows(c.xs, |c.us|, i)
    && c.us[c.xs[i].u].nal != [] && c.ps[i].marker == (c.us[c.xs[i].u].marker && c.xs[i].Ends())
    && match c.xs[i]
       case Whole(u) => c.ps[i].hdr == [c.us[u].nal[0]] && |c.ps[i].payload| == |c.us[u].nal| - 1
       case Part(u, from, to, size) =>
         && from <= to <= size == |c.us[u].nal| - 1 && |c.ps[i].hdr| == 2 && |c.ps[i].payload| == to - from
         && (Unfinished(c.ps[i]) <==> to < size) && (Continues(c.ps[i]) <==> from > 0)
         && (from > 0 ==> i > 0 && c.xs[i - 1].Part? && !c.xs[i - 1].Ends() && c.xs[i - 1].to == from
                          && c.xs[i - 1].u == u && |c.ps[i - 1].hdr| == 2)
  }

  lemma FuBits(s: bool, e: bool, hdr: Byte)
    ensures FuHeader(s, e, hdr & 0x1f) & 0x80 == 0 <==> !s
    ensures FuHeader(s, e, hdr & 0x1f) & 0x40 == 0 <==> !e
  {
  }

  lemma CarriesBits(p: Packet, x: Piece, u: Unit)
    requires Carries(p, x, u) && x.Part?
    ensures |p.hdr| == 2 && (Unfinished(p) <==> x.to < x.size) && (Continues(p) <==> x.from > 0)
  {
    FuBits(x.from == 0, x.to == x.size, u.nal[0]);
  }

  lemma ReadyAt(c: Setup, i: nat, pktsize: nat)
    requires Ready(c, pktsize) && i < |c.ps|
    ensures At(c, i) && Carries(c.ps[i], c.xs[i], c.us[c.xs[i].u]) && Plain(c.us[c.xs[i].u].nal, pktsize)
    ensures c.xs[i].Whole? ==> |c.us[c.xs[i].u].nal| - 1 <= pktsize
  {
    assert DescribesAt(c.us, c.ps, c.xs, pktsize, i);
    if c.xs[i].Part? {
      CarriesBits(c.ps[i], c.xs[i], c.us[c.xs[i].u]);
      if c.xs[i].from > 0 {
        assert DescribesAt(c.us, c.ps, c.xs, pktsize, i - 1);
      }
    }
  }

  /** The incomplete NAL is the beginning of the NAL of packet m, and nothing has happened since. */
  ghost predicate Pending(c: Setup, d: State, i: nat, m: nat)
    requires |c.xs| == |c.ps| == |c.arrived| && i <= |c.ps| && Valid(d)
  {
    && m < i && Gapless(c.ps, c.arrived, m) && d.frag && d.fragSeq == (c.sq + m) % 65536
    && c.xs[m].Part? && !c.xs[m].Ends() && c.xs[m].u < |c.us|
    && 1 + c.xs[m].to <= |c.us[c.xs[m].u].nal|
    && d.acc == Kept(d) + (SC + c.us[c.xs[m].u].nal[..1 + c.xs[m].to])
    && forall k :: m < k < i && c.arrived[k] ==> Ignored(c.ps[k], c.got)
  }

  /** The pictures handed on so far, and the NAL units buffered, are among the first n of the stream. */
  ghost predicate Counted(us: seq<Unit>, base: seq<seq<Byte>>, delivered: seq<seq<Byte>>, n: nat, w: Witness) {
    && Ascending(Flat(w.pics) + w.cur, n)
    && base <= delivered && Pictures(us, w.pics, delivered[|base|..])
  }

  ghost predicate Safe(c: Setup, base: seq<seq<Byte>>, d: State, i: nat, w: Witness) {
    && |c.xs| == |c.ps| == |c.arrived| && i <= |c.ps| && Passed(c.xs, |c.us|, i) <= |c.us|
    && Counted(c.us, base, d.delivered, Passed(c.xs, |c.us|, i), w)
    && (c.got ==> d.gotKeyframe)
    && Valid(d) && Ascending(w.cur, |c.us|) && Kept(d) == Join(Select(c.us, w.cur))
    && (d.frag ==> Pending(c, d, i, w.m))
  }

  lemma AscendingGrows(ix: seq<nat>, n: nat, m: nat)
    requires Ascending(ix, n) && n <= m
    ensures Ascending(ix, m) && (n < m ==> Ascending(ix + [n], m))
  {
  }

  lemma PendingMore(c: Setup, d: State, i: nat, m: nat)
    requires |c.xs| == |c.ps| == |c.arrived| && i < |c.ps| && Valid(d) && Pending(c, d, i, m) && (c.got ==> d.gotKeyframe)
    requires c.arrived[i] ==> Ignored(c.ps[i], d.gotKeyframe)
    ensures Pending(c, d, i + 1, m)
  {
    forall k | m < k < i + 1 && c.arrived[k] ensures Ignored(c.ps[k], c.got) {
    }
  }

  /** A packet that is lost or ignored. */
  lemma SafeNothing(c: Setup, base: seq<seq<Byte>>, d: State, i: nat, w: Witness)
    requires At(c, i) && Safe(c, base, d, i, w)
    requires c.arrived[i] ==> Ignored(c.ps[i], d.gotKeyframe)
    ensures Safe(c, base, d, i + 1, w)
  {
    if d.frag {
      PendingMore(c, d, i, w.m);
    }
    AscendingGrows(Flat(w.pics) + w.cur, Passed(c.xs, |c.us|, i), Passed(c.xs, |c.us|, i + 1));
  }

  lemma SafeDropped(c: Setup, base: seq<seq<Byte>>, d: State, e: State, i: nat, w: Witness)
    requires At(c, i) && Safe(c, base, d, i, w) && Dropped(d, e)
    ensures Safe(c, base, e, i + 1, w)
  {
    AscendingGrows(Flat(w.pics) + w.cur, Passed(c.xs, |c.us|, i), Passed(c.xs, |c.us|, i + 1));
  }

  /** An overflow throws the buffered NAL units away. */
  lemma SafeEmptied(c: Setup, base: seq<seq<Byte>>, d: State, e: State, i: nat, w: Witness)
    requires At(c, i) && Safe(c, base, d, i, w)
    requires !e.frag && e.acc == [] && e.delivered == d.delivered && (d.gotKeyframe ==> e.gotKeyframe)
    ensures Safe(c, base, e, i + 1, w.(cur := []))
  {
    AscendingGrows(Flat(w.pics) + w.cur, Passed(c.xs, |c.us|, i), Passed(c.xs, |c.us|, i + 1));
    AscendingParts(Flat(w.pics), w.cur, Passed(c.xs, |c.us|, i + 1));
    assert Flat(w.pics) + [] == Flat(w.pics);
    assert Join(Select(c.us, [])) == [];
  }

  lemma SafeOpened(c: Setup, base: seq<seq<Byte>>, d: State, e: State, i: nat, w: Witness, acc: seq<Byte>)
    returns (v: Witness)
    requires At(c, i) && Safe(c, base, d, i, w) && Gapless(c.ps, c.arrived, i) && c.xs[i].Part? && !c.xs[i].Ends()
    requires acc == Kept(d) + (SC + c.us[c.xs[i].u].nal[..1 + c.xs[i].to])
    requires Opened(d, e, acc, |Kept(d)|, (c.sq + i) % 65536)
    ensures Safe(c, base, e, i + 1, v) && v == if |acc| <= DECODE_MAXSZ then w.(m := i) else w.(cur := [])
  {
    if e.frag {
      v := w.(m := i);
      AscendingGrows(Flat(w.pics) + w.cur, Passed(c.xs, |c.us|, i), Passed(c.xs, |c.us|, i + 1));
      assert acc[..|Kept(d)|] == Kept(d);
      assert Pending(c, e, i + 1, i);
    } else {
      v := w.(cur := []);
      SafeEmptied(c, base, d, e, i, w);
    }
  }

  lemma {:induction false} JoinAppend(a: seq<seq<Byte>>, x: seq<Byte>)
    ensures Join(a + [x]) == Join(a) + (SC + x)
    decreases |a|
  {
    if a == [] {
      assert a + [x] == [x];
      JoinSingle([x]);
    } else {
      JoinAppend(a[1..], x);
      assert (a + [x])[1..] == a[1..] + [x];
      assert Join(a + [x]) == SC + a[0] + Join(a[1..] + [x]);
    }
  }

  lemma SelectAppend(us: seq<Unit>, ix: seq<nat>, u: nat)
    requires u < |us| && Ascending(ix, u)
    ensures Ascending(ix + [u], |us|) && Ascending(ix, |us|)
    ensures Join(Select(us, ix + [u])) == Join(Select(us, ix)) + (SC + us[u].nal)
  {
    assert Select(us, ix + [u]) == Select(us, ix) + [us[u].nal];
    JoinAppend(Select(us, ix), us[u].nal);
  }

  /** One more NAL unit behind the ones so far. */
  lemma AscendingSnoc(flat: seq<nat>, cur: seq<nat>, u: nat)
    requires Ascending(flat + cur, u)
    ensures Ascending(flat + (cur + [u]), u + 1) && Ascending(cur, u)
  {
    AscendingGrows(flat + cur, u, u + 1);
    AscendingParts(flat, cur, u);
    assert flat + cur + [u] == flat + (cur + [u]);
  }

  /** A NAL is complete and stays in the buffer. */
  lemma SafeBuffered(c: Setup, base: seq<seq<Byte>>, d: State, e: State, i: nat, w: Witness) returns (v: Witness)
    requires At(c, i) && Safe(c, base, d, i, w) && c.xs[i].Ends()
    requires !e.frag && (d.gotKeyframe ==> e.gotKeyframe)
    requires e.acc == Kept(d) + (SC + c.us[c.xs[i].u].nal) && e.delivered == d.delivered
    ensures Safe(c, base, e, i + 1, v) && v == w.(cur := w.cur + [c.xs[i].u])
  {
    var u := c.xs[i].u;
    AscendingSnoc(Flat(w.pics), w.cur, u);
    SelectAppend(c.us, w.cur, u);
    v := w.(cur := w.cur + [u]);
  }

  lemma PicturesSnoc(us: seq<Unit>, pics: seq<seq<nat>>, pictures: seq<seq<Byte>>, ix: seq<nat>)
    requires Pictures(us, pics, pictures) && Ascending(ix, |us|)
    ensures Pictures(us, pics + [ix], pictures + [Join(Select(us, ix))])
    ensures Flat(pics + [ix]) == Flat(pics) + ix
  {
    assert (pics + [ix])[..|pics|] == pics;
  }

  lemma CountedDelivered(us: seq<Unit>, base: seq<seq<Byte>>, delivered: seq<seq<Byte>>, u: nat, w: Witness, v: Witness,
                         picture: seq<Byte>)
    requires Counted(us, base, delivered, u, w) && u < |us| && Ascending(w.cur + [u], |us|)
    requires picture == Join(Select(us, w.cur + [u])) && v == Witness(w.pics + [w.cur + [u]], [], w.m)
    ensures Counted(us, base, delivered + [picture], u + 1, v)
  {
    AscendingSnoc(Flat(w.pics), w.cur, u);
    PicturesSnoc(us, w.pics, delivered[|base|..], w.cur + [u]);
    assert Flat(v.pics) + [] == Flat(v.pics);
    assert (delivered + [picture])[|base|..] == delivered[|base|..] + [picture];
  }

  /** A NAL is complete and goes to the video decoder with the ones before it. */
  lemma SafeDelivered(c: Setup, base: seq<seq<Byte>>, d: State, e: State, i: nat, w: Witness) returns (v: Witness)
    requires At(c, i) && Safe(c, base, d, i, w) && c.xs[i].Ends()
    requires !e.frag && (d.gotKeyframe ==> e.gotKeyframe)
    requires e.acc == [] && e.delivered == d.delivered + [Kept(d) + (SC + c.us[c.xs[i].u].nal)]
    ensures Safe(c, base, e, i + 1, v) && v == Witness(w.pics + [w.cur + [c.xs[i].u]], [], w.m)
  {
    var u := c.xs[i].u;
    AscendingSnoc(Flat(w.pics), w.cur, u);
    SelectAppend(c.us, w.cur, u);
    v := Witness(w.pics + [w.cur + [u]], [], w.m);
    CountedDelivered(c.us, base, d.delivered, u, w, v, Kept(d) + (SC + c.us[u].nal));
    assert Counted(c.us, base, e.delivered, Passed(c.xs, |c.us|, i + 1), v);
    assert Kept(e) == Join(Select(c.us, v.cur));
  }

  /** The bookkeeping of a complete NAL. */
  function Taking(w: Witness, u: nat, marker: bool, fits: bool): Witness {
    if marker then Witness(w.pics + [w.cur + [u]], [], w.m)
    else w.(cur := if fits then w.cur + [u] else [])
  }

  /** The bookkeeping of a fragment that is taken in. */
  ghost function TakingFragment(c: Setup, d: State, i: nat, w: Witness): Witness
    requires At(c, i) && Valid(d) && c.xs[i].Part?
  {
    var x := c.xs[i];
    if x.Ends() then Taking(w, x.u, c.ps[i].marker, |Kept(d)| + 3 + |c.us[x.u].nal| <= DECODE_MAXSZ)
    else if |Kept(d)| + 4 + x.to <= DECODE_MAXSZ then w.(m := i)
    else w.(cur := [])
  }

  lemma SafeCompleted(c: Setup, base: seq<seq<Byte>>, d: State, e: State, i: nat, w: Witness, acc: seq<Byte>)
    returns (v: Witness)
    requires At(c, i) && Safe(c, base, d, i, w) && c.xs[i].Ends()
    requires acc == Kept(d) + (SC + c.us[c.xs[i].u].nal) && Completed(d, e, acc, c.ps[i].marker)
    ensures Safe(c, base, e, i + 1, v) && v == Taking(w, c.xs[i].u, c.ps[i].marker, |acc| <= DECODE_MAXSZ)
  {
    if c.ps[i].marker {
      v := SafeDelivered(c, base, d, e, i, w);
    } else if |acc| <= DECODE_MAXSZ {
      v := SafeBuffered(c, base, d, e, i, w);
    } else {
      v := w.(cur := []);
      SafeEmptied(c, base, d, e, i, w);
    }
  }

  lemma Distance(sq: nat, m: nat, i: nat)
    requires m < i
    ensures ((sq + i) % 65536 - (sq + m) % 65536) % 65536 == (i - m) % 65536
  {
  }

  /** If the packet before a continuation has arrived, it is the last fragment taken in. */
  lemma PendingIsLast(c: Setup, d: State, i: nat, m: nat)
    requires At(c, i) && c.xs[i].Part? && c.xs[i].from > 0 && c.arrived[i - 1]
    requires Valid(d) && Pending(c, d, i, m)
    ensures m == i - 1 && Gapless(c.ps, c.arrived, i - 1)
  {
    assert m < i - 1 ==> Ignored(c.ps[i - 1], c.got);
  }

  lemma Continued(a: seq<Byte>, nal: seq<Byte>, from: nat, to: nat)
    requires nal != [] && from <= to <= |nal| - 1
    ensures a + (SC + nal[..1 + from]) + nal[1..][from..to] == a + (SC + nal[..1 + to])
    ensures nal[..|nal|] == nal
  {
    assert nal[..1 + to] == nal[..1 + from] + nal[1..][from..to];
  }

  /** The receiver would take packet b for the continuation of the NAL it holds, in state d. */
  predicate Accepts(c: Setup, d: State, b: nat) { d.frag && ((c.sq + b) % 65536 - d.fragSeq) % 65536 == 1 }

  lemma SafeContinued(c: Setup, base: seq<seq<Byte>>, d: State, e: State, i: nat, w: Witness) returns (v: Witness)
    requires At(c, i) && Safe(c, base, d, i, w) && c.arrived[i] && d.frag
    requires c.xs[i].Part? && c.xs[i].from > 0 && i == w.m + 1 && Accepts(c, d, i)
    requires LaterOutcome(d, c.ps[i], c.xs[i], c.us[c.xs[i].u].nal, (c.sq + i) % 65536, e)
    ensures Safe(c, base, e, i + 1, v) && v == TakingFragment(c, d, i, w)
  {
    var x, u := c.xs[i], c.us[c.xs[i].u];
    Continued(Kept(d), u.nal, x.from, x.to);
    if x.Ends() {
      v := SafeCompleted(c, base, d, e, i, w, d.acc + u.nal[1..][x.from..x.to]);
    } else {
      v := SafeOpened(c, base, d, e, i, w, d.acc + u.nal[1..][x.from..x.to]);
    }
  }

  /** A packet with a whole NAL. */
  lemma SafeWhole(c: Setup, base: seq<seq<Byte>>, d: State, e: State, i: nat, w: Witness) returns (v: Witness)
    requires At(c, i) && Safe(c, base, d, i, w) && c.xs[i].Whole? && c.arrived[i]
    requires WholeOutcome(d, c.ps[i], c.us[c.xs[i].u].nal, e)
    ensures Safe(c, base, e, i + 1, v)
    ensures var nal := c.us[c.xs[i].u].nal;
            v == if Ignored(c.ps[i], d.gotKeyframe) || !Ordinary(nal[0]) then w
                 else Taking(w, c.xs[i].u, c.ps[i].marker, |Kept(d)| + 3 + |nal| <= DECODE_MAXSZ)
  {
    v := w;
    if Ignored(c.ps[i], d.gotKeyframe) {
      SafeNothing(c, base, d, i, w);
    } else if !Ordinary(c.us[c.xs[i].u].nal[0]) {
      SafeDropped(c, base, d, e, i, w);
    } else {
      v := SafeCompleted(c, base, d, e, i, w, Kept(d) + (SC + c.us[c.xs[i].u].nal));
    }
  }

  /** The first fragment of a NAL. */
  lemma SafeStart(c: Setup, base: seq<seq<Byte>>, d: State, e: State, i: nat, w: Witness) returns (v: Witness)
    requires At(c, i) && Safe(c, base, d, i, w) && c.arrived[i] && c.xs[i].Part? && c.xs[i].from == 0
    requires StartOutcome(d, c.ps[i], c.xs[i], c.us[c.xs[i].u].nal, (c.sq + i) % 65536, e)
    ensures Safe(c, base, e, i + 1, v) && v == TakingFragment(c, d, i, w)
  {
    var x, nal := c.xs[i], c.us[c.xs[i].u].nal;
    if x.Ends() {
      v := SafeCompleted(c, base, d, e, i, w, Kept(d) + (SC + nal));
    } else {
      v := SafeOpened(c, base, d, e, i, w, Kept(d) + (SC + nal[..1 + x.to]));
    }
  }

  lemma LaterRejected(c: Setup, d: State, e: State, i: nat)
    requires At(c, i) && Valid(d) && c.xs[i].Part? && !Accepts(c, d, i)
    requires LaterOutcome(d, c.ps[i], c.xs[i], c.us[c.xs[i].u].nal, (c.sq + i) % 65536, e)
    ensures Dropped(d, e)
  {
  }

  /** A later fragment, which is not taken in unless the one before it has arrived. */
  lemma SafeLater(c: Setup, base: seq<seq<Byte>>, d: State, e: State, i: nat, w: Witness) returns (v: Witness)
    requires At(c, i) && Safe(c, base, d, i, w) && c.arrived[i] && c.xs[i].Part? && c.xs[i].from > 0
    requires Accepts(c, d, i) ==> c.arrived[i - 1]
    requires LaterOutcome(d, c.ps[i], c.xs[i], c.us[c.xs[i].u].nal, (c.sq + i) % 65536, e)
    ensures Safe(c, base, e, i + 1, v)
    ensures if Accepts(c, d, i) then v == TakingFragment(c, d, i, w) && Gapless(c.ps, c.arrived, i - 1) else v == w
  {
    if Accepts(c, d, i) {
      PendingIsLast(c, d, i, w.m);
      v := SafeContinued(c, base, d, e, i, w);
    } else {
      LaterRejected(c, d, e, i);
      SafeDropped(c, base, d, e, i, w);
      v := w;
    }
  }

  lemma SafeOutcome(c: Setup, base: seq<seq<Byte>>, d: State, e: State, i: nat, w: Witness) returns (v: Witness)
    requires At(c, i) && Safe(c, base, d, i, w) && c.arrived[i]
    requires Continues(c.ps[i]) && Accepts(c, d, i) ==> i > 0 && c.arrived[i - 1]
    requires Outcome(d, c.ps[i], c.xs[i], c.us[c.xs[i].u].nal, (c.sq + i) % 65536, e)
    ensures Safe(c, base, e, i + 1, v)
  {
    if c.xs[i].Whole? {
      v := SafeWhole(c, base, d, e, i, w);
    } else if c.xs[i].from == 0 {
      v := SafeStart(c, base, d, e, i, w);
    } else {
      v := SafeLater(c, base, d, e, i, w);
    }
  }

  // ---------------------------------------------------------------- runs

  lemma LossyStep(d: State, ps: seq<Packet>, arrived: seq<bool>, i: nat, sq: nat, key: nat -> bool)
    requires i < |ps| == |arrived|
    ensures var e := Lossy(d, ps, arrived, i, sq, key);
            Lossy(d, ps, arrived, i + 1, sq, key)
            == if arrived[i] then Step(e, ps[i].marker, (sq + i) % 65536, ps[i].Bytes(), key(i)).0 else e
  {
  }

  /** Before packet i. */
  function Before(c: Setup, d: State, key: nat -> bool, i: nat): State
    requires i <= |c.ps| == |c.arrived|
  {
    Lossy(d, c.ps, c.arrived, i, c.sq, key)
  }

  /** A continuation is taken in although the fragment before it is lost: it goes to the wrong NAL. */
  ghost predicate TakesWrong(c: Setup, d: State, key: nat -> bool, b: nat)
    requires |c.ps| == |c.arrived|
  {
    && b < |c.ps| && c.arrived[b] && Continues(c.ps[b]) && (b == 0 || !c.arrived[b - 1])
    && Accepts(c, Before(c, d, key, b), b)
  }

  ghost predicate NoWrong(c: Setup, d: State, key: nat -> bool, n: nat)
    requires |c.ps| == |c.arrived|
  {
    forall b: nat :: b < n ==> !TakesWrong(c, d, key, b)
  }

  /** What packet i does to the state before it. */
  lemma OutcomeAt(c: Setup, d: State, key: nat -> bool, i: nat, pktsize: nat) returns (e: State)
    requires Ready(c, pktsize) && i < |c.ps| && Valid(Before(c, d, key, i))
    ensures e == Before(c, d, key, i + 1) && At(c, i)
    ensures c.arrived[i] ==> Outcome(Before(c, d, key, i), c.ps[i], c.xs[i], c.us[c.xs[i].u].nal, (c.sq + i) % 65536, e)
    ensures !c.arrived[i] ==> e == Before(c, d, key, i)
  {
    var t := Before(c, d, key, i);
    ReadyAt(c, i, pktsize);
    LossyStep(d, c.ps, c.arrived, i, c.sq, key);
    StepOutcome(t, c.ps[i], c.xs[i], c.us[c.xs[i].u], pktsize, (c.sq + i) % 65536, key(i));
    e := Before(c, d, key, i + 1);
  }

  lemma SafeNext(c: Setup, base: seq<seq<Byte>>, d: State, i: nat, w: Witness, pktsize: nat, key: nat -> bool)
    returns (v: Witness)
    requires Ready(c, pktsize) && i < |c.ps| && Safe(c, base, Before(c, d, key, i), i, w) && !TakesWrong(c, d, key, i)
    ensures Safe(c, base, Before(c, d, key, i + 1), i + 1, v)
  {
    var t := Before(c, d, key, i);
    var e := OutcomeAt(c, d, key, i, pktsize);
    if c.arrived[i] {
      v := SafeOutcome(c, base, t, e, i, w);
    } else {
      SafeNothing(c, base, t, i, w);
      v := w;
    }
  }

  lemma SafeInit(c: Setup, d: State, pktsize: nat)
    requires Ready(c, pktsize) && d.acc == [] && !d.frag && c.got == d.gotKeyframe
    ensures Safe(c, d.delivered, d, 0, Witness([], [], 0))
  {
    assert Join(Select(c.us, [])) == [];
  }

  /** As long as nothing is taken in wrongly. */
  lemma {:induction false} SafeRun(c: Setup, d: State, n: nat, pktsize: nat, key: nat -> bool) returns (w: Witness)
    requires Ready(c, pktsize) && d.acc == [] && !d.frag && c.got == d.gotKeyframe
    requires n <= |c.ps| && NoWrong(c, d, key, n)
    ensures Safe(c, d.delivered, Before(c, d, key, n), n, w)
    decreases n
  {
    if n == 0 {
      SafeInit(c, d, pktsize);
      w := Witness([], [], 0);
    } else {
      var v := SafeRun(c, d, n - 1, pktsize, key);
      w := SafeNext(c, d.delivered, d, n - 1, v, pktsize, key);
    }
  }

  /** The first packet taken in wrongly is the second one of a splice. */
  lemma WrongIsSplice(c: Setup, base: seq<seq<Byte>>, d: State, b: nat, w: Witness, pktsize: nat, key: nat -> bool)
    requires Ready(c, pktsize) && TakesWrong(c, d, key, b) && Safe(c, base, Before(c, d, key, b), b, w)
    ensures Splices(c.ps, c.arrived, c.got, w.m, b)
  {
    ReadyAt(c, w.m, pktsize);
    Distance(c.sq, w.m, b);
  }

  lemma {:induction false} NoSpliceNoWrong(c: Setup, d: State, n: nat, pktsize: nat, key: nat -> bool)
    requires Ready(c, pktsize) && d.acc == [] && !d.frag && c.got == d.gotKeyframe
    requires n <= |c.ps| && NoSplice(c.ps, c.arrived, c.got)
    ensures NoWrong(c, d, key, n)
    decreases n
  {
    if n == 0 {
    } else {
      NoSpliceNoWrong(c, d, n - 1, pktsize, key);
      if TakesWrong(c, d, key, n - 1) {
        var w := SafeRun(c, d, n - 1, pktsize, key);
        WrongIsSplice(c, d.delivered, d, n - 1, w, pktsize, key);
      }
    }
  }

  /** A way to make the pictures out of NAL units of the stream. */
  lemma {:induction false} FindPictures(d: State, us: seq<Unit>, pktsize: nat, arrived: seq<bool>, sq: nat, key: nat -> bool)
    returns (pics: seq<seq<nat>>)
    requires Valid(d) && d.acc == [] && !d.frag && 2 < pktsize < SIZE_T && AllPlain(us, pktsize)
    requires |arrived| == |Stream(us, pktsize)| && NoSplice(Stream(us, pktsize), arrived, d.gotKeyframe)
    ensures var e := Lossy(d, Stream(us, pktsize), arrived, |arrived|, sq, key);
            d.delivered <= e.delivered && Ascending(Flat(pics), |us|) && Pictures(us, pics, e.delivered[|d.delivered|..])
  {
    Described(us, pktsize);
    var c := Sent(us, pktsize, arrived, sq, d.gotKeyframe);
    NoSpliceNoWrong(c, d, |arrived|, pktsize, key);
    var v := SafeRun(c, d, |arrived|, pktsize, key);
    AscendingParts(Flat(v.pics), v.cur, |us|);
    pics := v.pics;
  }

  /**
   Whatever packets of a stream are lost: every picture an idle receiver hands to the video decoder is made of
   whole NAL units of the stream, and over all pictures every NAL unit appears at most once and in its order.
   */
  lemma {:induction false} OnlyWholeNals(d: State, us: seq<Unit>, pktsize: nat, arrived: seq<bool>, sq: nat, key: nat -> bool)
    requires d.acc == [] && !d.frag && 2 < pktsize < SIZE_T && AllPlain(us, pktsize)
    requires |arrived| == |Stream(us, pktsize)| && NoSplice(Stream(us, pktsize), arrived, d.gotKeyframe)
    ensures var e := Lossy(d, Stream(us, pktsize), arrived, |arrived|, sq, key);
            && d.delivered <= e.delivered
            && exists pics :: Ascending(Flat(pics), |us|) && Pictures(us, pics, e.delivered[|d.delivered|..])
  {
    var pics := FindPictures(d, us, pktsize, arrived, sq, key);
  }

  // ---------------------------------------------------------------- too many losses in a row

  lemma {:induction false} LossySkip(d: State, ps: seq<Packet>, arrived: seq<bool>, i: nat, j: nat, sq: nat, key: nat -> bool)
    requires i <= j <= |ps| == |arrived| && forall k :: i <= k < j ==> !arrived[k]
    ensures Lossy(d, ps, arrived, i, sq, key) == Lossy(d, ps, arrived, j, sq, key)
    decreases j - i
  {
    if i == j {
    } else {
      LossySkip(d, ps, arrived, i, j - 1, sq, key);
    }
  }

  predicate OnlyTwo(arrived: seq<bool>, j: nat) {
    |arrived| == j + 1 && forall k :: 0 <= k < |arrived| ==> (arrived[k] <==> k == 0 || k == j)
  }

  /** Two packets arrive, and nothing else. */
  lemma {:induction false} LossyTwo(d: State, ps: seq<Packet>, arrived: seq<bool>, j: nat, sq: nat, key: nat -> bool)
    requires 0 < j == |ps| - 1 && OnlyTwo(arrived, j)
    ensures var e := Step(d, ps[0].marker, sq % 65536, ps[0].Bytes(), key(0)).0;
            Lossy(d, ps, arrived, |ps|, sq, key) == Step(e, ps[j].marker, (sq + j) % 65536, ps[j].Bytes(), key(j)).0
  {
    LossyStep(d, ps, arrived, 0, sq, key);
    assert Lossy(d, ps, arrived, 0, sq, key) == d;
    LossySkip(d, ps, arrived, 1, j, sq, key);
    LossyStep(d, ps, arrived, j, sq, key);
  }

  lemma {:induction false} ManyUnits(us: seq<Unit>, x: Unit, pktsize: nat)
    requires 2 < pktsize < SIZE_T && Plain(x.nal, pktsize) && |x.nal| - 1 <= pktsize && forall k :: 0 <= k < |us| ==> us[k] == x
    ensures AllPlain(us, pktsize) && |Stream(us, pktsize)| == |us|
    decreases |us|
  {
    if us == [] {
    } else {
      var n := |us| - 1;
      ManyUnits(us[..n], x, pktsize);
      WholeNalPackets(x.marker, x.nal[0], x.nal[1..], pktsize);
      assert us[n] == x;
    }
  }

  const NAL_A: seq<Byte> := [0x65, 1, 2, 3, 4]
  const NAL_B: seq<Byte> := [0x65, 5, 6, 7, 8]
  const NAL_X: seq<Byte> := [0x65]

  /** Two fragmented NAL units with n short ones between them. */
  function SpliceUnits(n: nat): seq<Unit> {
    [Unit(NAL_A, false)] + seq(n, _ => Unit(NAL_X, false)) + [Unit(NAL_B, true)]
  }

  /** Four fragments of one byte each. */
  lemma FourFragments(u: Unit)
    requires |u.nal| == 5 && Plain(u.nal, 3)
    ensures var ps := UnitPackets(u, 3);
            && |ps| == 4
            && ps[0] == Packet(false, [(u.nal[0] & 0x60) | FU_A, FuHeader(true, false, u.nal[0] & 0x1f)], [u.nal[1]])
            && ps[3] == Packet(u.marker, [(u.nal[0] & 0x60) | FU_A, FuHeader(false, true, u.nal[0] & 0x1f)], [u.nal[4]])
  {
    var h, body := u.nal[0], u.nal[1..];
    WholeNalPackets(u.marker, h, body, 3);
    var f3 := Fragments(h, false, true, u.marker, body[1..][1..][1..], 1);
    var f2 := Fragments(h, false, true, u.marker, body[1..][1..], 1);
    var f1 := Fragments(h, false, true, u.marker, body[1..], 1);
    assert |f3| == 1 && body[1..][1..][1..] == [u.nal[4]];
    assert f2 == [f2[0]] + f3;
    assert f1 == [f1[0]] + f2;
    assert body[..1] == [u.nal[1]];
  }

  lemma SpliceStream(n: nat)
    ensures AllPlain(SpliceUnits(n), 3)
    ensures var ps := Stream(SpliceUnits(n), 3);
            |ps| == n + 8
            && ps[0] == Packet(false, [(0x65 & 0x60) | FU_A, FuHeader(true, false, 0x65 & 0x1f)], [1])
            && ps[n + 7] == Packet(true, [(0x65 & 0x60) | FU_A, FuHeader(false, true, 0x65 & 0x1f)], [8])
  {
    var a, x, b := Unit(NAL_A, false), Unit(NAL_X, false), Unit(NAL_B, true);
    var xs := seq(n, _ => x);
    FourFragments(a);
    FourFragments(b);
    StreamOne(a, 3);
    StreamOne(b, 3);
    ManyUnits(xs, x, 3);
    StreamAppend([a], xs, 3);
    StreamAppend([a] + xs, [b], 3);
  }

  /** The first fragment of a NAL and the last one of another, with the same distance as neighbours modulo 2^16. */
  lemma SpliceSteps(d: State, p: Packet, q: Packet, sq: nat, j: nat, k: bool, l: bool)
    requires d.acc == [] && !d.frag && j % 65536 == 1
    requires p == Packet(false, [(0x65 & 0x60) | FU_A, FuHeader(true, false, 0x65 & 0x1f)], [1])
    requires q == Packet(true, [(0x65 & 0x60) | FU_A, FuHeader(false, true, 0x65 & 0x1f)], [8])
    ensures var e := Step(d, p.marker, sq % 65536, p.Bytes(), k).0;
            Step(e, q.marker, (sq + j) % 65536, q.Bytes(), l).0.delivered == d.delivered + [[0, 0, 1, 0x65, 1, 8]]
  {
    var e := Step(d, p.marker, sq % 65536, p.Bytes(), k).0;
    StepOnFragment(d, p, 0x65, true, false, sq % 65536, k);
    StartedBits(d, 0x65);
    assert e.acc == [0, 0, 1, 0x65, 1] && e.frag && e.fragSeq == sq % 65536 && e.delivered == d.delivered;
    Distance(sq, 0, j);
    StepOnFragment(e, q, 0x65, false, true, (sq + j) % 65536, l);
    assert e.acc + [8] == [0, 0, 1, 0x65, 1, 8];
  }

  lemma SplicePair(ps: seq<Packet>, arrived: seq<bool>, j: nat)
    requires 1 < j == |ps| - 1 && OnlyTwo(arrived, j) && j % 65536 == 1
    requires ps[0].hdr == [(0x65 & 0x60) | FU_A, FuHeader(true, false, 0x65 & 0x1f)]
    requires ps[j].hdr == [(0x65 & 0x60) | FU_A, FuHeader(false, true, 0x65 & 0x1f)]
    ensures Splices(ps, arrived, true, 0, j)
  {
    FuBits(true, false, 0x65);
    FuBits(false, true, 0x65);
  }

  /**
   With 65536 losses in a row, or a multiple of it, sequence numbers repeat: the beginning of one NAL and the end of
   another go to the video decoder as one.
   */
  lemma SpliceExample(d: State, n: nat, arrived: seq<bool>, sq: nat, key: nat -> bool)
    requires d.acc == [] && !d.frag && (n + 7) % 65536 == 1 && OnlyTwo(arrived, n + 7)
    ensures AllPlain(SpliceUnits(n), 3) && |Stream(SpliceUnits(n), 3)| == |arrived|
    ensures Splices(Stream(SpliceUnits(n), 3), arrived, true, 0, n + 7)
    ensures Lossy(d, Stream(SpliceUnits(n), 3), arrived, |arrived|, sq, key).delivered == d.delivered + [[0, 0, 1, 0x65, 1, 8]]
  {
    SpliceStream(n);
    var ps, j := Stream(SpliceUnits(n), 3), n + 7;
    SpliceSteps(d, ps[0], ps[j], sq, j, key(0), key(j));
    LossyTwo(d, ps, arrived, j, sq, key);
    SplicePair(ps, arrived, j);
  }
}
