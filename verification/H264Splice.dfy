/**
 When packet loss makes the H.264 receiver put a fragment behind the wrong NAL.

 A receiver that has seen a key frame, and whose buffer does not overflow, holds the beginning of every NAL that has
 arrived without a gap so far.  So it takes in a fragment wrongly if and only if sequence numbers repeat in one
 particular way.
 */
module H264Splice {
  import opened H264Startcode
  import opened H264Packetize
  import opened H264Depacketize
  import opened H264RoundTrip
  import opened H264Stream
  import opened H264Loss

  // ---------------------------------------------------------------- what arrives of a NAL, and how much is buffered

  /** With packet i the NAL it belongs to has arrived completely. */
  predicate Taken(ps: seq<Packet>, arrived: seq<bool>, i: nat)
    requires i < |ps| == |arrived|
  {
    && arrived[i]
    && if |ps[i].hdr| == 1 then Ordinary(ps[i].hdr[0])
       else |ps[i].hdr| == 2 && !Unfinished(ps[i]) && (!Continues(ps[i]) || (i > 0 && Gapless(ps, arrived, i - 1)))
  }

  /** Packet i ends an access unit, and the NAL it ends has arrived. */
  predicate Closes(ps: seq<Packet>, arrived: seq<bool>, i: nat)
    requires i < |ps| == |arrived|
  {
    ps[i].marker && Taken(ps, arrived, i)
  }

  /** A bound for the receiver's buffer: the bytes that arrived since an access unit was last closed. */
  function Load(ps: seq<Packet>, arrived: seq<bool>, n: nat): nat
    requires n <= |ps| == |arrived|
    decreases n
  {
    if n == 0 then 0
    else if !arrived[n - 1] then Load(ps, arrived, n - 1)
    else if Closes(ps, arrived, n - 1) then 0
    else Load(ps, arrived, n - 1) + 3 + |ps[n - 1].Bytes()|
  }

  ghost predicate Roomy(ps: seq<Packet>, arrived: seq<bool>)
    requires |ps| == |arrived|
  {
    forall n: nat :: n <= |ps| ==> Load(ps, arrived, n) <= DECODE_MAXSZ
  }

  /** The setting of this module. */
  ghost predicate Start(c: Setup, d: State, pktsize: nat) {
    && Ready(c, pktsize) && d.acc == [] && !d.frag && d.gotKeyframe && c.got && Roomy(c.ps, c.arrived)
  }

  lemma OutcomeKeeps(d: State, p: Packet, x: Piece, nal: seq<Byte>, n: nat, e: State)
    requires Valid(d) && nal != [] && (x.Part? ==> x.from <= x.to <= x.size == |nal| - 1)
    requires Outcome(d, p, x, nal, n, e)
    ensures Valid(e) && (d.gotKeyframe ==> e.gotKeyframe)
  {
  }

  lemma {:induction false} BeforeValid(c: Setup, d: State, key: nat -> bool, i: nat, pktsize: nat)
    requires Start(c, d, pktsize) && i <= |c.ps|
    ensures Valid(Before(c, d, key, i)) && Before(c, d, key, i).gotKeyframe
    decreases i
  {
    if i == 0 {
    } else {
      BeforeValid(c, d, key, i - 1, pktsize);
      var e := OutcomeAt(c, d, key, i - 1, pktsize);
      if c.arrived[i - 1] {
        OutcomeKeeps(Before(c, d, key, i - 1), c.ps[i - 1], c.xs[i - 1], c.us[c.xs[i - 1].u].nal, (c.sq + (i - 1)) % 65536, e);
      }
    }
  }

  // ---------------------------------------------------------------- a gapless beginning is held

  /** The receiver holds the NAL of packet a up to that packet. */
  ghost predicate Holds(c: Setup, d: State, a: nat)
    requires |c.xs| == |c.ps| == |c.arrived|
  {
    && a < |c.ps| && Valid(d) && d.frag && d.fragSeq == (c.sq + a) % 65536
    && c.xs[a].Part? && c.xs[a].u < |c.us| && 1 + c.xs[a].to <= |c.us[c.xs[a].u].nal|
    && d.acc == Kept(d) + (SC + c.us[c.xs[a].u].nal[..1 + c.xs[a].to])
  }

  /** It takes in the next fragment. */
  lemma HoldsAccepts(c: Setup, d: State, a: nat)
    requires |c.xs| == |c.ps| == |c.arrived| && Holds(c, d, a)
    ensures Accepts(c, d, a + 1)
  {
    Distance(c.sq, a, a + 1);
  }

  lemma HoldsStart(c: Setup, d: State, e: State, i: nat)
    requires At(c, i) && Valid(d) && c.xs[i].Part? && !c.xs[i].Ends()
    requires StartOutcome(d, c.ps[i], c.xs[i], c.us[c.xs[i].u].nal, (c.sq + i) % 65536, e)
    requires |Kept(d)| + 4 + c.xs[i].to <= DECODE_MAXSZ
    ensures Holds(c, e, i)
  {
    var acc := Kept(d) + (SC + c.us[c.xs[i].u].nal[..1 + c.xs[i].to]);
    assert acc[..|Kept(d)|] == Kept(d);
  }

  lemma HoldsNext(c: Setup, d: State, e: State, i: nat)
    requires At(c, i) && c.xs[i].Part? && !c.xs[i].Ends() && c.xs[i].from > 0 && Holds(c, d, i - 1)
    requires LaterOutcome(d, c.ps[i], c.xs[i], c.us[c.xs[i].u].nal, (c.sq + i) % 65536, e)
    requires |d.acc| + c.xs[i].to - c.xs[i].from <= DECODE_MAXSZ
    ensures Holds(c, e, i)
  {
    var x, nal := c.xs[i], c.us[c.xs[i].u].nal;
    HoldsAccepts(c, d, i - 1);
    Continued(Kept(d), nal, x.from, x.to);
    var acc := d.acc + nal[1..][x.from..x.to];
    assert acc[..d.fragStart] == Kept(d);
  }

  /** What packet i may add to the buffer. */
  lemma OutcomeAdds(c: Setup, d: State, e: State, i: nat)
    requires At(c, i) && Valid(d) && c.arrived[i]
    requires Outcome(d, c.ps[i], c.xs[i], c.us[c.xs[i].u].nal, (c.sq + i) % 65536, e)
    ensures |e.acc| <= |d.acc| + 3 + |c.ps[i].Bytes()|
  {
  }

  /** A packet that closes an access unit empties the buffer. */
  lemma ClosingEmpties(c: Setup, d: State, e: State, i: nat)
    requires At(c, i) && Valid(d) && d.gotKeyframe && Closes(c.ps, c.arrived, i)
    requires c.xs[i].Part? && c.xs[i].from > 0 ==> Holds(c, d, i - 1)
    requires Outcome(d, c.ps[i], c.xs[i], c.us[c.xs[i].u].nal, (c.sq + i) % 65536, e)
    ensures e.acc == [] && !e.frag
  {
    if c.xs[i].Part? && c.xs[i].from > 0 {
      HoldsAccepts(c, d, i - 1);
    }
  }

  /** An unfinished fragment whose predecessor is held, or that starts a NAL, is held. */
  lemma HoldsMore(c: Setup, t: State, e: State, a: nat)
    requires At(c, a) && Valid(t) && c.arrived[a] && Unfinished(c.ps[a])
    requires |t.acc| <= Load(c.ps, c.arrived, a) && Load(c.ps, c.arrived, a + 1) <= DECODE_MAXSZ
    requires Continues(c.ps[a]) ==> Holds(c, t, a - 1)
    requires Outcome(t, c.ps[a], c.xs[a], c.us[c.xs[a].u].nal, (c.sq + a) % 65536, e)
    ensures Holds(c, e, a)
  {
    assert |c.ps[a].Bytes()| == |c.ps[a].hdr| + |c.ps[a].payload|;
    if c.xs[a].from > 0 {
      HoldsNext(c, t, e, a);
    } else {
      HoldsStart(c, t, e, a);
    }
  }

  /** The bound of the buffer over one packet. */
  lemma LoadGrows(c: Setup, t: State, e: State, i: nat)
    requires At(c, i) && Valid(t) && t.gotKeyframe && c.arrived[i] && |t.acc| <= Load(c.ps, c.arrived, i)
    requires c.xs[i].Part? && c.xs[i].from > 0 && Closes(c.ps, c.arrived, i) ==> Holds(c, t, i - 1)
    requires Outcome(t, c.ps[i], c.xs[i], c.us[c.xs[i].u].nal, (c.sq + i) % 65536, e)
    ensures |e.acc| <= Load(c.ps, c.arrived, i + 1)
  {
    OutcomeAdds(c, t, e, i);
    if Closes(c.ps, c.arrived, i) {
      ClosingEmpties(c, t, e, i);
    }
  }

  lemma {:induction false} Bounded(c: Setup, d: State, key: nat -> bool, n: nat, pktsize: nat)
    requires Start(c, d, pktsize) && n <= |c.ps|
    ensures |Before(c, d, key, n).acc| <= Load(c.ps, c.arrived, n)
    decreases n
  {
    if n == 0 {
    } else {
      var i := n - 1;
      BeforeValid(c, d, key, i, pktsize);
      Bounded(c, d, key, i, pktsize);
      var t := Before(c, d, key, i);
      var e := OutcomeAt(c, d, key, i, pktsize);
      if c.arrived[i] {
        if c.xs[i].Part? && c.xs[i].from > 0 && Closes(c.ps, c.arrived, i) {
          GaplessHeld(c, d, key, i - 1, pktsize);
          assert Holds(c, t, i - 1);
        }
        LoadGrows(c, t, e, i);
      } else {
        assert Load(c.ps, c.arrived, n) == Load(c.ps, c.arrived, i);
      }
    }
  }

  /** A NAL of which nothing is lost so far is held by the receiver, whatever happened before it. */
  lemma {:induction false} GaplessHeld(c: Setup, d: State, key: nat -> bool, a: nat, pktsize: nat)
    requires Start(c, d, pktsize) && a < |c.ps| && Gapless(c.ps, c.arrived, a)
    ensures Holds(c, Before(c, d, key, a + 1), a)
    decreases a + 1
  {
    BeforeValid(c, d, key, a, pktsize);
    Bounded(c, d, key, a, pktsize);
    var e := OutcomeAt(c, d, key, a, pktsize);
    if Continues(c.ps[a]) {
      GaplessHeld(c, d, key, a - 1, pktsize);
    }
    HoldsMore(c, Before(c, d, key, a), e, a);
  }

  // ---------------------------------------------------------------- splices

  /** Packets that are ignored change nothing. */
  lemma {:induction false} IgnoredRun(c: Setup, d: State, key: nat -> bool, i: nat, j: nat, pktsize: nat)
    requires Start(c, d, pktsize) && i <= j <= |c.ps|
    requires forall k :: i <= k < j && c.arrived[k] ==> Ignored(c.ps[k], true)
    ensures Before(c, d, key, j) == Before(c, d, key, i)
    decreases j - i
  {
    if i == j {
    } else {
      IgnoredRun(c, d, key, i, j - 1, pktsize);
      BeforeValid(c, d, key, j - 1, pktsize);
      var e := OutcomeAt(c, d, key, j - 1, pktsize);
    }
  }

  lemma AliasAccepted(c: Setup, t: State, a: nat, b: nat)
    requires |c.xs| == |c.ps| == |c.arrived| && Holds(c, t, a) && a < b && Aliased(a, b)
    ensures Accepts(c, t, b)
  {
    Distance(c.sq, a, b);
  }

  lemma PredecessorLost(c: Setup, a: nat, b: nat)
    requires At(c, b) && Splices(c.ps, c.arrived, true, a, b)
    ensures b > 0 && !c.arrived[b - 1]
  {
    assert |c.ps[b - 1].hdr| == 2;
  }

  /** The second packet of a splice is taken for the continuation of the NAL of the first one. */
  lemma {:induction false} SpliceIsWrong(c: Setup, d: State, key: nat -> bool, a: nat, b: nat, pktsize: nat)
    requires Start(c, d, pktsize) && Splices(c.ps, c.arrived, true, a, b)
    ensures TakesWrong(c, d, key, b) && Holds(c, Before(c, d, key, b), a)
  {
    GaplessHeld(c, d, key, a, pktsize);
    IgnoredRun(c, d, key, a + 1, b, pktsize);
    AliasAccepted(c, Before(c, d, key, b), a, b);
    ReadyAt(c, b, pktsize);
    PredecessorLost(c, a, b);
  }

  /** From t to e the payload of packet b is put behind the beginning of the NAL of packet a. */
  ghost predicate Spliced(c: Setup, t: State, e: State, a: nat, b: nat)
    requires At(c, a) && At(c, b) && Valid(t) && c.xs[a].Part? && c.xs[b].Part?
  {
    var x, y := c.xs[a], c.xs[b];
    var acc := Kept(t) + (SC + c.us[x.u].nal[..1 + x.to]) + c.us[y.u].nal[1..][y.from..y.to];
    if y.Ends() then Completed(t, e, acc, c.ps[b].marker) else Opened(t, e, acc, t.fragStart, (c.sq + b) % 65536)
  }

  lemma SplicedState(c: Setup, t: State, e: State, a: nat, b: nat)
    requires At(c, a) && At(c, b) && c.xs[b].Part? && c.xs[b].from > 0 && Holds(c, t, a) && Accepts(c, t, b)
    requires LaterOutcome(t, c.ps[b], c.xs[b], c.us[c.xs[b].u].nal, (c.sq + b) % 65536, e)
    ensures Spliced(c, t, e, a, b)
  {
  }

  /** What a splice does to the buffer, or to the picture that is handed on. */
  lemma {:induction false} SpliceMixes(c: Setup, d: State, key: nat -> bool, a: nat, b: nat, pktsize: nat)
    requires Start(c, d, pktsize) && Splices(c.ps, c.arrived, true, a, b)
    ensures At(c, a) && At(c, b) && c.xs[a].Part? && c.xs[b].Part? && Valid(Before(c, d, key, b))
    ensures Spliced(c, Before(c, d, key, b), Before(c, d, key, b + 1), a, b)
  {
    SpliceIsWrong(c, d, key, a, b, pktsize);
    ReadyAt(c, a, pktsize);
    var e := OutcomeAt(c, d, key, b, pktsize);
    SplicedState(c, Before(c, d, key, b), e, a, b);
  }

  /** Some packet is taken in wrongly if and only if some pair of packets splices. */
  lemma {:induction false} SpliceExactly(d: State, us: seq<Unit>, pktsize: nat, arrived: seq<bool>, sq: nat, key: nat -> bool)
    requires d.acc == [] && !d.frag && d.gotKeyframe && 2 < pktsize < SIZE_T && AllPlain(us, pktsize)
    requires |arrived| == |Stream(us, pktsize)| && Roomy(Stream(us, pktsize), arrived)
    ensures NoWrong(Sent(us, pktsize, arrived, sq, true), d, key, |arrived|) <==> NoSplice(Stream(us, pktsize), arrived, true)
  {
    var c := Sent(us, pktsize, arrived, sq, true);
    Described(us, pktsize);
    if NoSplice(c.ps, arrived, true) {
      NoSpliceNoWrong(c, d, |arrived|, pktsize, key);
    }
    if NoWrong(c, d, key, |arrived|) {
      forall a: nat, b: nat ensures !Splices(c.ps, arrived, true, a, b) {
        if Splices(c.ps, arrived, true, a, b) {
          SpliceIsWrong(c, d, key, a, b, pktsize);
        }
      }
    }
  }
}
