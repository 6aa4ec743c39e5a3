/**
 The pictures of the H.264 receiver under packet loss, exactly: unless packets splice, they are determined by which
 packets arrive.
 */
module H264LossExact {
  import opened H264Startcode
  import opened H264Packetize
  import opened H264Depacketize
  import opened H264RoundTrip
  import opened H264Stream
  import opened H264Loss
  import opened H264Splice

  /** The bookkeeping of the first n packets, told by what arrives: closed access units, and what is buffered since. */
  function Expected(ps: seq<Packet>, xs: seq<Piece>, arrived: seq<bool>, n: nat): (w: Witness)
    requires n <= |ps| == |arrived| == |xs|
    decreases n
  {
    if n == 0 then Witness([], [], 0)
    else
      var w, u := Expected(ps, xs, arrived, n - 1), xs[n - 1].u;
      if !Taken(ps, arrived, n - 1) then w
      else if ps[n - 1].marker then Witness(w.pics + [w.cur + [u]], [], 0)
      else w.(cur := w.cur + [u])
  }

  ghost predicate SameBooks(v: Witness, w: Witness) { v.pics == w.pics && v.cur == w.cur }

  /** The bookkeeping is right before packet i. */
  ghost predicate Exact(c: Setup, d: State, key: nat -> bool, i: nat, w: Witness)
    requires i <= |c.ps| == |c.arrived| == |c.xs|
  {
    Safe(c, d.delivered, Before(c, d, key, i), i, w) && SameBooks(w, Expected(c.ps, c.xs, c.arrived, i))
  }

  /** A fragment behind the first one is taken in if nothing of its NAL is lost, */
  lemma GaplessAccepts(c: Setup, d: State, key: nat -> bool, i: nat, pktsize: nat)
    requires Start(c, d, pktsize) && 0 < i < |c.ps| && Gapless(c.ps, c.arrived, i - 1)
    ensures Holds(c, Before(c, d, key, i), i - 1) && Accepts(c, Before(c, d, key, i), i)
  {
    GaplessHeld(c, d, key, i - 1, pktsize);
    HoldsAccepts(c, Before(c, d, key, i), i - 1);
  }

  /** and only then, unless something is taken in wrongly. */
  lemma AcceptsGapless(c: Setup, base: seq<seq<Byte>>, t: State, i: nat, w: Witness)
    requires At(c, i) && c.xs[i].Part? && c.xs[i].from > 0 && Safe(c, base, t, i, w)
    requires Accepts(c, t, i) && c.arrived[i - 1]
    ensures Gapless(c.ps, c.arrived, i - 1)
  {
    PendingIsLast(c, t, i, w.m);
  }

  lemma ExactWhole(c: Setup, d: State, key: nat -> bool, i: nat, w: Witness, e: State) returns (v: Witness)
    requires At(c, i) && Exact(c, d, key, i, w) && c.arrived[i] && c.xs[i].Whole? && e == Before(c, d, key, i + 1)
    requires var t := Before(c, d, key, i);
             && t.gotKeyframe && WholeOutcome(t, c.ps[i], c.us[c.xs[i].u].nal, e) && |t.acc| <= Load(c.ps, c.arrived, i)
    requires Load(c.ps, c.arrived, i + 1) <= DECODE_MAXSZ
    ensures Exact(c, d, key, i + 1, v)
  {
    var t := Before(c, d, key, i);
    v := SafeWhole(c, d.delivered, t, e, i, w);
    assert Taken(c.ps, c.arrived, i) <==> !Ignored(c.ps[i], true) && Ordinary(c.us[c.xs[i].u].nal[0]);
  }

  lemma ExactStart(c: Setup, d: State, key: nat -> bool, i: nat, w: Witness, e: State) returns (v: Witness)
    requires At(c, i) && Exact(c, d, key, i, w) && c.arrived[i] && c.xs[i].Part? && c.xs[i].from == 0
    requires e == Before(c, d, key, i + 1)
    requires var t := Before(c, d, key, i);
             && StartOutcome(t, c.ps[i], c.xs[i], c.us[c.xs[i].u].nal, (c.sq + i) % 65536, e)
             && |t.acc| <= Load(c.ps, c.arrived, i)
    requires Load(c.ps, c.arrived, i + 1) <= DECODE_MAXSZ
    ensures Exact(c, d, key, i + 1, v)
  {
    var t := Before(c, d, key, i);
    v := SafeStart(c, d.delivered, t, e, i, w);
    assert Taken(c.ps, c.arrived, i) <==> c.xs[i].Ends();
  }

  lemma ExactLater(c: Setup, d: State, key: nat -> bool, i: nat, w: Witness, e: State) returns (v: Witness)
    requires At(c, i) && Exact(c, d, key, i, w) && c.arrived[i] && c.xs[i].Part? && c.xs[i].from > 0
    requires e == Before(c, d, key, i + 1)
    requires var t := Before(c, d, key, i);
             && LaterOutcome(t, c.ps[i], c.xs[i], c.us[c.xs[i].u].nal, (c.sq + i) % 65536, e)
             && |t.acc| <= Load(c.ps, c.arrived, i)
             && (Accepts(c, t, i) ==> c.arrived[i - 1] && Holds(c, t, i - 1))
             && (Accepts(c, t, i) <==> Gapless(c.ps, c.arrived, i - 1))
    requires Load(c.ps, c.arrived, i + 1) <= DECODE_MAXSZ
    ensures Exact(c, d, key, i + 1, v)
  {
    var t := Before(c, d, key, i);
    v := SafeLater(c, d.delivered, t, e, i, w);
    assert Taken(c.ps, c.arrived, i) <==> c.xs[i].Ends() && Accepts(c, t, i);
  }

  lemma ExactNext(c: Setup, d: State, key: nat -> bool, i: nat, w: Witness, pktsize: nat) returns (v: Witness)
    requires Start(c, d, pktsize) && i < |c.ps| && |c.xs| == |c.ps| && Exact(c, d, key, i, w) && !TakesWrong(c, d, key, i)
    ensures Exact(c, d, key, i + 1, v)
  {
    var t := Before(c, d, key, i);
    BeforeValid(c, d, key, i, pktsize);
    Bounded(c, d, key, i, pktsize);
    var e := OutcomeAt(c, d, key, i, pktsize);
    if !c.arrived[i] {
      SafeNothing(c, d.delivered, t, i, w);
      v := w;
    } else if c.xs[i].Whole? {
      v := ExactWhole(c, d, key, i, w, e);
    } else if c.xs[i].from == 0 {
      v := ExactStart(c, d, key, i, w, e);
    } else {
      if Gapless(c.ps, c.arrived, i - 1) {
        GaplessAccepts(c, d, key, i, pktsize);
      }
      if Accepts(c, t, i) {
        AcceptsGapless(c, d.delivered, t, i, w);
      }
      v := ExactLater(c, d, key, i, w, e);
    }
  }

  lemma {:induction false} ExactRun(c: Setup, d: State, key: nat -> bool, n: nat, pktsize: nat) returns (w: Witness)
    requires Start(c, d, pktsize) && n <= |c.ps| == |c.xs| && NoWrong(c, d, key, n)
    ensures Exact(c, d, key, n, w)
    decreases n
  {
    if n == 0 {
      SafeInit(c, d, pktsize);
      w := Witness([], [], 0);
    } else {
      var v := ExactRun(c, d, key, n - 1, pktsize);
      w := ExactNext(c, d, key, n - 1, v, pktsize);
    }
  }

  /**
   The pictures under loss: unless packets splice, one picture is handed on for every access unit whose end arrives,
   and it consists of the NAL units that arrived completely since the access unit closed before.
   */
  lemma {:induction false} PicturesExactly(d: State, us: seq<Unit>, pktsize: nat, arrived: seq<bool>, sq: nat, key: nat -> bool)
    requires d.acc == [] && !d.frag && d.gotKeyframe && 2 < pktsize < SIZE_T && AllPlain(us, pktsize)
    requires var ps := Stream(us, pktsize);
             |arrived| == |ps| && Roomy(ps, arrived) && NoSplice(ps, arrived, true)
    ensures |Shape(us, pktsize)| == |arrived|
    ensures var e := Lossy(d, Stream(us, pktsize), arrived, |arrived|, sq, key);
            var w := Expected(Stream(us, pktsize), Shape(us, pktsize), arrived, |arrived|);
            && d.delivered <= e.delivered && Pictures(us, w.pics, e.delivered[|d.delivered|..])
            && Valid(e) && Ascending(w.cur, |us|) && Kept(e) == Join(Select(us, w.cur))
  {
    var c := Sent(us, pktsize, arrived, sq, true);
    Described(us, pktsize);
    NoSpliceNoWrong(c, d, |arrived|, pktsize, key);
    var w := ExactRun(c, d, key, |arrived|, pktsize);
  }
}
