/**
 Loss accounting on 16-bit RTP sequence numbers: lostcalc, and the parts of rtp_handler and
 stream_decode in baresip/src/stream.c that touch the last sequence number.

 Packets enter a jitter buffer on arrival and are decoded later, in an order of its own; both are events.
 */
module RtpSequence {
  import opened Common

  const NONE: int := 0xffff_ffff

  /** lostcalc: the new last sequence number, and the count of lost packets, -1 for a repeat or -2 for a late packet. */
  function LostCalc(pseq: U32, sq: U16): (r: (U32, int)) {
    var delta: U16 := (sq - pseq) % B16;
    if pseq == NONE then (sq, 0)
    else if delta == 0 then (pseq, -1)
    else if delta < 3000 then (sq, delta - 1)
    else if delta < 0xff9c then (sq, 0)
    else (pseq, -2)
  }

  datatype State = State(pseqSet: bool, ssrc: U32, pseq: U32)

  /** hdr->seq - 1 stored in 32 bits: sequence number 0 yields the value that means "none". */
  function Before(sq: U16): U32 { (sq - 1) % 0x1_0000_0000 }

  /** The sequence part of rtp_handler; the flag asks for a flush of the jitter buffer. */
  function Arrive(s: State, ssrc: U32, sq: U16): (State, bool) {
    if !s.pseqSet then (State(true, ssrc, Before(sq)), false)
    else if ssrc != s.ssrc then (State(true, ssrc, Before(sq)), true)
    else (s, false)
  }

  /** The stream object. */
  class Stream {
    var pseqSet: bool
    var ssrcRx: U32
    var pseq: U32

    function Abs(): State
      reads this
    {
      State(pseqSet, ssrcRx, pseq)
    }

    constructor ()
      ensures Abs() == State(false, 0, NONE)
    {
      pseqSet, ssrcRx, pseq := false, 0, NONE;
    }

    method Lost(sq: U16) returns (lostc: int)
      modifies this
      ensures (pseq, lostc) == LostCalc(old(pseq), sq) && pseqSet == old(pseqSet) && ssrcRx == old(ssrcRx)
    {
      var delta: U16 := (sq - pseq) % B16;
      if pseq == NONE {
        lostc := 0;
      } else if delta == 0 {
        return -1;
      } else if delta < 3000 {
        lostc := delta - 1;
      } else if delta < 0xff9c {
        lostc := 0;
      } else {
        return -2;
      }
      pseq := sq;
    }

    method RtpHandler(ssrc: U32, sq: U16) returns (flush: bool)
      modifies this
      ensures (Abs(), flush) == Arrive(old(Abs()), ssrc, sq)
    {
      flush := false;
      if !pseqSet {
        ssrcRx, pseq, pseqSet := ssrc, Before(sq), true;
      } else if ssrc != ssrcRx {
        ssrcRx, pseq, flush := ssrc, Before(sq), true;
      }
    }

    /** The count handed to the media handler is never negative. */
    method Decode(sq: U16) returns (lostc: nat)
      modifies this
      ensures Abs() == old(Abs()).(pseq := LostCalc(old(pseq), sq).0)
      ensures lostc == if LostCalc(old(pseq), sq).1 > 0 then LostCalc(old(pseq), sq).1 else 0
    {
      var n := Lost(sq);
      lostc := if n > 0 then n else 0;
    }
  }

  // ---------------------------------------------------------------- runs over extended sequence numbers

  /** Totals of a run: the extended number of the last accepted packet, reported losses, accepted packets. */
  datatype Totals = Totals(s: State, at: int, lost: nat, accepted: nat)

  datatype Event = Arrival(ssrc: U32, sq: U16) | Decoded(x: int)

  function Low(x: int): U16 { x % B16 }

  /** A decoded packet is given by its extended number; the receiver sees its low 16 bits. */
  function Step(t: Totals, e: Event): Totals {
    match e
    case Arrival(ssrc, sq) => t.(s := Arrive(t.s, ssrc, sq).0)
    case Decoded(x) =>
      var (pseq, lostc) := LostCalc(t.s.pseq, Low(x));
      if lostc < 0 then t.(s := t.s.(pseq := pseq))
      else Totals(t.s.(pseq := pseq), x, t.lost + lostc, t.accepted + 1)
  }

  function Run(t: Totals, es: seq<Event>): Totals
    decreases |es|
  {
    if es == [] then t else Run(Step(t, es[0]), es[1..])
  }

  /** Arrivals keep the source; a decoded packet is ahead by less than 3000 or behind by at most 100. */
  predicate InWindow(t: Totals, e: Event) {
    match e
    case Arrival(ssrc, _) => t.s.pseqSet && ssrc == t.s.ssrc
    case Decoded(x) => -100 <= x - t.at < 3000
  }

  predicate RunInWindow(t: Totals, es: seq<Event>)
    decreases |es|
  {
    es == [] || (InWindow(t, es[0]) && RunInWindow(Step(t, es[0]), es[1..]))
  }

  /** The same, but a decoded packet may be ahead by whatever 16 bits can tell from a late one. */
  predicate InCycle(t: Totals, e: Event) {
    match e
    case Arrival(ssrc, _) => t.s.pseqSet && ssrc == t.s.ssrc
    case Decoded(x) => -100 <= x - t.at <= 65435
  }

  predicate RunInCycle(t: Totals, es: seq<Event>)
    decreases |es|
  {
    es == [] || (InCycle(t, es[0]) && RunInCycle(Step(t, es[0]), es[1..]))
  }

  /** The receiver holds the low bits of the extended position. */
  predicate Synced(t: Totals) { t.s.pseqSet && t.s.pseq == Low(t.at) }

  /** What must hold between two points of a run. */
  predicate Balanced(t: Totals, u: Totals) {
    (u.lost - t.lost) + (u.accepted - t.accepted) == u.at - t.at
  }

  /** The numbers a packet that is 3000 or more ahead leaves behind. */
  function Jump(t: Totals, e: Event): nat {
    if e.Decoded? && e.x - t.at >= 3000 then e.x - t.at - 1 else 0
  }

  function Jumps(t: Totals, es: seq<Event>): nat
    decreases |es|
  {
    if es == [] then 0 else Jump(t, es[0]) + Jumps(Step(t, es[0]), es[1..])
  }

  /** Inside the cycle the 16-bit difference identifies the true one. */
  lemma DeltaInCycle(at: int, x: int)
    requires -100 <= x - at <= 65435
    ensures (Low(x) - Low(at)) % B16 == if x >= at then x - at else x - at + B16
  {
  }

  /** One packet moves the position to the maximum; what it does not report is what it jumps over. */
  lemma StepAccounts(t: Totals, e: Event)
    requires Synced(t) && InCycle(t, e)
    ensures var u := Step(t, e);
            Synced(u) && u.at >= t.at && (u.lost - t.lost) + (u.accepted - t.accepted) + Jump(t, e) == u.at - t.at
    ensures e.Decoded? ==> Step(t, e).at == if e.x > t.at then e.x else t.at
    ensures InWindow(t, e) <==> Jump(t, e) == 0
  {
    if e.Decoded? {
      DeltaInCycle(t.at, e.x);
    }
  }

  /**
   Conservation, across any number of 16-bit wrap-arounds: the position never moves back, and reported losses,
   accepted packets and the numbers jumped over are together the distance travelled.
   */
  lemma {:induction false} RunAccounts(t: Totals, es: seq<Event>)
    requires Synced(t) && RunInCycle(t, es)
    ensures var u := Run(t, es);
            Synced(u) && u.at >= t.at && (u.lost - t.lost) + (u.accepted - t.accepted) + Jumps(t, es) == u.at - t.at
    ensures RunInWindow(t, es) <==> Jumps(t, es) == 0
    decreases |es|
  {
    if es == [] {
    } else {
      StepAccounts(t, es[0]);
      RunAccounts(Step(t, es[0]), es[1..]);
    }
  }

  /** Reported losses and accepted packets are the distance travelled if and only if no packet is 3000 or more ahead. */
  lemma BalancedExactly(t: Totals, es: seq<Event>)
    requires Synced(t) && RunInCycle(t, es)
    ensures Synced(Run(t, es)) && (Balanced(t, Run(t, es)) <==> RunInWindow(t, es))
  {
    RunAccounts(t, es);
  }

  lemma {:induction false} WindowIsInCycle(t: Totals, es: seq<Event>)
    requires RunInWindow(t, es)
    ensures RunInCycle(t, es)
    decreases |es|
  {
    if es == [] {
    } else {
      WindowIsInCycle(Step(t, es[0]), es[1..]);
    }
  }

  lemma RunBalanced(t: Totals, es: seq<Event>)
    requires Synced(t) && RunInWindow(t, es)
    ensures var u := Run(t, es); Synced(u) && Balanced(t, u) && u.at >= t.at
  {
    WindowIsInCycle(t, es);
    RunAccounts(t, es);
  }

  /**
   Behind a jump of 3000 to 65435 numbers the receiver is synced to the new number without reporting a loss, and
   from there on the count is right again.
   */
  lemma JumpResyncs(t: Totals, x: int, es: seq<Event>)
    requires Synced(t) && 3000 <= x - t.at <= 65435
    ensures var u := Step(t, Decoded(x));
            && u.at == x && u.s.pseq == Low(x) && u.lost == t.lost && u.accepted == t.accepted + 1
            && (RunInWindow(u, es) ==> Balanced(u, Run(u, es)))
  {
    DeltaInCycle(t.at, x);
    var u := Step(t, Decoded(x));
    if RunInWindow(u, es) {
      RunBalanced(u, es);
    }
  }

  /** The state after the first packet of a source has arrived, in front of which the count begins. */
  function Start(ssrc: U32, first: U16): Totals {
    Totals(Arrive(State(false, 0, NONE), ssrc, first).0, first - 1, 0, 0)
  }

  /** A new source restarts the count as the first one did; a flush is asked for when, and only when, the source changes. */
  lemma NewSourceRestarts(t: Totals, ssrc: U32, first: U16)
    ensures !t.s.pseqSet || ssrc != t.s.ssrc ==> Step(t, Arrival(ssrc, first)).s == Start(ssrc, first).s
    ensures Arrive(t.s, ssrc, first).1 <==> t.s.pseqSet && ssrc != t.s.ssrc
  {
  }

  /** Nothing but arrivals of the known source, then the rest. */
  function FirstDecoded(es: seq<Event>): (k: nat)
    ensures k <= |es| && (k < |es| ==> es[k].Decoded?)
    ensures forall i :: 0 <= i < k ==> es[i].Arrival?
  {
    if es == [] then 0
    else if es[0].Decoded? then 0
    else 1 + FirstDecoded(es[1..])
  }

  /** The first decoded packet, if any, is the packet the count started in front of. */
  predicate StartsInOrder(first: U16, es: seq<Event>) {
    var k := FirstDecoded(es);
    k == |es| || es[k].x == first
  }

  lemma {:induction false} ZeroStart(t: Totals, es: seq<Event>)
    requires t.s.pseqSet && t.s.pseq == NONE && t.at == -1 && RunInWindow(t, es)
    ensures Balanced(t, Run(t, es)) <==> StartsInOrder(0, es)
    decreases |es|
  {
    if es == [] {
    } else {
      var u := Step(t, es[0]);
      if es[0].Arrival? {
        ZeroStart(u, es[1..]);
      } else {
        assert u == Totals(t.s.(pseq := Low(es[0].x)), es[0].x, t.lost, t.accepted + 1);
        RunBalanced(u, es[1..]);
      }
    }
  }

  /**
   From the first arrival on, losses are accounted for exactly when the first sequence number is not 0,
   or the jitter buffer hands out that very packet first: the 32-bit value stored before sequence number 0
   is the one lostcalc takes for "no packet yet", so a first packet that is ahead or late is not counted.
   */
  lemma {:induction false} LossesExactFromStart(ssrc: U32, first: U16, es: seq<Event>)
    requires RunInWindow(Start(ssrc, first), es)
    ensures var t := Start(ssrc, first);
            Balanced(t, Run(t, es)) <==> first != 0 || StartsInOrder(first, es)
  {
    var t := Start(ssrc, first);
    if first != 0 {
      RunBalanced(t, es);
    } else {
      ZeroStart(t, es);
    }
  }

  /** Sequence number 0 arrives first but 5 is decoded first: five packets are missing and none is reported. */
  lemma LostLossExample()
    ensures var t := Start(7, 0);
            && RunInWindow(t, [Decoded(5)])
            && Run(t, [Decoded(5)]).lost == 0
            && !Balanced(t, Run(t, [Decoded(5)]))
  {
    var t := Start(7, 0);
    assert [Decoded(5)][1..] == [];
    assert RunInWindow(Step(t, Decoded(5)), []);
    assert Run(t, [Decoded(5)]) == Run(Step(t, Decoded(5)), []);
  }
}
