/**
 The pauses of the tone player of baresip/src/play.c: when a repetition begins, told by the readings of the clock.
 */
module TonePauses {
  import opened Common
  import opened TonePlayer

  /**
   A pause, as the clock shows it: the reading at which the player finds the tone at its end, the readings during the
   pause, and the reading at which the tone starts over.
   */
  datatype Pause = Pause(from: U64, during: seq<U64>, to: U64)

  /** A pause that is not over yet. */
  datatype Open = Open(from: U64, during: seq<U64>)

  /** A run with its pauses: those before each repetition, and the one that has begun. */
  datatype Timed = Timed(h: History, pauses: seq<Pause>, open: Option<Open>)

  /** A reading of the clock at the end of the tone. */
  function TimedCheck(t: Timed, now: U64): (Timed, bool) {
    var (h, again) := CheckOn(t.h, now);
    var o := if t.open.Some? then t.open.value else Open(now, []);
    if again then (Timed(h, t.pauses + [Pause(o.from, o.during, now)], None), true)
    else if h.p.eof then (t.(h := h), false)
    else (t.(h := h, open := Some(if t.open.Some? then Open(o.from, o.during + [now]) else o)), false)
  }

  function TimedCopy(t: Timed, n: nat): (Timed, nat)
    requires t.h.p.Valid()
  {
    var (h, m) := CopyTo(t.h, n);
    (t.(h := h), m)
  }

  /** A request of the audio device. */
  function TimedServe(t: Timed, r: Request): (u: Timed)
    requires t.h.p.Valid()
    ensures u.h == Serve(t.h, r)
  {
    if t.h.p.eof then t
    else
      var (t1, n) := TimedCopy(t, r.sz);
      if n == r.sz then t1
      else
        var (t2, again) := TimedCheck(t1, r.now);
        if !again then t2
        else
          var (t3, m) := TimedCopy(t2, r.sz - n);
          if m == r.sz - n then t3 else TimedCheck(t3, r.later).0
  }

  function TimedRun(t: Timed, rs: seq<Request>): (u: Timed)
    requires t.h.p.Valid()
    ensures u.h == Run(t.h, rs)
    decreases |rs|
  {
    if rs == [] then t else TimedRun(TimedServe(t, rs[0]), rs[1..])
  }

  /** When a pause that began at a reading is over, in 64-bit arithmetic. */
  function Due(from: U64, delay: U64): U64 { (from + delay) % B64 }

  predicate AllBelow(readings: seq<U64>, due: U64) { forall i :: 0 <= i < |readings| ==> readings[i] < due }

  /** The pause lasts until the first reading at which it is due, and no longer. */
  predicate Kept(p: Pause, delay: U64) { AllBelow(p.during, Due(p.from, delay)) && Due(p.from, delay) <= p.to }

  predicate AllKept(pauses: seq<Pause>, delay: U64) { forall k :: 0 <= k < |pauses| ==> Kept(pauses[k], delay) }

  predicate Inv(t: Timed, delay: U64) {
    && t.h.p.Valid() && t.h.p.delay == delay && t.h.rounds == |t.pauses| && AllKept(t.pauses, delay)
    && (t.h.p.eof ==> t.h.p.trep == 0)
    && (t.open.Some? <==> t.h.p.trep != 0)
    && (t.open.Some? ==> t.h.p.trep == Due(t.open.value.from, delay) && AllBelow(t.open.value.during, t.h.p.trep))
  }

  lemma TimedCheckInv(t: Timed, now: U64, delay: U64)
    requires Inv(t, delay) && !t.h.p.eof && Due(now, delay) != 0
    ensures Inv(TimedCheck(t, now).0, delay)
  {
  }

  lemma TimedServeInv(t: Timed, r: Request, delay: U64)
    requires Inv(t, delay) && ClockOk(delay, r)
    ensures Inv(TimedServe(t, r), delay)
  {
    if !t.h.p.eof {
      var (t1, n) := TimedCopy(t, r.sz);
      if n < r.sz {
        TimedCheckInv(t1, r.now, delay);
        var (t2, again) := TimedCheck(t1, r.now);
        if again {
          var (t3, m) := TimedCopy(t2, r.sz - n);
          if m < r.sz - n {
            TimedCheckInv(t3, r.later, delay);
          }
        }
      }
    }
  }

  lemma {:induction false} TimedRunInv(t: Timed, rs: seq<Request>, delay: U64)
    requires Inv(t, delay) && forall i :: 0 <= i < |rs| ==> ClockOk(delay, rs[i])
    ensures Inv(TimedRun(t, rs), delay)
    decreases |rs|
  {
    if rs == [] {
    } else {
      TimedServeInv(t, rs[0], delay);
      TimedRunInv(TimedServe(t, rs[0]), rs[1..], delay);
    }
  }

  function TimedBegin(tone: seq<Byte>, times: int, delay: U64): Timed { Timed(Begin(tone, times, delay), [], None) }

  lemma BytesOfRound(tone: seq<Byte>, out: seq<Byte>, rounds: nat, pos: nat)
    requires pos <= |tone| && out == Times(tone, rounds) + tone[..pos]
    ensures rounds * |tone| <= |out| <= (rounds + 1) * |tone|
  {
    TimesLength(tone, rounds);
    assert (rounds + 1) * |tone| == rounds * |tone| + |tone|;
  }

  lemma RoundsOfRun(tone: seq<Byte>, times: int, delay: U64, rs: seq<Request>, h: History)
    requires h == Run(Begin(tone, times, delay), rs)
    ensures h.rounds * |tone| <= |h.out| <= (h.rounds + 1) * |tone|
  {
    RunInv(Begin(tone, times, delay), rs, tone, Count(times));
    BytesOfRound(tone, h.out, h.rounds, h.p.pos);
  }

  /**
   For every count, frame sizes and clock readings: before each repetition after the first one there is a pause, it is
   over at the first reading that is due, and no byte of the repetition is copied before that.  A reading that is due
   ends the pause, so none is left in a pause that is still open.
   */
  lemma PausesExactly(tone: seq<Byte>, times: int, delay: U64, rs: seq<Request>)
    requires forall i :: 0 <= i < |rs| ==> ClockOk(delay, rs[i])
    ensures var t := TimedRun(TimedBegin(tone, times, delay), rs);
            && t.h == Run(Begin(tone, times, delay), rs)
            && AllKept(t.pauses, delay)
            && (t.open.Some? ==> AllBelow(t.open.value.during, Due(t.open.value.from, delay)))
            && |t.pauses| * |tone| <= |t.h.out| <= (|t.pauses| + 1) * |tone|
  {
    var b := TimedBegin(tone, times, delay);
    var t := TimedRun(b, rs);
    assert Inv(b, delay);
    TimedRunInv(b, rs, delay);
    RoundsOfRun(tone, times, delay, rs, t.h);
  }
}
