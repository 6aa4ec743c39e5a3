/**
 RTP timestamp tracking: baresip/src/timestamp.c with its users update_rtp_timestamp in
 baresip/src/video.c and stream_recv_handler in baresip/src/audio.c, and the clock conversions of
 baresip/src/vidutil.c.

 The receivers see timestamps modulo 2^32.  The theorems are about the unbounded timestamps behind them.
 */
module RtpTimestamp {
  import opened Common

  /** Conversion of a difference to int32_t: two's complement. */
  function ToInt32(x: int): (r: int)
    ensures -B31 <= r < B31 && (x - r) % B32 == 0
  {
    var m := x % B32;
    if m < B31 then m else m - B32
  }

  /** timestamp_wrap */
  function Wrap(tsNew: U32, tsOld: U32): (w: int)
    ensures w in {-1, 0, 1}
  {
    if tsNew < tsOld then
      if ToInt32(ToInt32(tsNew) - ToInt32(tsOld)) > 0 then 1 else 0
    else if ToInt32(tsOld - tsNew) > 0 then -1
    else 0
  }

  function Low(t: nat): U32 { t % B32 }

  function Epoch(t: nat): nat { t / B32 }

  /** t is at most 2^31 - 1 ticks away from u. */
  predicate Near(t: nat, u: nat) { -B31 < t - u < B31 }

  /** For nearby timestamps the 32-bit comparison yields the difference of their 2^32 epochs. */
  lemma WrapIsEpochDifference(t: nat, u: nat)
    requires Near(t, u)
    ensures Wrap(Low(t), Low(u)) == Epoch(t) - Epoch(u)
  {
    assert t == B32 * Epoch(t) + Low(t) && u == B32 * Epoch(u) + Low(u);
  }

  /** 2^31 - 1 is the largest distance for which this holds: at 2^31 a forward crossing goes unseen. */
  lemma WrapLimit()
    ensures forall t: nat :: Low(t) >= B31 ==> Wrap(Low(t + B31), Low(t)) == 0 != Epoch(t + B31) - Epoch(t)
  {
    forall t: nat | Low(t) >= B31
      ensures Wrap(Low(t + B31), Low(t)) == 0 != Epoch(t + B31) - Epoch(t)
    {
      assert t == B32 * Epoch(t) + Low(t);
      assert t + B31 == B32 * (Epoch(t) + 1) + (Low(t) - B31);
      assert Low(t + B31) == Low(t) - B31;
    }
  }

  // ---------------------------------------------------------------- the receive state

  /** struct timestamp_recv */
  datatype Recv = Recv(first: U32, last: U32, isSet: bool, numWraps: U32)

  /** timestamp_calc_extended */
  function Extended(numWraps: U32, ts: U32): (r: U64)
  {
    numWraps * B32 + ts
  }

  /** timestamp_duration, with its 64-bit unsigned subtraction */
  function Duration(r: Recv): U64 {
    if !r.isSet then 0 else (Extended(r.numWraps, r.last) - r.first) % B64
  }

  /** update_rtp_timestamp */
  function VideoStep(r: Recv, ts: U32): Recv {
    if !r.isSet then Recv(ts, ts, true, r.numWraps)
    else
      var w := Wrap(ts, r.last);
      if w == -1 then r
      else r.(last := ts, numWraps := if w == 1 then (r.numWraps + 1) % B32 else r.numWraps)
  }

  datatype Audio = Audio(recv: Recv, discarded: nat)

  /** The timestamp part of the audio handler; the flag says whether the frame is discarded. */
  function AudioStep(a: Audio, ts: U32): (Audio, bool) {
    var late := a.recv.isSet && Extended(a.recv.numWraps, ts) <= Extended(a.recv.numWraps, a.recv.last);
    var r := if a.recv.isSet then a.recv else Recv(ts, ts, true, a.recv.numWraps);
    var w := Wrap(ts, r.last);
    var r1 := r.(last := ts, numWraps := if w == 1 then (r.numWraps + 1) % B32 else r.numWraps);
    var discard := late || w == -1;
    (Audio(r1, if discard then a.discarded + 1 else a.discarded), discard)
  }

  /** The receive state as the object the handlers update. */
  class TimestampRecv {
    var first: U32
    var last: U32
    var isSet: bool
    var numWraps: U32
    var nDiscard: nat

    function Abs(): Recv
      reads this
    {
      Recv(first, last, isSet, numWraps)
    }

    constructor ()
      ensures Abs() == Recv(0, 0, false, 0) && nDiscard == 0
    {
      first, last, isSet, numWraps, nDiscard := 0, 0, false, 0, 0;
    }

    /** timestamp_set */
    method Set(ts: U32)
      modifies this
      ensures Abs() == Recv(ts, ts, true, old(numWraps)) && nDiscard == old(nDiscard)
    {
      first, last, isSet := ts, ts, true;
    }

    method UpdateVideo(ts: U32)
      modifies this
      ensures Abs() == VideoStep(old(Abs()), ts)
    {
      if isSet {
        var wrap := Wrap(ts, last);
        if wrap == -1 {
          return;
        }
        if wrap == 1 {
          numWraps := (numWraps + 1) % B32;
        }
      } else {
        Set(ts);
      }
      last := ts;
    }

    method ReceiveAudio(ts: U32) returns (discard: bool)
      modifies this
      ensures (Audio(Abs(), nDiscard), discard) == AudioStep(Audio(old(Abs()), old(nDiscard)), ts)
    {
      discard := false;
      if isSet {
        if Extended(numWraps, ts) <= Extended(numWraps, last) {
          discard := true;
        }
      } else {
        Set(ts);
      }
      var wrap := Wrap(ts, last);
      if wrap == -1 {
        discard := true;
      } else if wrap == 1 {
        numWraps := (numWraps + 1) % B32;
      }
      last := ts;
      if discard {
        nDiscard := nDiscard + 1;
      }
    }
  }

  // ---------------------------------------------------------------- video: runs

  const FRESH: Recv := Recv(0, 0, false, 0)

  /** A packet that steps back over a multiple of 2^32. */
  predicate StepsBack(t: nat, accepted: nat) { Epoch(t) < Epoch(accepted) }

  /** The last accepted timestamp of a stream, by the rule that exactly the steps back are rejected. */
  function Accepted(ts: seq<nat>): nat
    requires ts != []
  {
    var n := |ts| - 1;
    if n == 0 then ts[0]
    else
      var a := Accepted(ts[..n]);
      if StepsBack(ts[n], a) then a else ts[n]
  }

  /** Every packet is near the last accepted one. */
  predicate NearStream(ts: seq<nat>) {
    forall k :: 1 <= k < |ts| ==> Near(ts[k], Accepted(ts[..k]))
  }

  function VideoRun(ts: seq<nat>): Recv {
    if ts == [] then FRESH
    else VideoStep(VideoRun(ts[..|ts| - 1]), Low(ts[|ts| - 1]))
  }

  lemma {:induction false} NearPrefix(ts: seq<nat>)
    requires NearStream(ts) && ts != []
    ensures NearStream(ts[..|ts| - 1])
  {
    var init := ts[..|ts| - 1];
    forall k | 1 <= k < |init| ensures Near(init[k], Accepted(init[..k])) {
      assert init[..k] == ts[..k];
      assert Near(ts[k], Accepted(ts[..k]));
    }
  }

  /** The last accepted packet never lies in an earlier epoch than the first one. */
  lemma {:induction false} AcceptedEpoch(ts: seq<nat>)
    requires ts != []
    ensures Epoch(Accepted(ts)) >= Epoch(ts[0])
    decreases |ts|
  {
    if |ts| > 1 {
      AcceptedEpoch(ts[..|ts| - 1]);
    }
  }

  lemma Recompose(t: nat)
    ensures t == B32 * Epoch(t) + Low(t)
  {
  }

  /** The state stands for timestamp a of a stream that began in epoch e. */
  ghost predicate Tracks(r: Recv, a: nat, e: nat) {
    r.isSet && r.last == Low(a) && r.numWraps == (Epoch(a) - e) % B32
  }

  /** One packet: the state follows the last accepted timestamp. */
  lemma VideoStepTracks(r: Recv, a: nat, t: nat, e: nat)
    requires Tracks(r, a, e) && Near(t, a)
    ensures var r1 := VideoStep(r, Low(t));
            && r1.first == r.first
            && Tracks(r1, if StepsBack(t, a) then a else t, e)
            && (r1 == r <==> StepsBack(t, a) || t == a)
  {
    WrapIsEpochDifference(t, a);
    Recompose(t);
    Recompose(a);
  }

  lemma RemainderOf(x: int, q: int, r: int)
    requires x == B64 * q + r && 0 <= r < B64
    ensures x % B64 == r
  {
  }

  lemma ExtendedIs(r: Recv, a: nat, e: nat)
    requires Tracks(r, a, e)
    ensures Extended(r.numWraps, r.last) == (a - B32 * e) % B64
  {
    var n := Epoch(a) - e;
    Recompose(a);
    assert n == B32 * (n / B32) + n % B32;
    RemainderOf(a - B32 * e, n / B32, B32 * (n % B32) + Low(a));
  }

  lemma {:induction false} RunTracks(ts: seq<nat>)
    requires ts != [] && NearStream(ts)
    ensures VideoRun(ts).first == Low(ts[0]) && Tracks(VideoRun(ts), Accepted(ts), Epoch(ts[0]))
    decreases |ts|
  {
    var n := |ts| - 1;
    if n == 0 {
      assert VideoRun(ts[..0]) == FRESH;
    } else {
      NearPrefix(ts);
      RunTracks(ts[..n]);
      VideoStepTracks(VideoRun(ts[..n]), Accepted(ts[..n]), ts[n], Epoch(ts[0]));
    }
  }

  /**
   Unwrapping is right for every stream: numWraps * 2^32 + last is, modulo 2^64, the last accepted timestamp
   minus the multiple of 2^32 below the first one, whatever the order of the packets.
   */
  lemma {:induction false} VideoTracks(ts: seq<nat>)
    requires ts != [] && NearStream(ts)
    ensures var r := VideoRun(ts);
            && r.isSet && r.first == Low(ts[0])
            && Extended(r.numWraps, r.last) == (Accepted(ts) - B32 * Epoch(ts[0])) % B64
  {
    RunTracks(ts);
    ExtendedIs(VideoRun(ts), Accepted(ts), Epoch(ts[0]));
  }

  /** A packet changes the state of a video receiver unless it repeats the last one or steps back over a 2^32 boundary. */
  lemma {:induction false} RejectedExactly(ts: seq<nat>, t: nat)
    requires ts != [] && NearStream(ts) && Near(t, Accepted(ts))
    ensures VideoStep(VideoRun(ts), Low(t)) == VideoRun(ts) <==> StepsBack(t, Accepted(ts)) || t == Accepted(ts)
  {
    RunTracks(ts);
    VideoStepTracks(VideoRun(ts), Accepted(ts), t, Epoch(ts[0]));
  }

  lemma ShiftedRemainder(z: int, q: int)
    ensures (B64 * q + z) % B64 == z % B64
  {
    RemainderOf(B64 * q + z, q + z / B64, z % B64);
  }

  lemma RemainderLess(x: int, y: int)
    ensures (x % B64 - y) % B64 == (x - y) % B64
  {
    assert x == B64 * (x / B64) + x % B64;
    assert x - y == B64 * (x / B64) + (x % B64 - y);
    ShiftedRemainder(x % B64 - y, x / B64);
  }

  /** The duration of a stream is the time from its first to its last accepted packet, modulo 2^64; of no packets, 0. */
  lemma {:induction false} DurationIsElapsed(ts: seq<nat>)
    requires NearStream(ts)
    ensures Duration(VideoRun(ts)) == if ts == [] then 0 else (Accepted(ts) - ts[0]) % B64
  {
    if ts != [] {
      VideoTracks(ts);
      Recompose(ts[0]);
      RemainderLess(Accepted(ts) - B32 * Epoch(ts[0]), Low(ts[0]));
    }
  }

  // ---------------------------------------------------------------- forward streams

  /** Timestamps never decrease, and every gap is below 2^31. */
  predicate Forward(ts: seq<nat>) {
    forall k :: 1 <= k < |ts| ==> 0 <= ts[k] - ts[k - 1] < B31
  }

  lemma ForwardPrefix(ts: seq<nat>, n: nat)
    requires Forward(ts) && n <= |ts|
    ensures Forward(ts[..n])
  {
  }

  lemma EpochMonotone(t: nat, u: nat)
    requires t <= u
    ensures Epoch(t) <= Epoch(u)
  {
  }

  /** On a forward stream every packet is accepted. */
  lemma {:induction false} ForwardAccepted(ts: seq<nat>)
    requires Forward(ts) && ts != []
    ensures Accepted(ts) == ts[|ts| - 1]
    decreases |ts|
  {
    var n := |ts| - 1;
    if n == 0 {
    } else {
      ForwardPrefix(ts, n);
      ForwardAccepted(ts[..n]);
      assert ts[..n][n - 1] == ts[n - 1];
      EpochMonotone(ts[n - 1], ts[n]);
    }
  }

  lemma {:induction false} ForwardNear(ts: seq<nat>)
    requires Forward(ts)
    ensures NearStream(ts)
  {
    forall k | 1 <= k < |ts| ensures Near(ts[k], Accepted(ts[..k])) {
      ForwardPrefix(ts, k);
      ForwardAccepted(ts[..k]);
    }
  }

  lemma {:induction false} ForwardMonotone(ts: seq<nat>, k: nat)
    requires Forward(ts) && k < |ts|
    ensures ts[0] <= ts[k]
    decreases k
  {
    if k == 0 {
    } else {
      ForwardMonotone(ts, k - 1);
    }
  }

  /** On a forward stream of less than 2^64 ticks the duration is the time from the first to the last packet. */
  lemma {:induction false} ForwardDuration(ts: seq<nat>)
    requires Forward(ts) && ts != [] && ts[|ts| - 1] - ts[0] < B64
    ensures ts[0] as int + Duration(VideoRun(ts)) as int == ts[|ts| - 1]
  {
    ForwardNear(ts);
    ForwardAccepted(ts);
    DurationIsElapsed(ts);
    ForwardMonotone(ts, |ts| - 1);
    RemainderOf(ts[|ts| - 1] - ts[0], 0, ts[|ts| - 1] - ts[0]);
  }

  // ---------------------------------------------------------------- audio

  function AudioRun(ts: seq<nat>): Audio {
    if ts == [] then Audio(FRESH, 0)
    else AudioStep(AudioRun(ts[..|ts| - 1]), Low(ts[|ts| - 1])).0
  }

  /** Every packet is near the one before it. */
  predicate Adjacent(ts: seq<nat>) { forall k :: 1 <= k < |ts| ==> Near(ts[k], ts[k - 1]) }

  function One(b: bool): nat { if b then 1 else 0 }

  /** How often a stream steps forward over a multiple of 2^32. */
  function Crossings(ts: seq<nat>): nat {
    if |ts| <= 1 then 0
    else Crossings(ts[..|ts| - 1]) + One(Epoch(ts[|ts| - 2]) < Epoch(ts[|ts| - 1]))
  }

  /** A frame that is not later than the one before it, or that steps forward over a multiple of 2^32. */
  predicate Unlucky(prev: nat, t: nat) { t <= prev || Epoch(prev) < Epoch(t) }

  function Unluckies(ts: seq<nat>): nat {
    if |ts| <= 1 then 0
    else Unluckies(ts[..|ts| - 1]) + One(Unlucky(ts[|ts| - 2], ts[|ts| - 1]))
  }

  /** A receiver that has seen timestamp prev, after n crossings and d discarded frames. */
  function Heard(first: U32, prev: nat, n: nat, d: nat): Audio { Audio(Recv(first, Low(prev), true, n % B32), d) }

  lemma AudioStepExactly(first: U32, prev: nat, n: nat, d: nat, t: nat)
    requires Near(t, prev)
    ensures AudioStep(Heard(first, prev, n, d), Low(t))
         == (Heard(first, t, n + One(Epoch(prev) < Epoch(t)), d + One(Unlucky(prev, t))), Unlucky(prev, t))
  {
    WrapIsEpochDifference(t, prev);
    Recompose(t);
    Recompose(prev);
  }

  /**
   The audio receiver on every stream, also one that steps back: it remembers the last packet, counts the forward
   steps over a multiple of 2^32, and discards exactly the frames that are not later than the one before and the
   frames that make such a step.
   */
  lemma {:induction false} AudioExactly(ts: seq<nat>)
    requires ts != [] && Adjacent(ts)
    ensures AudioRun(ts) == Heard(Low(ts[0]), ts[|ts| - 1], Crossings(ts), Unluckies(ts))
    decreases |ts|
  {
    var n := |ts| - 1;
    var init := ts[..n];
    if n == 0 {
      assert init == [];
      assert AudioRun(ts) == AudioStep(Audio(FRESH, 0), Low(ts[0])).0;
    } else {
      assert init[n - 1] == ts[n - 1] && Adjacent(init);
      AudioExactly(init);
      AudioStepExactly(Low(ts[0]), ts[n - 1], Crossings(init), Unluckies(init), ts[n]);
    }
  }

  /** How often a stream repeats a timestamp. */
  function Repeats(ts: seq<nat>): nat {
    if |ts| <= 1 then 0
    else Repeats(ts[..|ts| - 1]) + One(ts[|ts| - 2] == ts[|ts| - 1])
  }

  lemma EpochStep(t: nat, u: nat)
    requires 0 <= u - t < B31
    ensures Epoch(u) == Epoch(t) + One(Epoch(t) < Epoch(u))
    ensures Unlucky(t, u) <==> t == u || Epoch(t) < Epoch(u)
  {
  }

  lemma {:induction false} ForwardCounts(ts: seq<nat>)
    requires Forward(ts) && ts != []
    ensures Epoch(ts[|ts| - 1]) == Epoch(ts[0]) + Crossings(ts)
    ensures Unluckies(ts) == Crossings(ts) + Repeats(ts)
    decreases |ts|
  {
    var n := |ts| - 1;
    if n == 0 {
    } else {
      ForwardPrefix(ts, n);
      ForwardCounts(ts[..n]);
      assert ts[..n][n - 1] == ts[n - 1];
      EpochStep(ts[n - 1], ts[n]);
    }
  }

  lemma {:induction false} ForwardTracks(ts: seq<nat>, t: nat, n: nat)
    requires Forward(ts) && ts != [] && t == ts[|ts| - 1] && Epoch(t) == Epoch(ts[0]) + n
    ensures VideoRun(ts) == Recv(Low(ts[0]), Low(t), true, n % B32)
  {
    ForwardNear(ts);
    ForwardAccepted(ts);
    RunTracks(ts);
  }

  /**
   On every forward stream the audio receiver reaches the state of the video receiver, and it discards
   exactly the repeated frames and the one frame that crosses each 2^32 boundary.
   */
  lemma {:induction false} AudioAgreesWithVideo(ts: seq<nat>)
    requires Forward(ts)
    ensures AudioRun(ts).recv == VideoRun(ts)
    ensures AudioRun(ts).discarded == Crossings(ts) + Repeats(ts)
  {
    if ts != [] {
      AudioExactly(ts);
      ForwardCounts(ts);
      ForwardTracks(ts, ts[|ts| - 1], Crossings(ts));
    }
  }

  predicate NoneRepeated(ts: seq<nat>) { forall k :: 1 <= k < |ts| ==> ts[k - 1] != ts[k] }

  lemma {:induction false} NoRepeats(ts: seq<nat>)
    requires NoneRepeated(ts)
    ensures Repeats(ts) == 0
    decreases |ts|
  {
    if |ts| > 1 {
      NoRepeats(ts[..|ts| - 1]);
    }
  }

  lemma FewEpochs(t: nat, n: nat)
    requires n <= Epoch(t) && t < B64
    ensures n % B32 == n
  {
  }

  /** On a strictly forward stream the number of discarded audio frames is the number of wrap-arounds. */
  lemma {:induction false} StrictlyForwardDiscards(ts: seq<nat>)
    requires Forward(ts) && NoneRepeated(ts)
    ensures AudioRun(ts).discarded % B32 == AudioRun(ts).recv.numWraps
    ensures ts != [] && ts[|ts| - 1] < B64 ==> AudioRun(ts).discarded == AudioRun(ts).recv.numWraps
  {
    if ts != [] {
      var n, t := Crossings(ts), ts[|ts| - 1];
      AudioExactly(ts);
      ForwardCounts(ts);
      NoRepeats(ts);
      assert AudioRun(ts) == Heard(Low(ts[0]), t, n, n);
      if t < B64 {
        FewEpochs(t, n);
      }
    }
  }

  // ---------------------------------------------------------------- clock conversions

  const VIDEO_SRATE: nat := 90000
  const VIDEO_TIMEBASE: nat := 1000000

  /** video_calc_timebase_timestamp, in 64-bit arithmetic */
  function ToTimebase(rtp: U64): U64 {
    (rtp * VIDEO_TIMEBASE % B64) / VIDEO_SRATE
  }

  /** video_calc_rtp_timestamp_fix, in 64-bit arithmetic */
  function FromTimebase(timestamp: U64): U64 {
    (timestamp * VIDEO_SRATE % B64) / VIDEO_TIMEBASE
  }

  const MAX_RTP: nat := 18446744073709

  /** The product overflows exactly above MAX_RTP, which an extended timestamp cannot exceed before its 4294th wrap. */
  lemma NoOverflowExactly(rtp: U64)
    ensures rtp * VIDEO_TIMEBASE < B64 <==> rtp <= MAX_RTP
    ensures forall w: U32, t: U32 :: w <= 4293 ==> Extended(w, t) <= MAX_RTP
  {
  }

  lemma DivMonotone(a: nat, b: nat)
    requires a <= b
    ensures a / VIDEO_SRATE <= b / VIDEO_SRATE
  {
  }

  /** The conversion is monotone up to MAX_RTP and drops behind it. */
  lemma TimebaseMonotone(x: U64, y: U64)
    requires x <= y <= MAX_RTP
    ensures ToTimebase(x) <= ToTimebase(y)
  {
    assert x * VIDEO_TIMEBASE <= y * VIDEO_TIMEBASE;
    DivMonotone(x * VIDEO_TIMEBASE, y * VIDEO_TIMEBASE);
  }

  lemma TimebaseBeyondLimit()
    ensures ToTimebase(MAX_RTP + 1) < ToTimebase(MAX_RTP)
  {
  }

  /** There and back again loses at most one tick, and none exactly for multiples of nine. */
  lemma TimebaseRoundTrip(x: U64)
    requires x <= MAX_RTP
    ensures FromTimebase(ToTimebase(x)) == if x % 9 == 0 then x else x - 1
  {
    var t := ToTimebase(x);
    assert t == x * 100 / 9;
    assert 9 * t == 100 * x - x % 9;
    assert t * VIDEO_SRATE == 10000 * (9 * t);
    assert t * VIDEO_SRATE == 1000000 * x - 10000 * (x % 9);
  }

  lemma FewWraps(t: nat, t0: nat)
    requires t0 <= t && Epoch(t) - Epoch(t0) <= 4293
    ensures (t - B32 * Epoch(t0)) % B64 == t - B32 * Epoch(t0) <= MAX_RTP
  {
    Recompose(t);
    Recompose(t0);
    RemainderOf(t - B32 * Epoch(t0), 0, t - B32 * Epoch(t0));
  }

  lemma {:induction false} DisplayTime(ts: seq<nat>, t: nat)
    requires ts != [] && Forward(ts) && t == ts[|ts| - 1] && Epoch(t) - Epoch(ts[0]) <= 4293
    ensures var r := VideoRun(ts); Extended(r.numWraps, r.last) == t - B32 * Epoch(ts[0]) <= MAX_RTP
  {
    ForwardNear(ts);
    ForwardAccepted(ts);
    VideoTracks(ts);
    ForwardMonotone(ts, |ts| - 1);
    FewWraps(t, ts[0]);
  }

  /** Display times of a forward stream of at most 4293 wraps never decrease. */
  lemma {:induction false} DisplayTimesMonotone(ts: seq<nat>, t: nat)
    requires ts != [] && Forward(ts + [t])
    requires Epoch(t) - Epoch(ts[0]) <= 4293
    ensures var r, r1 := VideoRun(ts), VideoRun(ts + [t]);
            ToTimebase(Extended(r.numWraps, r.last)) <= ToTimebase(Extended(r1.numWraps, r1.last))
  {
    var all := ts + [t];
    assert all[..|ts|] == ts;
    ForwardPrefix(all, |ts|);
    assert 0 <= all[|ts|] - all[|ts| - 1] && all[|ts| - 1] == ts[|ts| - 1];
    EpochMonotone(ts[|ts| - 1], t);
    DisplayTime(ts, ts[|ts| - 1]);
    DisplayTime(all, t);
    var r, r1 := VideoRun(ts), VideoRun(all);
    TimebaseMonotone(Extended(r.numWraps, r.last), Extended(r1.numWraps, r1.last));
  }
}
