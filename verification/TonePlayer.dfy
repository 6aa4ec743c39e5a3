/**
 The in-memory tone player of baresip/src/play.c: check_restart and write_handler.

 The audio device asks for frames; the player copies the tone into them, starts over after a pause, and
 stops after the given number of repetitions (never, if the number is negative).
 */
module TonePlayer {
  import opened Common

  type Byte = bv8

  /** struct play; pos is the read position in the tone, trep the time of the next repetition or 0. */
  datatype Play = Play(tone: seq<Byte>, pos: nat, repeat: int, delay: U64, trep: U64, eof: bool) {
    predicate Valid() { pos <= |tone| }

    function Left(): nat
      requires Valid()
    {
      |tone| - pos
    }
  }

  /** check_restart at clock reading now: true if the tone starts over. */
  function Check(p: Play, now: U64): (r: (Play, bool))
    ensures p.Valid() ==> r.0.Valid()
  {
    if p.trep != 0 then
      if p.trep > now then (p, false) else (p.(trep := 0), true)
    else
      var repeat := if p.repeat > 0 then p.repeat - 1 else p.repeat;
      if repeat == 0 then (p.(repeat := 0, eof := true), false)
      else (p.(repeat := repeat, trep := (now + p.delay) % B64), false)
  }

  function Min(a: nat, b: nat): nat { if a < b then a else b }

  /** Copy as much of the tone as fits in n bytes. */
  function Copy(p: Play, n: nat): (Play, seq<Byte>)
    requires p.Valid()
  {
    var count := Min(p.Left(), n);
    (p.(pos := p.pos + count), p.tone[p.pos..p.pos + count])
  }

  /** A pass over the frame after the tone has started over: the clock is read once more at most. */
  function SecondPass(p: Play, n: nat, later: U64): (r: (Play, seq<Byte>))
    requires p.Valid()
    ensures r.0.Valid() && |r.1| <= n
  {
    var (p1, a) := Copy(p, n);
    if |a| == n then (p1, a) else (Check(p1, later).0, a)
  }

  /** The bytes write_handler copies into n bytes of a frame; it reads the clock at most twice. */
  function FirstPass(p: Play, n: nat, now: U64, later: U64): (r: (Play, seq<Byte>))
    requires p.Valid()
    ensures r.0.Valid() && |r.1| <= n
  {
    var (p1, a) := Copy(p, n);
    if |a| == n then (p1, a)
    else
      var (p2, again) := Check(p1, now);
      if !again then (p2, a)
      else
        var (p3, b) := SecondPass(p2.(pos := 0), n - |a|, later);
        (p3, a + b)
  }

  function Write(p: Play, sz: nat, now: U64, later: U64): (r: (Play, seq<Byte>))
    requires p.Valid()
    ensures r.0.Valid() && |r.1| <= sz
  {
    if p.eof then (p, []) else FirstPass(p, sz, now, later)
  }

  /** The loop from the point where out has been copied and the clock has been read checks times. */
  function Loop(checks: nat, p: Play, out: seq<Byte>, sz: nat, now: U64, later: U64): (Play, seq<Byte>)
    requires p.Valid() && |out| <= sz
    decreases 2 - checks
  {
    if |out| == sz then (p, out)
    else
      var (p1, a) := Copy(p, sz - |out|);
      if |out + a| == sz then (p1, out + a)
      else
        var (p2, again) := Check(p1, if checks == 0 then now else later);
        if again && checks < 2 then Loop(checks + 1, p2.(pos := 0), out + a, sz, now, later)
        else (p2, out + a)
  }

  lemma LoopIsSecondPass(p: Play, out: seq<Byte>, sz: nat, now: U64, later: U64)
    requires p.Valid() && |out| < sz && p.trep == 0
    ensures Loop(1, p, out, sz, now, later)
            == var (p1, b) := SecondPass(p, sz - |out|, later); (p1, out + b)
  {
  }

  lemma LoopIsFirstPass(p: Play, sz: nat, now: U64, later: U64)
    requires p.Valid()
    ensures Loop(0, p, [], sz, now, later) == FirstPass(p, sz, now, later)
  {
    var (p1, a) := Copy(p, sz);
    assert [] + a == a;
    if 0 < sz && |a| < sz {
      var (p2, again) := Check(p1, now);
      if again {
        LoopIsSecondPass(p2.(pos := 0), a, sz, now, later);
      }
    }
  }

  function Silence(n: nat): seq<Byte> { seq(n, _ => 0) }

  function Start(tone: seq<Byte>, times: int, delay: U64): Play {
    Play(tone, 0, if times != 0 then times else 1, delay, 0, false)
  }

  class Player {
    const tone: seq<Byte>
    const delay: U64
    var pos: nat
    var repeat: int
    var trep: U64
    var eof: bool

    function Abs(): Play
      reads this
    {
      Play(tone, pos, repeat, delay, trep, eof)
    }

    /** play_tone: no count means once. */
    constructor (sound: seq<Byte>, times: int, pause: U64)
      ensures Abs() == Start(sound, times, pause)
    {
      tone, delay := sound, pause;
      pos, repeat, trep, eof := 0, if times != 0 then times else 1, 0, false;
    }

    method CheckRestart(now: U64) returns (restart: bool)
      modifies `repeat, `trep, `eof
      ensures (Abs(), restart) == Check(old(Abs()), now)
    {
      if trep != 0 {
        if trep > now {
          return false;
        }
        trep := 0;
        return true;
      }
      if repeat > 0 {
        repeat := repeat - 1;
      }
      if repeat == 0 {
        eof := true;
      } else {
        trep := (now + delay) % B64;
      }
      return false;
    }

    /**
     write_handler on a frame that held sampv before.  The two clock readings are for the first and the
     second call of check_restart; there is never a third.
     */
    method WriteHandler(sampv: seq<Byte>, now: U64, later: U64) returns (frame: seq<Byte>, ghost checks: nat)
      requires Abs().Valid()
      modifies this
      ensures Abs() == Write(old(Abs()), |sampv|, now, later).0
      ensures checks <= 2
      ensures var out := Write(old(Abs()), |sampv|, now, later).1;
              && |frame| == |sampv| && frame[..|out|] == out
              && forall i :: |out| <= i < |frame| ==> frame[i] == if eof then 0 else sampv[i]
    {
      var sz := |sampv|;
      var out: seq<Byte> := [];
      checks := 0;
      if !eof {
        out, checks := CopyLoop(sz, now, later);
      }
      frame := out + if eof then Silence(sz - |out|) else sampv[|out|..];
    }

    /** The copy loop: it ends when the frame is full or the tone does not start over. */
    method CopyLoop(sz: nat, now: U64, later: U64) returns (out: seq<Byte>, ghost checks: nat)
      requires Abs().Valid()
      modifies this
      ensures (Abs(), out) == FirstPass(old(Abs()), sz, now, later)
      ensures checks <= 2
    {
      out, checks := [], 0;
      var clock := now;
      LoopIsFirstPass(Abs(), sz, now, later);
      while |out| < sz
        invariant checks <= 1 && Abs().Valid() && |out| <= sz
        invariant clock == (if checks == 0 then now else later) && (checks == 1 ==> trep == 0)
        invariant Loop(checks, Abs(), out, sz, now, later) == FirstPass(old(Abs()), sz, now, later)
        decreases 2 - checks, sz - |out|
      {
        var part := CopyPart(sz - |out|);
        out := out + part;
        if |out| < sz {
          var again := CheckRestart(clock);
          checks := checks + 1;
          clock := later;
          if !again {
            break;
          }
          pos := 0;
        }
      }
    }

    method CopyPart(n: nat) returns (part: seq<Byte>)
      requires Abs().Valid()
      modifies `pos
      ensures (Abs(), part) == Copy(old(Abs()), n)
    {
      var left := |tone| - pos;
      var count := if left > n then n else left;
      part := tone[pos..pos + count];
      pos := pos + count;
    }
  }

  // ---------------------------------------------------------------- runs

  function Times(tone: seq<Byte>, n: nat): seq<Byte> {
    if n == 0 then [] else Times(tone, n - 1) + tone
  }

  /** A request of the audio device: a frame size and the clock readings during it. */
  datatype Request = Request(sz: nat, now: U64, later: U64)

  /**
   The player with its history: everything copied so far, how often the tone has started over, and how often
   the time of the next repetition came out as 0, which the player takes for no pause at all.
   */
  datatype History = History(p: Play, out: seq<Byte>, rounds: nat, skipped: nat)

  function CopyTo(h: History, n: nat): (History, nat)
    requires h.p.Valid()
  {
    var (p, a) := Copy(h.p, n);
    (h.(p := p, out := h.out + a), |a|)
  }

  function CheckOn(h: History, now: U64): (History, bool) {
    var (p, again) := Check(h.p, now);
    if again then (h.(p := p.(pos := 0), rounds := h.rounds + 1), true)
    else (h.(p := p, skipped := if !p.eof && p.trep == 0 then h.skipped + 1 else h.skipped), false)
  }

  /** A request of the audio device. */
  function Serve(h: History, r: Request): (t: History)
    requires h.p.Valid()
    ensures t.p.Valid()
  {
    if h.p.eof then h
    else
      var (h1, n) := CopyTo(h, r.sz);
      if n == r.sz then h1
      else
        var (h2, again) := CheckOn(h1, r.now);
        if !again then h2
        else
          var (h3, m) := CopyTo(h2, r.sz - n);
          if m == r.sz - n then h3 else CheckOn(h3, r.later).0
  }

  /** A request does to the player, and copies, what write_handler does. */
  lemma ServeIsWrite(h: History, r: Request)
    requires h.p.Valid()
    ensures var (p, a) := Write(h.p, r.sz, r.now, r.later);
            Serve(h, r).p == p && Serve(h, r).out == h.out + a
  {
    if h.p.eof {
      assert h.out + [] == h.out;
    } else {
      var (p, a) := Copy(h.p, r.sz);
      if |a| < r.sz && Check(p, r.now).1 {
        var (h2, _) := CheckOn(h.(p := p, out := h.out + a), r.now);
        var b := Copy(h2.p, r.sz - |a|).1;
        assert h.out + (a + b) == h.out + a + b;
        assert SecondPass(h2.p, r.sz - |a|, r.later).1 == b;
      }
    }
  }

  function Run(h: History, rs: seq<Request>): History
    requires h.p.Valid()
    decreases |rs|
  {
    if rs == [] then h else Run(Serve(h, rs[0]), rs[1..])
  }

  /** Started with times repetitions: what has been copied, and how the counter relates to it. */
  predicate Inv(h: History, tone: seq<Byte>, times: int) {
    && h.p.Valid() && h.p.tone == tone
    && h.out == Times(tone, h.rounds) + tone[..h.p.pos]
    && (h.p.eof || h.p.trep != 0 ==> h.p.pos == |tone|)
    && (times < 0 ==> h.p.repeat == times && !h.p.eof)
    && (times > 0 ==> h.p.repeat == times - h.rounds - h.skipped - (if h.p.eof || h.p.trep != 0 then 1 else 0))
    && (times > 0 ==> if h.p.eof then h.p.repeat == 0 else h.p.repeat >= 1)
  }

  lemma CopyInv(h: History, tone: seq<Byte>, times: int, n: nat)
    requires Inv(h, tone, times)
    ensures var (t, m) := CopyTo(h, n);
            Inv(t, tone, times) && m <= n && (m < n ==> t.p.pos == |tone|) && t.p.eof == h.p.eof
  {
    var (p, a) := Copy(h.p, n);
    assert tone[..p.pos] == tone[..h.p.pos] + a;
    assert Times(tone, h.rounds) + (tone[..h.p.pos] + a) == Times(tone, h.rounds) + tone[..h.p.pos] + a;
  }

  /** At the end of the tone it goes on waiting, starts over, or stops. */
  lemma CheckInv(h: History, tone: seq<Byte>, times: int, now: U64)
    requires Inv(h, tone, times) && !h.p.eof && h.p.pos == |tone| && times != 0
    ensures var (t, again) := CheckOn(h, now); Inv(t, tone, times) && (again ==> !t.p.eof)
  {
    assert tone[..|tone|] == tone;
    assert Times(tone, h.rounds + 1) == Times(tone, h.rounds) + tone;
    assert Times(tone, h.rounds + 1) + tone[..0] == Times(tone, h.rounds + 1);
  }

  lemma ServeInv(h: History, r: Request, tone: seq<Byte>, times: int)
    requires Inv(h, tone, times) && times != 0
    ensures Inv(Serve(h, r), tone, times)
  {
    if !h.p.eof {
      CopyInv(h, tone, times, r.sz);
      var (h1, n) := CopyTo(h, r.sz);
      if n < r.sz {
        CheckInv(h1, tone, times, r.now);
        var (h2, again) := CheckOn(h1, r.now);
        if again {
          CopyInv(h2, tone, times, r.sz - n);
          var (h3, m) := CopyTo(h2, r.sz - n);
          if m < r.sz - n {
            CheckInv(h3, tone, times, r.later);
          }
        }
      }
    }
  }

  lemma {:induction false} RunInv(h: History, rs: seq<Request>, tone: seq<Byte>, times: int)
    requires Inv(h, tone, times) && times != 0
    ensures Inv(Run(h, rs), tone, times)
    decreases |rs|
  {
    if rs == [] {
    } else {
      ServeInv(h, rs[0], tone, times);
      RunInv(Serve(h, rs[0]), rs[1..], tone, times);
    }
  }

  /** How often the tone is to be played: no count means once. */
  function Count(times: int): int { if times == 0 then 1 else times }

  /** A fresh player. */
  function Begin(tone: seq<Byte>, times: int, delay: U64): (h: History)
    ensures Inv(h, tone, Count(times))
  {
    assert tone[..0] == [];
    History(Start(tone, times, delay), [], 0, 0)
  }

  lemma {:induction false} TimesLength(tone: seq<Byte>, n: nat)
    ensures |Times(tone, n)| == n * |tone|
    decreases n
  {
    if n == 0 {
    } else {
      TimesLength(tone, n - 1);
      assert n * |tone| == (n - 1) * |tone| + |tone|;
    }
  }

  lemma {:induction false} TimesPrefix(tone: seq<Byte>, m: nat, n: nat)
    requires m <= n
    ensures Times(tone, m) <= Times(tone, n)
    decreases n
  {
    if m < n {
      TimesPrefix(tone, m, n - 1);
    }
  }

  lemma Fewer(a: nat, b: nat, n: nat)
    requires a < b && n > 0
    ensures a * n < b * n && (a - 1) * n + n == a * n
  {
  }

  lemma {:induction false} OutIsPrefix(tone: seq<Byte>, times: nat, rounds: nat, pos: nat)
    requires rounds < times && pos <= |tone| && tone != []
    ensures var out := Times(tone, rounds) + tone[..pos];
            out <= Times(tone, times) && (out == Times(tone, times) <==> rounds == times - 1 && pos == |tone|)
  {
    var out := Times(tone, rounds) + tone[..pos];
    assert out <= Times(tone, rounds) + tone == Times(tone, rounds + 1);
    TimesPrefix(tone, rounds + 1, times);
    TimesLength(tone, rounds);
    TimesLength(tone, times);
    if rounds < times - 1 {
      Fewer(rounds + 1, times, |tone|);
    } else {
      assert tone[..|tone|] == tone;
    }
  }

  /**
   A count that is not negative: whatever frames are asked for and whatever the clock reads, the bytes copied are a prefix
   of the tone repeated that often.  They are all of it exactly when no repetition was skipped and either the
   end was noticed, or the tone ended with a frame and the player will notice at the next request.
   */
  lemma {:induction false} PlaysExactly(tone: seq<Byte>, times: nat, delay: U64, rs: seq<Request>)
    requires tone != []
    ensures var h := Run(Begin(tone, times, delay), rs);
            && h.out <= Times(tone, Count(times))
            && (h.out == Times(tone, Count(times))
                <==> h.skipped == 0 && (h.p.eof || (h.p.repeat == 1 && h.p.trep == 0 && h.p.pos == |tone|)))
  {
    RunInv(Begin(tone, times, delay), rs, tone, Count(times));
    var h := Run(Begin(tone, times, delay), rs);
    OutIsPrefix(tone, Count(times), h.rounds, h.p.pos);
  }

  /** At the end of the playback every repetition but the skipped ones has been played. */
  lemma {:induction false} PlayedAtEnd(tone: seq<Byte>, times: nat, delay: U64, rs: seq<Request>)
    requires Run(Begin(tone, times, delay), rs).p.eof
    ensures var h := Run(Begin(tone, times, delay), rs);
            h.skipped < Count(times) && h.out == Times(tone, Count(times) - h.skipped)
  {
    RunInv(Begin(tone, times, delay), rs, tone, Count(times));
    var h := Run(Begin(tone, times, delay), rs);
    assert tone[..|tone|] == tone;
    assert Times(tone, h.rounds + 1) == Times(tone, h.rounds) + tone;
  }

  /** Clock readings after which a pause can be told from no pause. */
  predicate ClockOk(delay: U64, r: Request) { (r.now + delay) % B64 != 0 && (r.later + delay) % B64 != 0 }

  /** Unless a clock reading plus the delay is 0 modulo 2^64, no repetition is skipped. */
  lemma {:induction false} NothingSkipped(h: History, rs: seq<Request>)
    requires h.p.Valid() && forall i :: 0 <= i < |rs| ==> ClockOk(h.p.delay, rs[i])
    ensures Run(h, rs).skipped == h.skipped
    decreases |rs|
  {
    if rs == [] {
    } else {
      assert Serve(h, rs[0]).skipped == h.skipped && Serve(h, rs[0]).p.delay == h.p.delay;
      NothingSkipped(Serve(h, rs[0]), rs[1..]);
    }
  }

  /**
   Such a count and such a clock: the bytes copied are a prefix of the tone repeated that often, and all of
   it exactly when the end was noticed, or the last repetition ended with a frame.
   */
  lemma {:induction false} PlaysAll(tone: seq<Byte>, times: nat, delay: U64, rs: seq<Request>)
    requires tone != [] && forall i :: 0 <= i < |rs| ==> ClockOk(delay, rs[i])
    ensures var h := Run(Begin(tone, times, delay), rs);
            && h.out <= Times(tone, Count(times))
            && (h.out == Times(tone, Count(times)) <==> h.p.eof || (h.p.repeat == 1 && h.p.trep == 0 && h.p.pos == |tone|))
  {
    NothingSkipped(Begin(tone, times, delay), rs);
    PlaysExactly(tone, times, delay, rs);
  }

  /** A tone that ends with the frame: all of it has been copied, and the player has not noticed the end. */
  lemma EndUnnoticedExample()
    ensures var h := Run(Begin([7], 1, 0), [Request(1, 5, 5)]); h.out == Times([7], 1) && !h.p.eof
  {
    var r, h := Request(1, 5, 5), Begin([7], 1, 0);
    assert Copy(h.p, 1).1 == [7];
    assert [r][1..] == [];
    assert Run(h, [r]) == Run(Serve(h, r), []);
    assert Times([7], 1) == Times([7], 0) + [7];
  }

  /** A negative count: the tone is repeated for ever. */
  lemma {:induction false} PlaysForEver(tone: seq<Byte>, times: int, delay: U64, rs: seq<Request>)
    requires times < 0
    ensures var h := Run(Begin(tone, times, delay), rs);
            !h.p.eof && h.p.pos <= |tone| && h.out == Times(tone, h.rounds) + tone[..h.p.pos]
  {
    RunInv(Begin(tone, times, delay), rs, tone, times);
  }

  /** A clock that reads 0 with no pause set: the player skips a repetition. */
  lemma ZeroClockExample()
    ensures var h := Run(Begin([7], 2, 0), [Request(2, 0, 0), Request(2, 0, 0)]);
            h.p.eof && h.skipped == 1 && h.out == [7]
  {
    var r := Request(2, 0, 0);
    var h0 := Begin([7], 2, 0);
    var h1 := Serve(h0, r);
    assert Copy(h0.p, 2).1 == [7];
    assert h1 == History(Play([7], 1, 1, 0, 0, false), [7], 0, 1);
    assert Copy(h1.p, 2).1 == [];
    assert Serve(h1, r) == History(Play([7], 1, 0, 0, 0, true), [7], 0, 1);
    assert [r, r][1..] == [r] && [r][1..] == [];
    assert Run(h1, [r]) == Run(Serve(h1, r), []);
  }
}
