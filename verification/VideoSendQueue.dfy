/**
 The paced send queue of baresip/src/video.c.

 The thread of the video source encodes a frame and appends its packets; a timer takes packets off the
 head, as many as an allowance for the time since the last poll permits.  Every access to the queue holds
 lock_tx, so a run is a sequence of locked sections in any order.
 */
module VideoSendQueue {
  import opened Common

  const BURST_MAX: nat := 8192

  /** struct vidqent: bytes are the payload header and the payload. */
  datatype Entry<B> = Entry(marker: bool, pt: nat, ts: U32, bytes: seq<B>)

  function Size<B>(q: seq<Entry<B>>): nat {
    if q == [] then 0 else |q[0].bytes| + Size(q[1..])
  }

  lemma {:induction false} SizeAppend<B>(a: seq<Entry<B>>, b: seq<Entry<B>>)
    ensures Size(a + b) == Size(a) + Size(b)
  {
    if a == [] {
      assert a + b == b;
    } else {
      assert (a + b)[1..] == a[1..] + b;
      SizeAppend(a[1..], b);
    }
  }

  // ---------------------------------------------------------------- one poll

  /** The byte allowance of a poll, in the 64-bit arithmetic of the source. */
  function Burst(kbps: nat, jfs: U64, prev: U64): (b: nat)
    ensures b <= BURST_MAX
  {
    var burst := ((1 + jfs - prev) % B64 * kbps % B64) / 4;
    if burst < BURST_MAX then burst else BURST_MAX
  }

  /** How many packets leave a queue when sent bytes of the allowance are used up. */
  function PollCount<B>(q: seq<Entry<B>>, sent: nat, burst: nat): (k: nat)
    ensures k <= |q| && (q != [] ==> k >= 1)
  {
    if q == [] then 0
    else if sent + |q[0].bytes| > burst then 1
    else 1 + PollCount(q[1..], sent + |q[0].bytes|, burst)
  }

  /** A poll takes the shortest prefix that exceeds the allowance, or everything. */
  lemma {:induction false} PollCountExact<B>(q: seq<Entry<B>>, sent: nat, burst: nat)
    requires sent <= burst
    ensures var k := PollCount(q, sent, burst);
            && (k > 0 ==> sent + Size(q[..k - 1]) <= burst)
            && (k < |q| ==> sent + Size(q[..k]) > burst)
    decreases |q|
  {
    if q == [] {
    } else {
      var k := PollCount(q, sent, burst);
      var rest := q[1..];
      assert q[..k][1..] == rest[..k - 1];
      if sent + |q[0].bytes| <= burst {
        PollCountExact(rest, sent + |q[0].bytes|, burst);
        if k > 1 {
          assert q[..k - 1][1..] == rest[..k - 2];
        }
      }
    }
  }

  lemma SizeOne<B>(e: Entry<B>)
    ensures Size([e]) == |e.bytes|
  {
    assert [e][1..] == [];
    assert Size<B>([]) == 0;
  }

  /** The bytes of one poll exceed its allowance by at most one packet. */
  lemma PollBytes<B>(q: seq<Entry<B>>, burst: nat, maxPacket: nat)
    requires forall i :: 0 <= i < |q| ==> |q[i].bytes| <= maxPacket
    ensures Size(q[..PollCount(q, 0, burst)]) <= burst + maxPacket
  {
    var k := PollCount(q, 0, burst);
    PollCountExact(q, 0, burst);
    if k > 0 {
      assert q[..k] == q[..k - 1] + [q[k - 1]];
      SizeAppend(q[..k - 1], [q[k - 1]]);
      SizeOne(q[k - 1]);
    }
  }

  // ---------------------------------------------------------------- the transmitter object

  /** The entry made of an encoder packet; the RTP timestamp is the low half of ts plus the offset. */
  function Queued<B>(pt: nat, offset: U32, marker: bool, ts: U64, bytes: seq<B>): Entry<B> {
    Entry(marker, pt, (offset + ts % 0x1_0000_0000) % 0x1_0000_0000, bytes)
  }

  /** The timestamps of the first and the last packet; 0 stands for no packet yet. */
  datatype Marks = Marks(base: U64, last: U64)

  function Mark(m: Marks, ts: U64): Marks { Marks(if m.base == 0 then ts else m.base, ts) }

  class Vtx<B> {
    const kbps: nat
    const ptEnc: nat
    const tsOffset: U32
    var sendq: seq<Entry<B>>
    var skipc: nat
    var jfs: U64
    var tsBase: U64
    var tsLast: U64

    constructor (bitrate: U32, pt: nat, offset: U32, now: U64)
      ensures kbps == bitrate / 1000 && ptEnc == pt && tsOffset == offset
      ensures sendq == [] && skipc == 0 && jfs == now && tsBase == tsLast == 0
    {
      kbps, ptEnc, tsOffset := bitrate / 1000, pt, offset;
      sendq, skipc, jfs, tsBase, tsLast := [], 0, now, 0, 0;
    }

    /** vidqueue_poll; sent is what goes to stream_send. */
    method Poll(now: U64, prev: U64) returns (sent: seq<Entry<B>>)
      modifies `sendq
      ensures var k := PollCount(old(sendq), 0, Burst(kbps, now, prev));
              sent == old(sendq)[..k] && sendq == old(sendq)[k..]
    {
      sent := [];
      if sendq == [] {
        return;
      }
      var burst := Burst(kbps, now, prev);
      var bytes: nat := 0;
      ghost var k := PollCount(sendq, 0, burst);
      while sendq != []
        invariant |sent| <= k && sent == old(sendq)[..|sent|] && sendq == old(sendq)[|sent|..]
        invariant |sent| + PollCount(sendq, bytes, burst) == k
        decreases |sendq|
      {
        var qent := sendq[0];
        bytes := bytes + |qent.bytes|;
        sent := sent + [qent];
        sendq := sendq[1..];
        if bytes > burst {
          break;
        }
      }
    }

    /** rtp_tmr_handler: restart the timer and poll with the old and the new expiry time. */
    method TimerHandler(next: U64) returns (sent: seq<Entry<B>>)
      modifies `sendq, `jfs
      ensures jfs == next
      ensures var k := PollCount(old(sendq), 0, Burst(kbps, next, old(jfs)));
              sent == old(sendq)[..k] && sendq == old(sendq)[k..]
    {
      var prev := jfs;
      jfs := next;
      sent := Poll(jfs, prev);
    }

    /** packet_handler: the encoder's callback; allocation of the entry may fail. */
    method PacketHandler(marker: bool, ts: U64, hdr: seq<B>, payload: seq<B>, memory: bool) returns (ok: bool)
      modifies `sendq, `tsBase, `tsLast
      ensures ok == memory
      ensures Marks(tsBase, tsLast) == Mark(Marks(old(tsBase), old(tsLast)), ts)
      ensures sendq == old(sendq) + if ok then [Queued(ptEnc, tsOffset, marker, ts, hdr + payload)] else []
    {
      if tsBase == 0 {
        tsBase := ts;
      }
      tsLast := ts;
      var rtpTs: U32 := (tsOffset + ts % 0x1_0000_0000) % 0x1_0000_0000;
      if !memory {
        return false;
      }
      sendq := sendq + [Entry(marker, ptEnc, rtpTs, hdr + payload)];
      return true;
    }

    /** The gate of encode_rtp_send: a frame is skipped while packets are queued. */
    method BeginFrame() returns (encode: bool)
      modifies `skipc
      ensures encode == (sendq == []) && skipc == old(skipc) + (if encode then 0 else 1)
    {
      var sendqEmpty := sendq == [];
      if !sendqEmpty {
        skipc := skipc + 1;
        return false;
      }
      return true;
    }
  }

  // ---------------------------------------------------------------- runs

  /** The queue with its history: packets sent so far, packets appended by each encode call, skipped frames. */
  datatype Sys<B> = Sys(kbps: nat, sendq: seq<Entry<B>>, jfs: U64, encoding: bool, skipc: nat,
                        sent: seq<Entry<B>>, calls: seq<seq<Entry<B>>>)

  datatype Event<B> = Frame | Append(entry: Entry<B>) | EndFrame | Timer(next: U64)

  /** One source thread: packets come only while it encodes.  The clock does not run backwards. */
  predicate Enabled<B>(s: Sys<B>, e: Event<B>) {
    match e
    case Frame => !s.encoding
    case Append(_) => s.encoding
    case EndFrame => s.encoding
    case Timer(next) => s.jfs <= next
  }

  /** A poll that takes k packets. */
  function Polled<B>(s: Sys<B>, k: nat, next: U64): Sys<B>
    requires k <= |s.sendq|
  {
    s.(sendq := s.sendq[k..], sent := s.sent + s.sendq[..k], jfs := next)
  }

  function AppendToLast<B>(calls: seq<seq<Entry<B>>>, entry: Entry<B>): seq<seq<Entry<B>>> {
    if calls == [] then [[entry]] else calls[..|calls| - 1] + [calls[|calls| - 1] + [entry]]
  }

  function Step<B>(s: Sys<B>, e: Event<B>): Sys<B>
    requires Enabled(s, e)
  {
    match e
    case Frame =>
      if s.sendq != [] then s.(skipc := s.skipc + 1)
      else s.(encoding := true, calls := s.calls + [[]])
    case Append(entry) =>
      s.(sendq := s.sendq + [entry], calls := AppendToLast(s.calls, entry))
    case EndFrame => s.(encoding := false)
    case Timer(next) => Polled(s, PollCount(s.sendq, 0, Burst(s.kbps, next, s.jfs)), next)
  }

  function Init<B>(kbps: nat, now: U64): Sys<B> {
    Sys(kbps, [], now, false, 0, [], [])
  }

  predicate Run<B(==)>(s: Sys<B>, es: seq<Event<B>>, t: Sys<B>)
    decreases |es|
  {
    if es == [] then s == t else Enabled(s, es[0]) && Run(Step(s, es[0]), es[1..], t)
  }

  function Flatten<B>(calls: seq<seq<Entry<B>>>): seq<Entry<B>> {
    if calls == [] then [] else Flatten(calls[..|calls| - 1]) + calls[|calls| - 1]
  }

  /** The packets appended by the current or, between frames, the latest encode call. */
  function Latest<B>(calls: seq<seq<Entry<B>>>): seq<Entry<B>> {
    if calls == [] then [] else calls[|calls| - 1]
  }

  predicate IsSuffix<B(==)>(a: seq<Entry<B>>, b: seq<Entry<B>>) {
    |a| <= |b| && b[|b| - |a|..] == a
  }

  /** First in, first out, and only one frame: what was sent, then the queue, is what was appended, and the
      queue is the end of what the latest encode call appended. */
  predicate Inv<B(==)>(s: Sys<B>) {
    && s.sent + s.sendq == Flatten(s.calls)
    && IsSuffix(s.sendq, Latest(s.calls))
    && (s.encoding ==> s.calls != [])
  }

  lemma FlattenAppend<B>(calls: seq<seq<Entry<B>>>, entry: Entry<B>)
    ensures Flatten(AppendToLast(calls, entry)) == Flatten(calls) + [entry]
    ensures Latest(AppendToLast(calls, entry)) == Latest(calls) + [entry]
  {
    var n := AppendToLast(calls, entry);
    if calls == [] {
      assert n[..0] == [];
      assert Flatten(n) == Flatten(n[..0]) + [entry];
    } else {
      assert n[..|n| - 1] == calls[..|calls| - 1];
    }
  }

  lemma PolledInv<B>(s: Sys<B>, k: nat, next: U64)
    requires Inv(s) && k <= |s.sendq|
    ensures Inv(Polled(s, k, next))
  {
    assert s.sent + s.sendq[..k] + s.sendq[k..] == s.sent + s.sendq;
  }

  lemma SuffixAppend<B>(a: seq<Entry<B>>, b: seq<Entry<B>>, entry: Entry<B>)
    requires IsSuffix(a, b)
    ensures IsSuffix(a + [entry], b + [entry])
  {
  }

  lemma AppendInv<B>(s: Sys<B>, entry: Entry<B>)
    requires Inv(s)
    ensures Inv(s.(sendq := s.sendq + [entry], calls := AppendToLast(s.calls, entry)))
  {
    FlattenAppend(s.calls, entry);
    assert s.sent + (s.sendq + [entry]) == (s.sent + s.sendq) + [entry];
    SuffixAppend(s.sendq, Latest(s.calls), entry);
  }

  lemma FrameInv<B>(s: Sys<B>)
    requires Inv(s) && s.sendq == []
    ensures Inv(s.(encoding := true, calls := s.calls + [[]]))
  {
    assert (s.calls + [[]])[..|s.calls|] == s.calls;
    assert Flatten(s.calls + [[]]) == Flatten(s.calls) + [];
  }

  lemma {:induction false} StepInv<B>(s: Sys<B>, e: Event<B>)
    requires Inv(s) && Enabled(s, e)
    ensures Inv(Step(s, e))
  {
    match e {
      case Frame =>
        if s.sendq == [] {
          FrameInv(s);
        }
      case Append(entry) => AppendInv(s, entry);
      case EndFrame =>
      case Timer(next) => PolledInv(s, PollCount(s.sendq, 0, Burst(s.kbps, next, s.jfs)), next);
    }
  }

  /** Over every interleaving of frames, packets and timer: FIFO, and never packets of two frames in the queue. */
  lemma {:induction false} RunInv<B>(s: Sys<B>, es: seq<Event<B>>, t: Sys<B>)
    requires Inv(s) && Run(s, es, t)
    ensures Inv(t)
    decreases |es|
  {
    if es == [] {
    } else {
      StepInv(s, es[0]);
      RunInv(Step(s, es[0]), es[1..], t);
    }
  }

  function AppendedBy<B>(e: Event<B>): seq<Entry<B>> { if e.Append? then [e.entry] else [] }

  /** The entries appended by the events. */
  function Appended<B>(es: seq<Event<B>>): seq<Entry<B>> {
    if es == [] then [] else AppendedBy(es[0]) + Appended(es[1..])
  }

  lemma CallsOfStep<B>(s: Sys<B>, e: Event<B>)
    requires Enabled(s, e)
    ensures Flatten(Step(s, e).calls) == Flatten(s.calls) + AppendedBy(e)
  {
    match e {
      case Frame => assert (s.calls + [[]])[..|s.calls|] == s.calls;
      case Append(entry) => FlattenAppend(s.calls, entry);
      case _ =>
    }
  }

  lemma EntriesAssoc<B>(a: seq<Entry<B>>, b: seq<Entry<B>>, c: seq<Entry<B>>)
    ensures a + b + c == a + (b + c)
  {
  }

  /** Every entry belongs to an encode call. */
  lemma {:induction false} CallsOfRun<B>(s: Sys<B>, es: seq<Event<B>>, t: Sys<B>)
    requires Run(s, es, t)
    ensures Flatten(t.calls) == Flatten(s.calls) + Appended(es)
    decreases |es|
  {
    if es == [] {
      assert Flatten(s.calls) + [] == Flatten(s.calls);
    } else {
      CallsOfStep(s, es[0]);
      CallsOfRun(Step(s, es[0]), es[1..], t);
      EntriesAssoc(Flatten(s.calls), AppendedBy(es[0]), Appended(es[1..]));
    }
  }

  /**
   From the start of a transmitter, in every interleaving: what was sent, followed by the queue, is what was appended
   in order, and the queue is the end of what the latest encode call appended.
   */
  lemma {:induction false} FirstInFirstOut<B>(kbps: nat, now: U64, es: seq<Event<B>>, t: Sys<B>)
    requires Run(Init(kbps, now), es, t)
    ensures t.sent + t.sendq == Appended(es) == Flatten(t.calls)
    ensures |t.sendq| <= |Latest(t.calls)| && t.sendq == Latest(t.calls)[|Latest(t.calls)| - |t.sendq|..]
  {
    RunInv(Init(kbps, now), es, t);
    CallsOfRun(Init(kbps, now), es, t);
  }

  /** A frame that finds its predecessor unsent is skipped; otherwise everything before it has been sent. */
  lemma FrameStartsOnDrainedQueue<B>(s: Sys<B>)
    requires Inv(s) && !s.encoding
    ensures var t := Step(s, Frame);
            if t.encoding then t.sent == Flatten(s.calls) else t == s.(skipc := s.skipc + 1)
  {
    assert s.sent + [] == s.sent;
  }

  // ---------------------------------------------------------------- rate

  predicate AtMost<B>(es: seq<Event<B>>, maxPacket: nat) {
    forall i :: 0 <= i < |es| && es[i].Append? ==> |es[i].entry.bytes| <= maxPacket
  }

  predicate QueueAtMost<B>(s: Sys<B>, maxPacket: nat) {
    forall i :: 0 <= i < |s.sendq| ==> |s.sendq[i].bytes| <= maxPacket
  }

  lemma ModAtMost(x: nat, m: nat)
    requires m > 0
    ensures 0 <= x % m <= x
  {
  }

  lemma QuarterAtMost(x: nat)
    ensures 4 * (x / 4) <= x
  {
  }

  lemma MulMonotone(a: nat, b: nat, c: nat)
    requires a <= b
    ensures a * c <= b * c
  {
  }

  /** The allowance never exceeds a quarter of kbps bytes per millisecond, also when the product wraps. */
  lemma BurstBound(kbps: nat, jfs: U64, prev: U64)
    requires prev <= jfs
    ensures 4 * Burst(kbps, jfs, prev) <= (1 + jfs - prev) * kbps
  {
    var d := 1 + jfs - prev;
    ModAtMost(d, B64);
    MulMonotone(d % B64, d, kbps);
    ModAtMost(d % B64 * kbps, B64);
    QuarterAtMost(d % B64 * kbps % B64);
  }

  predicate Rate(bytes: int, polls: int, ms: int, kbps: nat, maxPacket: nat) {
    4 * bytes <= (polls + ms) * kbps + 4 * (polls * maxPacket)
  }

  /**
   The bytes sent in any run are bounded by the time the timer covered: four times their number is at most
   (polls + elapsed milliseconds) * kbps, plus four times a largest packet per poll.
   */
  ghost predicate WithinRate<B>(s: Sys<B>, t: Sys<B>, polls: nat, maxPacket: nat) {
    Rate(Size(t.sent) - Size(s.sent), polls, t.jfs - s.jfs, s.kbps, maxPacket)
  }

  function PollsOf<B>(e: Event<B>): nat { if e.Timer? then 1 else 0 }

  /** How often the timer expires. */
  function Polls<B>(es: seq<Event<B>>): nat { if es == [] then 0 else PollsOf(es[0]) + Polls(es[1..]) }

  lemma RateAdds(b: int, p: int, j: int, b1: int, p1: int, j1: int, kbps: nat, m: nat)
    requires Rate(b, p, j, kbps, m) && Rate(b1, p1, j1, kbps, m)
    ensures Rate(b + b1, p + p1, j + j1, kbps, m)
  {
    assert (p + j) * kbps + (p1 + j1) * kbps == (p + p1 + j + j1) * kbps;
    assert p * m + p1 * m == (p + p1) * m;
  }

  lemma OnePollRate(bytes: int, burst: nat, ms: nat, kbps: nat, m: nat)
    requires bytes <= burst + m && 4 * burst <= (1 + ms) * kbps
    ensures Rate(bytes, 1, ms, kbps, m)
  {
  }

  lemma {:induction false} WithinRateTransitive<B>(s: Sys<B>, u: Sys<B>, t: Sys<B>, p: nat, q: nat, maxPacket: nat)
    requires WithinRate(s, u, p, maxPacket) && WithinRate(u, t, q, maxPacket) && u.kbps == s.kbps
    ensures WithinRate(s, t, p + q, maxPacket)
  {
    RateAdds(Size(u.sent) - Size(s.sent), p, u.jfs - s.jfs, Size(t.sent) - Size(u.sent), q, t.jfs - u.jfs, s.kbps, maxPacket);
  }

  lemma {:induction false} PolledWithinRate<B>(s: Sys<B>, burst: nat, next: U64, maxPacket: nat)
    requires QueueAtMost(s, maxPacket) && s.jfs <= next && 4 * burst <= (1 + next - s.jfs) * s.kbps
    ensures var t := Polled(s, PollCount(s.sendq, 0, burst), next);
            QueueAtMost(t, maxPacket) && WithinRate(s, t, 1, maxPacket)
  {
    var k := PollCount(s.sendq, 0, burst);
    PollBytes(s.sendq, burst, maxPacket);
    SizeAppend(s.sent, s.sendq[..k]);
    OnePollRate(Size(s.sendq[..k]), burst, next - s.jfs, s.kbps, maxPacket);
  }

  lemma {:induction false} StepWithinRate<B>(s: Sys<B>, e: Event<B>, maxPacket: nat)
    requires Enabled(s, e) && QueueAtMost(s, maxPacket) && (e.Append? ==> |e.entry.bytes| <= maxPacket)
    ensures QueueAtMost(Step(s, e), maxPacket) && WithinRate(s, Step(s, e), PollsOf(e), maxPacket)
  {
    if e.Timer? {
      BurstBound(s.kbps, e.next, s.jfs);
      PolledWithinRate(s, Burst(s.kbps, e.next, s.jfs), e.next, maxPacket);
    }
  }

  lemma {:induction false} RunWithinRate<B>(s: Sys<B>, es: seq<Event<B>>, t: Sys<B>, maxPacket: nat)
    requires Run(s, es, t) && AtMost(es, maxPacket) && QueueAtMost(s, maxPacket)
    ensures t.kbps == s.kbps && WithinRate(s, t, Polls(es), maxPacket)
    decreases |es|
  {
    if es == [] {
    } else {
      var u := Step(s, es[0]);
      StepWithinRate(s, es[0], maxPacket);
      RunWithinRate(u, es[1..], t, maxPacket);
      WithinRateTransitive(s, u, t, PollsOf(es[0]), Polls(es[1..]), maxPacket);
    }
  }

  // ---------------------------------------------------------------- the bitrate

  /** What the bitrate allows in ms milliseconds: ms * kbps / 8 bytes. */
  predicate WithinBitrate(bytes: nat, ms: nat, kbps: nat) { 8 * bytes <= ms * kbps }

  function PolledBytes<B>(q: seq<Entry<B>>, burst: nat): nat { Size(q[..PollCount(q, 0, burst)]) }

  lemma SizePrefix<B>(q: seq<Entry<B>>, k: nat)
    requires k <= |q|
    ensures Size(q[..k]) <= Size(q)
  {
    assert q == q[..k] + q[k..];
    SizeAppend(q[..k], q[k..]);
  }

  /**
   Where the allowance reaches the bitrate, a poll keeps to the bitrate if and only if everything that is queued
   does: it never holds a packet back on account of the bitrate.
   */
  lemma PollKeepsBitrateExactly<B>(q: seq<Entry<B>>, burst: nat, ms: nat, kbps: nat)
    requires !WithinBitrate(burst + 1, ms, kbps)
    ensures WithinBitrate(PolledBytes(q, burst), ms, kbps) <==> WithinBitrate(Size(q), ms, kbps)
  {
    var k := PollCount(q, 0, burst);
    PollCountExact(q, 0, burst);
    if k < |q| {
      SizePrefix(q, k);
    } else {
      assert q[..k] == q;
    }
  }

  lemma AllowanceOf(x: nat, kbps: nat)
    requires x <= 8 * BURST_MAX
    ensures var b := if (x + kbps) / 4 < BURST_MAX then (x + kbps) / 4 else BURST_MAX; 8 * (b + 1) > x
  {
  }

  /** The allowance reaches the bitrate unless the upper limit or a wrap-around of the product cuts it down. */
  lemma AllowanceReachesBitrate(kbps: nat, jfs: U64, prev: U64)
    requires prev <= jfs && (1 + jfs - prev) * kbps < B64 && (jfs - prev) * kbps <= 8 * BURST_MAX
    ensures !WithinBitrate(Burst(kbps, jfs, prev) + 1, jfs - prev, kbps)
  {
    if kbps > 0 {
      var d := jfs - prev;
      MulMonotone(1, kbps, 1 + d);
      assert (1 + d) % B64 == 1 + d;
      assert (1 + d) * kbps % B64 == (1 + d) * kbps;
      assert (1 + d) * kbps == d * kbps + kbps;
      AllowanceOf(d * kbps, kbps);
    }
  }

  /** The upper limit is 8192 bytes, and it is what cuts the allowance down exactly from 32768 units on. */
  lemma AllowanceIsCapped(kbps: nat, jfs: U64, prev: U64)
    requires prev <= jfs && (1 + jfs - prev) * kbps < B64
    ensures Burst(kbps, jfs, prev) <= 8192
    ensures Burst(kbps, jfs, prev) == 8192 <==> (1 + jfs - prev) * kbps >= 32768
  {
    var d := 1 + jfs - prev;
    if kbps > 0 {
      MulMonotone(1, kbps, d);
      assert d % B64 == d;
    }
    assert d * kbps % B64 == d * kbps;
  }

  /** The poll of the timer: it keeps to the bitrate if and only if the whole queue does. */
  lemma TimerKeepsBitrateExactly<B>(q: seq<Entry<B>>, kbps: nat, jfs: U64, prev: U64)
    requires prev <= jfs && (1 + jfs - prev) * kbps < B64 && (jfs - prev) * kbps <= 8 * BURST_MAX
    ensures WithinBitrate(PolledBytes(q, Burst(kbps, jfs, prev)), jfs - prev, kbps)
            <==> WithinBitrate(Size(q), jfs - prev, kbps)
  {
    AllowanceReachesBitrate(kbps, jfs, prev);
    PollKeepsBitrateExactly(q, Burst(kbps, jfs, prev), jfs - prev, kbps);
  }

  /** n packets of one byte, then one of m bytes. */
  function WorstQueue(n: nat, m: nat): seq<Entry<bv8>> {
    seq(n, _ => Entry(false, 0, 0, [0])) + [Entry(false, 0, 0, seq(m, _ => 0))]
  }

  lemma {:induction false} SizeOfBytes(q: seq<Entry<bv8>>)
    requires forall i :: 0 <= i < |q| ==> |q[i].bytes| == 1
    ensures Size(q) == |q|
    decreases |q|
  {
    if q == [] {
    } else {
      SizeOfBytes(q[1..]);
    }
  }

  lemma WorstPoll(burst: nat, m: nat)
    ensures PolledBytes(WorstQueue(burst, m), burst) == burst + m
  {
    var q := WorstQueue(burst, m);
    var k := PollCount(q, 0, burst);
    PollCountExact(q, 0, burst);
    if k < |q| {
      SizeOfBytes(q[..k]);
    }
    assert q[..k] == q && q == q[..burst] + [q[burst]];
    SizeAppend(q[..burst], [q[burst]]);
    SizeOfBytes(q[..burst]);
    SizeOne(q[burst]);
  }

  /**
   Told by the timer alone: every queue of packets of at most m bytes keeps to the bitrate in a poll if and only
   if the allowance plus one such packet does.
   */
  lemma BitrateKeptExactly(burst: nat, ms: nat, kbps: nat, m: nat)
    requires m > 0
    ensures (forall q: seq<Entry<bv8>> :: (forall i :: 0 <= i < |q| ==> |q[i].bytes| <= m)
                                           ==> WithinBitrate(PolledBytes(q, burst), ms, kbps))
            <==> WithinBitrate(burst + m, ms, kbps)
  {
    if WithinBitrate(burst + m, ms, kbps) {
      forall q: seq<Entry<bv8>> | forall i :: 0 <= i < |q| ==> |q[i].bytes| <= m
        ensures WithinBitrate(PolledBytes(q, burst), ms, kbps)
      {
        PollBytes(q, burst, m);
      }
    } else {
      var q := WorstQueue(burst, m);
      WorstPoll(burst, m);
      assert forall i :: 0 <= i < |q| ==> |q[i].bytes| <= m;
      assert !WithinBitrate(PolledBytes(q, burst), ms, kbps);
    }
  }

  /** 800 kbit/s, 4 ms after the last poll: the bitrate allows 400 bytes, the allowance is 1000, and more is sent. */
  lemma OverBitrateExample<B>(q: seq<Entry<B>>)
    requires Size(q) > 1000
    ensures Burst(800, 4, 0) == 1000 && PolledBytes(q, 1000) > 1000 && !WithinBitrate(401, 4, 800)
  {
    var k := PollCount(q, 0, 1000);
    PollCountExact(q, 0, 1000);
    if k == |q| {
      assert q[..k] == q;
    }
  }

  // ---------------------------------------------------------------- draining

  predicate OnlyTimer<B>(es: seq<Event<B>>) { forall i :: 0 <= i < |es| ==> es[i].Timer? }

  lemma PolledKeeps<B>(s: Sys<B>, k: nat)
    requires k <= |s.sendq|
    ensures s.sent + s.sendq[..k] + s.sendq[k..] == s.sent + s.sendq
  {
  }

  /** n queued packets are gone after at most n polls, and in their order. */
  lemma {:induction false} Drains<B>(s: Sys<B>, es: seq<Event<B>>, t: Sys<B>)
    requires Run(s, es, t) && OnlyTimer(es) && |s.sendq| <= |es|
    ensures t.sendq == [] && t.sent == s.sent + s.sendq && t.calls == s.calls
    decreases |es|
  {
    if es == [] {
    } else {
      var u := Step(s, es[0]);
      var k := PollCount(s.sendq, 0, Burst(s.kbps, es[0].next, s.jfs));
      Drains(u, es[1..], t);
      PolledKeeps(s, k);
    }
  }
}
