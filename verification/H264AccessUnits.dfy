/**
 Access units under packet loss: each picture stays inside one access unit if and only if no access unit of which
 something is buffered loses its end before a later one is closed.
 */
module H264AccessUnits {
  import opened H264Startcode
  import opened H264Packetize
  import opened H264Depacketize
  import opened H264RoundTrip
  import opened H264Stream
  import opened H264Loss
  import opened H264Splice
  import opened H264LossExact

  /** The number of the access unit that NAL unit u belongs to. */
  function Au(us: seq<Unit>, u: nat): nat
    requires u <= |us|
    decreases u
  {
    if u == 0 then 0 else Au(us, u - 1) + (if us[u - 1].marker then 1 else 0)
  }

  /** Access units change behind a marker, and nowhere else. */
  lemma {:induction false} AuChanges(us: seq<Unit>, a: nat, b: nat) returns (w: nat)
    requires a <= b <= |us|
    ensures Au(us, a) <= Au(us, b)
    ensures Au(us, a) < Au(us, b) ==> a <= w < b && us[w].marker
    decreases b - a
  {
    w := a;
    if a < b {
      w := AuChanges(us, a, b - 1);
      if us[b - 1].marker {
        w := b - 1;
      }
    }
  }

  lemma {:induction false} AuBehindMarker(us: seq<Unit>, a: nat, w: nat, b: nat)
    requires a <= w < b <= |us| && us[w].marker
    ensures Au(us, a) < Au(us, b)
  {
    var _ := AuChanges(us, a, w);
    var _ := AuChanges(us, w + 1, b);
  }

  /** All NAL units of a picture are of one access unit. */
  predicate OneAccessUnit(us: seq<Unit>, ix: seq<nat>) {
    && (forall k :: 0 <= k < |ix| ==> ix[k] < |us|)
    && (forall k, l :: 0 <= k < |ix| && 0 <= l < |ix| ==> Au(us, ix[k]) == Au(us, ix[l]))
  }

  /** No access unit is closed by one of the packets v to i - 1. */
  predicate NoClose(ps: seq<Packet>, arrived: seq<bool>, v: nat, i: nat)
    requires i <= |ps| == |arrived|
  {
    forall k: nat :: v <= k < i ==> !Closes(ps, arrived, k)
  }

  /**
   A NAL has arrived with packet v, the end j of an access unit is lost, and packet i closes a later one: the two
   access units are handed on as one picture.
   */
  predicate Merges(ps: seq<Packet>, arrived: seq<bool>, v: nat, j: nat, i: nat)
    requires |ps| == |arrived|
  {
    v < j < i < |ps| && Taken(ps, arrived, v) && ps[j].marker && Closes(ps, arrived, i) && NoClose(ps, arrived, v, i)
  }

  ghost predicate NoMerge(ps: seq<Packet>, arrived: seq<bool>, n: nat)
    requires |ps| == |arrived|
  {
    forall v: nat, j: nat, i: nat :: i < n ==> !Merges(ps, arrived, v, j, i)
  }

  /** The buffered NAL units are those that arrived since the last access unit was closed. */
  ghost predicate Buffered(c: Setup, n: nat, u: nat, v: nat)
    requires n <= |c.ps| == |c.arrived| == |c.xs|
  {
    v < n && Taken(c.ps, c.arrived, v) && c.xs[v].u == u && NoClose(c.ps, c.arrived, v, n)
  }

  function Current(c: Setup, n: nat): seq<nat>
    requires n <= |c.ps| == |c.arrived| == |c.xs|
  {
    Expected(c.ps, c.xs, c.arrived, n).cur
  }

  lemma {:induction false} BufferedIsCurrent(c: Setup, n: nat, v: nat)
    requires n <= |c.ps| == |c.arrived| == |c.xs| && v < n && Buffered(c, n, c.xs[v].u, v)
    ensures c.xs[v].u in Current(c, n)
    decreases n
  {
    assert !Closes(c.ps, c.arrived, n - 1);
    if v < n - 1 {
      BufferedIsCurrent(c, n - 1, v);
    }
  }

  lemma {:induction false} CurrentIsBuffered(c: Setup, n: nat, u: nat) returns (v: nat)
    requires n <= |c.ps| == |c.arrived| == |c.xs| && u in Current(c, n)
    ensures Buffered(c, n, u, v)
    decreases n
  {
    var i := n - 1;
    assert !Closes(c.ps, c.arrived, i);
    if Taken(c.ps, c.arrived, i) && c.xs[i].u == u {
      v := i;
    } else {
      v := CurrentIsBuffered(c, i, u);
    }
  }

  /** Every NAL unit that was passed ended with some packet. */
  lemma {:induction false} EndPacket(c: Setup, n: nat, u: nat, pktsize: nat) returns (j: nat)
    requires Ready(c, pktsize) && n <= |c.ps| && u < Passed(c.xs, |c.us|, n)
    ensures j < n && c.xs[j].u == u && c.xs[j].Ends()
    decreases n
  {
    if n == 0 {
      assert false;
    } else {
      ReadyAt(c, n - 1, pktsize);
      if c.xs[n - 1].Ends() && c.xs[n - 1].u == u {
        j := n - 1;
      } else {
        j := EndPacket(c, n - 1, u, pktsize);
      }
    }
  }

  /** Packets come in the order of their NAL units. */
  lemma {:induction false} LaterUnit(c: Setup, i: nat, j: nat, pktsize: nat)
    requires Ready(c, pktsize) && i < j <= |c.ps|
    ensures Passed(c.xs, |c.us|, j) >= if c.xs[i].Ends() then c.xs[i].u + 1 else c.xs[i].u
    decreases j
  {
    ReadyAt(c, j - 1, pktsize);
    if i < j - 1 {
      LaterUnit(c, i, j - 1, pktsize);
    }
  }

  lemma TakenEnds(c: Setup, i: nat)
    requires At(c, i) && Taken(c.ps, c.arrived, i)
    ensures c.xs[i].Ends()
  {
  }

  /** A merge puts two access units in one picture. */
  lemma {:induction false} MergeMixes(c: Setup, v: nat, j: nat, n: nat, pktsize: nat)
    requires Ready(c, pktsize) && |c.xs| == |c.ps| && Merges(c.ps, c.arrived, v, j, n)
    ensures !OneAccessUnit(c.us, Current(c, n) + [c.xs[n].u])
  {
    ReadyAt(c, v, pktsize);
    ReadyAt(c, j, pktsize);
    ReadyAt(c, n, pktsize);
    TakenEnds(c, v);
    BufferedIsCurrent(c, n, v);
    LaterUnit(c, v, j, pktsize);
    LaterUnit(c, j, n, pktsize);
    var ix := Current(c, n) + [c.xs[n].u];
    var k :| 0 <= k < |Current(c, n)| && Current(c, n)[k] == c.xs[v].u;
    assert ix[k] == c.xs[v].u && ix[|ix| - 1] == c.xs[n].u;
    AuBehindMarker(c.us, c.xs[v].u, c.xs[j].u, c.xs[n].u);
  }

  /** Two access units in one picture come from a merge. */
  lemma {:induction false} MixedIsMerge(c: Setup, n: nat, u: nat, pktsize: nat) returns (v: nat, j: nat)
    requires Ready(c, pktsize) && |c.xs| == |c.ps| && n < |c.ps| && Closes(c.ps, c.arrived, n)
    requires u in Current(c, n) && u < c.xs[n].u < |c.us| && Au(c.us, u) != Au(c.us, c.xs[n].u)
    ensures Merges(c.ps, c.arrived, v, j, n)
  {
    v := CurrentIsBuffered(c, n, u);
    var w := AuChanges(c.us, u, c.xs[n].u);
    j := EndPacket(c, n, w, pktsize);
    ReadyAt(c, v, pktsize);
    ReadyAt(c, j, pktsize);
    TakenEnds(c, v);
    if j < v {
      LaterUnit(c, j, v, pktsize);
    }
    assert j != v by {
      assert !Closes(c.ps, c.arrived, v);
    }
  }

  predicate AllOneAccessUnit(us: seq<Unit>, pics: seq<seq<nat>>) {
    forall k :: 0 <= k < |pics| ==> OneAccessUnit(us, pics[k])
  }

  /** The picture that packet n closes. */
  lemma {:induction false} PictureOfOne(c: Setup, n: nat, pktsize: nat)
    requires Ready(c, pktsize) && |c.xs| == |c.ps| && n < |c.ps| && Closes(c.ps, c.arrived, n)
    requires c.xs[n].u < |c.us| && Ascending(Current(c, n), c.xs[n].u)
    ensures OneAccessUnit(c.us, Current(c, n) + [c.xs[n].u])
            <==> forall v: nat, j: nat :: !Merges(c.ps, c.arrived, v, j, n)
  {
    var cur, u := Current(c, n), c.xs[n].u;
    if OneAccessUnit(c.us, cur + [u]) {
      forall v: nat, j: nat ensures !Merges(c.ps, c.arrived, v, j, n) {
        if Merges(c.ps, c.arrived, v, j, n) {
          MergeMixes(c, v, j, n, pktsize);
        }
      }
    }
    if forall v: nat, j: nat :: !Merges(c.ps, c.arrived, v, j, n) {
      forall k | 0 <= k < |cur| ensures Au(c.us, cur[k]) == Au(c.us, u) {
        if Au(c.us, cur[k]) != Au(c.us, u) {
          var v, j := MixedIsMerge(c, n, cur[k], pktsize);
        }
      }
    }
  }

  lemma {:induction false} CurrentAscends(c: Setup, n: nat, pktsize: nat)
    requires Ready(c, pktsize) && |c.xs| == |c.ps| && n <= |c.ps|
    ensures Ascending(Current(c, n), Passed(c.xs, |c.us|, n))
    decreases n
  {
    if n == 0 {
    } else {
      CurrentAscends(c, n - 1, pktsize);
      ReadyAt(c, n - 1, pktsize);
      if Taken(c.ps, c.arrived, n - 1) {
        TakenEnds(c, n - 1);
      }
      AscendingGrows(Current(c, n - 1), Passed(c.xs, |c.us|, n - 1), Passed(c.xs, |c.us|, n));
    }
  }

  /** One more packet that closes no access unit. */
  lemma NoMergeMore(c: Setup, n: nat)
    requires n < |c.ps| == |c.arrived| && !Closes(c.ps, c.arrived, n)
    ensures NoMerge(c.ps, c.arrived, n + 1) <==> NoMerge(c.ps, c.arrived, n)
  {
    if NoMerge(c.ps, c.arrived, n) {
      forall v: nat, j: nat, i: nat | i < n + 1 ensures !Merges(c.ps, c.arrived, v, j, i) {
      }
    }
  }

  lemma NoMergeClose(c: Setup, n: nat)
    requires n < |c.ps| == |c.arrived|
    ensures NoMerge(c.ps, c.arrived, n + 1)
            <==> NoMerge(c.ps, c.arrived, n) && forall v: nat, j: nat :: !Merges(c.ps, c.arrived, v, j, n)
  {
    if NoMerge(c.ps, c.arrived, n) && forall v: nat, j: nat :: !Merges(c.ps, c.arrived, v, j, n) {
      forall v: nat, j: nat, i: nat | i < n + 1 ensures !Merges(c.ps, c.arrived, v, j, i) {
        if i == n {
          assert !Merges(c.ps, c.arrived, v, j, n);
        }
      }
    }
  }

  lemma AllOneSnoc(us: seq<Unit>, pics: seq<seq<nat>>, ix: seq<nat>)
    ensures AllOneAccessUnit(us, pics + [ix]) <==> AllOneAccessUnit(us, pics) && OneAccessUnit(us, ix)
  {
    if AllOneAccessUnit(us, pics + [ix]) {
      assert (pics + [ix])[|pics|] == ix;
      forall k | 0 <= k < |pics| ensures OneAccessUnit(us, pics[k]) {
        assert (pics + [ix])[k] == pics[k];
      }
    }
  }

  lemma {:induction false} ExpectedOfOne(c: Setup, n: nat, pktsize: nat)
    requires Ready(c, pktsize) && |c.xs| == |c.ps| && n <= |c.ps|
    ensures AllOneAccessUnit(c.us, Expected(c.ps, c.xs, c.arrived, n).pics) <==> NoMerge(c.ps, c.arrived, n)
    decreases n
  {
    if n == 0 {
    } else {
      var i := n - 1;
      ExpectedOfOne(c, i, pktsize);
      if Closes(c.ps, c.arrived, i) {
        ReadyAt(c, i, pktsize);
        CurrentAscends(c, i, pktsize);
        PictureOfOne(c, i, pktsize);
        NoMergeClose(c, i);
        AllOneSnoc(c.us, Expected(c.ps, c.xs, c.arrived, i).pics, Current(c, i) + [c.xs[i].u]);
      } else {
        NoMergeMore(c, i);
      }
    }
  }

  /**
   Every picture stays inside one access unit if and only if the end of an access unit is never lost while a NAL is
   buffered and a later access unit is closed.
   */
  lemma {:induction false} OneAccessUnitExactly(d: State, us: seq<Unit>, pktsize: nat, arrived: seq<bool>, sq: nat,
                                                key: nat -> bool)
    requires d.acc == [] && !d.frag && d.gotKeyframe && 2 < pktsize < SIZE_T && AllPlain(us, pktsize)
    requires var ps := Stream(us, pktsize);
             |arrived| == |ps| && Roomy(ps, arrived) && NoSplice(ps, arrived, true)
    ensures |Shape(us, pktsize)| == |arrived|
    ensures var e := Lossy(d, Stream(us, pktsize), arrived, |arrived|, sq, key);
            var pics := Expected(Stream(us, pktsize), Shape(us, pktsize), arrived, |arrived|).pics;
            && d.delivered <= e.delivered && Pictures(us, pics, e.delivered[|d.delivered|..])
            && (AllOneAccessUnit(us, pics) <==> NoMerge(Stream(us, pktsize), arrived, |arrived|))
  {
    Described(us, pktsize);
    PicturesExactly(d, us, pktsize, arrived, sq, key);
    ExpectedOfOne(Sent(us, pktsize, arrived, sq, true), |arrived|, pktsize);
  }

  /** The marked NAL of the first access unit is lost: its other NAL goes out with the second access unit. */
  lemma {:induction false} MergeExample(d: State, sq: nat, key: nat -> bool)
    requires d.acc == [] && !d.frag && d.gotKeyframe
    ensures var ps := [Packet(false, [0x65], []), Packet(true, [0x65], [1]), Packet(true, [0x65], [2])];
            && Lossy(d, ps, [true, false, true], 3, sq, key).delivered == d.delivered + [[0, 0, 1, 0x65, 0, 0, 1, 0x65, 2]]
            && Merges(ps, [true, false, true], 0, 1, 2)
  {
    var a, b: Packet := Packet(false, [0x65], []), Packet(true, [0x65], [2]);
    var ps := [a, Packet(true, [0x65], [1]), b];
    var arrived := [true, false, true];
    LossyStep(d, ps, arrived, 0, sq, key);
    LossyStep(d, ps, arrived, 1, sq, key);
    LossyStep(d, ps, arrived, 2, sq, key);
    assert a.Bytes() == [0x65] && b.Bytes() == [0x65, 2];
    var e := Lossy(d, ps, arrived, 1, sq, key);
    assert [] + SC + [0x65] == [0, 0, 1, 0x65];
    assert e.acc == [0, 0, 1, 0x65];
    assert [0, 0, 1, 0x65] + SC + [0x65, 2] == [0, 0, 1, 0x65, 0, 0, 1, 0x65, 2];
  }
}
