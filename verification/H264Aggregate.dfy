/**
 Aggregation packets (STAP-A, section 5.7.1 of RFC 6184) at the receiver of baresip/modules/avcodec/decode.c: what
 units the loop over the packet finds, for packets that are made of units and for all others.
 */
module H264Aggregate {
  import opened H264Startcode
  import opened H264Packetize
  import opened H264Depacketize

  // ---------------------------------------------------------------- packets made of units

  /** A NAL unit with the two bytes in front of it. */
  datatype Unit = Unit(hi: Byte, lo: Byte, nal: seq<Byte>) {
    /** The bytes are the length of the NAL unit in network order: the high byte first. */
    predicate Valid() { 256 * (hi as nat) + (lo as nat) == |nal| }

    function Bytes(): (s: seq<Byte>)
      ensures |s| == 2 + |nal|
    {
      [hi, lo] + nal
    }
  }

  predicate AllValid(units: seq<Unit>) { forall k :: 0 <= k < |units| ==> units[k].Valid() }

  /** The payload of an aggregation packet. */
  function Aggregate(units: seq<Unit>): seq<Byte> {
    if units == [] then [] else units[0].Bytes() + Aggregate(units[1..])
  }

  function NalsOf(units: seq<Unit>): seq<seq<Byte>> {
    if units == [] then [] else [units[0].nal] + NalsOf(units[1..])
  }

  lemma NextByte(b: Byte)
    ensures b == 255 <==> b as nat == 255
    ensures b != 255 ==> (b + 1) as nat == b as nat + 1
  {
  }

  /** Every NAL unit of at most 65535 bytes has such a length. */
  lemma {:induction false} LengthBytes(n: nat) returns (hi: Byte, lo: Byte)
    requires n < 65536
    ensures 256 * (hi as nat) + (lo as nat) == n
    decreases n
  {
    if n == 0 {
      hi, lo := 0, 0;
    } else {
      hi, lo := LengthBytes(n - 1);
      NextByte(hi);
      NextByte(lo);
      if lo != 255 {
        lo := lo + 1;
      } else {
        hi, lo := hi + 1, 0;
      }
    }
  }

  /** What the loop cannot read on from: a length without a byte behind it, or a unit that is cut off. */
  predicate Malformed(rest: seq<Byte>) {
    |rest| == 2 || (|rest| > 2 && 256 * (rest[0] as nat) + (rest[1] as nat) > |rest| - 2)
  }

  /** An empty unit is read only if something follows it. */
  predicate Readable(units: seq<Unit>, rest: seq<Byte>) {
    units != [] ==> units[|units| - 1].nal != [] || rest != []
  }

  lemma UnitRead(unit: Unit, rest: seq<Byte>)
    requires unit.Valid() && (unit.nal != [] || rest != [])
    ensures Stap(unit.Bytes() + rest) == (SC + unit.nal + Stap(rest).0, Stap(rest).1)
  {
    var src := unit.Bytes() + rest;
    assert src[0] == unit.hi && src[1] == unit.lo;
    assert src[2..2 + |unit.nal|] == unit.nal && src[2 + |unit.nal|..] == rest;
  }

  lemma JoinCons(nal: seq<Byte>, nals: seq<seq<Byte>>, more: seq<Byte>)
    ensures Join([nal] + nals) + more == SC + nal + (Join(nals) + more)
  {
    assert ([nal] + nals)[1..] == nals;
  }

  lemma AggregateStep(units: seq<Unit>, rest: seq<Byte>)
    requires units != []
    ensures Aggregate(units) + rest == units[0].Bytes() + (Aggregate(units[1..]) + rest)
  {
  }

  /** In front of anything, the units of an aggregation are all read, each behind a start code. */
  lemma {:induction false} StapReads(units: seq<Unit>, rest: seq<Byte>)
    requires AllValid(units) && Readable(units, rest)
    ensures Stap(Aggregate(units) + rest) == (Join(NalsOf(units)) + Stap(rest).0, Stap(rest).1)
    decreases |units|
  {
    if units == [] {
      assert Aggregate(units) + rest == rest;
      assert Join([]) + Stap(rest).0 == Stap(rest).0;
    } else {
      var unit, others := units[0], units[1..];
      StapReads(others, rest);
      AggregateStep(units, rest);
      UnitRead(unit, Aggregate(others) + rest);
      JoinCons(unit.nal, NalsOf(others), Stap(rest).0);
    }
  }

  lemma StapEnds(rest: seq<Byte>)
    requires |rest| < 2 || Malformed(rest)
    ensures Stap(rest) == ([], |rest| < 2)
  {
  }

  lemma CutUnit(src: seq<Byte>, n: nat)
    requires 2 + n <= |src|
    ensures src == Unit(src[0], src[1], src[2..2 + n]).Bytes() + src[2 + n..]
  {
  }

  lemma FirstUnit(src: seq<Byte>) returns (unit: Unit, tail: seq<Byte>)
    requires |src| >= 2 && !Malformed(src)
    ensures unit.Valid() && src == unit.Bytes() + tail && (unit.nal != [] || tail != [])
  {
    var n := StapLength(src);
    unit, tail := Unit(src[0], src[1], src[2..2 + n]), src[2 + n..];
    CutUnit(src, n);
  }

  lemma UnitsCons(unit: Unit, units: seq<Unit>)
    ensures Aggregate([unit] + units) == unit.Bytes() + Aggregate(units)
    ensures NalsOf([unit] + units) == [unit.nal] + NalsOf(units)
  {
    assert ([unit] + units)[1..] == units;
  }

  /**
   Every payload is an aggregation of units and a rest of at most one byte, or one that is malformed.  The loop
   appends these units, and succeeds exactly in the first case.
   */
  lemma {:induction false} StapParses(src: seq<Byte>) returns (units: seq<Unit>, rest: seq<Byte>)
    ensures AllValid(units) && Readable(units, rest) && src == Aggregate(units) + rest
    ensures |rest| < 2 || Malformed(rest)
    ensures Stap(src) == (Join(NalsOf(units)), |rest| < 2)
    decreases |src|
  {
    if |src| < 2 || Malformed(src) {
      units, rest := [], src;
      assert Aggregate(units) + rest == src;
    } else {
      var unit, tail := FirstUnit(src);
      var others;
      others, rest := StapParses(tail);
      units := [unit] + others;
      UnitsCons(unit, others);
      assert unit.Bytes() + (Aggregate(others) + rest) == unit.Bytes() + Aggregate(others) + rest;
      assert others == [] ==> tail == rest;
    }
    StapReads(units, rest);
    StapEnds(rest);
    assert Join(NalsOf(units)) + [] == Join(NalsOf(units));
  }

  /**
   An aggregation packet of any units, at a receiver without an open fragment.  Its units are appended; a malformed
   end is an error, whatever the marker, and otherwise the packet counts like any other: with the marker the picture
   is handed on.
   */
  lemma AggregateArrives(d: State, hdr: Byte, units: seq<Unit>, rest: seq<Byte>, marker: bool, sq: nat, key: bool)
    requires !d.frag && hdr & 0x1f == 24 && hdr & 0x80 == 0
    requires AllValid(units) && Readable(units, rest) && (|rest| < 2 || Malformed(rest))
    ensures var (e, err) := Step(d, marker, sq, [hdr] + (Aggregate(units) + rest), key);
            var acc := d.acc + Join(NalsOf(units));
            if |rest| >= 2 then e == d.(acc := acc) && err == EBADMSG
            else if marker
            then e == d.(acc := [], delivered := d.delivered + [acc], gotKeyframe := d.gotKeyframe || key) && err == Ok
            else if |acc| <= 524288 then e == d.(acc := acc) && err == Ok
            else e == d.(acc := []) && err == ENOMEM
  {
    StapReads(units, rest);
    StapEnds(rest);
    assert Join(NalsOf(units)) + [] == Join(NalsOf(units));
    assert ([hdr] + (Aggregate(units) + rest))[1..] == Aggregate(units) + rest;
  }
}
