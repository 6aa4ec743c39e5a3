/**
 The RTP header (section 5.1 of RFC 3550) of re/src/rtp/rtp.c around the header extensions: what a sender writes in
 front of its payload, and what the media handler on the other side gets.
 */
module RtpHeader {
  import opened Common
  import opened X = RtpExtension

  const HEADER_SIZE := 12
  const VERSION := 2

  /** struct rtp_header, without the extension it announces. */
  datatype Rtp = Rtp(ver: nat, pad: bool, ext: bool, m: bool, pt: nat, sq: U16, ts: U32, ssrc: U32, csrc: seq<U32>)

  function Bit(b: bool): nat { if b then 1 else 0 }

  // ---------------------------------------------------------------- bytes

  function Bytes16(x: U16): (s: seq<Byte>)
    ensures |s| == 2
  {
    [(x / 256) as Byte, (x % 256) as Byte]
  }

  function Bytes32(x: U32): (s: seq<Byte>)
    ensures |s| == 4
  {
    Bytes16(x / 0x1_0000) + Bytes16(x % 0x1_0000)
  }

  function Word16(s: seq<Byte>): U16
    requires |s| >= 2
  {
    256 * (s[0] as int) + s[1] as int
  }

  function Word32(s: seq<Byte>): U32
    requires |s| >= 4
  {
    0x1_0000 * Word16(s) + Word16(s[2..])
  }

  lemma Word16Back(x: U16, t: seq<Byte>)
    ensures Word16(Bytes16(x) + t) == x && (Bytes16(x) + t)[2..] == t
  {
  }

  lemma Word32Back(x: U32, t: seq<Byte>)
    ensures Word32(Bytes32(x) + t) == x && (Bytes32(x) + t)[4..] == t
  {
    var hi, lo := x / 0x1_0000, x % 0x1_0000;
    assert Bytes32(x) + t == Bytes16(hi) + (Bytes16(lo) + t);
    Word16Back(hi, Bytes16(lo) + t);
    Word16Back(lo, t);
  }

  function AllBytes32(xs: seq<U32>): (s: seq<Byte>)
    ensures |s| == 4 * |xs|
  {
    if xs == [] then [] else Bytes32(xs[0]) + AllBytes32(xs[1..])
  }

  function Words32(s: seq<Byte>, n: nat): (xs: seq<U32>)
    requires |s| >= 4 * n
    ensures |xs| == n
    decreases n
  {
    if n == 0 then [] else [Word32(s)] + Words32(s[4..], n - 1)
  }

  lemma {:induction false} WordsBack(xs: seq<U32>, t: seq<Byte>)
    ensures Words32(AllBytes32(xs) + t, |xs|) == xs && (AllBytes32(xs) + t)[4 * |xs|..] == t
    decreases |xs|
  {
    if xs == [] {
      assert AllBytes32(xs) + t == t;
    } else {
      var rest := AllBytes32(xs[1..]) + t;
      assert AllBytes32(xs) + t == Bytes32(xs[0]) + rest;
      Word32Back(xs[0], rest);
      WordsBack(xs[1..], t);
    }
  }

  // ---------------------------------------------------------------- the header

  function FirstByte(h: Rtp): Byte {
    (128 * (h.ver / 2 % 2) + 32 * Bit(h.pad) + 16 * Bit(h.ext) + |h.csrc| % 16) as Byte
  }

  function SecondByte(h: Rtp): Byte { (128 * Bit(h.m) + h.pt % 128) as Byte }

  function Fixed(h: Rtp): (s: seq<Byte>)
    ensures |s| == HEADER_SIZE
  {
    [FirstByte(h), SecondByte(h)] + Bytes16(h.sq) + Bytes32(h.ts) + Bytes32(h.ssrc)
  }

  /** rtp_hdr_encode */
  function HeaderBytes(h: Rtp): seq<Byte> { Fixed(h) + AllBytes32(h.csrc) }

  /** The fields of the first twelve bytes; the sources are still missing. */
  function FixedFields(s: seq<Byte>): Rtp
    requires |s| >= HEADER_SIZE
  {
    Rtp((s[0] / 64) as nat, s[0] / 32 % 2 == 1, s[0] / 16 % 2 == 1, s[1] / 128 == 1, (s[1] % 128) as nat,
        Word16(s[2..]), Word32(s[4..]), Word32(s[8..]), [])
  }

  /** The header, type and length of the extension, and the rest of the packet. */
  datatype Parsed = Bad | Parsed(h: Rtp, xtype: U16, xlen: U16, rest: seq<Byte>)

  function ParseExtension(h: Rtp, t: seq<Byte>): Parsed {
    if !h.ext then Parsed(h, 0, 0, t)
    else if |t| < 4 then Bad
    else if |t| - 4 < 4 * Word16(t[2..]) then Bad
    else Parsed(h, Word16(t), Word16(t[2..]), t[4 + 4 * Word16(t[2..])..])
  }

  /** The rest of the header, behind the fixed fields: cc sources and the extension. */
  function ParseSources(h: Rtp, cc: nat, t: seq<Byte>): Parsed {
    if |t| < 4 * cc then Bad else ParseExtension(h.(csrc := Words32(t, cc)), t[4 * cc..])
  }

  function Checked(r: Parsed): Parsed { if r.Parsed? && r.h.ver != VERSION then Bad else r }

  /** rtp_decode: rtp_hdr_decode on the bytes left in the buffer, and the check of the version. */
  function Parse(s: seq<Byte>): (r: Parsed)
    ensures r.Parsed? ==> |r.rest| + 4 * r.xlen <= |s|
    ensures r.Parsed? ==> r.h.ver == 2 && r.h.pt < 128 && |r.h.csrc| <= 15
  {
    if |s| < HEADER_SIZE then Bad else Checked(ParseSources(FixedFields(s), (s[0] % 16) as nat, s[HEADER_SIZE..]))
  }

  /** A header whose fields all fit. */
  predicate Fits(h: Rtp) { h.ver == 2 && h.pt < 128 && |h.csrc| <= 15 }

  lemma FirstBytes(h: Rtp)
    ensures FirstByte(h) / 64 == (2 * (h.ver / 2 % 2)) as Byte
    ensures FirstByte(h) / 32 % 2 == 1 <==> h.pad
    ensures FirstByte(h) / 16 % 2 == 1 <==> h.ext
    ensures (FirstByte(h) % 16) as nat == |h.csrc| % 16
    ensures SecondByte(h) / 128 == 1 <==> h.m
    ensures (SecondByte(h) % 128) as nat == h.pt % 128
  {
  }

  lemma FixedBack(h: Rtp, t: seq<Byte>)
    ensures var s := Fixed(h) + t;
            && s[..2] == [FirstByte(h), SecondByte(h)] && s[HEADER_SIZE..] == t
            && Word16(s[2..]) == h.sq && Word32(s[4..]) == h.ts && Word32(s[8..]) == h.ssrc
  {
    var s := Fixed(h) + t;
    var t2 := Bytes32(h.ssrc) + t;
    var t1 := Bytes32(h.ts) + t2;
    assert s[2..] == Bytes16(h.sq) + t1 && s[4..] == t1 && s[8..] == t2;
    Word16Back(h.sq, t1);
    Word32Back(h.ts, t2);
    Word32Back(h.ssrc, t);
  }

  lemma FixedSeen(h: Rtp, t: seq<Byte>)
    requires Fits(h)
    ensures var s := Fixed(h) + t;
            FixedFields(s) == h.(csrc := []) && (s[0] % 16) as nat == |h.csrc| && s[HEADER_SIZE..] == t
  {
    FixedBack(h, t);
    FirstBytes(h);
    var s := Fixed(h) + t;
    assert s[0] == s[..2][0] && s[1] == s[..2][1];
  }

  lemma SourcesSeen(h: Rtp, csrc: seq<U32>, t: seq<Byte>)
    ensures ParseSources(h, |csrc|, AllBytes32(csrc) + t) == ParseExtension(h.(csrc := csrc), t)
  {
    WordsBack(csrc, t);
  }

  lemma FixedParsed(h: Rtp, s: seq<Byte>, u: seq<Byte>)
    requires Fits(h) && s == Fixed(h) + u
    ensures Parse(s) == Checked(ParseSources(h.(csrc := []), |h.csrc|, u))
  {
    FixedSeen(h, u);
  }

  /** In front of anything, a header whose fields fit is read back. */
  lemma HeaderSeen(h: Rtp, s: seq<Byte>, t: seq<Byte>)
    requires Fits(h) && s == HeaderBytes(h) + t
    ensures Parse(s) == ParseExtension(h, t)
  {
    var u := AllBytes32(h.csrc) + t;
    AppendAssociates(Fixed(h), AllBytes32(h.csrc), t);
    FixedParsed(h, s, u);
    SourcesSeen(h.(csrc := []), h.csrc, t);
  }

  // ---------------------------------------------------------------- packets

  /** What rtp_send puts in front of the payload, with the extensions if there are any. */
  function Packet(h: Rtp, es: seq<Ext>, payload: seq<Byte>): seq<Byte>
    requires AllEncodable(es)
  {
    HeaderBytes(h) + (if h.ext then Header(|EncodeAll(es)|) + EncodeAll(es) else []) + payload
  }

  /** What the media handler gets of a packet: nothing, or the extensions and the payload. */
  datatype Reception = Ignored | Got(h: Rtp, exts: seq<Ext>, payload: seq<Byte>)

  function ToReception(h: Rtp, r: Outcome, payload: seq<Byte>): Reception {
    match r
    case Dropped => Ignored
    case Delivered(es) => Got(h, es, payload)
  }

  /** What handle_rtp makes of a packet with this header. */
  function Handed(s: seq<Byte>, p: Parsed): (r: Reception)
    requires p.Parsed? ==> |p.rest| <= |s|
    ensures r.Got? ==> p.Parsed? && r.h == p.h && |r.exts| <= EXT_MAX
  {
    match p
    case Bad => Ignored
    case Parsed(h, xtype, xlen, rest) => ToReception(h, Handle(s, |s| - |rest|, h.ext, xtype, xlen), rest)
  }

  function Receive(s: seq<Byte>): (r: Reception)
    ensures r.Got? ==> |r.exts| <= EXT_MAX && r.h.ver == 2 && r.h.pt < 128 && |r.h.csrc| <= 15
  {
    Handed(s, Parse(s))
  }

  /** The part of a packet behind its header: the announced extension x, and the payload. */
  lemma ExtensionSeen(h: Rtp, x: seq<Byte>, payload: seq<Byte>)
    requires h.ext && |x| % 4 == 0 && |x| < 0x4_0000
    ensures ParseExtension(h, Header(|x|) + x + payload) == Parsed(h, MAGIC, WordCount(|x|), payload)
  {
    var t, n := Header(|x|) + x + payload, WordCount(|x|);
    assert 4 * n == |x|;
    assert t == Bytes16(MAGIC) + (Bytes16(n) + (x + payload));
    Word16Back(MAGIC, Bytes16(n) + (x + payload));
    Word16Back(n, x + payload);
    assert t[4 + |x|..] == payload;
  }

  lemma ParseWithExtension(h: Rtp, x: seq<Byte>, payload: seq<Byte>, s: seq<Byte>, t: seq<Byte>)
    requires h.ext && Fits(h) && |x| % 4 == 0 && |x| < 0x4_0000
    requires t == Header(|x|) + x + payload && s == HeaderBytes(h) + t
    ensures Parse(s) == Parsed(h, MAGIC, WordCount(|x|), payload)
  {
    HeaderSeen(h, s, t);
    ExtensionSeen(h, x, payload);
  }

  lemma HandleParsed(h: Rtp, s: seq<Byte>, before: seq<Byte>, x: seq<Byte>, payload: seq<Byte>)
    requires h.ext && Parse(s) == Parsed(h, MAGIC, WordCount(|x|), payload) && s == before + x + payload
    ensures Receive(s) == ToReception(h, Received(before, x, payload), payload)
  {
    assert |s| - |payload| == |before + x|;
  }

  lemma ReceiveExtension(h: Rtp, x: seq<Byte>, payload: seq<Byte>, before: seq<Byte>)
    requires h.ext && Fits(h) && |x| % 4 == 0 && |x| < 0x4_0000 && before == HeaderBytes(h) + Header(|x|)
    ensures Receive(HeaderBytes(h) + (Header(|x|) + x) + payload) == ToReception(h, Received(before, x, payload), payload)
  {
    var y, s := Header(|x|), HeaderBytes(h) + (Header(|x|) + x) + payload;
    AppendAssociates(HeaderBytes(h), y + x, payload);
    AppendAssociates(HeaderBytes(h), y, x);
    ParseWithExtension(h, x, payload, s, y + x + payload);
    HandleParsed(h, s, before, x, payload);
  }

  lemma FewExtensions(h: Rtp, es: seq<Ext>, payload: seq<Byte>)
    requires h.ext && Fits(h)
    requires AllEncodable(es) && es != [] && |es| <= EXT_MAX
    ensures Receive(Packet(h, es, payload)) == Got(h, es, payload) <==> RoundTrips(es, EXT_MAX)
  {
    var x := EncodeAll(es);
    EncodedSize(es);
    ReceiveExtension(h, x, payload, HeaderBytes(h) + Header(|x|));
    FewReceived(HeaderBytes(h) + Header(|x|), es, payload);
  }

  lemma NoExtension(h: Rtp, payload: seq<Byte>)
    requires !h.ext && Fits(h)
    ensures Receive(Packet(h, [], payload)) == Got(h, [], payload)
  {
    assert HeaderBytes(h) + [] + payload == HeaderBytes(h) + payload;
    HeaderSeen(h, HeaderBytes(h) + payload, payload);
  }

  /**
   Sender to media handler, with and without extensions: header, extensions and payload arrive as they were sent if
   and only if the version is 2, the payload type has seven bits, there are at most fifteen contributing sources, and
   at most eight extensions of at most fifteen bytes.
   */
  lemma PacketRoundTrip(h: Rtp, es: seq<Ext>, payload: seq<Byte>)
    requires AllEncodable(es) && (h.ext <==> es != [])
    ensures Receive(Packet(h, es, payload)) == Got(h, es, payload)
            <==> Fits(h) && RoundTrips(es, 8)
  {
    if Fits(h) {
      if es == [] {
        NoExtension(h, payload);
      } else if |es| <= EXT_MAX {
        FewExtensions(h, es, payload);
      }
    }
  }

  // ---------------------------------------------------------------- the operations

  /** rtp_hdr_encode */
  method WriteHeader(mb: Mbuf, h: Rtp)
    requires mb.Valid()
    modifies mb
    ensures mb.Valid() && Wrote(old(mb.Abs()), mb.Abs(), HeaderBytes(h))
  {
    ghost var a := mb.Abs();
    WriteBoth(mb, [FirstByte(h), SecondByte(h)], Bytes16(h.sq));
    ghost var b := mb.Abs();
    WriteBoth(mb, Bytes32(h.ts), Bytes32(h.ssrc));
    WroteTwice(a, b, mb.Abs(), [FirstByte(h), SecondByte(h)] + Bytes16(h.sq), Bytes32(h.ts) + Bytes32(h.ssrc));
    assert [FirstByte(h), SecondByte(h)] + Bytes16(h.sq) + (Bytes32(h.ts) + Bytes32(h.ssrc)) == Fixed(h);
    var rest := h.csrc;
    ghost var done := Fixed(h);
    while rest != []
      invariant mb.Valid() && Wrote(a, mb.Abs(), done) && done + AllBytes32(rest) == HeaderBytes(h)
      decreases |rest|
    {
      b := mb.Abs();
      mb.Write(Bytes32(rest[0]));
      WroteTwice(a, b, mb.Abs(), done, Bytes32(rest[0]));
      done := done + Bytes32(rest[0]);
      rest := rest[1..];
    }
    assert done + [] == done;
  }

  method ReadWord16(mb: Mbuf) returns (v: U16)
    requires mb.Valid() && mb.Left() >= 2
    modifies mb`pos
    ensures mb.Valid() && v == Word16(old(mb.Rest())) && mb.pos == old(mb.pos) + 2 && mb.Rest() == old(mb.Rest())[2..]
  {
    var err, data := mb.ReadMem(2);
    v := Word16(data);
  }

  method ReadWord32(mb: Mbuf) returns (v: U32)
    requires mb.Valid() && mb.Left() >= 4
    modifies mb`pos
    ensures mb.Valid() && v == Word32(old(mb.Rest())) && mb.pos == old(mb.pos) + 4 && mb.Rest() == old(mb.Rest())[4..]
  {
    ghost var s := mb.Rest();
    var hi := ReadWord16(mb);
    var lo := ReadWord16(mb);
    assert s[2..][2..] == s[4..];
    v := 0x1_0000 * (hi as int) + lo as int;
  }

  lemma WordsStep(xs: seq<U32>, s: seq<Byte>, n: nat)
    requires n > 0 && |s| >= 4 * n
    ensures xs + Words32(s, n) == xs + [Word32(s)] + Words32(s[4..], n - 1)
  {
  }

  method ReadNext(mb: Mbuf, xs: seq<U32>, n: nat) returns (ys: seq<U32>)
    requires mb.Valid() && n > 0 && mb.Left() >= 4 * n
    modifies mb`pos
    ensures mb.Valid() && mb.pos == old(mb.pos) + 4 && mb.Left() >= 4 * (n - 1)
    ensures ys + Words32(mb.Rest(), n - 1) == xs + Words32(old(mb.Rest()), n)
  {
    WordsStep(xs, mb.Rest(), n);
    var x := ReadWord32(mb);
    ys := xs + [x];
  }

  method ReadWords32(mb: Mbuf, n: nat) returns (xs: seq<U32>)
    requires mb.Valid() && mb.Left() >= 4 * n
    modifies mb`pos
    ensures mb.Valid() && xs == Words32(old(mb.Rest()), n) && mb.pos == old(mb.pos) + 4 * n
  {
    xs := [];
    var i := n;
    while i > 0
      invariant 0 <= i <= n && mb.Valid() && mb.pos == old(mb.pos) + 4 * (n - i) && mb.Left() >= 4 * i
      invariant xs + Words32(mb.Rest(), i) == Words32(old(mb.Rest()), n)
    {
      xs := ReadNext(mb, xs, i);
      i := i - 1;
    }
  }

  /** mbuf_advance */
  method Advance(mb: Mbuf, n: nat)
    requires mb.Valid() && n <= mb.Left()
    modifies mb`pos
    ensures mb.Valid() && mb.pos == old(mb.pos) + n && mb.Rest() == old(mb.Rest())[n..]
  {
    mb.pos := mb.pos + n;
  }

  /** The part of rtp_hdr_decode behind the fixed fields and the sources. */
  method ReadExtension(mb: Mbuf, h: Rtp) returns (r: Option<(Rtp, U16, U16)>)
    requires mb.Valid()
    modifies mb`pos
    ensures mb.Valid()
    ensures match ParseExtension(h, old(mb.Rest()))
            case Bad => r == None
            case Parsed(g, xtype, xlen, rest) => r == Some((g, xtype, xlen)) && mb.Rest() == rest
    ensures r.Some? ==> old(mb.pos) <= mb.pos && (old(mb.pos) <= mb.end ==> mb.pos <= mb.end)
  {
    if !h.ext {
      return Some((h, 0, 0));
    }
    if mb.Left() < 4 {
      return None;
    }
    var xtype := ReadWord16(mb);
    var xlen := ReadWord16(mb);
    var n: nat := 4 * (xlen as int);
    if mb.Left() < n {
      return None;
    }
    Advance(mb, n);
    return Some((h, xtype, xlen));
  }

  method ReadFixed(mb: Mbuf) returns (h: Rtp, cc: nat)
    requires mb.Valid() && mb.Left() >= HEADER_SIZE
    modifies mb`pos
    ensures mb.Valid() && h == FixedFields(old(mb.Rest())) && cc == (old(mb.Rest())[0] % 16) as nat
    ensures mb.Rest() == old(mb.Rest())[HEADER_SIZE..] && old(mb.pos) <= mb.pos <= mb.end
  {
    ghost var s := mb.Rest();
    var err, b := mb.ReadMem(2);
    var sq := ReadWord16(mb);
    assert mb.Rest() == s[4..];
    var ts := ReadWord32(mb);
    assert mb.Rest() == s[8..];
    var ssrc := ReadWord32(mb);
    assert b[0] == s[0] && b[1] == s[1] && mb.Rest() == s[HEADER_SIZE..];
    cc := (b[0] % 16) as nat;
    h := Rtp((b[0] / 64) as nat, b[0] / 32 % 2 == 1, b[0] / 16 % 2 == 1, b[1] / 128 == 1, (b[1] % 128) as nat, sq, ts, ssrc, []);
  }

  /** rtp_decode */
  method ReadHeader(mb: Mbuf) returns (r: Option<(Rtp, U16, U16)>)
    requires mb.Valid() && mb.pos <= mb.end
    modifies mb`pos
    ensures mb.Valid()
    ensures match Parse(old(mb.Rest()))
            case Bad => r == None
            case Parsed(h, xtype, xlen, rest) => r == Some((h, xtype, xlen)) && mb.Rest() == rest
    ensures r.Some? ==> old(mb.pos) <= mb.pos <= mb.end
  {
    if mb.Left() < HEADER_SIZE {
      return None;
    }
    var h, cc := ReadFixed(mb);
    if mb.Left() < 4 * cc {
      return None;
    }
    ghost var t := mb.Rest();
    var csrc := ReadWords32(mb, cc);
    assert mb.Rest() == t[4 * cc..];
    r := ReadExtension(mb, h.(csrc := csrc));
    if r.Some? && r.value.0.ver != VERSION {
      return None;
    }
  }
}
