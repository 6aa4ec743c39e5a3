/**
 One-byte RTP header extensions (section 4.2 of RFC 5285): baresip/src/rtpext.c and the loop of
 handle_rtp in baresip/src/stream.c, on the memory buffer of re/src/mbuf/mbuf.c.
 */
module RtpExtension {
  import opened Common

  newtype Byte = x: int | 0 <= x < 256

  const ID_MIN: int := 1
  const ID_MAX: int := 14
  const LEN_MIN: int := 1
  const LEN_MAX: int := 16
  const MAGIC := 0xbede
  const EXT_MAX := 8
  const DEFAULT_SIZE := 512

  datatype Err = Ok | EINVAL | EBADMSG | ENODATA | EOVERFLOW

  /** An extension element; its length field in struct rtpext has four bits. */
  datatype Ext = Ext(id: int, data: seq<Byte>)

  /** What the encoder accepts. */
  predicate Encodable(e: Ext) { 1 <= e.id <= 14 && 1 <= |e.data| <= 16 }

  // ---------------------------------------------------------------- byte level

  function HeaderId(b: Byte): int { b as int / 16 }

  /** The length as the four-bit field holds it: sixteen becomes zero. */
  function HeaderLen(b: Byte): (len: nat) { (b as int % 16 + 1) % 16 }

  /** The first byte of an element: identifier in the high half, length - 1 in the low half. */
  function HeaderByte(id: int, len: int): (b: Byte)
    requires ID_MIN <= id <= ID_MAX && LEN_MIN <= len <= LEN_MAX
    ensures b != 0 && HeaderId(b) == id && HeaderLen(b) == len % 16
  {
    (id * 16 + len - 1) as Byte
  }

  function Zeros(n: nat): (z: seq<Byte>)
    ensures |z| == n
  {
    if n == 0 then [] else Zeros(n - 1) + [0]
  }

  /** Bytes up to the next multiple of four. */
  function PadLen(n: nat): (k: nat)
    ensures k < 4 && (n + k) % 4 == 0
  {
    (4 - n % 4) % 4
  }

  /** The size of an encoded element in 32-bit words. */
  function Words(e: Ext): (w: nat)
    ensures w >= 1 && 4 * w == 1 + |e.data| + PadLen(1 + |e.data|)
  {
    |e.data| / 4 + 1
  }

  /** An encoded element: identifier and length - 1 in one byte, the data, zeros up to a multiple of four. */
  function Encode(e: Ext): (s: seq<Byte>)
    requires Encodable(e)
    ensures |s| == 4 * Words(e) && s[0] == HeaderByte(e.id, |e.data|)
  {
    [HeaderByte(e.id, |e.data|)] + e.data + Zeros(PadLen(1 + |e.data|))
  }

  predicate AllEncodable(es: seq<Ext>) { forall i :: 0 <= i < |es| ==> Encodable(es[i]) }

  function EncodeAll(es: seq<Ext>): (s: seq<Byte>)
    requires AllEncodable(es)
    ensures es != [] ==> s != [] && s[0] != 0
  {
    if es == [] then [] else Encode(es[0]) + EncodeAll(es[1..])
  }

  function SkipZeros(s: seq<Byte>): (r: seq<Byte>)
    ensures |r| <= |s|
  {
    if s != [] && s[0] == 0 then SkipZeros(s[1..]) else s
  }

  datatype Decoded = Failed(err: Err) | Element(ext: Ext, rest: seq<Byte>)

  /** rtpext_decode on the bytes left in the buffer. */
  function Decode(s: seq<Byte>): (d: Decoded)
    ensures d.Element? ==> |d.rest| < |s|
  {
    if s == [] then Failed(EBADMSG)
    else
      var id := HeaderId(s[0]);
      var len := HeaderLen(s[0]);
      if id < ID_MIN || id > ID_MAX then Failed(EBADMSG)
      else if len > |s| - 1 then Failed(ENODATA)
      else Element(Ext(id, s[1..1 + len]), SkipZeros(s[1 + len..]))
  }

  function Cons(e: Ext, r: Option<seq<Ext>>): Option<seq<Ext>> {
    match r
    case None => None
    case Some(ds) => Some([e] + ds)
  }

  /** The decoding loop with room for n more elements; None if an element is malformed. */
  function DecodeUpTo(s: seq<Byte>, n: nat): (r: Option<seq<Ext>>)
    ensures r.Some? ==> |r.value| <= n
    decreases |s|
  {
    if n == 0 || s == [] then Some([])
    else
      match Decode(s)
      case Failed(_) => None
      case Element(e, rest) =>
        Cons(e, DecodeUpTo(rest, n - 1))
  }

  lemma {:induction false} ZerosFront(k: nat, t: seq<Byte>)
    requires k > 0
    ensures (Zeros(k) + t)[0] == 0 && (Zeros(k) + t)[1..] == Zeros(k - 1) + t
    decreases k
  {
    if k > 1 {
      ZerosFront(k - 1, [0] + t);
      assert Zeros(k) + t == Zeros(k - 1) + ([0] + t);
      assert Zeros(k - 1) + t == Zeros(k - 2) + ([0] + t);
    }
  }

  /** The padding skip ends in front of the next element, whose first byte is never zero. */
  lemma {:induction false} SkipZerosStopsAtHeader(k: nat, t: seq<Byte>)
    requires t == [] || t[0] != 0
    ensures SkipZeros(Zeros(k) + t) == t
    decreases k
  {
    if k == 0 {
      assert Zeros(0) + t == t;
    } else {
      ZerosFront(k, t);
      SkipZerosStopsAtHeader(k - 1, t);
    }
  }

  lemma {:induction false} DecodeShape(b: Byte, data: seq<Byte>, rest: seq<Byte>)
    requires ID_MIN <= HeaderId(b) <= ID_MAX && HeaderLen(b) == |data|
    ensures Decode([b] + data + rest) == Element(Ext(HeaderId(b), data), SkipZeros(rest))
  {
    var s := [b] + data + rest;
    assert s[0] == b;
    assert s[1..1 + |data|] == data;
    assert s[1 + |data|..] == rest;
  }

  lemma AppendAssociates(a: seq<Byte>, b: seq<Byte>, c: seq<Byte>)
    ensures a + b + c == a + (b + c)
  {
  }

  /** Behind any further elements, an element whose length fits in four bits is read back, however much padding follows. */
  lemma {:induction false} DecodePadded(e: Ext, k: nat, t: seq<Byte>)
    requires Encodable(e) && |e.data| <= 15 && (t == [] || t[0] != 0)
    ensures Decode([HeaderByte(e.id, |e.data|)] + e.data + Zeros(k) + t) == Element(e, t)
  {
    var b := HeaderByte(e.id, |e.data|);
    AppendAssociates([b] + e.data, Zeros(k), t);
    DecodeShape(b, e.data, Zeros(k) + t);
    SkipZerosStopsAtHeader(k, t);
  }

  lemma {:induction false} DecodeShort(e: Ext, t: seq<Byte>)
    requires Encodable(e) && |e.data| <= 15 && (t == [] || t[0] != 0)
    ensures Decode(Encode(e) + t) == Element(e, t)
  {
    DecodePadded(e, PadLen(1 + |e.data|), t);
  }

  /** An element of sixteen bytes is read back without its data. */
  lemma {:induction false} DecodeLong(e: Ext, t: seq<Byte>)
    requires Encodable(e) && |e.data| == 16
    ensures Decode(Encode(e) + t).Element? && Decode(Encode(e) + t).ext == Ext(e.id, [])
  {
    var b, pad := HeaderByte(e.id, 16), Zeros(PadLen(1 + |e.data|));
    AppendAssociates([b], e.data, pad);
    AppendAssociates([b], e.data + pad, t);
    assert [b] + [] == [b];
    DecodeShape(b, [], e.data + pad + t);
  }

  predicate Short(es: seq<Ext>) { forall i :: 0 <= i < |es| ==> |es[i].data| <= 15 }

  predicate RoundTrips(es: seq<Ext>, n: nat) { |es| <= n && Short(es) }

  lemma HeadAndTail(es: seq<Ext>, e: Ext, r: Option<seq<Ext>>)
    requires es != []
    ensures Cons(e, r) == Some(es) <==> e == es[0] && r == Some(es[1..])
  {
    if r.Some? {
      assert ([e] + r.value)[0] == e && ([e] + r.value)[1..] == r.value;
      assert es == [es[0]] + es[1..];
    }
  }

  lemma TailRoundTrips(es: seq<Ext>, n: nat)
    requires es != [] && n > 0
    ensures RoundTrips(es, n) <==> |es[0].data| <= 15 && RoundTrips(es[1..], n - 1)
  {
    if |es[0].data| <= 15 && RoundTrips(es[1..], n - 1) {
      forall i | 0 <= i < |es| ensures |es[i].data| <= 15 {
        if i > 0 {
          assert es[i] == es[1..][i - 1];
        }
      }
    }
  }

  /** Decoding the encoded list gives it back. */
  ghost predicate ComesBack(es: seq<Ext>, n: nat)
    requires AllEncodable(es)
  {
    DecodeUpTo(EncodeAll(es), n) == Some(es)
  }

  lemma NothingComesBack(es: seq<Ext>, n: nat)
    requires AllEncodable(es) && (es == [] || n == 0)
    ensures ComesBack(es, n) <==> RoundTrips(es, n)
  {
  }

  /** An encoded list comes back if its first element and the list of the others do. */
  lemma {:induction false} FirstComesBack(es: seq<Ext>, n: nat)
    requires AllEncodable(es) && es != [] && n > 0
    ensures ComesBack(es, n) <==> |es[0].data| <= 15 && ComesBack(es[1..], n - 1)
  {
    var t := EncodeAll(es[1..]);
    var d := Decode(Encode(es[0]) + t);
    if |es[0].data| <= 15 {
      DecodeShort(es[0], t);
    } else {
      DecodeLong(es[0], t);
    }
    HeadAndTail(es, d.ext, DecodeUpTo(d.rest, n - 1));
  }

  lemma ListStep(es: seq<Ext>, n: nat)
    requires AllEncodable(es) && es != [] && n > 0 && AllEncodable(es[1..])
    requires ComesBack(es[1..], n - 1) <==> RoundTrips(es[1..], n - 1)
    ensures ComesBack(es, n) <==> RoundTrips(es, n)
  {
    FirstComesBack(es, n);
    TailRoundTrips(es, n);
  }

  /** Decoding an encoded list gives it back if and only if it fits and every length fits in four bits. */
  lemma {:induction false} ListRoundTrip(es: seq<Ext>, n: nat)
    requires AllEncodable(es)
    ensures ComesBack(es, n) <==> RoundTrips(es, n)
    decreases |es|
  {
    if es == [] || n == 0 {
      NothingComesBack(es, n);
    } else {
      ListRoundTrip(es[1..], n - 1);
      ListStep(es, n);
    }
  }

  // ---------------------------------------------------------------- the buffer

  /** The contents of a struct mbuf; its size is |buf|. */
  datatype Buffer = Buffer(buf: seq<Byte>, pos: nat, end: nat) {
    predicate Valid() { pos <= |buf| && end <= |buf| }
  }

  /** From a to b the data was written at the position: the bytes before and behind it are kept, the end moves if need be. */
  ghost predicate Wrote(a: Buffer, b: Buffer, data: seq<Byte>)
    requires a.Valid()
  {
    && b.Valid() && b.pos == a.pos + |data| && b.end == (if b.pos > a.end then b.pos else a.end)
    && b.buf[..b.pos] == a.buf[..a.pos] + data
    && |a.buf| <= |b.buf| && forall i :: b.pos <= i < |a.buf| ==> b.buf[i] == a.buf[i]
  }

  lemma WroteTwice(a: Buffer, b: Buffer, c: Buffer, x: seq<Byte>, y: seq<Byte>)
    requires a.Valid() && Wrote(a, b, x) && Wrote(b, c, y)
    ensures Wrote(a, c, x + y)
  {
    AppendAssociates(a.buf[..a.pos], x, y);
  }

  /** struct mbuf */
  class Mbuf {
    var buf: seq<Byte>
    var pos: nat
    var end: nat

    ghost function Abs(): Buffer
      reads this
    {
      Buffer(buf, pos, end)
    }

    ghost predicate Valid()
      reads this
    {
      Abs().Valid()
    }

    constructor (content: seq<Byte>, position: nat)
      requires position <= |content|
      ensures Valid() && Abs() == Buffer(content, position, |content|)
    {
      buf, pos, end := content, position, |content|;
    }

    /** mbuf_get_left */
    function Left(): nat
      reads this
    {
      if end > pos then end - pos else 0
    }

    /** The bytes from the position to the end. */
    function Rest(): (s: seq<Byte>)
      requires Valid()
      reads this
      ensures |s| == Left()
    {
      if end > pos then buf[pos..end] else []
    }

    /** mbuf_write_mem: a buffer that is too small grows, by bytes of unspecified content. */
    method Write(data: seq<Byte>)
      requires Valid()
      modifies this
      ensures Valid() && Wrote(old(Abs()), Abs(), data)
    {
      var rsize := pos + |data|;
      if rsize > |buf| {
        var dsize := if |buf| > 0 then 2 * |buf| else DEFAULT_SIZE;
        buf := buf + Zeros((if rsize > dsize then rsize else dsize) - |buf|);
      }
      buf := buf[..pos] + data + buf[rsize..];
      pos := rsize;
      if pos > end {
        end := pos;
      }
    }

    /** mbuf_read_mem */
    method ReadMem(n: nat) returns (err: Err, data: seq<Byte>)
      requires Valid()
      modifies `pos
      ensures Valid() && err == if n <= old(Left()) then Ok else EOVERFLOW
      ensures err == Ok ==> data == old(Rest())[..n] && pos == old(pos) + n && Rest() == old(Rest())[n..]
      ensures err != Ok ==> data == [] && pos == old(pos)
    {
      if n > Left() {
        return EOVERFLOW, [];
      }
      data := buf[pos..pos + n];
      pos := pos + n;
      return Ok, data;
    }

    /** mbuf_read_u8: 0 at the end of the buffer */
    method ReadU8() returns (v: Byte)
      requires Valid()
      modifies `pos
      ensures Valid()
      ensures old(Left()) == 0 ==> v == 0 && pos == old(pos)
      ensures old(Left()) > 0 ==> v == old(Rest())[0] && pos == old(pos) + 1 && Rest() == old(Rest())[1..]
    {
      var err, data := ReadMem(1);
      v := if err == Ok then data[0] else 0;
    }
  }

  // ---------------------------------------------------------------- the operations

  function WordCount(numBytes: nat): (w: nat)
    ensures w < 0x1_0000
  {
    numBytes / 4 % 0x1_0000
  }

  function Header(numBytes: nat): seq<Byte> {
    [0xbe, 0xde, (WordCount(numBytes) / 256) as Byte, (WordCount(numBytes) % 256) as Byte]
  }

  method WriteBoth(mb: Mbuf, x: seq<Byte>, y: seq<Byte>)
    requires mb.Valid()
    modifies mb
    ensures mb.Valid() && Wrote(old(mb.Abs()), mb.Abs(), x + y)
  {
    ghost var a := mb.Abs();
    mb.Write(x);
    ghost var b := mb.Abs();
    mb.Write(y);
    WroteTwice(a, b, mb.Abs(), x, y);
  }

  /** rtpext_hdr_encode, in network byte order */
  method HdrEncode(mb: Mbuf, numBytes: nat) returns (err: Err)
    requires mb.Valid()
    modifies mb
    ensures err == (if numBytes == 0 || numBytes % 4 != 0 then EINVAL else Ok)
    ensures if err == Ok then Wrote(old(mb.Abs()), mb.Abs(), Header(numBytes)) else mb.Abs() == old(mb.Abs())
    ensures mb.Valid()
  {
    if numBytes == 0 || numBytes % 4 != 0 {
      return EINVAL;
    }
    var words := WordCount(numBytes);
    WriteBoth(mb, [0xbe, 0xde], [(words / 256) as Byte, (words % 256) as Byte]);
    return Ok;
  }

  /** Zeros until the length written since start is a multiple of four. */
  method Pad(mb: Mbuf, start: nat)
    requires mb.Valid() && start <= mb.pos <= mb.end
    modifies mb
    ensures mb.Valid() && Wrote(old(mb.Abs()), mb.Abs(), Zeros(PadLen(old(mb.pos) - start)))
  {
    ghost var a, n := mb.Abs(), 0;
    while (mb.pos - start) % 4 != 0
      invariant mb.Valid() && mb.pos == a.pos + n && n <= PadLen(a.pos - start)
      invariant Wrote(a, mb.Abs(), Zeros(n))
      decreases PadLen(a.pos - start) - n
    {
      ghost var b := mb.Abs();
      mb.Write([0]);
      WroteTwice(a, b, mb.Abs(), Zeros(n), [0]);
      n := n + 1;
    }
  }

  /** rtpext_encode */
  method EncodeElement(mb: Mbuf, id: nat, data: seq<Byte>) returns (err: Err)
    requires mb.Valid()
    modifies mb
    ensures err == (if Encodable(Ext(id, data)) then Ok else EINVAL)
    ensures if err == Ok then Wrote(old(mb.Abs()), mb.Abs(), Encode(Ext(id, data))) else mb.Abs() == old(mb.Abs())
    ensures mb.Valid()
  {
    if id < ID_MIN || id > ID_MAX {
      return EINVAL;
    }
    if |data| < LEN_MIN || |data| > LEN_MAX {
      return EINVAL;
    }
    var start := mb.pos;
    ghost var a := mb.Abs();
    WriteBoth(mb, [HeaderByte(id, |data|)], data);
    ghost var b := mb.Abs();
    Pad(mb, start);
    WroteTwice(a, b, mb.Abs(), [HeaderByte(id, |data|)] + data, Zeros(PadLen(1 + |data|)));
    return Ok;
  }

  /** The loop behind an element: step over zeros. */
  method SkipPadding(mb: Mbuf)
    requires mb.Valid() && mb.pos <= mb.end
    modifies mb`pos
    ensures mb.Valid() && old(mb.pos) <= mb.pos <= mb.end
    ensures mb.Rest() == SkipZeros(old(mb.Rest()))
  {
    while mb.Left() > 0
      invariant mb.Valid() && old(mb.pos) <= mb.pos <= mb.end
      invariant SkipZeros(mb.Rest()) == SkipZeros(old(mb.Rest()))
      decreases mb.Left()
    {
      var pad := mb.buf[mb.pos];
      if pad != 0 {
        break;
      }
      ghost var r := mb.Rest();
      mb.pos := mb.pos + 1;
      assert mb.Rest() == r[1..];
    }
  }

  /** rtpext_decode: a full element also takes the zeros behind it. */
  method DecodeElement(mb: Mbuf) returns (d: Option<Ext>, err: Err)
    requires mb.Valid()
    modifies mb`pos
    ensures mb.Valid() && old(mb.pos) <= mb.pos && (old(mb.pos) <= mb.end ==> mb.pos <= mb.end)
    ensures match Decode(old(mb.Rest()))
            case Failed(e) => d == None && err == e
            case Element(ext, rest) => d == Some(ext) && err == Ok && mb.Rest() == rest
  {
    if mb.Left() < 1 {
      return None, EBADMSG;
    }
    ghost var s := mb.Rest();
    var v := mb.ReadU8();
    var id := HeaderId(v);
    var len := HeaderLen(v);
    if id < ID_MIN || id > ID_MAX {
      return None, EBADMSG;
    }
    if len > mb.Left() {
      return None, ENODATA;
    }
    var overrun, data := mb.ReadMem(len);
    if overrun != Ok {
      return None, overrun;
    }
    assert data == s[1..1 + len] && mb.Rest() == s[1 + len..];
    SkipPadding(mb);
    return Some(Ext(id, data)), Ok;
  }

  datatype Outcome = Dropped | Delivered(exts: seq<Ext>)

  /** What handle_rtp hands to the media handler, for an extension of xlen words in front of the position. */
  function Handle(buf: seq<Byte>, pos: nat, hasExt: bool, xtype: nat, xlen: nat): Outcome
    requires pos <= |buf|
  {
    if !hasExt || xlen == 0 || xtype != MAGIC then Delivered([])
    else if pos < xlen * 4 then Dropped
    else
      match DecodeUpTo(buf[pos - xlen * 4..pos], EXT_MAX)
      case None => Dropped
      case Some(es) => Delivered(es)
  }

  ghost function Prepend(a: seq<Ext>, r: Option<seq<Ext>>): Option<seq<Ext>> {
    match r
    case None => None
    case Some(es) => Some(a + es)
  }

  lemma PrependNothing(r: Option<seq<Ext>>)
    ensures Prepend([], r) == r
  {
    if r.Some? {
      assert [] + r.value == r.value;
    }
  }

  lemma {:induction false} PrependStep(a: seq<Ext>, s: seq<Byte>, n: nat)
    requires n > 0 && Decode(s).Element?
    ensures Prepend(a, DecodeUpTo(s, n)) == Prepend(a + [Decode(s).ext], DecodeUpTo(Decode(s).rest, n - 1))
  {
    var r := DecodeUpTo(Decode(s).rest, n - 1);
    if r.Some? {
      assert a + ([Decode(s).ext] + r.value) == (a + [Decode(s).ext]) + r.value;
    }
  }

  /** The loop of handle_rtp: at most eight elements, as long as bytes are left. */
  method DecodeAll(mb: Mbuf) returns (r: Option<seq<Ext>>)
    requires mb.Valid() && mb.pos <= mb.end
    modifies mb`pos
    ensures mb.Valid() && r == DecodeUpTo(old(mb.Rest()), EXT_MAX)
  {
    ghost var s := mb.Rest();
    var extv: seq<Ext> := [];
    var i := 0;
    PrependNothing(DecodeUpTo(s, EXT_MAX));
    while i < EXT_MAX && mb.Left() > 0
      invariant mb.Valid() && mb.pos <= mb.end && 0 <= i <= EXT_MAX
      invariant Prepend(extv, DecodeUpTo(mb.Rest(), EXT_MAX - i)) == DecodeUpTo(s, EXT_MAX)
      decreases EXT_MAX - i
    {
      ghost var left := mb.Rest();
      var d, err := DecodeElement(mb);
      if err != Ok {
        return None;
      }
      PrependStep(extv, left, EXT_MAX - i);
      extv := extv + [d.value];
      i := i + 1;
    }
    assert DecodeUpTo(mb.Rest(), EXT_MAX - i) == Some([]);
    assert extv + [] == extv;
    return Some(extv);
  }

  /** handle_rtp: the buffer is lent to the decoder and, unless the packet is dropped, restored. */
  method HandleRtp(mb: Mbuf, hasExt: bool, xtype: nat, xlen: nat) returns (r: Outcome)
    requires mb.Valid() && mb.pos <= mb.end
    modifies mb`pos, mb`end
    ensures r == Handle(mb.buf, old(mb.pos), hasExt, xtype, xlen)
    ensures r.Delivered? ==> mb.pos == old(mb.pos) && mb.end == old(mb.end)
  {
    if !(hasExt && xlen != 0) {
      return Delivered([]);
    }
    var pos, end := mb.pos, mb.end;
    if xtype != MAGIC {
      return Delivered([]);
    }
    var extLen := xlen * 4;
    if mb.pos < extLen {
      return Dropped;
    }
    mb.pos, mb.end := mb.pos - extLen, pos;
    assert mb.Rest() == mb.buf[pos - extLen..pos];
    var extv := DecodeAll(mb);
    if extv == None {
      return Dropped;
    }
    mb.pos, mb.end := pos, end;
    return Delivered(extv.value);
  }

  // ---------------------------------------------------------------- what is dropped, told by the bytes

  /** The number of data bytes behind a first byte: the low half plus one, except that sixteen counts as none. */
  function DataLength(b: Byte): (n: nat) { if b % 16 == 15 then 0 else (b % 16) as nat + 1 }

  /** The first element has identifier 0 or 15, or fewer bytes than its first one announces. */
  predicate Malformed(s: seq<Byte>) {
    s != [] && (s[0] < 16 || s[0] >= 240 || |s| <= DataLength(s[0]))
  }

  /** What follows the first element and the zeros behind it. */
  function Behind(s: seq<Byte>): (r: seq<Byte>)
    requires s != [] && !Malformed(s)
    ensures |r| < |s|
  {
    SkipZeros(s[1 + DataLength(s[0])..])
  }

  /** One of the first n elements is malformed. */
  predicate MalformedWithin(s: seq<Byte>, n: nat)
    decreases |s|
  {
    n > 0 && s != [] && (Malformed(s) || MalformedWithin(Behind(s), n - 1))
  }

  /** The first n elements, if there are as many. */
  function Elements(s: seq<Byte>, n: nat): seq<Ext>
    requires !MalformedWithin(s, n)
    decreases |s|
  {
    if n == 0 || s == [] then []
    else [Ext((s[0] / 16) as int, s[1..1 + DataLength(s[0])])] + Elements(Behind(s), n - 1)
  }

  lemma HeaderFields(b: Byte)
    ensures HeaderId(b) == (b / 16) as int && HeaderLen(b) == DataLength(b)
    ensures b < 16 || b >= 240 <==> HeaderId(b) < 1 || HeaderId(b) > 14
  {
  }

  /** An element is read exactly when it is not malformed; identifier and length have errors of their own. */
  lemma DecodeExactly(s: seq<Byte>)
    ensures Decode(s).Failed? <==> s == [] || Malformed(s)
    ensures Decode(s) == Failed(ENODATA) <==> s != [] && 16 <= s[0] < 240 && |s| <= DataLength(s[0])
    ensures Decode(s).Failed? ==> Decode(s).err in {EBADMSG, ENODATA}
    ensures Decode(s).Element? ==> Decode(s) == Element(Ext((s[0] / 16) as int, s[1..1 + DataLength(s[0])]), Behind(s))
  {
    if s != [] {
      HeaderFields(s[0]);
    }
  }

  lemma {:induction false} DecodeUpToExactly(s: seq<Byte>, n: nat)
    ensures DecodeUpTo(s, n) == if MalformedWithin(s, n) then None else Some(Elements(s, n))
    decreases |s|
  {
    DecodeExactly(s);
    if n > 0 && s != [] && !Malformed(s) {
      DecodeUpToExactly(Behind(s), n - 1);
    }
  }

  /**
   For every packet: it is dropped if and only if it announces a non-empty extension of type 0xbede that reaches back
   before the buffer, or in which one of the first eight elements is malformed.  Otherwise the media handler gets it,
   with the first eight elements if that type is announced and with none if it is not.
   */
  lemma HandleExactly(buf: seq<Byte>, pos: nat, hasExt: bool, xtype: nat, xlen: nat)
    requires pos <= |buf|
    ensures var announced, r := hasExt && xlen > 0 && xtype == 0xbede, Handle(buf, pos, hasExt, xtype, xlen);
            && (r == Dropped <==> announced && (pos < 4 * xlen || MalformedWithin(buf[pos - 4 * xlen..pos], 8)))
            && (r != Dropped ==> r == Delivered(if announced then Elements(buf[pos - 4 * xlen..pos], 8) else []))
  {
    if pos >= 4 * xlen {
      DecodeUpToExactly(buf[pos - 4 * xlen..pos], 8);
    }
  }

  // ---------------------------------------------------------------- sender to receiver

  /** What the media handler gets when x is announced as the extension between before and after. */
  function Received(before: seq<Byte>, x: seq<Byte>, after: seq<Byte>): (r: Outcome)
    ensures r.Delivered? ==> |r.exts| <= EXT_MAX
  {
    Handle(before + x + after, |before + x|, true, MAGIC, WordCount(|x|))
  }

  /** An outcome for what the decoding loop returns. */
  function ToOutcome(r: Option<seq<Ext>>): Outcome {
    match r
    case None => Dropped
    case Some(es) => Delivered(es)
  }

  lemma {:induction false} HandleExtension(before: seq<Byte>, x: seq<Byte>, after: seq<Byte>)
    requires 0 < |x| < 0x4_0000 && |x| % 4 == 0
    ensures Received(before, x, after) == ToOutcome(DecodeUpTo(x, EXT_MAX))
  {
    var buf, pos := before + x + after, |before + x|;
    assert WordCount(|x|) * 4 == |x|;
    assert buf[pos - |x|..pos] == x;
  }

  function TotalWords(es: seq<Ext>): nat {
    if es == [] then 0 else Words(es[0]) + TotalWords(es[1..])
  }

  /** Every element takes a whole number of words, one to five. */
  lemma {:induction false} EncodedLength(es: seq<Ext>)
    requires AllEncodable(es)
    ensures |EncodeAll(es)| == 4 * TotalWords(es) && |es| <= TotalWords(es) <= 5 * |es|
    decreases |es|
  {
    if es == [] {
    } else {
      EncodedLength(es[1..]);
      assert Words(es[0]) <= 5;
    }
  }

  lemma ReceivedExactly(before: seq<Byte>, x: seq<Byte>, after: seq<Byte>, es: seq<Ext>)
    requires 0 < |x| < 0x4_0000 && |x| % 4 == 0
    ensures Received(before, x, after) == Delivered(es) <==> DecodeUpTo(x, EXT_MAX) == Some(es)
  {
    HandleExtension(before, x, after);
  }

  lemma WholeWords(n: nat, w: nat, k: nat)
    requires n == 4 * w && 1 <= k <= w <= 5 * k
    ensures n > 0 && n % 4 == 0 && (k <= EXT_MAX ==> n < 0x4_0000)
  {
  }

  lemma {:induction false} EncodedSize(es: seq<Ext>)
    requires AllEncodable(es) && es != []
    ensures |EncodeAll(es)| > 0 && |EncodeAll(es)| % 4 == 0 && (|es| <= EXT_MAX ==> |EncodeAll(es)| < 0x4_0000)
  {
    EncodedLength(es);
    WholeWords(|EncodeAll(es)|, TotalWords(es), |es|);
  }

  lemma ManyReceived(before: seq<Byte>, x: seq<Byte>, after: seq<Byte>, es: seq<Ext>)
    requires |es| > EXT_MAX
    ensures Received(before, x, after) != Delivered(es)
  {
    var r := Received(before, x, after);
    assert r.Delivered? ==> |r.exts| <= EXT_MAX;
  }

  lemma FewReceived(before: seq<Byte>, es: seq<Ext>, after: seq<Byte>)
    requires AllEncodable(es) && es != [] && |es| <= EXT_MAX
    ensures Received(before, EncodeAll(es), after) == Delivered(es) <==> RoundTrips(es, EXT_MAX)
  {
    EncodedSize(es);
    ReceivedExactly(before, EncodeAll(es), after, es);
    assert Received(before, EncodeAll(es), after) == Delivered(es) <==> ComesBack(es, EXT_MAX);
    ListRoundTrip(es, EXT_MAX);
  }

  /**
   Sender to receiver: a non-empty list that the encoder accepts is announced by a header the header
   encoder never rejects, and the media handler gets the same list if and only if there are at most eight
   elements and none has sixteen bytes.
   */
  lemma {:induction false} ExtensionRoundTrip(before: seq<Byte>, es: seq<Ext>, after: seq<Byte>)
    requires AllEncodable(es) && es != []
    ensures |EncodeAll(es)| > 0 && |EncodeAll(es)| % 4 == 0
    ensures Received(before, EncodeAll(es), after) == Delivered(es) <==> RoundTrips(es, 8)
  {
    EncodedSize(es);
    if |es| <= EXT_MAX {
      FewReceived(before, es, after);
    } else {
      ManyReceived(before, EncodeAll(es), after, es);
    }
  }
}
