/**
 The start-code scanner of baresip/src/h264.c.

 The scanner looks for the three bytes 00 00 01 in an H.264 byte stream.  It runs three loops:
 a byte loop up to the next word boundary, a loop that loads one aligned 32-bit word at a time and
 skips four positions when a bit trick finds no zero byte in it, and a byte loop over the tail.
 The specification is the naive search.
 */
module H264Startcode {

  type Byte = bv8

  /** 00 00 01 at position i. */
  predicate Code(buf: seq<Byte>, i: int) {
    0 <= i && i + 2 < |buf| && buf[i] == 0 && buf[i + 1] == 0 && buf[i + 2] == 1
  }

  /** A start code the scanner reports: at least one byte before end follows it. */
  predicate StartcodeAt(buf: seq<Byte>, i: int, end: int) {
    0 <= i && i + 3 < end <= |buf| && Code(buf, i)
  }

  /** r is what the naive scan of buf[p..end] returns: the least start code, or end if there is none. */
  ghost predicate IsFirstStartcode(buf: seq<Byte>, p: int, end: int, r: int) {
    && p <= r <= end
    && (r < end ==> StartcodeAt(buf, r, end))
    && forall i :: p <= i < r ==> !StartcodeAt(buf, i, end)
  }

  /** The naive scan, as a function. */
  function FindStartcode(buf: seq<Byte>, p: nat, end: nat): (r: nat)
    requires p <= end <= |buf|
    ensures IsFirstStartcode(buf, p, end, r)
    decreases end - p
  {
    if p == end then end
    else if StartcodeAt(buf, p, end) then p
    else FindStartcode(buf, p + 1, end)
  }

  /** Positions without a start code can be skipped. */
  lemma SkipTo(buf: seq<Byte>, p: nat, q: nat, end: nat)
    requires p <= q <= end <= |buf|
    requires forall i :: p <= i < q ==> !StartcodeAt(buf, i, end)
    ensures FindStartcode(buf, p, end) == FindStartcode(buf, q, end)
    decreases q - p
  {
    if p < q {
      SkipTo(buf, p + 1, q, end);
    }
  }

  /** IsFirstStartcode determines the result, so the naive scan is its only solution. */
  lemma FirstStartcodeUnique(buf: seq<Byte>, p: nat, end: nat, r: nat)
    requires p <= end <= |buf|
    requires IsFirstStartcode(buf, p, end, r)
    ensures r == FindStartcode(buf, p, end)
  {
    SkipTo(buf, p, r, end);
  }

  /** The 32-bit word stored at p, in either byte order. */
  function Word(b0: Byte, b1: Byte, b2: Byte, b3: Byte, bigEndian: bool): bv32 {
    if bigEndian
    then ((b0 as bv32) << 24) | ((b1 as bv32) << 16) | ((b2 as bv32) << 8) | (b3 as bv32)
    else ((b3 as bv32) << 24) | ((b2 as bv32) << 16) | ((b1 as bv32) << 8) | (b0 as bv32)
  }

  /** An aligned load: the address of buf[p] is a multiple of four. */
  function LoadWord(buf: seq<Byte>, base: nat, p: nat, bigEndian: bool): bv32
    requires p + 4 <= |buf|
    requires (base + p) % 4 == 0
  {
    Word(buf[p], buf[p + 1], buf[p + 2], buf[p + 3], bigEndian)
  }

  /** The bit test of the word loop. */
  function ZeroByteTest(x: bv32): bv32 {
    (x - 0x01010101) & !x & 0x80808080
  }

  lemma ZeroByteTestLittleEndian(b0: Byte, b1: Byte, b2: Byte, b3: Byte)
    ensures ZeroByteTest(Word(b0, b1, b2, b3, false)) != 0
            <==> (b0 == 0 || b1 == 0 || b2 == 0 || b3 == 0)
  {
  }

  /** The bit test is non-zero exactly when one of the four bytes is zero, in both byte orders. */
  lemma ZeroByteTestExact(b0: Byte, b1: Byte, b2: Byte, b3: Byte, bigEndian: bool)
    ensures ZeroByteTest(Word(b0, b1, b2, b3, bigEndian)) != 0
            <==> (b0 == 0 || b1 == 0 || b2 == 0 || b3 == 0)
  {
    if bigEndian {
      ZeroByteTestLittleEndian(b3, b2, b1, b0);
    } else {
      ZeroByteTestLittleEndian(b0, b1, b2, b3);
    }
  }

  /** A word without a zero byte rules out a start code at each of its four positions. */
  lemma SkipWord(buf: seq<Byte>, base: nat, p: nat, end: nat, bigEndian: bool)
    requires p + 6 < end <= |buf|
    requires (base + p) % 4 == 0
    requires ZeroByteTest(LoadWord(buf, base, p, bigEndian)) == 0
    ensures FindStartcode(buf, p, end) == FindStartcode(buf, p + 4, end)
  {
    ZeroByteTestExact(buf[p], buf[p + 1], buf[p + 2], buf[p + 3], bigEndian);
    SkipTo(buf, p, p + 4, end);
  }

  /** The offset of a start code that begins in the word at p, by the tests of the source; 4 if none. */
  function WordOffset(buf: seq<Byte>, p: nat): (k: nat)
    requires p + 6 < |buf|
  {
    if buf[p + 1] == 0 && buf[p] == 0 && buf[p + 2] == 1 then 0
    else if buf[p + 1] == 0 && buf[p + 2] == 0 && buf[p + 3] == 1 then 1
    else if buf[p + 3] == 0 && buf[p + 2] == 0 && buf[p + 4] == 1 then 2
    else if buf[p + 3] == 0 && buf[p + 4] == 0 && buf[p + 5] == 1 then 3
    else 4
  }

  /** The four tests find the first start code that begins in the word, or rule all four positions out. */
  lemma WordOffsetExact(buf: seq<Byte>, p: nat, end: nat)
    requires p + 6 < end <= |buf|
    ensures var k := WordOffset(buf, p);
            FindStartcode(buf, p, end) == if k < 4 then p + k else FindStartcode(buf, p + 4, end)
  {
    var k := WordOffset(buf, p);
    SkipTo(buf, p, p + k, end);
  }

  /**
   The scanner as coded.  base is the address of buf[0], so base + p is the pointer p of the source;
   only its residue modulo four matters.  start and limit are its two pointer arguments as offsets.
   */
  method ScanStartcode(buf: seq<Byte>, base: nat, start: nat, limit: nat, bigEndian: bool) returns (r: nat)
    requires start <= limit <= |buf|
    ensures r == FindStartcode(buf, start, limit)
    ensures IsFirstStartcode(buf, start, limit, r)
  {
    var p := start;
    var a := p + 4 - (base + p) % 4;
    var end: int := limit - 3;

    while p < a && p < end
      invariant start <= p <= limit && p <= a
      invariant FindStartcode(buf, p, limit) == FindStartcode(buf, start, limit)
    {
      if buf[p] == 0 && buf[p + 1] == 0 && buf[p + 2] == 1 {
        return p;
      }
      p := p + 1;
    }

    end := end - 3;
    while p < end
      invariant start <= p <= limit && end == limit - 6
      invariant p < end ==> (base + p) % 4 == 0
      invariant FindStartcode(buf, p, limit) == FindStartcode(buf, start, limit)
    {
      WordOffsetExact(buf, p, limit);
      if ZeroByteTest(LoadWord(buf, base, p, bigEndian)) != 0 {
        if buf[p + 1] == 0 {
          if buf[p] == 0 && buf[p + 2] == 1 {
            return p;
          }
          if buf[p + 2] == 0 && buf[p + 3] == 1 {
            return p + 1;
          }
        }
        if buf[p + 3] == 0 {
          if buf[p + 2] == 0 && buf[p + 4] == 1 {
            return p + 2;
          }
          if buf[p + 4] == 0 && buf[p + 5] == 1 {
            return p + 3;
          }
        }
      } else {
        SkipWord(buf, base, p, limit, bigEndian);
      }
      p := p + 4;
    }

    end := end + 3;
    while p < end
      invariant start <= p <= limit && end == limit - 3
      invariant FindStartcode(buf, p, limit) == FindStartcode(buf, start, limit)
    {
      if buf[p] == 0 && buf[p + 1] == 0 && buf[p + 2] == 1 {
        return p;
      }
      p := p + 1;
    }

    SkipTo(buf, p, limit, limit);
    return limit;
  }
}
