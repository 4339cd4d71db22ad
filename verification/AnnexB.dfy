/** Byte streams with start codes (Annex B of ITU-T H.264): the fast scan, and the cut into NAL units. */
module AnnexB {
  import opened Bytes

  /** 00 00 01 at i. */
  predicate CodeAt(b: seq<byte>, i: nat) {
    i + 3 <= |b| && b[i] == 0 && b[i + 1] == 0 && b[i + 2] == 1
  }

  /** The first start code at or behind p that has something behind it, or else the end. */
  function NextCode(b: seq<byte>, p: nat, end: nat): (r: nat)
    requires p <= end <= |b|
    ensures p <= r <= end && (r < end ==> r + 3 < end && CodeAt(b, r))
    ensures forall i {:trigger CodeAt(b, i)} :: p <= i < r && i + 3 < end ==> !CodeAt(b, i)
    decreases end - p
  {
    if p + 3 >= end then end else if CodeAt(b, p) then p else NextCode(b, p + 1, end)
  }

  /** Two positions with no start code in between have the same next start code. */
  lemma {:induction false} NextCodeSkips(b: seq<byte>, p: nat, q: nat, end: nat)
    requires p <= q <= end <= |b| && forall i {:trigger CodeAt(b, i)} :: p <= i < q ==> !CodeAt(b, i)
    ensures NextCode(b, p, end) == NextCode(b, q, end)
    decreases q - p
  {
    if p < q && p + 3 < end {
      NextCodeSkips(b, p + 1, q, end);
    }
  }

  // ---------------------------------------------------------------- the scan

  predicate Bit(v: byte, weight: int)
    requires weight > 0
  {
    v as int / weight % 2 == 1
  }

  function Byte(a: bool, b: bool, c: bool, d: bool, e: bool, f: bool, g: bool, h: bool): bv8 {
    (if a then 128 else 0) | (if b then 64 else 0) | (if c then 32 else 0) | (if d then 16 else 0)
    | (if e then 8 else 0) | (if f then 4 else 0) | (if g then 2 else 0) | (if h then 1 else 0)
  }

  /** The bits of a byte. */
  function Bits(v: byte): bv8 {
    Byte(Bit(v, 128), Bit(v, 64), Bit(v, 32), Bit(v, 16), Bit(v, 8), Bit(v, 4), Bit(v, 2), Bit(v, 1))
  }

  /** Four bytes as a little-endian machine word. */
  function Word(b: seq<byte>, p: nat): bv32
    requires p + 4 <= |b|
  {
    Join(Bits(b[p]), Bits(b[p + 1]), Bits(b[p + 2]), Bits(b[p + 3]))
  }

  function Join(a: bv8, b: bv8, c: bv8, d: bv8): bv32 {
    (a as bv32) | ((b as bv32) << 8) | ((c as bv32) << 16) | ((d as bv32) << 24)
  }

  /** The word test for a zero byte. */
  predicate ZeroTest(x: bv32) {
    (x - 0x0101_0101) & !x & 0x8080_8080 != 0
  }

  lemma {:induction false} ZeroTestBits(a: bv8, b: bv8, c: bv8, d: bv8)
    ensures ZeroTest(Join(a, b, c, d)) <==> a == 0 || b == 0 || c == 0 || d == 0
  {}

  lemma {:induction false} ByteBits(v: byte)
    ensures Bits(v) == 0 <==> v == 0
  {
    Binary(v);
    OrZero(Bit(v, 128), Bit(v, 64), Bit(v, 32), Bit(v, 16), Bit(v, 8), Bit(v, 4), Bit(v, 2), Bit(v, 1));
  }

  lemma {:induction false} Binary(v: byte)
    ensures v == 0 <==> !Bit(v, 128) && !Bit(v, 64) && !Bit(v, 32) && !Bit(v, 16)
                        && !Bit(v, 8) && !Bit(v, 4) && !Bit(v, 2) && !Bit(v, 1)
  {}

  lemma {:induction false} OrZero(a: bool, b: bool, c: bool, d: bool, e: bool, f: bool, g: bool, h: bool)
    ensures Byte(a, b, c, d, e, f, g, h) == 0 <==> !a && !b && !c && !d && !e && !f && !g && !h
  {}

  /** The test finds exactly the words with a zero byte in them. */
  lemma {:induction false} ZeroTestExact(b: seq<byte>, p: nat)
    requires p + 4 <= |b|
    ensures ZeroTest(Word(b, p)) <==> b[p] == 0 || b[p + 1] == 0 || b[p + 2] == 0 || b[p + 3] == 0
  {
    hide ZeroTest, Join;
    ByteBits(b[p]);
    ByteBits(b[p + 1]);
    ByteBits(b[p + 2]);
    ByteBits(b[p + 3]);
    ZeroTestBits(Bits(b[p]), Bits(b[p + 1]), Bits(b[p + 2]), Bits(b[p + 3]));
  }

  /** A word without a zero byte in it, or whose neighbours do not match, holds no start code. */
  lemma {:induction false} NoCodeInWord(b: seq<byte>, p: nat, end: nat)
    requires p + 6 < end <= |b|
    requires !(b[p] == 0 && b[p + 1] == 0 && b[p + 2] == 1) && !(b[p + 1] == 0 && b[p + 2] == 0 && b[p + 3] == 1)
    requires !(b[p + 2] == 0 && b[p + 3] == 0 && b[p + 4] == 1) && !(b[p + 3] == 0 && b[p + 4] == 0 && b[p + 5] == 1)
    ensures NextCode(b, p, end) == NextCode(b, p + 4, end)
  {
    NextCodeSkips(b, p, p + 4, end);
  }

  lemma {:induction false} CodeHere(b: seq<byte>, p: nat, q: nat, end: nat)
    requires p <= q && q + 3 < end <= |b| && CodeAt(b, q) && forall i {:trigger CodeAt(b, i)} :: p <= i < q ==> !CodeAt(b, i)
    ensures NextCode(b, p, end) == q
  {
    NextCodeSkips(b, p, q, end);
  }

  /** One aligned word of a buffer at address base: the position of a start code that begins in it, if any. */
  method ScanWord(b: seq<byte>, p: nat, end: nat, base: nat) returns (r: Option<nat>)
    requires p + 6 < end <= |b| && (base + p) % 4 == 0
    ensures r.Some? ==> NextCode(b, p, end) == r.value
    ensures r.None? ==> NextCode(b, p, end) == NextCode(b, p + 4, end)
  {
    hide Word, ZeroTest, NextCode;
    ZeroTestExact(b, p);
    if ZeroTest(Word(b, p)) {
      if b[p + 1] == 0 {
        if b[p] == 0 && b[p + 2] == 1 {
          CodeHere(b, p, p, end);
          return Some(p);
        }
        if b[p + 2] == 0 && b[p + 3] == 1 {
          CodeHere(b, p, p + 1, end);
          return Some(p + 1);
        }
      }
      if b[p + 3] == 0 {
        if b[p + 2] == 0 && b[p + 4] == 1 {
          CodeHere(b, p, p + 2, end);
          return Some(p + 2);
        }
        if b[p + 4] == 0 && b[p + 5] == 1 {
          CodeHere(b, p, p + 3, end);
          return Some(p + 3);
        }
      }
    }
    NoCodeInWord(b, p, end);
    return None;
  }

  /**
   * h264_find_startcode: bytes up to a word boundary, then whole words, then the remaining bytes.
   * base is the address of the buffer; the result does not depend on it.
   */
  method FindStartcode(b: seq<byte>, start: nat, end: nat, base: nat) returns (r: nat)
    requires start <= end <= |b|
    ensures r == NextCode(b, start, end)
  {
    var p, a := start, start + 4 - (base + start) % 4;
    while p < a && p < end - 3
      invariant start <= p <= a && p <= end && NextCode(b, p, end) == NextCode(b, start, end)
    {
      if CodeAt(b, p) {
        return p;
      }
      p := p + 1;
    }
    while p < end - 6
      invariant start <= p <= end && NextCode(b, p, end) == NextCode(b, start, end)
      invariant p < end - 6 ==> (base + p) % 4 == 0
    {
      var hit := ScanWord(b, p, end, base);
      if hit.Some? {
        return hit.value;
      }
      p := p + 4;
    }
    while p < end - 3
      invariant start <= p <= end && NextCode(b, p, end) == NextCode(b, start, end)
    {
      if CodeAt(b, p) {
        return p;
      }
      p := p + 1;
    }
    return end;
  }

  // ---------------------------------------------------------------- NAL units

  datatype Nals = Nil | Cons(nal: seq<byte>, tail: Nals)

  /** The units from the start code at r on; the extra zero of a four-byte code ends the unit before. */
  function Cut(b: seq<byte>, r: nat, end: nat): Nals
    requires r <= end <= |b| && (r < end ==> r + 3 < end)
    decreases end - r
  {
    if r == end then Nil
    else
      var r1 := NextCode(b, r + 3, end);
      Cons(b[r + 3..r1], Cut(b, r1, end))
  }

  function Units(b: seq<byte>): Nals {
    Cut(b, NextCode(b, 0, |b|), |b|)
  }

  /** Units written with three-byte start codes. */
  function Stream(nals: Nals): seq<byte> {
    match nals
    case Nil => []
    case Cons(nal, tail) => [0, 0, 1] + nal + Stream(tail)
  }

  /** Cutting loses nothing: the units with their start codes are the stream from its first code on. */
  lemma {:induction false} StreamOfCut(b: seq<byte>, r: nat, end: nat)
    requires r <= end <= |b| && (r < end ==> r + 3 < end && CodeAt(b, r))
    ensures Stream(Cut(b, r, end)) == b[r..end]
    decreases end - r
  {
    hide NextCode;
    if r < end {
      var r1 := NextCode(b, r + 3, end);
      StreamOfCut(b, r1, end);
      assert b[r..end] == [0, 0, 1] + b[r + 3..r1] + b[r1..end];
    }
  }

  /** The loop that skips zeros and the byte behind them ends right behind the start code. */
  method SkipZeros(b: seq<byte>, r: nat, end: nat) returns (q: nat)
    requires r + 3 < end <= |b| && CodeAt(b, r)
    ensures q == r + 3
  {
    q := r;
    var more := true;
    while more
      invariant more ==> r <= q <= r + 2
      invariant !more ==> q == r + 3
      decreases if more then r + 3 - q else 0, more
    {
      more := b[q] == 0;
      q := q + 1;
    }
  }
}
