/** H.264 payloads: STAP-A aggregation and FU-A fragmentation (sections 5.7.1 and 5.8 of RFC 6184). */
module H264 {
  import opened Bytes
  import opened MemoryBuffer
  import opened AnnexB

  const STAP_A: byte := 24
  const FU_A: byte := 28

  function Type(hdr: byte): byte {
    hdr as int % 32
  }

  function Nri(hdr: byte): byte {
    hdr as int / 32 % 4
  }

  // ---------------------------------------------------------------- STAP-A: layout

  /** The importance of a unit; an empty unit borrows the zero byte of the start code behind it. */
  function UnitNri(nal: seq<byte>): byte {
    if nal == [] then 0 else Nri(nal[0])
  }

  function Max(a: byte, b: byte): byte {
    if a > b then a else b
  }

  function MaxNri(nals: Nals): (m: byte)
    ensures m < 4
  {
    if nals.Nil? then 0 else Max(UnitNri(nals.nal), MaxNri(nals.tail))
  }

  function StapBody(nals: Nals): seq<byte> {
    match nals
    case Nil => []
    case Cons(nal, tail) => Be16(|nal| % 0x1_0000) + nal + StapBody(tail)
  }

  function StapBytes(nals: Nals): seq<byte> {
    [STAP_A as int + 32 * MaxNri(nals)] + StapBody(nals)
  }

  predicate AllSmall(nals: Nals) {
    nals.Cons? ==> |nals.nal| <= 0xffff && AllSmall(nals.tail)
  }

  predicate NoneEmpty(nals: Nals) {
    nals.Cons? ==> nals.nal != [] && NoneEmpty(nals.tail)
  }

  predicate HasUnit(nals: Nals, nal: seq<byte>) {
    nals.Cons? && (nals.nal == nal || HasUnit(nals.tail, nal))
  }

  /** The header carries the greatest NRI of all units: none is above it and one of them has it. */
  lemma {:induction false} MaxNriIsMax(nals: Nals, nal: seq<byte>) returns (top: seq<byte>)
    requires HasUnit(nals, nal)
    ensures UnitNri(nal) <= MaxNri(nals)
    ensures HasUnit(nals, top) && UnitNri(top) == MaxNri(nals)
    decreases nals
  {
    top := nals.nal;
    if nals.tail.Cons? {
      var next := if nals.nal == nal then nals.tail.nal else nal;
      assert HasUnit(nals.tail, next);
      var t := MaxNriIsMax(nals.tail, next);
      if UnitNri(t) > UnitNri(top) {
        top := t;
      }
    }
  }

  // ---------------------------------------------------------------- STAP-A: decoder and round trip

  /** The payload behind the NAL header, turned into a byte stream behind acc. */
  function DecStap(b: seq<byte>, p: nat, end: nat, acc: seq<byte>): Result<seq<byte>>
    requires p <= end <= |b|
    decreases end - p
  {
    if end - p < 2 then Success(acc)
    else
      var len := Get16(b, p);
      if len < 1 || len > end - p - 2 then Failure(EBADMSG)
      else DecStap(b, p + 2 + len, end, acc + [0, 0, 1] + b[p + 2..p + 2 + len])
  }

  lemma {:induction false} StapUnit(b: seq<byte>, p: nat, nal: seq<byte>, rest: seq<byte>)
    requires |nal| <= 0xffff && HoldsAt(b, p, Be16(|nal| % 0x1_0000) + nal + rest)
    ensures p + 2 + |nal| + |rest| <= |b| && Get16(b, p) == |nal| && b[p + 2..p + 2 + |nal|] == nal
    ensures HoldsAt(b, p + 2 + |nal|, rest)
  {
    hide Be16, Get16;
    var h := Be16(|nal|);
    HoldsAtSplit(b, p, h + nal, rest);
    HoldsAtSplit(b, p, h, nal);
    Holds16(b, p, |nal|);
  }

  /** The decoder gives the stream of units back exactly when none of them is empty. */
  lemma {:induction false} StapDecodes(nals: Nals, b: seq<byte>, p: nat, end: nat, acc: seq<byte>)
    requires AllSmall(nals) && HoldsAt(b, p, StapBody(nals)) && p + |StapBody(nals)| == end <= |b|
    ensures if NoneEmpty(nals) then DecStap(b, p, end, acc) == Success(acc + Stream(nals))
            else DecStap(b, p, end, acc) == Failure(EBADMSG)
    decreases nals
  {
    hide HoldsAt, Be16, Get16;
    match nals
    case Nil =>
      assert acc + [] == acc;
    case Cons(nal, tail) =>
      StapUnit(b, p, nal, StapBody(tail));
      if nal != [] {
        StapDecodes(tail, b, p + 2 + |nal|, end, acc + [0, 0, 1] + nal);
        assert acc + ([0, 0, 1] + nal + Stream(tail)) == acc + [0, 0, 1] + nal + Stream(tail);
      }
  }

  /** A frame is aggregated and restored, from its first start code on, iff its units have 1 to 65535 bytes. */
  lemma {:induction false} StapRoundTripIff(frame: seq<byte>, b: seq<byte>, p: nat, end: nat)
    requires AllSmall(Units(frame)) ==> HoldsAt(b, p, StapBytes(Units(frame))) && p + |StapBytes(Units(frame))| == end <= |b|
    ensures AllSmall(Units(frame)) && DecStap(b, p + 1, end, []) == Success(frame[NextCode(frame, 0, |frame|)..])
            <==> AllSmall(Units(frame)) && NoneEmpty(Units(frame))
  {
    hide HoldsAt, StapBody, MaxNri, Cut, NextCode, AllSmall, NoneEmpty, DecStap;
    var nals := Units(frame);
    if AllSmall(nals) {
      HoldsAtSplit(b, p, [STAP_A as int + 32 * MaxNri(nals)], StapBody(nals));
      StapDecodes(nals, b, p + 1, end, []);
      var r := NextCode(frame, 0, |frame|);
      StreamOfCut(frame, r, |frame|);
      assert frame[r..|frame|] == frame[r..];
      assert [] + Stream(nals) == Stream(nals);
    }
  }

  // ---------------------------------------------------------------- STAP-A: methods

  /** What the encoder has still to do from the start code at r on. */
  ghost predicate StapRest(frame: seq<byte>, r: nat, done: seq<byte>, top: byte) {
    && r <= |frame| && (r < |frame| ==> r + 3 < |frame| && CodeAt(frame, r))
    && var all, rest := Units(frame), Cut(frame, r, |frame|);
       && StapBody(all) == done + StapBody(rest) && (AllSmall(all) <==> AllSmall(rest))
       && top < 4 && MaxNri(all) == Max(top, MaxNri(rest))
  }

  lemma {:induction false} StapStart(frame: seq<byte>)
    ensures StapRest(frame, NextCode(frame, 0, |frame|), [], 0)
  {
    hide NextCode, Cut, AllSmall;
    assert [] + StapBody(Units(frame)) == StapBody(Units(frame));
  }

  lemma {:induction false} StapNext(frame: seq<byte>, r: nat, done: seq<byte>, top: byte)
    requires StapRest(frame, r, done, top) && r < |frame|
    ensures var r1 := NextCode(frame, r + 3, |frame|);
            var nal := frame[r + 3..r1];
            && (|nal| > 0xffff ==> !AllSmall(Units(frame))) && UnitNri(nal) == Nri(frame[r + 3])
            && (|nal| <= 0xffff ==> StapRest(frame, r1, done + Be16(|nal|) + nal, Max(UnitNri(nal), top)))
  {
    hide Units, Be16;
    var r1 := NextCode(frame, r + 3, |frame|);
    var nal := frame[r + 3..r1];
    if |nal| <= 0xffff {
      var rest := StapBody(Cut(frame, r1, |frame|));
      assert done + (Be16(|nal|) + nal + rest) == done + Be16(|nal|) + nal + rest;
    }
  }

  lemma {:induction false} StapEnd(frame: seq<byte>, done: seq<byte>, top: byte)
    requires StapRest(frame, |frame|, done, top)
    ensures AllSmall(Units(frame)) && StapBody(Units(frame)) == done && MaxNri(Units(frame)) == top
  {
    hide Units;
    assert done + [] == done;
  }

  /** h264_stap_encode */
  method StapEncode(mb: Mbuf, frame: seq<byte>, base: nat) returns (err: Errno)
    requires mb.Valid()
    modifies mb
    ensures mb.Valid()
    ensures err == if frame == [] then EINVAL else if AllSmall(Units(frame)) then OK else ERANGE
    ensures err == OK ==> Patched(old(mb.buf), mb.buf, old(mb.pos), StapBytes(Units(frame)))
                          && mb.pos == old(mb.pos) + |StapBytes(Units(frame))|
  {
    hide Patched, NextCode, StapRest, StapBody, AllSmall, MaxNri, Units, Be16;
    if frame == [] {
      return EINVAL;
    }
    var start, top: byte := mb.pos, 0;
    mb.WriteU8(STAP_A);
    ghost var done: seq<byte> := [];
    assert [STAP_A] + done == [STAP_A];
    var r := FindStartcode(frame, 0, |frame|, base);
    StapStart(frame);
    while r < |frame|
      invariant mb.Valid() && StapRest(frame, r, done, top) && r <= |frame|
      invariant Patched(old(mb.buf), mb.buf, start, [STAP_A] + done) && mb.pos == start + 1 + |done|
      decreases |frame| - r
    {
      StapNext(frame, r, done, top);
      StapCode(frame, r, done, top);
      var q := SkipZeros(frame, r, |frame|);
      var r1 := FindStartcode(frame, q, |frame|, base);
      var len := r1 - q;
      if len > 0xffff {
        return ERANGE;
      }
      ghost var mid := mb.buf;
      mb.WriteU16(len);
      ghost var mid' := mb.buf;
      mb.WriteMem(frame[q..r1]);
      PatchedAppend(mid, mid', mb.buf, start + 1 + |done|, Be16(len), frame[q..r1]);
      PatchedAppend(old(mb.buf), mid, mb.buf, start, [STAP_A] + done, Be16(len) + frame[q..r1]);
      assert [STAP_A] + done + (Be16(len) + frame[q..r1]) == [STAP_A] + (done + Be16(len) + frame[q..r1]);
      done := done + Be16(len) + frame[q..r1];
      top := Max(Nri(frame[q]), top);
      r := r1;
    }
    StapEnd(frame, done, top);
    ghost var mid := mb.buf;
    PatchedRoom(old(mb.buf), mb.buf, start, [STAP_A] + done);
    mb.Poke(start, STAP_A as int + 32 * top);
    PatchedInside(old(mb.buf), mid, mb.buf, start, [STAP_A] + done, start, [STAP_A as int + 32 * top]);
    assert ([STAP_A] + done)[..0] + [STAP_A as int + 32 * top] + ([STAP_A] + done)[1..] == StapBytes(Units(frame));
    return OK;
  }

  lemma {:induction false} StapCode(frame: seq<byte>, r: nat, done: seq<byte>, top: byte)
    requires StapRest(frame, r, done, top) && r < |frame|
    ensures r + 3 < |frame| && CodeAt(frame, r) && top < 4
  {}

  /** h264_stap_decode_annexb: the units of pkt are appended to out with three-byte start codes. */
  method StapDecode(out: Mbuf, pkt: Mbuf) returns (err: Errno)
    requires out.Valid() && pkt.Valid() && out != pkt && pkt.pos <= pkt.end && out.pos <= |out.buf|
    modifies out, pkt`pos
    ensures out.Valid()
    ensures match DecStap(pkt.buf, old(pkt.pos), pkt.end, [])
      case Failure(e) => err == e
      case Success(s) => err == OK && Patched(old(out.buf), out.buf, old(out.pos), s) && out.pos == old(out.pos) + |s|
  {
    hide Patched, Get16;
    ghost var acc: seq<byte>, p0 := [], out.pos;
    assert Patched(out.buf, out.buf, p0, []) by { PatchedNothing(out.buf, p0); }
    while pkt.Left() >= 2
      invariant out.Valid() && pkt.pos <= pkt.end && out.pos == p0 + |acc| && Patched(old(out.buf), out.buf, p0, acc)
      invariant DecStap(pkt.buf, pkt.pos, pkt.end, acc) == DecStap(pkt.buf, old(pkt.pos), pkt.end, [])
      decreases pkt.end - pkt.pos
    {
      var len := pkt.ReadU16();
      if len < 1 || len > pkt.Left() {
        return EBADMSG;
      }
      ghost var mid := out.buf;
      out.WriteMem([0, 0, 1]);
      PatchedAppend(old(out.buf), mid, out.buf, p0, acc, [0, 0, 1]);
      mid, acc := out.buf, acc + [0, 0, 1];
      var nal := pkt.buf[pkt.pos..pkt.pos + len];
      out.WriteMem(nal);
      PatchedAppend(old(out.buf), mid, out.buf, p0, acc, nal);
      acc := acc + nal;
      pkt.pos := pkt.pos + len;
    }
    return OK;
  }

  lemma {:induction false} PatchedNothing(b: seq<byte>, p: nat)
    requires p <= |b|
    ensures Patched(b, b, p, [])
  {}
}
