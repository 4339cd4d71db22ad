/** H.265 fragmentation units (section 4.4.3 of RFC 7798): how a NAL unit is sent and put together again. */
module H265 {
  import opened Bytes
  import opened AnnexB
  import opened RtpPackets

  const FU := 49
  const SIZE_T: int := 0x1_0000_0000_0000_0000

  function Type(p0: byte): (t: byte)
    ensures t < 64
  {
    p0 as int / 2 % 64
  }

  /** h265_nal_decode: the unit type and temporal id, or an error for a set forbidden bit or a layer id. */
  function DecNal(p0: byte, p1: byte): (r: Result<(byte, byte)>)
    ensures r.Success? <==> p0 < 128 && p0 % 2 == 0 && p1 < 8
    ensures r.Success? ==> p0 == 2 * r.value.0 as int && p1 == r.value.1
  {
    if p0 >= 128 then Failure(EBADMSG)
    else if (p0 as int % 2) * 32 + p1 as int / 8 != 0 then Failure(EBADMSG)
    else Success((Type(p0), p1 as int % 8))
  }

  /** h265_nal_encode */
  function EncNal(typ: nat, tid: nat): seq<byte> {
    [typ % 64 * 2, tid % 8]
  }

  function FuSize(maxlen: nat): nat {
    if maxlen >= 3 then maxlen - 3 else SIZE_T + maxlen - 3
  }

  predicate StartBit(fu: byte) {
    fu >= 128
  }

  predicate EndBit(fu: byte) {
    fu as int / 64 % 2 == 1
  }

  /** The fragments of buf from i on, followed by rest. */
  function Fragments(h: seq<byte>, fu: byte, buf: seq<byte>, i: nat, sz: nat, marker: bool, rest: Packets): Packets
    requires i <= |buf| && (sz > 0 || i == |buf|) && fu as int % 128 < 64
    decreases |buf| - i
  {
    if |buf| - i > sz then
      Next(Packet(false, h + [fu], buf[i..i + sz]), Fragments(h, fu as int % 128, buf, i + sz, sz, marker, rest))
    else
      Next(Packet(marker, h + [fu as int + 64], buf[i..]), rest)
  }

  /**
   * The unit can be sent or refused. Otherwise it is shorter than its header and does not fit, or its
   * fragments would have no room for payload, so that the loop over them does not end.
   */
  predicate Finishes(nal: seq<byte>, maxlen: nat) {
    |nal| <= maxlen || (|nal| >= 2 && (maxlen == 3 ==> DecNal(nal[0], nal[1]).Failure?))
  }

  /** The length behind the two bytes of the header, in unsigned arithmetic. */
  function Behind(len: nat): nat {
    if len >= 2 then len - 2 else SIZE_T + len - 2
  }

  /** Which of the two: the length less its header stays below the length, and the loop of fragments ends. */
  lemma {:induction false} FinishesIff(nal: seq<byte>, maxlen: nat)
    requires maxlen < |nal| < SIZE_T
    ensures Finishes(nal, maxlen) <==>
            Behind(|nal|) <= |nal| && (DecNal(nal[0], nal[1]).Success? ==> FragmentsEnd(Behind(|nal|), FuSize(maxlen)))
  {
    if |nal| >= 2 {
      FragmentsEndIff(|nal| - 2, FuSize(maxlen));
    }
  }

  /** A unit, whole or in fragments; a unit whose header cannot be carried by fragments is not sent. */
  function SendNal(marker: bool, nal: seq<byte>, maxlen: nat, rest: Packets): Result<Packets>
    requires Finishes(nal, maxlen)
  {
    if |nal| <= maxlen then Success(Next(Packet(marker, [], nal), rest))
    else
      var n :- DecNal(nal[0], nal[1]);
      Success(Fragments(EncNal(FU, n.1), 128 + n.0, nal[2..], 0, FuSize(maxlen), marker, rest))
  }

  /** packetize: the body of the loop over the units. */
  method NalSend(sink: Sink, marker: bool, nal: seq<byte>, maxlen: nat) returns (err: Errno)
    requires Finishes(nal, maxlen)
    modifies sink
    ensures match SendNal(marker, nal, maxlen, Done)
      case Failure(e) => err == e && sink.sent == old(sink.sent)
      case Success(ps) => err == OK && sink.sent == old(sink.sent) + AsSeq(ps)
  {
    if |nal| <= maxlen {
      sink.Send(Packet(marker, [], nal));
      return OK;
    }
    var n := DecNal(nal[0], nal[1]);
    if n.Failure? {
      return n.err;
    }
    var h, fu: byte := EncNal(FU, n.value.1), 128 + n.value.0;
    var buf, sz, i := nal[2..], FuSize(maxlen), 0;
    ghost var all := Fragments(h, fu, buf, 0, sz, marker, Done);
    while |buf| - i > sz
      invariant i <= |buf| && (sz > 0 || i == |buf|) && fu as int % 128 < 64
      invariant sink.sent + AsSeq(Fragments(h, fu, buf, i, sz, marker, Done)) == old(sink.sent) + AsSeq(all)
      decreases |buf| - i
    {
      var p := Packet(false, h + [fu], buf[i..i + sz]);
      SentOne(sink.sent, p, Fragments(h, fu as int % 128, buf, i + sz, sz, marker, Done));
      sink.Send(p);
      i := i + sz;
      fu := fu as int % 128;
    }
    fu := fu as int + 64;
    var p := Packet(marker, h + [fu], buf[i..]);
    SentOne(sink.sent, p, Done);
    sink.Send(p);
    assert sink.sent + [] == sink.sent;
    return OK;
  }

  // ---------------------------------------------------------------- shape and reassembly

  predicate WellFragmented(ps: Packets, rest: Packets, first: bool, marker: bool, maxlen: nat) {
    && ps.Next? && |ps.head.hdr| == 3 && ps.head.pld != [] && 3 + |ps.head.pld| <= maxlen
    && StartBit(ps.head.hdr[2]) == first
    && if EndBit(ps.head.hdr[2]) then ps.tail == rest && ps.head.marker == marker
       else !ps.head.marker && WellFragmented(ps.tail, rest, false, marker, maxlen)
  }

  lemma {:induction false} FuBits(fu: byte)
    requires fu as int % 128 < 64
    ensures !EndBit(fu) && !StartBit(fu as int % 128)
    ensures EndBit(fu as int + 64) && (StartBit(fu as int + 64) <==> StartBit(fu))
    ensures (fu as int + 64) % 64 == fu as int % 64 == fu as int % 128
  {
    var k := fu as int / 128;
    assert (fu as int + 64) / 64 == 2 * k + 1 && fu as int / 64 == 2 * k;
  }

  lemma {:induction false} FragmentsShape(h: seq<byte>, fu: byte, buf: seq<byte>, i: nat, sz: nat, marker: bool, rest: Packets)
    requires |h| == 2 && i < |buf| && sz > 0 && fu as int % 128 < 64
    ensures WellFragmented(Fragments(h, fu, buf, i, sz, marker, rest), rest, StartBit(fu), marker, sz + 3)
    decreases |buf| - i
  {
    FuBits(fu);
    if |buf| - i > sz {
      FragmentsShape(h, fu as int % 128, buf, i + sz, sz, marker, rest);
    }
  }

  /**
   * A unit that does not fit and is not refused takes at least two well-formed fragments exactly if the
   * packet size is four or more; below, the payload size wraps and one fragment has both bits.
   */
  lemma {:induction false} AtLeastTwoIff(marker: bool, nal: seq<byte>, maxlen: nat, rest: Packets)
    requires maxlen < |nal| < SIZE_T && Finishes(nal, maxlen) && DecNal(nal[0], nal[1]).Success?
    ensures var ps, n := SendNal(marker, nal, maxlen, rest), DecNal(nal[0], nal[1]).value;
            && ps.Success?
            && (WellFragmented(ps.value, rest, true, marker, maxlen) && !EndBit(ps.value.head.hdr[2]) <==> maxlen >= 4)
            && (maxlen < 4 ==> ps.value == Next(Packet(marker, EncNal(FU, n.1) + [192 + n.0 as int], nal[2..]), rest))
  {
    var n := DecNal(nal[0], nal[1]).value;
    var fu := 128 + n.0;
    if maxlen >= 4 {
      FragmentsShape(EncNal(FU, n.1), fu, nal[2..], 0, maxlen - 3, marker, rest);
    } else {
      assert nal[2..][0..] == nal[2..];
    }
    FuBits(fu);
  }

  lemma {:induction false} FragmentsFit(h: seq<byte>, fu: byte, buf: seq<byte>, i: nat, sz: nat, marker: bool)
    requires |h| == 2 && i <= |buf| && sz > 0 && fu as int % 128 < 64
    ensures AllFit(Fragments(h, fu, buf, i, sz, marker, Done), sz + 3)
    decreases |buf| - i
  {
    if |buf| - i > sz {
      FragmentsFit(h, fu as int % 128, buf, i + sz, sz, marker);
    }
  }

  /** Every packet of a unit that is sent has at most maxlen bytes exactly if it travels whole or there is room for fragments. */
  lemma {:induction false} PacketsFitIff(marker: bool, nal: seq<byte>, maxlen: nat)
    requires |nal| < SIZE_T && Finishes(nal, maxlen) && SendNal(marker, nal, maxlen, Done).Success?
    ensures AllFit(SendNal(marker, nal, maxlen, Done).value, maxlen) <==> |nal| <= maxlen || maxlen >= 4
  {
    if |nal| > maxlen {
      var n := DecNal(nal[0], nal[1]).value;
      if maxlen >= 4 {
        FragmentsFit(EncNal(FU, n.1), 128 + n.0, nal[2..], 0, maxlen - 3, marker);
      } else {
        AtLeastTwoIff(marker, nal, maxlen, Done);
      }
    }
  }

  /** A receiver: whole units as they are, fragments joined under the type of the fragment header. */
  function Receive(ps: Packets, part: seq<byte>): Nals {
    match ps
    case Done => Nil
    case Next(p, t) =>
      var data := p.hdr + p.pld;
      if |data| < 3 || Type(data[0]) != FU then Cons(data, Receive(t, []))
      else
        var part' := if StartBit(data[2]) then [data[2] as int % 64 * 2, data[1]] + data[3..] else part + data[3..];
        if EndBit(data[2]) then Cons(part', Receive(t, [])) else Receive(t, part')
  }

  lemma {:induction false} ReceiveFu(p: Packet, t: Packets, tid: byte, fu: byte, part: seq<byte>)
    requires tid < 8 && p.hdr == EncNal(FU, tid) + [fu]
    ensures var part' := if StartBit(fu) then [fu as int % 64 * 2, tid] + p.pld else part + p.pld;
            Receive(Next(p, t), part) == if EndBit(fu) then Cons(part', Receive(t, [])) else Receive(t, part')
  {
    assert (p.hdr + p.pld)[3..] == p.pld;
  }

  lemma {:induction false} ReceiveFragments(tid: byte, fu: byte, buf: seq<byte>, i: nat, sz: nat, marker: bool, rest: Packets, part: seq<byte>)
    requires tid < 8 && i <= |buf| && sz > 0 && fu as int % 128 < 64
    ensures Receive(Fragments(EncNal(FU, tid), fu, buf, i, sz, marker, rest), part)
         == Cons((if StartBit(fu) then [fu as int % 64 * 2, tid] else part) + buf[i..], Receive(rest, []))
    decreases |buf| - i
  {
    hide Receive, EndBit, StartBit, EncNal;
    FuBits(fu);
    var h, head := EncNal(FU, tid), if StartBit(fu) then [fu as int % 64 * 2, tid] else part;
    if |buf| - i > sz {
      var p := Packet(false, h + [fu], buf[i..i + sz]);
      var tail := Fragments(h, fu as int % 128, buf, i + sz, sz, marker, rest);
      ReceiveFu(p, tail, tid, fu, part);
      ReceiveFragments(tid, fu as int % 128, buf, i + sz, sz, marker, rest, head + p.pld);
      assert head + buf[i..] == head + buf[i..i + sz] + buf[i + sz..];
    } else {
      ReceiveFu(Packet(marker, h + [fu as int + 64], buf[i..]), rest, tid, fu as int + 64, part);
    }
  }

  /** A unit that needs fragments but has its forbidden bit or a layer id set. */
  predicate Refused(nal: seq<byte>, maxlen: nat) {
    |nal| > maxlen && |nal| >= 2 && (nal[0] >= 128 || nal[0] % 2 == 1 || nal[1] >= 8)
  }

  /** Whatever is sent at all arrives byte for byte; a unit in fragments is refused iff it could not. */
  lemma {:induction false} NalRoundTrip(marker: bool, nal: seq<byte>, maxlen: nat, rest: Packets, part: seq<byte>)
    requires Finishes(nal, maxlen) && (|nal| >= 3 ==> Type(nal[0]) != FU)
    ensures var ps := SendNal(marker, nal, maxlen, rest);
            && (ps.Failure? <==> Refused(nal, maxlen))
            && (ps.Success? ==> Receive(ps.value, part) == Cons(nal, Receive(rest, [])))
  {
    hide Fragments;
    if |nal| <= maxlen {
      assert [] + nal == nal;
    } else if DecNal(nal[0], nal[1]).Success? {
      var n := DecNal(nal[0], nal[1]).value;
      var fu := 128 + n.0;
      ReceiveFragments(n.1, fu, nal[2..], 0, FuSize(maxlen), marker, rest, part);
      assert nal[2..][0..] == nal[2..];
      assert [nal[0], nal[1]] + nal[2..] == nal;
    }
  }

  // ---------------------------------------------------------------- whole frames

  predicate AllFinish(nals: Nals, maxlen: nat) {
    nals.Cons? ==> Finishes(nals.nal, maxlen) && AllFinish(nals.tail, maxlen)
  }

  /** The packets of a frame: refused units are skipped, the marker goes with the last unit. */
  function Packetized(nals: Nals, maxlen: nat): Packets
    requires AllFinish(nals, maxlen)
  {
    match nals
    case Nil => Done
    case Cons(nal, tail) =>
      var rest := Packetized(tail, maxlen);
      var ps := SendNal(tail.Nil?, nal, maxlen, rest);
      if ps.Failure? then rest else ps.value
  }

  /** The units that are not refused. */
  function Carried(nals: Nals, maxlen: nat): Nals {
    match nals
    case Nil => Nil
    case Cons(nal, tail) => if Refused(nal, maxlen) then Carried(tail, maxlen) else Cons(nal, Carried(tail, maxlen))
  }

  predicate NoFu(nals: Nals) {
    nals.Cons? ==> (|nals.nal| >= 3 ==> Type(nals.nal[0]) != FU) && NoFu(nals.tail)
  }

  /** A receiver gets exactly the units that were not refused, in order and byte for byte. */
  lemma {:induction false} FrameRoundTrip(nals: Nals, maxlen: nat)
    requires AllFinish(nals, maxlen) && NoFu(nals)
    ensures Receive(Packetized(nals, maxlen), []) == Carried(nals, maxlen)
    decreases nals
  {
    hide SendNal, Type, Refused, Finishes;
    if nals.Cons? {
      FrameRoundTrip(nals.tail, maxlen);
      NalRoundTrip(nals.tail.Nil?, nals.nal, maxlen, Packetized(nals.tail, maxlen), []);
    }
  }

  predicate Unmarked(ps: Packets) {
    ps.Next? ==> !ps.head.marker && Unmarked(ps.tail)
  }

  predicate LastRefused(nals: Nals, maxlen: nat) {
    nals.Cons? && if nals.tail.Nil? then Refused(nals.nal, maxlen) else LastRefused(nals.tail, maxlen)
  }

  lemma {:induction false} FragmentsMarked(h: seq<byte>, fu: byte, buf: seq<byte>, i: nat, sz: nat, marker: bool, rest: Packets)
    requires i <= |buf| && sz > 0 && fu as int % 128 < 64
    ensures var ps := Fragments(h, fu, buf, i, sz, marker, rest);
            ps.Next? && (marker == rest.Done? && MarkedAtEnd(rest) ==> MarkedAtEnd(ps)) && (!marker && Unmarked(rest) ==> Unmarked(ps))
    decreases |buf| - i
  {
    if |buf| - i > sz {
      FragmentsMarked(h, fu as int % 128, buf, i + sz, sz, marker, rest);
    }
  }

  lemma {:induction false} SendMarked(marker: bool, nal: seq<byte>, maxlen: nat, rest: Packets)
    requires Finishes(nal, maxlen)
    ensures var ps := SendNal(marker, nal, maxlen, rest);
            && (ps.Failure? <==> Refused(nal, maxlen))
            && (ps.Success? && marker == rest.Done? && MarkedAtEnd(rest) ==> MarkedAtEnd(ps.value))
            && (ps.Success? && !marker && Unmarked(rest) ==> Unmarked(ps.value)) && (ps.Success? ==> ps.value.Next?)
  {
    hide Fragments;
    if |nal| > maxlen && DecNal(nal[0], nal[1]).Success? {
      var n := DecNal(nal[0], nal[1]).value;
      FragmentsMarked(EncNal(FU, n.1), 128 + n.0, nal[2..], 0, FuSize(maxlen), marker, rest);
    }
  }

  /** The marker is on the last packet of the frame only, unless the last unit is refused: then it is on none. */
  lemma {:induction false} FrameMarked(nals: Nals, maxlen: nat)
    requires AllFinish(nals, maxlen)
    ensures var ps := Packetized(nals, maxlen);
            if LastRefused(nals, maxlen) then Unmarked(ps) else MarkedAtEnd(ps) && (ps.Done? <==> nals.Nil?)
    decreases nals
  {
    hide SendNal, Refused;
    if nals.Cons? {
      FrameMarked(nals.tail, maxlen);
      SendMarked(nals.tail.Nil?, nals.nal, maxlen, Packetized(nals.tail, maxlen));
    }
  }

  lemma {:induction false} FragmentsAppend(h: seq<byte>, fu: byte, buf: seq<byte>, i: nat, sz: nat, marker: bool, rest: Packets)
    requires i <= |buf| && sz > 0 && fu as int % 128 < 64
    ensures AsSeq(Fragments(h, fu, buf, i, sz, marker, rest)) == AsSeq(Fragments(h, fu, buf, i, sz, marker, Done)) + AsSeq(rest)
    decreases |buf| - i
  {
    if |buf| - i > sz {
      FragmentsAppend(h, fu as int % 128, buf, i + sz, sz, marker, rest);
    } else {
      assert AsSeq(Done) == [];
    }
  }

  /** The packets of a unit do not depend on what follows. */
  lemma {:induction false} SendAppends(marker: bool, nal: seq<byte>, maxlen: nat, rest: Packets)
    requires Finishes(nal, maxlen)
    ensures var one, all := SendNal(marker, nal, maxlen, Done), SendNal(marker, nal, maxlen, rest);
            && one.Failure? == all.Failure?
            && (one.Success? ==> AsSeq(all.value) == AsSeq(one.value) + AsSeq(rest))
  {
    if |nal| > maxlen && DecNal(nal[0], nal[1]).Success? {
      var n := DecNal(nal[0], nal[1]).value;
      FragmentsAppend(EncNal(FU, n.1), 128 + n.0, nal[2..], 0, FuSize(maxlen), marker, rest);
    }
  }

  predicate AnyRefused(nals: Nals, maxlen: nat) {
    nals.Cons? && (Refused(nals.nal, maxlen) || AnyRefused(nals.tail, maxlen))
  }

  /** One turn of the loop takes the packets of the unit at r. */
  lemma {:induction false} PacketizeUnit(frame: seq<byte>, r: nat, maxlen: nat, sent: seq<Packet>)
    requires r + 3 < |frame| && AllFinish(Cut(frame, r, |frame|), maxlen)
    ensures var r1 := NextCode(frame, r + 3, |frame|);
            && Finishes(frame[r + 3..r1], maxlen) && AllFinish(Cut(frame, r1, |frame|), maxlen)
    ensures var r1 := NextCode(frame, r + 3, |frame|);
            var one := SendNal(r1 >= |frame|, frame[r + 3..r1], maxlen, Done);
            && sent + AsSeq(Packetized(Cut(frame, r, |frame|), maxlen))
               == sent + (if one.Success? then AsSeq(one.value) else []) + AsSeq(Packetized(Cut(frame, r1, |frame|), maxlen))
            && (one.Failure? <==> Refused(frame[r + 3..r1], maxlen)) && (one.Failure? ==> one.err == EBADMSG)
            && (AnyRefused(Cut(frame, r, |frame|), maxlen) <==> one.Failure? || AnyRefused(Cut(frame, r1, |frame|), maxlen))
  {
    hide NextCode, Fragments;
    var r1 := NextCode(frame, r + 3, |frame|);
    var nal, tail := frame[r + 3..r1], Cut(frame, r1, |frame|);
    assert Cut(frame, r, |frame|) == Cons(nal, tail);
    assert tail.Nil? <==> r1 >= |frame|;
    var rest := Packetized(tail, maxlen);
    SendAppends(r1 >= |frame|, nal, maxlen, rest);
    SendMarked(r1 >= |frame|, nal, maxlen, Done);
    var one := SendNal(r1 >= |frame|, nal, maxlen, Done);
    if one.Success? {
      assert sent + (AsSeq(one.value) + AsSeq(rest)) == sent + AsSeq(one.value) + AsSeq(rest);
    } else {
      assert sent + [] == sent;
    }
  }

  lemma {:induction false} PacketizeEnd(frame: seq<byte>, maxlen: nat, sent: seq<Packet>)
    ensures AllFinish(Cut(frame, |frame|, |frame|), maxlen)
    ensures sent + AsSeq(Packetized(Cut(frame, |frame|, |frame|), maxlen)) == sent && !AnyRefused(Cut(frame, |frame|, |frame|), maxlen)
  {
    assert sent + [] == sent;
  }

  /** h265_packetize: every unit of the frame in turn; a refused one is an error but does not stop the others. */
  method Packetize(sink: Sink, frame: seq<byte>, base: nat, maxlen: nat) returns (err: Errno)
    requires AllFinish(Units(frame), maxlen)
    modifies sink
    ensures sink.sent == old(sink.sent) + AsSeq(Packetized(Units(frame), maxlen))
    ensures err == if AnyRefused(Units(frame), maxlen) then EBADMSG else OK
  {
    hide NextCode, SendNal, AsSeq, Packetized, Cut, AnyRefused, AllFinish, Finishes;
    ghost var all := AsSeq(Packetized(Units(frame), maxlen));
    err := OK;
    var r := FindStartcode(frame, 0, |frame|, base);
    while r < |frame|
      invariant r <= |frame| && (r < |frame| ==> r + 3 < |frame| && CodeAt(frame, r)) && (err == OK || err == EBADMSG)
      invariant AllFinish(Cut(frame, r, |frame|), maxlen)
      invariant AnyRefused(Units(frame), maxlen) <==> err == EBADMSG || AnyRefused(Cut(frame, r, |frame|), maxlen)
      invariant sink.sent + AsSeq(Packetized(Cut(frame, r, |frame|), maxlen)) == old(sink.sent) + all
      decreases |frame| - r
    {
      PacketizeUnit(frame, r, maxlen, sink.sent);
      var q := SkipZeros(frame, r, |frame|);
      var r1 := FindStartcode(frame, q, |frame|, base);
      ghost var before := sink.sent;
      var e := NalSend(sink, r1 >= |frame|, frame[q..r1], maxlen);
      assert before + [] == before;
      if e != OK {
        err := e;
      }
      r := r1;
    }
    PacketizeEnd(frame, maxlen, sink.sent);
  }
}
