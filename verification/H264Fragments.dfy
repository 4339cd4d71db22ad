/** H.264 fragmentation: how a NAL unit is sent, and how a receiver puts it together again. */
module H264Fragments {
  import opened Bytes
  import opened AnnexB
  import opened H264
  import opened RtpPackets

  const SIZE_T: int := 0x1_0000_0000_0000_0000

  /** Payload bytes per fragment: maxsz - 2 in unsigned arithmetic. */
  function FuSize(maxsz: nat): nat {
    if maxsz >= 2 then maxsz - 2 else SIZE_T + maxsz - 2
  }

  predicate StartBit(fu: byte) {
    fu >= 128
  }

  predicate EndBit(fu: byte) {
    fu as int / 64 % 2 == 1
  }

  /** The fragments of buf from i on, followed by rest. */
  function Fragments(ind: byte, fu: byte, buf: seq<byte>, i: nat, sz: nat, last: bool, marker: bool, rest: Packets): Packets
    requires i <= |buf| && (sz > 0 || i == |buf|) && fu as int % 128 < 32
    decreases |buf| - i
  {
    if |buf| - i > sz then
      Next(Packet(false, [ind, fu], buf[i..i + sz]), Fragments(ind, fu as int % 128, buf, i + sz, sz, last, marker, rest))
    else
      Next(Packet(marker && last, [ind, if last then fu as int + 64 else fu], buf[i..]), rest)
  }

  /** The unit with header hdr and payload buf, whole or in fragments, followed by rest. */
  function SendNal(first: bool, last: bool, marker: bool, hdr: byte, buf: seq<byte>, maxsz: nat, rest: Packets): Packets
    requires Sent(first, last, |buf|, maxsz)
  {
    if first && last && |buf| <= maxsz then Next(Packet(marker, [hdr], buf), rest)
    else Fragments(32 * Nri(hdr) as int + FU_A, (if first then 128 else 0) + Type(hdr), buf, 0, FuSize(maxsz), last, marker, rest)
  }

  /** A unit with len payload bytes travels whole, or its fragments have room for payload. */
  predicate Sent(first: bool, last: bool, len: nat, maxsz: nat) {
    maxsz == 2 ==> len == 0 || (first && last && len <= maxsz)
  }

  /** Those are exactly the units that are ever finished. */
  lemma {:induction false} SentIff(first: bool, last: bool, len: nat, maxsz: nat)
    ensures Sent(first, last, len, maxsz) <==> (first && last && len <= maxsz) || FragmentsEnd(len, FuSize(maxsz))
  {
    FragmentsEndIff(len, FuSize(maxsz));
  }

  /** h264_nal_send. Only a unit that its fragment loop would never finish is excluded. */
  method NalSend(sink: Sink, first: bool, last: bool, marker: bool, hdr: byte, buf: seq<byte>, maxsz: nat)
    requires Sent(first, last, |buf|, maxsz)
    modifies sink
    ensures sink.sent == old(sink.sent) + AsSeq(SendNal(first, last, marker, hdr, buf, maxsz, Done))
  {
    ghost var all := SendNal(first, last, marker, hdr, buf, maxsz, Done);
    if first && last && |buf| <= maxsz {
      sink.Send(Packet(marker, [hdr], buf));
      return;
    }
    var ind: byte, fu: byte := 32 * Nri(hdr) as int + FU_A, (if first then 128 else 0) + Type(hdr);
    var sz, i := FuSize(maxsz), 0;
    while |buf| - i > sz
      invariant i <= |buf| && (sz > 0 || i == |buf|) && fu as int % 128 < 32
      invariant sink.sent + AsSeq(Fragments(ind, fu, buf, i, sz, last, marker, Done)) == old(sink.sent) + AsSeq(all)
      decreases |buf| - i
    {
      var p := Packet(false, [ind, fu], buf[i..i + sz]);
      SentOne(sink.sent, p, Fragments(ind, fu as int % 128, buf, i + sz, sz, last, marker, Done));
      sink.Send(p);
      i := i + sz;
      fu := fu as int % 128;
    }
    if last {
      fu := fu as int + 64;
    }
    var p := Packet(marker && last, [ind, fu], buf[i..]);
    SentOne(sink.sent, p, Done);
    sink.Send(p);
    assert sink.sent + [] == sink.sent;
  }

  // ---------------------------------------------------------------- shape of the fragments

  /** Fragments of at most maxsz bytes up to rest: start bit first, end bit and marker last. */
  predicate WellFragmented(ps: Packets, rest: Packets, first: bool, marker: bool, maxsz: nat) {
    && ps.Next? && |ps.head.hdr| == 2 && ps.head.pld != [] && 2 + |ps.head.pld| <= maxsz
    && StartBit(ps.head.hdr[1]) == first
    && if EndBit(ps.head.hdr[1]) then ps.tail == rest && ps.head.marker == marker
       else !ps.head.marker && WellFragmented(ps.tail, rest, false, marker, maxsz)
  }

  lemma {:induction false} FragmentsShape(ind: byte, fu: byte, buf: seq<byte>, i: nat, sz: nat, marker: bool, rest: Packets)
    requires i < |buf| && sz > 0 && fu as int % 128 < 32
    ensures WellFragmented(Fragments(ind, fu, buf, i, sz, true, marker, rest), rest, StartBit(fu), marker, sz + 2)
    decreases |buf| - i
  {
    FuBits(fu);
    if |buf| - i > sz {
      FragmentsShape(ind, fu as int % 128, buf, i + sz, sz, marker, rest);
    }
  }

  lemma {:induction false} FuBits(fu: byte)
    requires fu as int % 128 < 32
    ensures !EndBit(fu) && !StartBit(fu as int % 128)
    ensures EndBit(fu as int + 64) && (StartBit(fu as int + 64) <==> StartBit(fu))
    ensures Type(fu as int + 64) == Type(fu) == Type(fu as int % 128) == fu as int % 128
  {
    var t, k := fu as int % 128, fu as int / 128;
    assert (fu as int + 64) / 64 == 2 * k + 1 && fu as int / 64 == 2 * k;
  }

  /**
   * A unit that does not fit one packet takes at least two well-formed fragments exactly if the packet
   * size is three or more; below, the payload size wraps and one fragment has both the start and the end bit.
   */
  lemma {:induction false} AtLeastTwoIff(marker: bool, hdr: byte, buf: seq<byte>, maxsz: nat, rest: Packets)
    requires maxsz < |buf| <= SIZE_T - 2 && Sent(true, true, |buf|, maxsz)
    ensures var ps := SendNal(true, true, marker, hdr, buf, maxsz, rest);
            && (WellFragmented(ps, rest, true, marker, maxsz) && !EndBit(ps.head.hdr[1]) <==> maxsz >= 3)
            && (maxsz < 3 ==> ps == Next(Packet(marker, [32 * Nri(hdr) as int + FU_A, 192 + Type(hdr) as int], buf), rest))
  {
    var fu := 128 + Type(hdr);
    assert fu as int % 128 == Type(hdr);
    if maxsz >= 3 {
      FragmentsShape(32 * Nri(hdr) as int + FU_A, fu, buf, 0, maxsz - 2, marker, rest);
    } else {
      assert buf[0..] == buf;
    }
    FuBits(fu);
  }

  lemma {:induction false} FragmentsFit(ind: byte, fu: byte, buf: seq<byte>, i: nat, sz: nat, marker: bool)
    requires i <= |buf| && sz > 0 && fu as int % 128 < 32
    ensures AllFit(Fragments(ind, fu, buf, i, sz, true, marker, Done), sz + 2)
    decreases |buf| - i
  {
    if |buf| - i > sz {
      FragmentsFit(ind, fu as int % 128, buf, i + sz, sz, marker);
    }
  }

  /**
   * Every packet of a unit has at most maxsz bytes exactly if its payload is shorter than that, or longer
   * and there is room for fragments; a payload of just maxsz bytes travels whole in one byte more.
   */
  lemma {:induction false} PacketsFitIff(marker: bool, hdr: byte, buf: seq<byte>, maxsz: nat)
    requires |buf| <= SIZE_T - 2 && Sent(true, true, |buf|, maxsz)
    ensures var ps := SendNal(true, true, marker, hdr, buf, maxsz, Done);
            && (AllFit(ps, maxsz) <==> |buf| < maxsz || (|buf| > maxsz && maxsz >= 3))
            && (|buf| <= maxsz || maxsz >= 3 ==> AllFit(ps, maxsz + 1))
  {
    if |buf| > maxsz {
      var ind, fu := 32 * Nri(hdr) as int + FU_A, 128 + Type(hdr);
      assert fu as int % 128 == Type(hdr);
      if maxsz >= 3 {
        FragmentsFit(ind, fu, buf, 0, maxsz - 2, marker);
        FitMore(SendNal(true, true, marker, hdr, buf, maxsz, Done), maxsz);
      } else {
        AtLeastTwoIff(marker, hdr, buf, maxsz, Done);
      }
    }
  }

  lemma {:induction false} FitMore(ps: Packets, max: nat)
    requires AllFit(ps, max)
    ensures AllFit(ps, max + 1)
    decreases ps
  {
    if ps.Next? {
      FitMore(ps.tail, max);
    }
  }

  // ---------------------------------------------------------------- reassembly

  /** The header of a fragmented unit: indicator bits and fragment type. */
  function Restored(ind: byte, fu: byte): byte {
    ind as int / 32 * 32 + Type(fu)
  }

  /** A receiver: whole units as they are, fragments joined from start bit to end bit. */
  function Receive(ps: Packets, part: seq<byte>): Nals {
    match ps
    case Done => Nil
    case Next(p, t) =>
      var data := p.hdr + p.pld;
      if |data| < 2 || Type(data[0]) != FU_A then Cons(data, Receive(t, []))
      else
        var part' := if StartBit(data[1]) then [Restored(data[0], data[1])] + data[2..] else part + data[2..];
        if EndBit(data[1]) then Cons(part', Receive(t, [])) else Receive(t, part')
  }

  lemma {:induction false} ReceiveFu(p: Packet, t: Packets, ind: byte, fu: byte, part: seq<byte>)
    requires p.hdr == [ind, fu] && Type(ind) == FU_A
    ensures var part' := if StartBit(fu) then [Restored(ind, fu)] + p.pld else part + p.pld;
            Receive(Next(p, t), part) == if EndBit(fu) then Cons(part', Receive(t, [])) else Receive(t, part')
  {
    assert (p.hdr + p.pld)[2..] == p.pld;
  }

  /** Reassembling the fragments of buf from i on gives what was gathered before, then the rest of buf. */
  lemma {:induction false} ReceiveFragments(ind: byte, fu: byte, buf: seq<byte>, i: nat, sz: nat, marker: bool, rest: Packets, part: seq<byte>)
    requires i <= |buf| && sz > 0 && fu as int % 128 < 32 && Type(ind) == FU_A
    ensures Receive(Fragments(ind, fu, buf, i, sz, true, marker, rest), part)
         == Cons((if StartBit(fu) then [Restored(ind, fu)] else part) + buf[i..], Receive(rest, []))
    decreases |buf| - i
  {
    hide Receive, Restored, Type, EndBit, StartBit;
    FuBits(fu);
    var head := if StartBit(fu) then [Restored(ind, fu)] else part;
    if |buf| - i > sz {
      var p := Packet(false, [ind, fu], buf[i..i + sz]);
      var tail := Fragments(ind, fu as int % 128, buf, i + sz, sz, true, marker, rest);
      ReceiveFu(p, tail, ind, fu, part);
      ReceiveFragments(ind, fu as int % 128, buf, i + sz, sz, marker, rest, head + p.pld);
      assert head + buf[i..] == head + buf[i..i + sz] + buf[i + sz..];
    } else {
      ReceiveFu(Packet(marker, [ind, fu as int + 64], buf[i..]), rest, ind, fu as int + 64, part);
      RestoredEnd(ind, fu);
    }
  }

  lemma {:induction false} RestoredEnd(ind: byte, fu: byte)
    requires fu as int % 128 < 32
    ensures Restored(ind, fu as int + 64) == Restored(ind, fu)
  {
    FuBits(fu);
  }

  lemma {:induction false} HeaderBits(hdr: byte)
    ensures var ind := 32 * Nri(hdr) as int + FU_A;
            ind < 256 && Type(ind) == FU_A && Restored(ind, 128 + Type(hdr)) == hdr as int % 128
  {
    var n, t, k := Nri(hdr) as int, Type(hdr) as int, hdr as int / 128;
    assert hdr as int / 32 == 4 * k + n;
    assert hdr == 128 * k + 32 * n + t;
    assert (32 * n + 28) / 32 == n && (32 * n + 28) % 32 == 28;
    assert (128 + t) % 32 == t;
  }

  /**
   * What arrives is the unit that was sent, byte for byte, if and only if it travels whole or its
   * forbidden bit is zero: the fragment headers have no room for that bit.
   */
  lemma {:induction false} NalRoundTrip(marker: bool, hdr: byte, buf: seq<byte>, maxsz: nat, rest: Packets, part: seq<byte>)
    requires (maxsz == 2 ==> |buf| <= 2) && Type(hdr) != FU_A
    ensures Receive(SendNal(true, true, marker, hdr, buf, maxsz, rest), part)
         == Cons([if |buf| <= maxsz then hdr else hdr as int % 128] + buf, Receive(rest, []))
  {
    hide Receive, Nri, Restored;
    if |buf| <= maxsz {
      ReceiveWhole(Packet(marker, [hdr], buf), rest, hdr, part);
    } else {
      HeaderBits(hdr);
      var fu := 128 + Type(hdr);
      assert fu as int % 128 == Type(hdr);
      assert buf[0..] == buf;
      ReceiveFragments(32 * Nri(hdr) as int + FU_A, fu, buf, 0, FuSize(maxsz), marker, rest, part);
    }
  }

  lemma {:induction false} ReceiveWhole(p: Packet, t: Packets, hdr: byte, part: seq<byte>)
    requires p.hdr == [hdr] && Type(hdr) != FU_A
    ensures Receive(Next(p, t), part) == Cons([hdr] + p.pld, Receive(t, []))
  {}

  // ---------------------------------------------------------------- whole frames

  /** With room for two bytes, only units that need no fragments are ever finished. */
  predicate Finished(nals: Nals, maxsz: nat) {
    nals.Cons? ==> (maxsz == 2 ==> |nals.nal| <= 3) && Finished(nals.tail, maxsz)
  }

  /** The packets of a frame: every unit in turn, the marker on the last. */
  function Packetized(nals: Nals, maxsz: nat): Packets
    requires NoneEmpty(nals) && Finished(nals, maxsz)
  {
    match nals
    case Nil => Done
    case Cons(nal, tail) => SendNal(true, true, tail.Nil?, nal[0], nal[1..], maxsz, Packetized(tail, maxsz))
  }

  /** Units that a receiver can tell from fragments and that lose nothing in fragments. */
  predicate Sendable(nals: Nals, maxsz: nat) {
    nals.Cons? ==> nals.nal != [] && Type(nals.nal[0]) != FU_A && (|nals.nal| <= maxsz + 1 || nals.nal[0] < 128)
                   && Sendable(nals.tail, maxsz)
  }

  lemma {:induction false} SendableNoneEmpty(nals: Nals, maxsz: nat)
    requires Sendable(nals, maxsz)
    ensures NoneEmpty(nals)
    decreases nals
  {
    if nals.Cons? {
      SendableNoneEmpty(nals.tail, maxsz);
    }
  }

  /** A receiver of the packets of a frame gets its units back, in order and byte for byte. */
  lemma {:induction false} FrameRoundTrip(nals: Nals, maxsz: nat, part: seq<byte>)
    requires Finished(nals, maxsz) && Sendable(nals, maxsz)
    ensures NoneEmpty(nals) && Receive(Packetized(nals, maxsz), part) == nals
    decreases nals
  {
    hide Receive, SendNal, Type;
    SendableNoneEmpty(nals, maxsz);
    match nals
    case Nil =>
      ReceiveNothing(part);
    case Cons(nal, tail) =>
      SendableNoneEmpty(tail, maxsz);
      FrameRoundTrip(tail, maxsz, []);
      NalRoundTrip(tail.Nil?, nal[0], nal[1..], maxsz, Packetized(tail, maxsz), part);
      assert [nal[0]] + nal[1..] == nal;
  }

  lemma {:induction false} ReceiveNothing(part: seq<byte>)
    ensures Receive(Done, part) == Nil
  {}

  lemma {:induction false} FragmentsMarked(ind: byte, fu: byte, buf: seq<byte>, i: nat, sz: nat, marker: bool, rest: Packets)
    requires i <= |buf| && sz > 0 && fu as int % 128 < 32 && MarkedAtEnd(rest) && marker == rest.Done?
    ensures MarkedAtEnd(Fragments(ind, fu, buf, i, sz, true, marker, rest))
    decreases |buf| - i
  {
    if |buf| - i > sz {
      FragmentsMarked(ind, fu as int % 128, buf, i + sz, sz, marker, rest);
      assert Fragments(ind, fu as int % 128, buf, i + sz, sz, true, marker, rest).Next?;
    }
  }

  /** The marker is on the last packet of the frame only. */
  lemma {:induction false} FrameMarked(nals: Nals, maxsz: nat)
    requires NoneEmpty(nals) && Finished(nals, maxsz)
    ensures MarkedAtEnd(Packetized(nals, maxsz)) && (Packetized(nals, maxsz).Done? <==> nals.Nil?)
    decreases nals
  {
    hide Fragments;
    if nals.Cons? {
      FrameMarked(nals.tail, maxsz);
      var hdr, rest := nals.nal[0], Packetized(nals.tail, maxsz);
      var ind, fu := 32 * Nri(hdr) as int + FU_A, 128 + Type(hdr);
      assert fu as int % 128 == Type(hdr);
      if maxsz != 2 {
        FragmentsMarked(ind, fu, nals.nal[1..], 0, FuSize(maxsz), nals.tail.Nil?, rest);
        SomeFragment(ind, fu, nals.nal[1..], FuSize(maxsz), nals.tail.Nil?, rest);
      }
    }
  }

  lemma {:induction false} SomeFragment(ind: byte, fu: byte, buf: seq<byte>, sz: nat, marker: bool, rest: Packets)
    requires sz > 0 && fu as int % 128 < 32
    ensures Fragments(ind, fu, buf, 0, sz, true, marker, rest).Next?
  {}

  /** The packets of units from the front, then the rest, are the packets of all. */
  lemma {:induction false} SendAppends(marker: bool, hdr: byte, buf: seq<byte>, maxsz: nat, rest: Packets)
    requires maxsz == 2 ==> |buf| <= 2
    ensures AsSeq(SendNal(true, true, marker, hdr, buf, maxsz, rest))
         == AsSeq(SendNal(true, true, marker, hdr, buf, maxsz, Done)) + AsSeq(rest)
  {
    if |buf| > maxsz {
      var fu := 128 + Type(hdr);
      assert fu as int % 128 == Type(hdr);
      FragmentsAppend(32 * Nri(hdr) as int + FU_A, fu, buf, 0, FuSize(maxsz), marker, rest);
    }
  }

  lemma {:induction false} FragmentsAppend(ind: byte, fu: byte, buf: seq<byte>, i: nat, sz: nat, marker: bool, rest: Packets)
    requires i <= |buf| && sz > 0 && fu as int % 128 < 32
    ensures AsSeq(Fragments(ind, fu, buf, i, sz, true, marker, rest))
         == AsSeq(Fragments(ind, fu, buf, i, sz, true, marker, Done)) + AsSeq(rest)
    decreases |buf| - i
  {
    if |buf| - i > sz {
      FragmentsAppend(ind, fu as int % 128, buf, i + sz, sz, marker, rest);
    } else {
      assert AsSeq(Done) == [];
    }
  }

  /** The payload length of the unit between q and r1, as the source computes it. */
  function PayloadLength(q: nat, r1: nat): nat
    requires q <= r1 < SIZE_T
  {
    if r1 - q >= 1 then r1 - q - 1 else SIZE_T - 1
  }

  /** The payload lies inside the frame exactly if the unit is not empty. */
  lemma {:induction false} PayloadInsideIff(frame: seq<byte>, r: nat)
    requires r + 3 < |frame| < SIZE_T
    ensures var r1 := NextCode(frame, r + 3, |frame|);
            r + 4 + PayloadLength(r + 3, r1) <= |frame| <==> r1 > r + 3
  {}

  /** Two start codes with nothing in between, and a byte behind them. */
  predicate TwoCodes(frame: seq<byte>, r: nat) {
    r + 6 < |frame| && CodeAt(frame, r) && CodeAt(frame, r + 3)
  }

  /** No unit is empty exactly if nowhere a start code directly follows another. */
  lemma {:induction false} NoneEmptyIff(frame: seq<byte>, r: nat)
    requires r <= |frame| && (r < |frame| ==> r + 3 < |frame| && CodeAt(frame, r))
    ensures NoneEmpty(Cut(frame, r, |frame|)) <==> forall i :: r <= i < |frame| ==> !TwoCodes(frame, i)
    decreases |frame| - r
  {
    hide NextCode;
    if r < |frame| {
      var r1 := NextCode(frame, r + 3, |frame|);
      NoneEmptyIff(frame, r1);
      assert frame[r + 3..r1] == [] <==> r1 == r + 3;
      if r1 == r + 3 {
        assert TwoCodes(frame, r);
      } else {
        forall i | r <= i < r1
          ensures !TwoCodes(frame, i)
        {
          NoCodesBetween(frame, r, r1, i);
        }
      }
    }
  }

  lemma {:induction false} NoCodesBetween(frame: seq<byte>, r: nat, r1: nat, i: nat)
    requires r + 3 < |frame| && CodeAt(frame, r) && r1 == NextCode(frame, r + 3, |frame|) && r + 3 < r1 && r <= i < r1
    ensures !TwoCodes(frame, i)
  {
    hide NextCode;
  }

  /** A frame has no empty unit exactly if no start code directly follows another. */
  lemma {:induction false} FrameNoneEmptyIff(frame: seq<byte>)
    ensures NoneEmpty(Units(frame)) <==> forall i :: 0 <= i < |frame| ==> !TwoCodes(frame, i)
  {
    var r := NextCode(frame, 0, |frame|);
    NoneEmptyIff(frame, r);
    forall i | 0 <= i < r
      ensures !TwoCodes(frame, i)
    {}
  }

  /** The shortest frame with an empty unit. */
  lemma {:induction false} EmptyUnit()
    ensures !NoneEmpty(Units([0, 0, 1, 0, 0, 1, 101]))
  {
    var frame: seq<byte> := [0, 0, 1, 0, 0, 1, 101];
    FrameNoneEmptyIff(frame);
    assert TwoCodes(frame, 0);
  }

  /** h264_packetize. Excluded are frames with an empty unit, and a unit that would never be finished. */
  method Packetize(sink: Sink, frame: seq<byte>, base: nat, maxsz: nat)
    requires NoneEmpty(Units(frame)) && Finished(Units(frame), maxsz)
    modifies sink
    ensures sink.sent == old(sink.sent) + AsSeq(Packetized(Units(frame), maxsz))
  {
    hide NextCode, SendNal, AsSeq, Packetized, Cut, NoneEmpty, Finished;
    ghost var all := AsSeq(Packetized(Units(frame), maxsz));
    var r := FindStartcode(frame, 0, |frame|, base);
    while r < |frame|
      invariant r <= |frame| && (r < |frame| ==> r + 3 < |frame| && CodeAt(frame, r))
      invariant NoneEmpty(Cut(frame, r, |frame|)) && Finished(Cut(frame, r, |frame|), maxsz)
      invariant sink.sent + AsSeq(Packetized(Cut(frame, r, |frame|), maxsz)) == old(sink.sent) + all
      decreases |frame| - r
    {
      PacketizeUnit(frame, r, maxsz, sink.sent);
      var q := SkipZeros(frame, r, |frame|);
      var r1 := FindStartcode(frame, q, |frame|, base);
      NalSend(sink, true, true, r1 >= |frame|, frame[q], frame[q + 1..r1], maxsz);
      r := r1;
    }
    PacketizeEnd(frame, maxsz, sink.sent);
  }

  /** One turn of the loop takes the packets of the unit at r. */
  lemma {:induction false} PacketizeUnit(frame: seq<byte>, r: nat, maxsz: nat, sent: seq<Packet>)
    requires r + 3 < |frame| && NoneEmpty(Cut(frame, r, |frame|)) && Finished(Cut(frame, r, |frame|), maxsz)
    ensures var r1 := NextCode(frame, r + 3, |frame|);
            && r + 3 < r1 && NoneEmpty(Cut(frame, r1, |frame|)) && Finished(Cut(frame, r1, |frame|), maxsz)
            && (maxsz == 2 ==> r1 - r - 4 <= 2)
            && sent + AsSeq(Packetized(Cut(frame, r, |frame|), maxsz))
               == sent + AsSeq(SendNal(true, true, r1 >= |frame|, frame[r + 3], frame[r + 4..r1], maxsz, Done))
                  + AsSeq(Packetized(Cut(frame, r1, |frame|), maxsz))
  {
    hide NextCode, SendNal, AsSeq;
    var r1 := NextCode(frame, r + 3, |frame|);
    var nal, tail := frame[r + 3..r1], Cut(frame, r1, |frame|);
    assert Cut(frame, r, |frame|) == Cons(nal, tail);
    assert nal[1..] == frame[r + 4..r1];
    assert tail.Nil? <==> r1 >= |frame|;
    SendAppends(r1 >= |frame|, nal[0], nal[1..], maxsz, Packetized(tail, maxsz));
    SeqAssoc(sent, AsSeq(SendNal(true, true, r1 >= |frame|, nal[0], nal[1..], maxsz, Done)), AsSeq(Packetized(tail, maxsz)));
  }

  lemma {:induction false} PacketizeEnd(frame: seq<byte>, maxsz: nat, sent: seq<Packet>)
    ensures NoneEmpty(Cut(frame, |frame|, |frame|)) && Finished(Cut(frame, |frame|, |frame|), maxsz)
    ensures sent + AsSeq(Packetized(Cut(frame, |frame|, |frame|), maxsz)) == sent
  {
    assert sent + [] == sent;
  }

  lemma {:induction false} SeqAssoc(a: seq<Packet>, b: seq<Packet>, c: seq<Packet>)
    ensures a + (b + c) == a + b + c
  {}
}
