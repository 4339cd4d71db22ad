/** Packets handed to a packet handler, in order. */
module RtpPackets {
  import opened Bytes

  datatype Packet = Packet(marker: bool, hdr: seq<byte>, pld: seq<byte>)

  datatype Packets = Done | Next(head: Packet, tail: Packets)

  function AsSeq(ps: Packets): seq<Packet> {
    match ps
    case Done => []
    case Next(p, t) => [p] + AsSeq(t)
  }

  /** The marker bit is on the last packet of the frame and on no other. */
  predicate MarkedAtEnd(ps: Packets) {
    ps.Next? ==> ps.head.marker == ps.tail.Done? && MarkedAtEnd(ps.tail)
  }

  /** Every packet has at most max bytes, its header included. */
  predicate AllFit(ps: Packets, max: nat) {
    ps.Next? ==> |ps.head.hdr| + |ps.head.pld| <= max && AllFit(ps.tail, max)
  }

  /** Sending p first leaves the rest to be sent. */
  lemma {:induction false} SentOne(sent: seq<Packet>, p: Packet, rest: Packets)
    ensures sent + AsSeq(Next(p, rest)) == sent + [p] + AsSeq(rest)
  {
    assert sent + ([p] + AsSeq(rest)) == sent + [p] + AsSeq(rest);
  }

  /** The packet handler: it collects what it is given. */
  class Sink {
    var sent: seq<Packet>

    constructor ()
      ensures sent == []
    {
      sent := [];
    }

    method Send(p: Packet)
      modifies this
      ensures sent == old(sent) + [p]
    {
      sent := sent + [p];
    }
  }

  /** What is left of len bytes after some turns of the fragment loop, which sends sz of them while there are more. */
  function FuLeft(len: nat, sz: nat, turns: nat): nat {
    if turns == 0 || len <= sz then len else FuLeft(len - sz, sz, turns - 1)
  }

  ghost predicate FragmentsEnd(len: nat, sz: nat) {
    exists turns: nat :: FuLeft(len, sz, turns) <= sz
  }

  /** The fragment loop ends exactly if a fragment has room for payload, or there is none. */
  lemma {:induction false} FragmentsEndIff(len: nat, sz: nat)
    ensures FragmentsEnd(len, sz) <==> sz > 0 || len == 0
  {
    if sz > 0 {
      FuLeftLess(len, sz, len);
    } else if len > 0 {
      forall turns: nat
        ensures FuLeft(len, sz, turns) > sz
      {
        FuLeftStuck(len, turns);
      }
    } else {
      assert FuLeft(len, sz, 0) <= sz;
    }
  }

  lemma {:induction false} FuLeftLess(len: nat, sz: nat, turns: nat)
    requires sz > 0 && len <= turns
    ensures FuLeft(len, sz, turns) <= sz
    decreases turns
  {
    if turns > 0 && len > sz {
      FuLeftLess(len - sz, sz, turns - 1);
    }
  }

  lemma {:induction false} FuLeftStuck(len: nat, turns: nat)
    requires len > 0
    ensures FuLeft(len, 0, turns) == len
    decreases turns
  {
    if turns > 0 {
      FuLeftStuck(len, turns - 1);
    }
  }
}
