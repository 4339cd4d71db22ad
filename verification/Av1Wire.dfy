/**
 * What the AV1 decoder makes of any bytes, and that a receiver of the packets finds the OBUs themselves:
 * types and payloads, not just the bytes that were written.
 */
module Av1Wire {
  import opened Bytes
  import opened RtpPackets
  import opened Av1

  // ---------------------------------------------------------------- LEB128 numbers

  /** Up to n bytes, of which only the last has no continuation bit, unless there are n. */
  predicate LebForm(raw: seq<byte>, n: nat) {
    1 <= |raw| <= n && (forall i :: 0 <= i < |raw| - 1 ==> raw[i] >= 0x80) && (raw[|raw| - 1] < 0x80 || |raw| == n)
  }

  /** Seven bits of each byte, the lowest first. */
  function LebValue(raw: seq<byte>): nat {
    if raw == [] then 0 else raw[0] as int % 0x80 + 0x80 * LebValue(raw[1..])
  }

  ghost predicate LebAt(b: seq<byte>, end: nat, p: nat, n: nat, v: nat, q: nat) {
    exists raw :: LebForm(raw, n) && HoldsAt(b, p, raw) && q == p + |raw| <= end && v == LebValue(raw)
  }

  /** A number is read exactly if its bytes are one: at most eight, seven bits each. */
  lemma {:induction false} LebReadIff(b: seq<byte>, p: nat, end: nat, n: nat, v: nat, q: nat)
    requires p <= end <= |b| && n > 0
    ensures DecLeb(b, p, end, n) == Success((v, q)) <==> LebAt(b, end, p, n, v, q)
    decreases n
  {
    hide HoldsAt;
    if p == end {
      forall raw | LebForm(raw, n) && HoldsAt(b, p, raw)
        ensures p + |raw| > end
      {}
    } else if b[p] < 0x80 || n == 1 {
      LebLast(b, p, end, n, v, q);
    } else {
      LebFirst(b, p, end, n, v, q);
      if LebAt(b, end, p, n, v, q) {
        LebReadIff(b, p + 1, end, n - 1, (v - b[p] as int % 0x80) / 0x80, q);
      }
      var r := DecLeb(b, p + 1, end, n - 1);
      if r.Success? {
        LebReadIff(b, p + 1, end, n - 1, r.value.0, r.value.1);
        var rest :| LebForm(rest, n - 1) && HoldsAt(b, p + 1, rest) && r.value.1 == p + 1 + |rest| <= end && r.value.0 == LebValue(rest);
        LebMore(b, p, end, n, rest);
      }
    }
  }

  /** Behind a continuation bit the rest is a number of its own. */
  lemma {:induction false} LebFirst(b: seq<byte>, p: nat, end: nat, n: nat, v: nat, q: nat)
    requires p < end <= |b| && n > 1 && b[p] >= 0x80
    ensures LebAt(b, end, p, n, v, q) ==>
            v >= b[p] as int % 0x80
            && var rest := (v - b[p] as int % 0x80) / 0x80; v == b[p] as int % 0x80 + 0x80 * rest && LebAt(b, end, p + 1, n - 1, rest, q)
  {
    hide HoldsAt;
    if LebAt(b, end, p, n, v, q) {
      var raw :| LebForm(raw, n) && HoldsAt(b, p, raw) && q == p + |raw| <= end && v == LebValue(raw);
      HoldsAtIndex(b, p, raw, 0);
      assert raw == [raw[0]] + raw[1..];
      HoldsAtSplit(b, p, [raw[0]], raw[1..]);
      assert LebForm(raw[1..], n - 1);
    }
  }

  lemma {:induction false} LebMore(b: seq<byte>, p: nat, end: nat, n: nat, rest: seq<byte>)
    requires p < |b| && b[p] >= 0x80 && n > 1 && LebForm(rest, n - 1) && HoldsAt(b, p + 1, rest) && p + 1 + |rest| <= end
    ensures LebAt(b, end, p, n, b[p] as int % 0x80 + 0x80 * LebValue(rest), p + 1 + |rest|)
  {
    hide HoldsAt;
    var raw := [b[p]] + rest;
    assert HoldsAt(b, p, [b[p]]) by { OneByte(b, p); }
    HoldsAtSplit(b, p, [b[p]], rest);
    assert raw[1..] == rest && LebForm(raw, n);
  }

  lemma {:induction false} OneByte(b: seq<byte>, p: nat)
    requires p < |b|
    ensures HoldsAt(b, p, [b[p]])
  {}

  lemma {:induction false} LebLast(b: seq<byte>, p: nat, end: nat, n: nat, v: nat, q: nat)
    requires p < end <= |b| && n > 0 && (b[p] < 0x80 || n == 1)
    ensures DecLeb(b, p, end, n) == Success((v, q)) <==> LebAt(b, end, p, n, v, q)
  {
    OneByte(b, p);
    assert LebForm([b[p]], n) && LebValue([b[p]]) == b[p] as int % 0x80 by { assert [b[p]][1..] == []; }
    assert n == 1 && b[p] >= 0x80 ==> DecLeb(b, p + 1, end, 0) == Success((0, p + 1));
    forall raw | LebForm(raw, n) && HoldsAt(b, p, raw)
      ensures raw == [b[p]]
    {
      HoldsAtIndex(b, p, raw, 0);
    }
  }

  // ---------------------------------------------------------------- OBUs

  /** The header byte of an OBU of type t, the reserved bit aside. */
  predicate HeaderOf(c: byte, t: obuType, sized: bool) {
    c as int / 2 == 4 * t as int + if sized then 1 else 0
  }

  /** An OBU at p: its type, and its payload of size bytes at body. */
  ghost predicate ObuAt(b: seq<byte>, p: nat, end: nat, h: Hdr)
    requires end <= |b|
  {
    && p < end && h.body + h.size <= end
    && if HeaderOf(b[p], h.typ, true) then LebAt(b, end, p + 1, 8, h.size, h.body)
       else HeaderOf(b[p], h.typ, false) && h.body == p + 1 && h.size == end - h.body
  }

  lemma {:induction false} HeaderBits(c: byte, t: obuType)
    ensures HeaderOf(c, t, true) <==> c < 0x80 && c as int / 8 % 16 == t && c as int / 4 % 2 == 0 && c as int / 2 % 2 == 1
    ensures HeaderOf(c, t, false) <==> c < 0x80 && c as int / 8 % 16 == t && c as int / 4 % 2 == 0 && c as int / 2 % 2 == 0
  {
    var v := c as int;
    assert v == 128 * (v / 128) + 8 * (v / 8 % 16) + 4 * (v / 4 % 2) + 2 * (v / 2 % 2) + v % 2 by { ByteParts(c); }
  }

  lemma {:induction false} ByteParts(c: byte)
    ensures var v := c as int; v == 128 * (v / 128) + 8 * (v / 8 % 16) + 4 * (v / 4 % 2) + 2 * (v / 2 % 2) + v % 2
  {
    var v := c as int;
    assert v / 4 == v / 2 / 2 && v / 8 == v / 4 / 2 && v / 128 == v / 8 / 16;
  }

  /** An OBU is decoded exactly if the bytes are one. */
  lemma {:induction false} ObuReadIff(b: seq<byte>, p: nat, end: nat, h: Hdr)
    requires p <= end <= |b|
    ensures DecObu(b, p, end) == Success(h) <==> ObuAt(b, p, end, h)
  {
    hide DecLeb, LebAt;
    if p < end {
      HeaderBits(b[p], h.typ);
      LebReadIff(b, p + 1, end, 8, h.size, h.body);
    }
  }

  /** Refused are extensions with ENOTSUP, and everything else that is not an OBU with EBADMSG. */
  lemma {:induction false} ObuRefused(b: seq<byte>, p: nat, end: nat)
    requires p <= end <= |b| && DecObu(b, p, end).Failure?
    ensures DecObu(b, p, end).err ==
            if p < end && b[p] < 0x80 && b[p] >= 8 && b[p] as int / 4 % 2 == 1 then ENOTSUP else EBADMSG
  {
    hide DecLeb;
    if p < end {
      ByteParts(b[p]);
    }
  }

  /** Temporal delimiters, tile lists, padding and reserved types stay behind. */
  lemma {:induction false} NotAllowed(t: obuType)
    ensures !Allowed(t) <==> t == 2 || t >= 8
  {}

  // ---------------------------------------------------------------- what arrives

  /** The element is an OBU of this type and payload, without a size field. */
  predicate ObuIs(e: seq<byte>, t: obuType, pld: seq<byte>) {
    e != [] && e[0] % 4 == 0 && DecObu(e, 0, |e|) == Success(Hdr(t, |pld|, 1)) && e[1..] == pld
  }

  /** The elements are the allowed OBUs, in order. */
  predicate Carried(es: Elements, os: Obus)
    decreases os
  {
    match os
    case Nil => es.NoMore?
    case Cons(t, pld, tail) =>
      if Allowed(t) then es.More? && ObuIs(es.elem, t, pld) && Carried(es.rest, tail) else Carried(es, tail)
  }

  lemma {:induction false} ElementIff(e: seq<byte>, t: obuType, pld: seq<byte>)
    ensures ObuIs(e, t, pld) <==> e == Element(t, pld)
  {
    if e != [] {
      ByteParts(e[0]);
      HeaderBits(e[0], t);
      if e[0] == t as int * 8 && e[1..] == pld {
        assert e == [e[0]] + e[1..];
      }
    }
  }

  lemma {:induction false} CarriedIff(es: Elements, os: Obus)
    ensures Carried(es, os) <==> es == AllowedElements(os)
    decreases os
  {
    hide ObuIs, Element;
    if os.Cons? {
      if Allowed(os.typ) {
        if es.More? {
          ElementIff(es.elem, os.typ, os.pld);
          CarriedIff(es.rest, os.tail);
        }
      } else {
        CarriedIff(es, os.tail);
      }
    }
  }

  /**
   * The whole way, in terms of the OBUs: what a receiver finds in the joined payloads under the W of the
   * first packet decodes to the allowed OBUs, in order, under exactly the condition of UnitRoundTripIff.
   */
  lemma {:induction false} UnitArrivesIff(os: Obus, open: bool, max: nat, fresh': bool, marker: bool)
    requires SizesOk(os) && max > 0
    ensures var b := Input(os, open);
            && CountRtp(b, 0, |b|).Some?
            && var n := CountRtp(b, 0, |b|).value;
               var wire := Copy(b, 0, |b|, n > MAX_OBUS);
            && wire.Success?
            && var s := Payloads(Packetized(wire.value, 0, max, WField(n), false, fresh', marker));
               var es := Parse(s, 0, |s|, WField(n));
               es.Success? && Carried(es.value, os) <==>
               !LastLost(os, open) && (LastAllowed(os) || Count(os) > MAX_OBUS || Count(os) == 0)
  {
    hide Copy, CountRtp, Input, Parse, Packetized, Payloads, Carried, AllowedElements, Count, LastLost, LastAllowed, SizesOk, Chained;
    UnitRoundTripIff(os, open, max, fresh', marker);
    var b := Input(os, open);
    var n := CountRtp(b, 0, |b|).value;
    var wire := Copy(b, 0, |b|, n > MAX_OBUS).value;
    PacketsOk(wire, 0, max, WField(n), false, fresh', marker);
    var s := Payloads(Packetized(wire, 0, max, WField(n), false, fresh', marker));
    var es := Parse(s, 0, |s|, WField(n));
    if es.Success? {
      CarriedIff(es.value, os);
    }
  }
}
