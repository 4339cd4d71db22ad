/**
 * AV1 over RTP: LEB128 numbers, OBU headers, aggregation of the OBUs of a temporal unit, and the
 * proof that a receiver finds exactly the OBUs allowed on the wire.
 */
module Av1 {
  import opened Bytes
  import opened RtpPackets

  const LEB_MAX := 8
  const MAX_OBUS := 3

  // ---------------------------------------------------------------- LEB128

  function Leb(v: nat): (b: seq<byte>)
    ensures |b| >= 1
  {
    if v >= 0x80 then [0x80 + v % 0x80] + Leb(v / 0x80) else [v]
  }

  /** At most n bytes of seven bits each; a number that needs more is cut off. */
  function DecLeb(b: seq<byte>, p: nat, end: nat, n: nat): (r: Result<(nat, nat)>)
    requires p <= end <= |b|
    ensures r.Success? ==> p <= r.value.1 <= end && r.value.1 <= p + n
    ensures r.Failure? ==> r.err == EBADMSG
    decreases n
  {
    if n == 0 then Success((0, p))
    else if p >= end then Failure(EBADMSG)
    else if b[p] < 0x80 then Success((b[p], p + 1))
    else
      var r :- DecLeb(b, p + 1, end, n - 1);
      Success((b[p] as int % 0x80 + 0x80 * r.0, r.1))
  }

  function Pow(n: nat): (v: nat)
    ensures v >= 1
  {
    if n == 0 then 1 else 0x80 * Pow(n - 1)
  }

  lemma {:induction false} PowEight()
    ensures Pow(8) == 0x100_0000_0000_0000
  {
    assert Pow(2) == 0x4000;
    assert Pow(4) == 0x1000_0000;
    assert Pow(6) == 0x400_0000_0000;
  }

  lemma {:induction false} LebParts(v: nat)
    requires v >= 0x80
    ensures (0x80 + v % 0x80) % 0x80 == v % 0x80 && v == v % 0x80 + 0x80 * (v / 0x80)
  {}

  /** n bytes are enough for a number below 128 to the n, and only for those. */
  lemma {:induction false} LebDecodes(v: nat, b: seq<byte>, p: nat, end: nat, n: nat)
    requires HoldsAt(b, p, Leb(v)) && p + |Leb(v)| <= end <= |b| && n > 0
    ensures DecLeb(b, p, end, n).Success?
    ensures DecLeb(b, p, end, n).value == (v, p + |Leb(v)|) <==> v < Pow(n)
    ensures v >= Pow(n) ==> DecLeb(b, p, end, n).value.1 < p + |Leb(v)|
    decreases n
  {
    hide HoldsAt;
    if v < 0x80 {
      HoldsAtIndex(b, p, Leb(v), 0);
      assert Pow(n) >= 0x80 by { assert Pow(n) == 0x80 * Pow(n - 1); }
    } else {
      var h := [0x80 + v % 0x80];
      HoldsAtSplit(b, p, h, Leb(v / 0x80));
      HoldsAtIndex(b, p, h, 0);
      LebParts(v);
      if n > 1 {
        LebDecodes(v / 0x80, b, p + 1, end, n - 1);
      }
      assert v < 0x80 * Pow(n - 1) <==> v / 0x80 < Pow(n - 1);
    }
  }

  /** Encoding and decoding a number is the identity, reading exactly what was written, iff it is below 2^56. */
  lemma {:induction false} LebRoundTripIff(v: nat, b: seq<byte>, p: nat, end: nat)
    requires HoldsAt(b, p, Leb(v)) && p + |Leb(v)| <= end <= |b|
    ensures DecLeb(b, p, end, LEB_MAX) == Success((v, p + |Leb(v)|)) <==> v < 0x100_0000_0000_0000
  {
    hide HoldsAt, DecLeb, Leb;
    PowEight();
    LebDecodes(v, b, p, end, LEB_MAX);
  }

  // ---------------------------------------------------------------- OBUs

  type obuType = t: int | 1 <= t < 16 witness 1

  predicate Allowed(t: obuType) {
    t == 1 || t == 3 || t == 4 || t == 5 || t == 6 || t == 7
  }

  datatype Obus = Nil | Cons(typ: obuType, pld: seq<byte>, tail: Obus)

  function ObuBytes(t: obuType, hasSize: bool, pld: seq<byte>): seq<byte> {
    [t as int * 8 + if hasSize then 2 else 0] + (if hasSize then Leb(|pld|) else []) + pld
  }

  datatype Hdr = Hdr(typ: obuType, size: nat, body: nat)

  /** av1_obu_decode: where the payload starts and how long it is. */
  function DecObu(b: seq<byte>, p: nat, end: nat): (r: Result<Hdr>)
    requires p <= end <= |b|
    ensures r.Success? ==> p < r.value.body && r.value.body + r.value.size <= end
    ensures r.Failure? ==> r.err == EBADMSG || r.err == ENOTSUP
  {
    if p >= end then Failure(EBADMSG)
    else
      var typ, x, s := b[p] as int / 8 % 16, b[p] as int / 4 % 2, b[p] as int / 2 % 2;
      if b[p] >= 0x80 || typ == 0 then Failure(EBADMSG)
      else if x == 1 then Failure(ENOTSUP)
      else if s == 0 then Success(Hdr(typ, end - (p + 1), p + 1))
      else
        var r :- DecLeb(b, p + 1, end, LEB_MAX);
        if r.0 > end - r.1 then Failure(EBADMSG) else Success(Hdr(typ, r.0, r.1))
  }

  lemma {:induction false} HdrBits(t: obuType)
    ensures var v := t as int * 8 + 2; v < 0x80 && v / 8 % 16 == t && v / 4 % 2 == 0 && v / 2 % 2 == 1
  {
    var v := t as int * 8 + 2;
    assert v / 8 == t && v / 4 == 2 * t as int && v / 2 == 4 * t as int + 1;
  }

  /** An OBU with a size field is found again. */
  lemma {:induction false} ObuDecodes(t: obuType, pld: seq<byte>, b: seq<byte>, p: nat, end: nat)
    requires |pld| < 0x100_0000_0000_0000 && HoldsAt(b, p, ObuBytes(t, true, pld)) && p + |ObuBytes(t, true, pld)| <= end <= |b|
    ensures var q := p + 1 + |Leb(|pld|)|;
            DecObu(b, p, end) == Success(Hdr(t, |pld|, q)) && p + |ObuBytes(t, true, pld)| == q + |pld| && b[q..q + |pld|] == pld
  {
    hide HoldsAt, Leb, DecLeb;
    var h := [t as int * 8 + 2];
    HoldsAtSplit(b, p, h + Leb(|pld|), pld);
    HoldsAtSplit(b, p, h, Leb(|pld|));
    HoldsAtIndex(b, p, h, 0);
    HdrBits(t);
    LebRoundTripIff(|pld|, b, p + 1, end);
    Slice(b, p + 1 + |Leb(|pld|)|, pld);
  }

  lemma {:induction false} Slice(b: seq<byte>, p: nat, d: seq<byte>)
    requires HoldsAt(b, p, d)
    ensures p + |d| <= |b| && b[p..p + |d|] == d
  {}

  // ---------------------------------------------------------------- aggregation

  /** An OBU element on the wire: header without size field, then the payload. */
  function Element(t: obuType, pld: seq<byte>): seq<byte> {
    [t as int * 8] + pld
  }

  /** One step of copy_obus: the element, with its length unless it may go without. */
  function Copied(t: obuType, pld: seq<byte>, bare: bool): seq<byte> {
    if !Allowed(t) then []
    else if bare then Element(t, pld)
    else Leb(1 + |pld|) + Element(t, pld)
  }

  /** copy_obus from position p on. */
  function Copy(b: seq<byte>, p: nat, end: nat, w0: bool): (r: Result<seq<byte>>)
    requires p <= end <= |b|
    ensures r.Failure? ==> r.err == EBADMSG || r.err == ENOTSUP
    decreases end - p
  {
    if end - p < 2 then Success([])
    else
      var h :- DecObu(b, p, end);
      var q := h.body + h.size;
      var rest :- Copy(b, q, end, w0);
      Success(Copied(h.typ, b[h.body..q], q == end && !w0) + rest)
  }

  /** av1_obu_count_rtp from position p on; None for an input that cannot be decoded. */
  function CountRtp(b: seq<byte>, p: nat, end: nat): Option<nat>
    requires p <= end <= |b|
    decreases end - p
  {
    if end - p < 2 then Some(0)
    else match DecObu(b, p, end)
      case Failure(_) => None
      case Success(h) =>
        match CountRtp(b, h.body + h.size, end)
        case None => None
        case Some(n) => Some(n + if Allowed(h.typ) then 1 else 0)
  }

  /** A temporal unit; if it is open, its last OBU has no size field. */
  function Input(os: Obus, open: bool): seq<byte> {
    match os
    case Nil => []
    case Cons(t, pld, tail) => ObuBytes(t, !(open && tail.Nil?), pld) + Input(tail, open)
  }

  /** The unit ends with an allowed OBU that is a single byte: no size field and no payload. */
  predicate LastLost(os: Obus, open: bool) {
    open && os.Cons? && if os.tail.Nil? then os.pld == [] && Allowed(os.typ) else LastLost(os.tail, open)
  }

  /** All OBUs but the last. */
  function Init(os: Obus): Obus {
    if os.Nil? || os.tail.Nil? then Nil else Cons(os.typ, os.pld, Init(os.tail))
  }

  function Count(os: Obus): nat {
    if os.Nil? then 0 else Count(os.tail) + if Allowed(os.typ) then 1 else 0
  }

  predicate SizesOk(os: Obus) {
    os.Cons? ==> |os.pld| < 0xff_ffff_ffff_ffff && SizesOk(os.tail)
  }

  predicate LastAllowed(os: Obus) {
    os.Cons? && if os.tail.Nil? then Allowed(os.typ) else LastAllowed(os.tail)
  }

  /** The elements of the allowed OBUs, all but a final bare one with their lengths. */
  function Wire(os: Obus, w0: bool): seq<byte> {
    match os
    case Nil => []
    case Cons(t, pld, tail) => Copied(t, pld, tail.Nil? && !w0) + Wire(tail, w0)
  }

  lemma {:induction false} InputSize(os: Obus, open: bool)
    ensures os.Cons? ==> |Input(os, open)| >= 1 && (!open || os.tail.Cons? || os.pld != [] ==> |Input(os, open)| >= 2)
  {}

  lemma {:induction false} OpenBits(t: obuType)
    ensures var v := t as int * 8; v < 0x80 && v / 8 % 16 == t && v / 4 % 2 == 0 && v / 2 % 2 == 0
  {
    var v := t as int * 8;
    assert v / 8 == t && v / 4 == 2 * t as int && v / 2 == 4 * t as int;
  }

  /** An OBU without a size field takes what is left. */
  lemma {:induction false} OpenDecodes(t: obuType, pld: seq<byte>, b: seq<byte>, p: nat, end: nat)
    requires HoldsAt(b, p, ObuBytes(t, false, pld)) && p + |ObuBytes(t, false, pld)| == end <= |b|
    ensures DecObu(b, p, end) == Success(Hdr(t, |pld|, p + 1)) && end == p + 1 + |pld| && b[p + 1..end] == pld
  {
    hide HoldsAt, DecLeb;
    var h := [t as int * 8];
    assert ObuBytes(t, false, pld) == h + pld;
    HoldsAtSplit(b, p, h, pld);
    HoldsAtIndex(b, p, h, 0);
    OpenBits(t);
    Slice(b, p + 1, pld);
  }

  lemma {:induction false} CopyOpen(t: obuType, pld: seq<byte>, b: seq<byte>, p: nat, end: nat, w0: bool)
    requires HoldsAt(b, p, ObuBytes(t, false, pld)) && p + |ObuBytes(t, false, pld)| == end <= |b|
    ensures Copy(b, p, end, w0) == Success(if pld == [] then [] else Copied(t, pld, !w0))
    ensures CountRtp(b, p, end) == Some(if pld != [] && Allowed(t) then 1 else 0)
  {
    hide HoldsAt, DecObu, ObuBytes, Copied;
    OpenDecodes(t, pld, b, p, end);
    assert Copy(b, end, end, w0) == Success([]) && CountRtp(b, end, end) == Some(0);
    assert Copied(t, pld, !w0) + [] == Copied(t, pld, !w0);
  }

  lemma {:induction false} WireOne(t: obuType, pld: seq<byte>, w0: bool)
    ensures Wire(Cons(t, pld, Nil), w0) == Copied(t, pld, !w0) && Count(Cons(t, pld, Nil)) == if Allowed(t) then 1 else 0
  {
    assert Copied(t, pld, !w0) + [] == Copied(t, pld, !w0);
  }

  /** Counting and copying a unit see exactly its OBUs, but for a last one of a single byte. */
  lemma {:induction false} CopyList(os: Obus, open: bool, b: seq<byte>, p: nat, end: nat, w0: bool)
    requires SizesOk(os) && HoldsAt(b, p, Input(os, open)) && p + |Input(os, open)| == end <= |b|
    ensures if LastLost(os, open)
            then Count(os) >= 1 && Copy(b, p, end, w0) == Success(Wire(Init(os), true)) && CountRtp(b, p, end) == Some(Count(os) - 1)
            else Copy(b, p, end, w0) == Success(Wire(os, w0)) && CountRtp(b, p, end) == Some(Count(os))
    decreases os
  {
    hide HoldsAt, Leb, DecObu, ObuBytes, Element;
    if os.Nil? {
    } else if open && os.tail.Nil? {
      assert os == Cons(os.typ, os.pld, Nil) && Input(os, open) == ObuBytes(os.typ, false, os.pld);
      CopyOpen(os.typ, os.pld, b, p, end, w0);
      WireOne(os.typ, os.pld, w0);
    } else {
      InputSize(os, open);
      HoldsAtSplit(b, p, ObuBytes(os.typ, true, os.pld), Input(os.tail, open));
      ObuDecodes(os.typ, os.pld, b, p, end);
      CopyList(os.tail, open, b, p + |ObuBytes(os.typ, true, os.pld)|, end, w0);
      InputSize(os.tail, open);
    }
  }

  // ---------------------------------------------------------------- what a receiver finds

  datatype Elements = NoMore | More(elem: seq<byte>, rest: Elements)

  /** The W rule: w elements, the last without a length; or, for zero, all with lengths. */
  function Parse(b: seq<byte>, p: nat, end: nat, w: nat): Result<Elements>
    requires p <= end <= |b|
    decreases end - p, w
  {
    if w == 1 then Success(More(b[p..end], NoMore))
    else if p == end then Success(NoMore)
    else
      var r :- DecLeb(b, p, end, LEB_MAX);
      if r.1 == p || r.0 > end - r.1 then Failure(EBADMSG)
      else
        var rest :- Parse(b, r.1 + r.0, end, if w == 0 then 0 else w - 1);
        Success(More(b[r.1..r.1 + r.0], rest))
  }

  function AllowedElements(os: Obus): Elements {
    match os
    case Nil => NoMore
    case Cons(t, pld, tail) => if Allowed(t) then More(Element(t, pld), AllowedElements(tail)) else AllowedElements(tail)
  }

  function Length(es: Elements): nat {
    if es.NoMore? then 0 else 1 + Length(es.rest)
  }

  lemma {:induction false} AllowedLength(os: Obus)
    ensures Length(AllowedElements(os)) == Count(os)
    decreases os
  {
    if os.Cons? {
      AllowedLength(os.tail);
    }
  }

  /** Under a W of one or more, no more than that many elements are found. */
  lemma {:induction false} ParseAtMost(b: seq<byte>, p: nat, end: nat, w: nat)
    requires p <= end <= |b| && w >= 1 && Parse(b, p, end, w).Success?
    ensures Length(Parse(b, p, end, w).value) <= w
    decreases w
  {
    hide DecLeb;
    if w > 1 && p < end {
      var r := DecLeb(b, p, end, LEB_MAX).value;
      ParseAtMost(b, r.1 + r.0, end, w - 1);
    } else if w == 1 {
      assert Length(More(b[p..end], NoMore)) == 1;
    }
  }

  /** An element with its length in front is taken off, and parsing goes on behind it. */
  lemma {:induction false} ParseOne(elem: seq<byte>, b: seq<byte>, p: nat, end: nat, w: nat)
    requires w != 1 && |elem| < 0x100_0000_0000_0000 && HoldsAt(b, p, Leb(|elem|) + elem) && p + |Leb(|elem|) + elem| <= end <= |b|
    ensures var rest := Parse(b, p + |Leb(|elem|) + elem|, end, if w == 0 then 0 else w - 1);
            Parse(b, p, end, w) == if rest.Success? then Success(More(elem, rest.value)) else Failure(rest.err)
  {
    hide HoldsAt, Leb, DecLeb;
    HoldsAtSplit(b, p, Leb(|elem|), elem);
    LebRoundTripIff(|elem|, b, p, end);
    Slice(b, p + |Leb(|elem|)|, elem);
  }

  lemma {:induction false} CountPositive(os: Obus)
    requires LastAllowed(os)
    ensures Count(os) >= 1
    decreases os
  {
    if os.tail.Cons? {
      CountPositive(os.tail);
    }
  }

  /** Under the W of the first packet a receiver finds exactly the allowed OBUs, in order. */
  lemma {:induction false} WireParses(os: Obus, b: seq<byte>, p: nat, end: nat, w0: bool)
    requires SizesOk(os) && (w0 || LastAllowed(os)) && HoldsAt(b, p, Wire(os, w0)) && p + |Wire(os, w0)| == end <= |b|
    ensures Parse(b, p, end, if w0 then 0 else Count(os)) == Success(AllowedElements(os))
    decreases os
  {
    hide HoldsAt, Leb, DecLeb, Parse, Element;
    if os.Nil? {
      ParseEnd(b, end);
      return;
    }
    var Cons(t, pld, tail) := os;
    HoldsAtSplit(b, p, Copied(t, pld, tail.Nil? && !w0), Wire(tail, w0));
    if w0 || tail.Cons? {
      if !w0 {
        CountPositive(tail);
      }
      WireParses(tail, b, p + |Copied(t, pld, false)|, end, w0);
      if Allowed(t) {
        ElementSize(t, pld);
        ParseOne(Element(t, pld), b, p, end, if w0 then 0 else Count(os));
      }
    } else {
      ParseBare(Element(t, pld), b, p, end);
    }
  }

  /** A skipped OBU at the end leaves the last element with a length that the W rule does not expect. */
  lemma {:induction false} WireMisparses(os: Obus, b: seq<byte>, p: nat, end: nat)
    requires SizesOk(os) && !LastAllowed(os) && Count(os) >= 1 && HoldsAt(b, p, Wire(os, false)) && p + |Wire(os, false)| == end <= |b|
    ensures Parse(b, p, end, Count(os)) != Success(AllowedElements(os))
    decreases os
  {
    hide HoldsAt, Leb, DecLeb, Parse, Element;
    var Cons(t, pld, tail) := os;
    HoldsAtSplit(b, p, Copied(t, pld, tail.Nil?), Wire(tail, false));
    if !Allowed(t) {
      WireMisparses(tail, b, p, end);
    } else {
      ElementSize(t, pld);
      if Count(tail) == 0 {
        Whole1(b, p, end);
      } else {
        ParseOne(Element(t, pld), b, p, end, Count(os));
        WireMisparses(tail, b, p + |Copied(t, pld, false)|, end);
      }
    }
  }

  lemma {:induction false} Whole1(b: seq<byte>, p: nat, end: nat)
    requires p <= end <= |b|
    ensures Parse(b, p, end, 1) == Success(More(b[p..end], NoMore)) && |b[p..end]| == end - p
  {}

  lemma {:induction false} CountZero(os: Obus, w0: bool)
    requires Count(os) == 0
    ensures Wire(os, w0) == [] && AllowedElements(os) == NoMore
    decreases os
  {
    if os.Cons? {
      CountZero(os.tail, w0);
    }
  }

  lemma {:induction false} ElementSize(t: obuType, pld: seq<byte>)
    ensures |Element(t, pld)| == 1 + |pld|
  {}

  lemma {:induction false} ParseEnd(b: seq<byte>, end: nat)
    requires end <= |b|
    ensures Parse(b, end, end, 0) == Success(NoMore)
  {}

  lemma {:induction false} ParseBare(elem: seq<byte>, b: seq<byte>, p: nat, end: nat)
    requires HoldsAt(b, p, elem) && p + |elem| == end <= |b|
    ensures Parse(b, p, end, 1) == Success(More(elem, NoMore))
  {}

  // ---------------------------------------------------------------- packets

  function AggrHdr(z: bool, y: bool, w: nat, n: bool): byte
    requires w <= 3
  {
    (if z then 128 else 0) + (if y then 64 else 0) + 16 * w + (if n then 8 else 0)
  }

  /** The packets of the wire stream s from i on, with at most max payload bytes each. */
  function Packetized(s: seq<byte>, i: nat, max: nat, w: nat, cont: bool, fresh': bool, marker: bool): Packets
    requires i <= |s| && max > 0 && w <= 3
    decreases |s| - i
  {
    if |s| - i > max then
      Next(Packet(false, [AggrHdr(cont, true, w, fresh')], s[i..i + max]),
           Packetized(s, i + max, max, if w == 2 then 1 else w, true, false, marker))
    else
      Next(Packet(marker, [AggrHdr(cont, false, w, fresh')], s[i..]), Done)
  }

  function Payloads(ps: Packets): seq<byte> {
    if ps.Done? then [] else ps.head.pld + Payloads(ps.tail)
  }

  predicate Z(p: Packet) {
    p.hdr != [] && p.hdr[0] >= 128
  }

  predicate Y(p: Packet) {
    p.hdr != [] && p.hdr[0] as int / 64 % 2 == 1
  }

  predicate N(p: Packet) {
    p.hdr != [] && p.hdr[0] as int / 8 % 2 == 1
  }

  function W(p: Packet): nat {
    if p.hdr == [] then 0 else p.hdr[0] as int / 16 % 4
  }

  /** Every packet fits; Z repeats the Y before it; the last Y is off; N only on the first; marker only on the last. */
  predicate Chained(ps: Packets, cont: bool, fresh': bool, marker: bool, maxlen: nat) {
    && ps.Next? && |ps.head.hdr| + |ps.head.pld| <= maxlen
    && Z(ps.head) == cont && N(ps.head) == fresh'
    && if ps.tail.Done? then !Y(ps.head) && ps.head.marker == marker
       else Y(ps.head) && !ps.head.marker && Chained(ps.tail, true, false, marker, maxlen)
  }

  lemma {:induction false} HdrFields(z: bool, y: bool, w: nat, n: bool)
    requires w <= 3
    ensures var h := AggrHdr(z, y, w, n);
            (h >= 128 <==> z) && (h as int / 64 % 2 == 1 <==> y) && h as int / 16 % 4 == w && (h as int / 8 % 2 == 1 <==> n)
            && h as int % 8 == 0
  {
    var a, b, c := if z then 1 else 0, if y then 1 else 0, if n then 1 else 0;
    var h := AggrHdr(z, y, w, n) as int;
    assert h / 64 == 2 * a + b && h / 16 == 8 * a + 4 * b + w && h / 8 == 2 * (8 * a + 4 * b + w) + c;
  }

  /** Fragmentation loses nothing and sets the flags as a receiver expects. */
  lemma {:induction false} PacketsOk(s: seq<byte>, i: nat, max: nat, w: nat, cont: bool, fresh': bool, marker: bool)
    requires i <= |s| && max > 0 && w <= 3
    ensures var ps := Packetized(s, i, max, w, cont, fresh', marker);
            Payloads(ps) == s[i..] && Chained(ps, cont, fresh', marker, max + 1) && ps.Next? && W(ps.head) == w
    decreases |s| - i
  {
    hide AggrHdr;
    if |s| - i > max {
      HdrFields(cont, true, w, fresh');
      PacketsOk(s, i + max, max, if w == 2 then 1 else w, true, false, marker);
      assert s[i..] == s[i..i + max] + s[i + max..];
    } else {
      HdrFields(cont, false, w, fresh');
      assert s[i..] + [] == s[i..];
    }
  }

  function WField(count: nat): nat {
    if count > MAX_OBUS then 0 else count
  }

  lemma {:induction false} InitCount(os: Obus, open: bool)
    requires LastLost(os, open)
    ensures Count(os) == Count(Init(os)) + 1 && (SizesOk(os) ==> SizesOk(Init(os)))
    decreases os
  {
    if os.tail.Cons? {
      InitCount(os.tail, open);
    }
  }

  /** The lost OBU is missing from whatever a receiver finds. */
  lemma {:induction false} LostMissing(os: Obus, open: bool, s: seq<byte>)
    requires SizesOk(os) && LastLost(os, open) && s == Wire(Init(os), true)
    ensures Parse(s, 0, |s|, WField(Count(Init(os)))) != Success(AllowedElements(os))
  {
    hide Parse, Wire, SizesOk, LastLost, AllowedElements, Count;
    var n := Count(Init(os));
    InitCount(os, open);
    AllowedLength(os);
    AllowedLength(Init(os));
    if n > MAX_OBUS {
      Whole(s);
      WireParses(Init(os), s, 0, |s|, true);
    } else if n == 0 {
      CountZero(Init(os), true);
      ParseEnd(s, 0);
    } else if Parse(s, 0, |s|, n).Success? {
      ParseAtMost(s, 0, |s|, n);
    }
  }

  /**
   * The whole way: a unit is sent in packets whose payloads, joined and parsed under the W of the first
   * packet, are its allowed OBUs, if and only if it ends with an allowed OBU, has more than three of
   * them, or none; and does not end with an allowed OBU of a single byte.
   */
  lemma {:induction false} UnitRoundTripIff(os: Obus, open: bool, max: nat, fresh': bool, marker: bool)
    requires SizesOk(os) && max > 0
    ensures var b := Input(os, open);
            && CountRtp(b, 0, |b|).Some?
            && var n := CountRtp(b, 0, |b|).value;
            && n == (if LastLost(os, open) then Count(os) - 1 else Count(os))
            && var wire := Copy(b, 0, |b|, n > MAX_OBUS);
            && wire.Success?
            && var ps := Packetized(wire.value, 0, max, WField(n), false, fresh', marker);
               var s := Payloads(ps);
               && ps.Next? && Chained(ps, false, fresh', marker, max + 1)
               && (Parse(s, 0, |s|, W(ps.head)) == Success(AllowedElements(os))
                   <==> !LastLost(os, open) && (LastAllowed(os) || Count(os) > MAX_OBUS || Count(os) == 0))
  {
    hide Copy, CountRtp, Input, Wire, Parse, Packetized, Payloads, Chained, SizesOk, LastAllowed, LastLost, AllowedElements, Count;
    var b := Input(os, open);
    var n := if LastLost(os, open) then Count(os) - 1 else Count(os);
    var w0 := n > MAX_OBUS;
    Whole(b);
    CopyList(os, open, b, 0, |b|, w0);
    var s := if LastLost(os, open) then Wire(Init(os), true) else Wire(os, w0);
    PacketsOk(s, 0, max, WField(n), false, fresh', marker);
    Whole(s);
    if LastLost(os, open) {
      InitCount(os, open);
      LostMissing(os, open, s);
    } else if n == 0 {
      CountZero(os, w0);
      ParseEnd(s, 0);
    } else if w0 || LastAllowed(os) {
      WireParses(os, s, 0, |s|, w0);
    } else {
      WireMisparses(os, s, 0, |s|);
    }
  }

  // ---------------------------------------------------------------- the W of every packet

  /** The sizes of the elements of a unit on the wire, their lengths included. */
  function Parts(os: Obus, w0: bool): seq<nat> {
    match os
    case Nil => []
    case Cons(t, pld, tail) => (if Allowed(t) then [|Copied(t, pld, tail.Nil? && !w0)|] else []) + Parts(tail, w0)
  }

  function Sum(parts: seq<nat>): nat {
    if parts == [] then 0 else parts[0] + Sum(parts[1..])
  }

  predicate Positive(parts: seq<nat>) {
    forall i :: 0 <= i < |parts| ==> parts[i] > 0
  }

  lemma {:induction false} PartsOf(os: Obus, w0: bool)
    ensures |Parts(os, w0)| == Count(os) && Sum(Parts(os, w0)) == |Wire(os, w0)| && Positive(Parts(os, w0))
    decreases os
  {
    if os.Cons? {
      PartsOf(os.tail, w0);
      var rest := Parts(os.tail, w0);
      if Allowed(os.typ) {
        var n := |Copied(os.typ, os.pld, os.tail.Nil? && !w0)|;
        assert ([n] + rest)[1..] == rest;
      } else {
        assert [] + rest == rest;
      }
    }
  }

  /** How many of the elements that lie one behind the other from pos on have bytes between a and b. */
  function Touched(parts: seq<nat>, pos: nat, a: nat, b: nat): nat {
    if parts == [] then 0
    else (if pos < b && a < pos + parts[0] then 1 else 0) + Touched(parts[1..], pos + parts[0], a, b)
  }

  /** The W of every packet is the number of elements of which it has bytes; the first begins at a. */
  predicate EveryW(ps: Packets, parts: seq<nat>, a: nat) {
    ps.Next? ==> W(ps.head) == Touched(parts, 0, a, a + |ps.head.pld|) && EveryW(ps.tail, parts, a + |ps.head.pld|)
  }

  lemma {:induction false} TouchedFew(parts: seq<nat>, a: nat, b: nat)
    requires 1 <= |parts| <= 3 && Positive(parts) && a < b <= Sum(parts)
    ensures |parts| == 1 ==> Sum(parts) == parts[0] && Touched(parts, 0, a, b) == 1
    ensures |parts| == 2 ==> Sum(parts) == parts[0] + parts[1]
                             && Touched(parts, 0, a, b) == (if a < parts[0] then 1 else 0) + (if parts[0] < b then 1 else 0)
    ensures |parts| == 3 ==> Sum(parts) == parts[0] + parts[1] + parts[2]
                             && Touched(parts, 0, a, b) == (if a < parts[0] then 1 else 0)
                                + (if parts[0] < b && a < parts[0] + parts[1] then 1 else 0) + (if parts[0] + parts[1] < b then 1 else 0)
  {
    TouchedStep(parts, 0, a, b);
    if |parts| > 1 {
      TouchedStep(parts[1..], parts[0], a, b);
      if |parts| > 2 {
        TouchedStep(parts[1..][1..], parts[0] + parts[1], a, b);
      }
    }
  }

  lemma {:induction false} TouchedStep(parts: seq<nat>, pos: nat, a: nat, b: nat)
    requires parts != []
    ensures Touched(parts, pos, a, b) == (if pos < b && a < pos + parts[0] then 1 else 0) + Touched(parts[1..], pos + parts[0], a, b)
    ensures Sum(parts) == parts[0] + Sum(parts[1..])
    ensures |parts| == 1 ==> Touched(parts[1..], pos + parts[0], a, b) == 0 && Sum(parts[1..]) == 0
  {}

  /** Behind the start of the last element, packets with a W of one are right. */
  lemma {:induction false} LastW(s: seq<byte>, i: nat, max: nat, cont: bool, fresh': bool, marker: bool, parts: seq<nat>)
    requires i < |s| && max > 0 && 1 <= |parts| <= 2 && Positive(parts) && Sum(parts) == |s| && (|parts| == 2 ==> parts[0] <= i)
    ensures EveryW(Packetized(s, i, max, 1, cont, fresh', marker), parts, i)
    decreases |s| - i
  {
    hide Touched, AggrHdr;
    if |s| - i > max {
      HdrFields(cont, true, 1, fresh');
      TouchedFew(parts, i, i + max);
      LastW(s, i + max, max, true, false, marker, parts);
    } else {
      HdrFields(cont, false, 1, fresh');
      TouchedFew(parts, i, |s|);
    }
  }

  /** The second packet, if it has a W of three, has fewer elements than that if the first has three. */
  lemma {:induction false} SecondW(s: seq<byte>, max: nat, marker: bool, parts: seq<nat>)
    requires 0 < max < |s| && |parts| == 3 && Positive(parts) && Sum(parts) == |s| && parts[0] + parts[1] < max
    ensures !EveryW(Packetized(s, max, max, 3, true, false, marker), parts, max)
  {
    hide Touched, AggrHdr;
    HdrFields(true, true, 3, false);
    HdrFields(true, false, 3, false);
    TouchedFew(parts, max, if |s| - max > max then max + max else |s|);
  }

  /**
   * The W of every single packet is right exactly if there is one packet, or one element, or there are
   * two of which the second begins in the first packet: only a W of two is changed for later packets.
   */
  lemma {:induction false} PartsWIff(s: seq<byte>, max: nat, fresh': bool, marker: bool, parts: seq<nat>)
    requires max > 0 && 1 <= |parts| <= 3 && Positive(parts) && Sum(parts) == |s|
    ensures EveryW(Packetized(s, 0, max, |parts|, false, fresh', marker), parts, 0) <==>
            |s| <= max || |parts| == 1 || (|parts| == 2 && parts[0] < max)
  {
    hide Touched, AggrHdr;
    PartPositive(parts);
    HdrFields(false, true, |parts|, fresh');
    HdrFields(false, false, |parts|, fresh');
    if |s| <= max {
      TouchedFew(parts, 0, |s|);
    } else {
      TouchedFew(parts, 0, max);
      if |parts| <= 2 && (|parts| == 2 ==> parts[0] < max) {
        LastW(s, max, max, true, false, marker, parts);
      } else if |parts| == 3 && parts[0] + parts[1] < max {
        SecondW(s, max, marker, parts);
      }
    }
  }

  lemma {:induction false} PartPositive(parts: seq<nat>)
    requires parts != [] && Positive(parts)
    ensures Sum(parts) > 0
  {
    assert parts[0] > 0;
  }

  /** The same for the packets of a unit with one to three allowed OBUs. */
  lemma {:induction false} UnitWIff(os: Obus, open: bool, max: nat, fresh': bool, marker: bool)
    requires SizesOk(os) && max > 0 && 1 <= Count(os) <= MAX_OBUS && !LastLost(os, open)
    ensures var b := Input(os, open);
            var wire := Copy(b, 0, |b|, false);
            && wire.Success? && |Parts(os, false)| == Count(os)
            && (EveryW(Packetized(wire.value, 0, max, WField(Count(os)), false, fresh', marker), Parts(os, false), 0) <==>
                |wire.value| <= max || Count(os) == 1 || (Count(os) == 2 && Parts(os, false)[0] < max))
  {
    hide Copy, CountRtp, Input, Wire, Packetized, SizesOk, LastLost, Count, Parts, EveryW;
    var b := Input(os, open);
    Whole(b);
    CopyList(os, open, b, 0, |b|, false);
    PartsOf(os, false);
    PartsWIff(Wire(os, false), max, fresh', marker, Parts(os, false));
  }

  lemma {:induction false} Whole(b: seq<byte>)
    ensures HoldsAt(b, 0, b) && b[0..] == b
  {}
}
