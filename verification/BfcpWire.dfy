/**
 * What the BFCP decoder makes of the bytes of any sender: attributes of known and unknown types, groups
 * of both, and what is refused. Nothing here speaks of the encoder.
 */
module BfcpWire {
  import opened Bytes
  import opened Bfcp

  /** An attribute as sent: what it means, its content, and the attributes grouped below it. */
  datatype Wire = Wire(typ: attrType, mand: bool, v: Value, content: seq<byte>, subs: Wires)
  datatype Wires = Nil | Cons(head: Wire, tail: Wires)

  /** The attribute types of section 5.2 of RFC 4582. */
  predicate KnownType(t: attrType) {
    1 <= t <= 18
  }

  predicate GroupType(t: attrType) {
    14 <= t <= 18
  }

  /** The content means the value. */
  predicate Carries(t: attrType, v: Value, c: seq<byte>) {
    match v
    case U16(u) => (t == 1 || t == 2 || t == 3 || GroupType(t)) && |c| == 2 && c[0] as int * 0x100 + c[1] == u
    case Priority(p) => t == 4 && |c| == 2 && 32 * p as int <= c[0] < 32 * p as int + 32
    case Status(s, q) => t == 5 && c == [s, q]
    case ErrCode(code, details) => t == 6 && c == [code] + details
    case Str(s) => (t == 7 || t == 8 || t == 9 || t == 12 || t == 13) && s <= c && (|s| < |c| ==> c[|s|] == 0)
    case SupAttrs(types) =>
      t == 10 && |types| == |c| && forall i :: 0 <= i < |c| ==> 2 * types[i] as int <= c[i] <= 2 * types[i] as int + 1
    case SupPrims(prims) => t == 11 && c == prims
    case Skipped => !KnownType(t)
  }

  /** Type and length, content, grouped attributes, and zeros up to a whole word. */
  function WireBytes(w: Wire): seq<byte>
    decreases w, 1
  {
    var n := 2 + |w.content| + |WiresBytes(w.subs)|;
    [w.typ as int * 2 + if w.mand then 1 else 0, n % 0x100] + w.content + WiresBytes(w.subs) + Zeros((4 - n % 4) % 4)
  }

  function WiresBytes(ws: Wires): seq<byte>
    decreases ws
  {
    if ws.Nil? then [] else WireBytes(ws.head) + WiresBytes(ws.tail)
  }

  predicate WireOk(w: Wire)
    decreases w, 1
  {
    && Carries(w.typ, w.v, w.content) && (w.subs.Cons? ==> GroupType(w.typ)) && WiresOk(w.subs)
    && 2 + |w.content| + |WiresBytes(w.subs)| <= 255
  }

  predicate WiresOk(ws: Wires)
    decreases ws
  {
    ws.Cons? ==> WireOk(ws.head) && WiresOk(ws.tail)
  }

  function Meaning(w: Wire): Attr
    decreases w, 1
  {
    Attr(w.typ, w.mand, w.v, Meanings(w.subs))
  }

  function Meanings(ws: Wires): Attrs
    decreases ws
  {
    if ws.Nil? then Attrs.Nil else Attrs.Cons(Meaning(ws.head), Meanings(ws.tail))
  }

  /** The mandatory attributes of unknown type, in order and doubled. */
  function Unknown(w: Wire): seq<byte>
    decreases w, 1
  {
    if KnownType(w.typ) then Unknowns(w.subs) else if w.mand then [w.typ as int * 2] else []
  }

  function Unknowns(ws: Wires): seq<byte>
    decreases ws
  {
    if ws.Nil? then [] else Unknown(ws.head) + Unknowns(ws.tail)
  }

  /** The first sixteen of those found before and now. */
  function Sixteen(uma: seq<byte>, more: seq<byte>): seq<byte> {
    if |uma| >= 16 then uma else (uma + more)[..if |uma| + |more| < 16 then |uma| + |more| else 16]
  }

  lemma {:induction false} SixteenJoin(uma: seq<byte>, a: seq<byte>, b: seq<byte>)
    ensures Sixteen(Sixteen(uma, a), b) == Sixteen(uma, a + b)
  {
    if |uma| < 16 {
      assert uma + (a + b) == uma + a + b;
      if |uma| + |a| < 16 {
        assert (uma + a)[..|uma| + |a|] == uma + a;
      } else {
        assert (uma + a)[..16] == (uma + a + b)[..16];
      }
    }
  }

  lemma {:induction false} SixteenNone(uma: seq<byte>)
    ensures Sixteen(uma, []) == uma
  {
    if |uma| < 16 {
      assert (uma + [])[..|uma|] == uma;
    }
  }

  lemma {:induction false} CutAtZero(c: seq<byte>, s: cstr)
    requires s <= c && (|s| < |c| ==> c[|s|] == 0)
    ensures CString(c) == s
  {
    var r := CString(c);
    assert forall i :: 0 <= i < |s| ==> c[i] == s[i] && s[i] in s;
    assert forall i :: 0 <= i < |r| ==> c[i] == r[i] && r[i] in r;
  }

  /** The content of an attribute without a group. */
  lemma {:induction false} ContentRead(w: Wire, b: seq<byte>, p: nat, uma: seq<byte>)
    requires Carries(w.typ, w.v, w.content) && !GroupType(w.typ) && HoldsAt(b, p, w.content)
    ensures p + |w.content| <= |b|
    ensures DecBody(w.typ, w.mand, b, p, |w.content|, uma) ==
            Success(Body(w.v, Attrs.Nil, p + |w.content|, Sixteen(uma, if KnownType(w.typ) || !w.mand then [] else [w.typ as int * 2])))
  {
    hide CString, Halved, DecAttrs;
    var c := w.content;
    assert b[p..p + |c|] == c;
    SixteenNone(uma);
    match w.v
    case U16(_) =>
      assert b[p] == c[0] && b[p + 1] == c[1];
    case Priority(prio) =>
      assert b[p] == c[0];
      PrioOf(c[0], prio);
    case Status(_, _) =>
      assert b[p] == c[0] && b[p + 1] == c[1];
    case ErrCode(_, details) =>
      assert b[p] == c[0] && b[p + 1..p + |c|] == c[1..] == details;
    case Str(s) =>
      CutAtZero(c, s);
    case SupAttrs(types) =>
      HalvedIs(c, types);
    case SupPrims(_) =>
    case Skipped =>
      assert |uma| < 16 ==> (uma + [w.typ as int * 2])[..|uma| + 1] == uma + [w.typ as int * 2];
  }

  lemma {:induction false} PrioOf(c: byte, p: byte)
    requires 32 * p as int <= c < 32 * p as int + 32
    ensures c as int / 32 == p
  {}

  lemma {:induction false} HalvedIs(c: seq<byte>, types: seq<byte>)
    requires |types| == |c| && forall i :: 0 <= i < |c| ==> 2 * types[i] as int <= c[i] <= 2 * types[i] as int + 1
    ensures Halved(c) == types
  {}

  /** The four parts of an attribute at pos. */
  lemma {:induction false} PartsAt(w: Wire, b: seq<byte>, pos: nat)
    requires WireOk(w) && HoldsAt(b, pos, WireBytes(w))
    ensures var n := 2 + |w.content| + |WiresBytes(w.subs)|;
            && pos + n <= |b| && b[pos] == w.typ as int * 2 + (if w.mand then 1 else 0) && b[pos + 1] == n
            && HoldsAt(b, pos + 2, w.content) && HoldsAt(b, pos + 2 + |w.content|, WiresBytes(w.subs))
            && |WireBytes(w)| == n + PadLen(n)
  {
    hide HoldsAt, WiresBytes, Carries, WiresOk;
    var c, subs := w.content, WiresBytes(w.subs);
    var n := 2 + |c| + |subs|;
    var h := [w.typ as int * 2 + if w.mand then 1 else 0, n];
    assert WireBytes(w) == h + c + subs + Zeros(PadLen(n));
    HoldsAtSplit(b, pos, h + c + subs, Zeros(PadLen(n)));
    HoldsAtSplit(b, pos, h + c, subs);
    HoldsAtSplit(b, pos, h, c);
    HoldsAtIndex(b, pos, h, 0);
    HoldsAtIndex(b, pos, h, 1);
    HoldsAtRoom(b, pos + 2 + |c|, subs);
  }

  lemma {:induction false} TypeOf(t: attrType, mand: bool)
    ensures var v := t as int * 2 + if mand then 1 else 0; v / 2 == t && (v % 2 == 1 <==> mand)
  {}

  /** One attribute, with whatever is grouped below it. */
  lemma {:induction false} AttributeRead(w: Wire, b: seq<byte>, pos: nat, end: nat, uma: seq<byte>)
    requires WireOk(w) && HoldsAt(b, pos, WireBytes(w)) && pos + |WireBytes(w)| <= end <= |b|
    ensures DecAttr(b, pos, end, uma) == Success(One(Meaning(w), pos + |WireBytes(w)|, Sixteen(uma, Unknown(w))))
    decreases w, 1
  {
    hide HoldsAt, WireBytes, WiresBytes, Sixteen, DecAttrs, DecBody, Carries, PadPos, PadLen;
    PartsAt(w, b, pos);
    TypeOf(w.typ, w.mand);
    PadWhole(pos, 2 + |w.content| + |WiresBytes(w.subs)|, end);
    var n, p := 2 + |w.content| + |WiresBytes(w.subs)|, pos + 2;
    if GroupType(w.typ) {
      GroupRead(w, b, pos, uma);
    } else {
      assert WiresBytes(Wires.Nil) == [] by { EmptyBytes(); }
      ContentRead(w, b, p, uma);
    }
  }

  lemma {:induction false} PadWhole(pos: nat, n: nat, end: nat)
    requires pos + n + PadLen(n) <= end
    ensures PadPos(pos, pos + n, end) == pos + n + PadLen(n)
  {}

  lemma {:induction false} EmptyBytes()
    ensures WiresBytes(Wires.Nil) == [] && Unknowns(Wires.Nil) == []
  {}

  lemma {:induction false} GroupRead(w: Wire, b: seq<byte>, pos: nat, uma: seq<byte>)
    requires WireOk(w) && GroupType(w.typ) && HoldsAt(b, pos, WireBytes(w))
    ensures var n := 2 + |w.content| + |WiresBytes(w.subs)|;
            pos + n <= |b| && n >= 2 &&
            DecBody(w.typ, w.mand, b, pos + 2, n - 2, uma) ==
            Success(Body(w.v, Meanings(w.subs), pos + n, Sixteen(uma, Unknowns(w.subs))))
    decreases w, 0
  {
    hide HoldsAt, WireBytes, WiresBytes, Sixteen, DecAttrs;
    PartsAt(w, b, pos);
    HoldsAtIndex(b, pos + 2, w.content, 0);
    HoldsAtIndex(b, pos + 2, w.content, 1);
    var n := 2 + |w.content| + |WiresBytes(w.subs)|;
    AttributesRead(w.subs, b, pos + 4, pos + n, uma);
  }

  /**
   * A list of attributes that fills its window, known and unknown types mixed and grouped at will: the
   * unknown ones are skipped with their content, the others mean what they carry, reading ends at the
   * end of the window, and the mandatory unknown types are recorded, sixteen at most.
   */
  lemma {:induction false} AttributesRead(ws: Wires, b: seq<byte>, pos: nat, end: nat, uma: seq<byte>)
    requires WiresOk(ws) && HoldsAt(b, pos, WiresBytes(ws)) && pos + |WiresBytes(ws)| == end <= |b|
    ensures DecAttrs(b, pos, end, uma) == Success(Many(Meanings(ws), end, Sixteen(uma, Unknowns(ws))))
    decreases ws
  {
    hide HoldsAt, WireBytes, Sixteen, DecAttr, Unknown, Meaning, WireOk;
    if ws.Nil? {
      SixteenNone(uma);
    } else {
      HoldsAtSplit(b, pos, WireBytes(ws.head), WiresBytes(ws.tail));
      AttributeRead(ws.head, b, pos, end, uma);
      var q, uma' := pos + |WireBytes(ws.head)|, Sixteen(uma, Unknown(ws.head));
      AttributesRead(ws.tail, b, q, end, uma');
      SixteenJoin(uma, Unknown(ws.head), Unknowns(ws.tail));
      AtLeastHeader(ws.head);
    }
  }

  lemma {:induction false} AtLeastHeader(w: Wire)
    ensures |WireBytes(w)| >= 2
  {}

  // ---------------------------------------------------------------- what is refused

  /** The fewest bytes of content of a type. */
  function Needs(t: attrType): nat {
    if t == 6 then 1 else if 1 <= t <= 5 || GroupType(t) then 2 else 0
  }

  /**
   * An attribute is refused with EBADMSG if its header, the bytes its length says, or the content of its
   * type are not there, or one of the attributes in its group is refused; and only then.
   */
  lemma {:induction false} RefusedIff(b: seq<byte>, pos: nat, end: nat, uma: seq<byte>)
    requires pos <= end <= |b|
    ensures DecAttr(b, pos, end, uma).Failure? ==> DecAttr(b, pos, end, uma).err == EBADMSG
    ensures DecAttr(b, pos, end, uma).Failure? <==>
            || end - pos < 2 || b[pos + 1] < 2 || b[pos + 1] > end - pos
            || b[pos + 1] - 2 < Needs(b[pos] as int / 2)
            || (GroupType(b[pos] as int / 2) && DecAttrs(b, pos + 4, pos + b[pos + 1], uma).Failure?)
    decreases end - pos, 1
  {
    hide DecAttrs, CString, Halved;
    if end - pos >= 2 && 2 <= b[pos + 1] <= end - pos && GroupType(b[pos] as int / 2) && b[pos + 1] >= 4 {
      RefusedOnce(b, pos + 4, pos + b[pos + 1], uma);
    }
  }

  /** A list is refused, with EBADMSG, exactly if one of its attributes is. */
  lemma {:induction false} RefusedOnce(b: seq<byte>, pos: nat, end: nat, uma: seq<byte>)
    requires pos <= end <= |b|
    ensures DecAttrs(b, pos, end, uma).Failure? ==> DecAttrs(b, pos, end, uma).err == EBADMSG
    ensures DecAttrs(b, pos, end, uma).Failure? <==>
            end - pos >= 2 && var one := DecAttr(b, pos, end, uma); one.Failure? || DecAttrs(b, one.value.after, end, one.value.uma).Failure?
    decreases end - pos, 2
  {
    hide DecAttr;
    if end - pos >= 2 {
      RefusedIff(b, pos, end, uma);
      var one := DecAttr(b, pos, end, uma);
      if one.Success? {
        RefusedOnce(b, one.value.after, end, one.value.uma);
      }
    }
  }

  // ---------------------------------------------------------------- whatever is accepted

  /** Whole words lie between pos and k. */
  predicate Words(pos: nat, k: nat)
    requires pos <= k
  {
    (k - pos) % 4 == 0
  }

  /** The next multiple of four behind pos that is not before q, or the end of the window. */
  predicate Aligned(pos: nat, q: nat, end: nat, r: nat) {
    pos <= q <= r <= end && r < q + 4 && (Words(pos, r) || (r == end && forall k :: q <= k < end ==> !Words(pos, k)))
  }

  lemma {:induction false} PadAligned(pos: nat, q: nat, end: nat)
    requires pos <= q <= end
    ensures Aligned(pos, q, end, PadPos(pos, q, end))
  {}

  /**
   * What an accepted attribute is, whatever its bytes: type and flag, a value carried by its content, and
   * where reading goes on. Numbers, priorities and states take two bytes however long the content is.
   */
  lemma {:induction false} AttributeIs(b: seq<byte>, pos: nat, end: nat, uma: seq<byte>)
    requires pos <= end <= |b| && DecAttr(b, pos, end, uma).Success?
    ensures end - pos >= 2 && 2 <= b[pos + 1] <= end - pos
    ensures var one, t, n := DecAttr(b, pos, end, uma).value, b[pos] as int / 2, b[pos + 1] - 2;
            && one.a.typ == t && (one.a.mand <==> b[pos] % 2 == 1)
            && (if 1 <= t <= 5 || GroupType(t) then n >= 2 && Carries(t, one.a.v, b[pos + 2..pos + 4])
                else Carries(t, one.a.v, b[pos + 2..pos + 2 + n]))
            && (if GroupType(t) then
                  var m := DecAttrs(b, pos + 4, pos + 2 + n, uma);
                  m.Success? && one.a.subs == m.value.list && one.uma == m.value.uma && Aligned(pos, m.value.after, end, one.after)
                else
                  && one.a.subs.Nil? && Aligned(pos, if 1 <= t <= 5 then pos + 4 else pos + 2 + n, end, one.after)
                  && one.uma == Sixteen(uma, if KnownType(t) || b[pos] % 2 == 0 then [] else [t * 2]))
  {
    hide DecAttrs, Halved, PadPos, Aligned, Sixteen, Carries;
    var t, n := b[pos] as int / 2, b[pos + 1] - 2;
    BodyIs(t, b[pos] % 2 == 1, b, pos + 2, n, uma);
    var body := DecBody(t, b[pos] % 2 == 1, b, pos + 2, n, uma).value;
    PadAligned(pos, body.after, end);
  }

  lemma {:induction false} BodyIs(t: attrType, mand: bool, b: seq<byte>, p: nat, n: nat, uma: seq<byte>)
    requires p + n <= |b| && DecBody(t, mand, b, p, n, uma).Success?
    ensures var r := DecBody(t, mand, b, p, n, uma).value;
            && (if 1 <= t <= 5 || GroupType(t) then n >= 2 && Carries(t, r.v, b[p..p + 2]) else Carries(t, r.v, b[p..p + n]))
            && (if GroupType(t) then DecAttrs(b, p + 2, p + n, uma) == Success(Many(r.subs, r.after, r.uma))
                else r.subs.Nil? && r.after == (if 1 <= t <= 5 then p + 2 else p + n)
                     && r.uma == Sixteen(uma, if KnownType(t) || !mand then [] else [t as int * 2]))
  {
    hide DecAttrs, CString, Halved;
    SixteenNone(uma);
    assert |uma| < 16 ==> (uma + [t as int * 2])[..|uma| + 1] == uma + [t as int * 2];
    if t == 10 {
      HalvedOf(b[p..p + n]);
    } else if t == 4 {
      assert b[p] as int == b[p] as int / 32 * 32 + b[p] as int % 32;
    } else if t == 6 {
      assert b[p..p + n] == [b[p]] + b[p + 1..p + n];
    } else if t == 5 {
      assert b[p..p + 2] == [b[p], b[p + 1]];
    }
  }

  lemma {:induction false} HalvedOf(c: seq<byte>)
    ensures forall i :: 0 <= i < |c| ==> 2 * Halved(c)[i] as int <= c[i] <= 2 * Halved(c)[i] as int + 1
  {}

  /** Reading goes on until less than a header is left. */
  lemma {:induction false} ListEnds(b: seq<byte>, pos: nat, end: nat, uma: seq<byte>)
    requires pos <= end <= |b| && DecAttrs(b, pos, end, uma).Success?
    ensures var m := DecAttrs(b, pos, end, uma).value;
            && m.after <= end < m.after + 2
            && if end - pos < 2 then m.list.Nil? && m.after == pos && m.uma == uma
               else
                 var one := DecAttr(b, pos, end, uma);
                 && one.Success? && m.list.Cons? && m.list.head == one.value.a
                 && DecAttrs(b, one.value.after, end, one.value.uma) == Success(Many(m.list.tail, m.after, m.uma))
    decreases end - pos
  {
    hide DecAttr;
    if end - pos >= 2 {
      var one := DecAttr(b, pos, end, uma).value;
      ListEnds(b, one.after, end, one.uma);
    }
  }

  // ---------------------------------------------------------------- what is sent

  /** The content is the value and nothing else: the bits without a meaning are zero, and nothing follows a string. */
  predicate Bare(v: Value, c: seq<byte>) {
    match v
    case Priority(_) => |c| == 2 && c[0] % 32 == 0 && c[1] == 0
    case Str(s) => c == s
    case SupAttrs(_) => forall i :: 0 <= i < |c| ==> c[i] % 2 == 0
    case _ => true
  }

  /** No content of the list, and none grouped below it, is more than its value. */
  predicate AllBare(ws: Wires)
    decreases ws
  {
    ws.Cons? ==> Bare(ws.head.v, ws.head.content) && AllBare(ws.head.subs) && AllBare(ws.tail)
  }

  function Sent(a: Attr): Wire
    decreases a, 1
  {
    Wire(a.typ, a.mand, a.v, Content(a.v), Sents(a.subs))
  }

  function Sents(list: Attrs): Wires
    decreases list
  {
    if list.Nil? then Wires.Nil else Wires.Cons(Sent(list.head), Sents(list.tail))
  }

  lemma {:induction false} ContentSent(a: Attr)
    requires LeafOk(a)
    ensures Carries(a.typ, a.v, Content(a.v)) && Bare(a.v, Content(a.v)) && (ShapeOf(a.typ).IsGroup? <==> GroupType(a.typ))
  {
    hide Doubled, Be16;
    if a.v.SupAttrs? {
      DoubledIs(a.v.attrs);
    }
  }

  lemma {:induction false} DoubledIs(s: seq<byte>)
    requires forall i :: 0 <= i < |s| ==> s[i] < 128
    ensures forall i :: 0 <= i < |s| ==> Doubled(s)[i] as int == 2 * s[i] as int
  {}

  lemma {:induction false} WholeWords(ws: Wires)
    ensures |WiresBytes(ws)| % 4 == 0
    decreases ws
  {
    hide WireBytes;
    if ws.Cons? {
      WholeWords(ws.tail);
      WholeWord(ws.head);
    }
  }

  lemma {:induction false} WholeWord(w: Wire)
    ensures |WireBytes(w)| % 4 == 0
  {
    hide WiresBytes;
    var n := 2 + |w.content| + |WiresBytes(w.subs)|;
    assert |WireBytes(w)| == n + PadLen(n);
  }

  lemma {:induction false} OneSent(a: Attr)
    requires AttrOk(a) && AttrsBytes(a.subs) == WiresBytes(Sents(a.subs))
    ensures AttrBytes(a) == WireBytes(Sent(a))
  {
    hide Content, AttrsBytes, WiresBytes, Sents, LeafOk, AttrsOk, LeafBytes, Zeros, PadLen, Grouped;
    var c, subs := Content(a.v), AttrsBytes(a.subs);
    LeafSent(a);
    if a.subs.Nil? {
      NoneSent(a.subs);
      assert [TypeByte(a), 2 + |c|] + c + [] == [TypeByte(a), 2 + |c|] + c;
    } else {
      TwoBytes(a);
      WholeWords(Sents(a.subs));
      GroupSent(TypeByte(a), c, subs);
    }
  }

  lemma {:induction false} TwoBytes(a: Attr)
    requires LeafOk(a) && ShapeOf(a.typ).IsGroup?
    ensures |Content(a.v)| == 2
  {}

  lemma {:induction false} LeafSent(a: Attr)
    requires 2 + |Content(a.v)| <= 255
    ensures var n := 2 + |Content(a.v)|;
            LeafBytes(a) == [TypeByte(a), n] + Content(a.v) + Zeros((4 - n % 4) % 4)
  {
    hide Content, Zeros;
    var h, c := [TypeByte(a), 2 + |Content(a.v)|], Content(a.v);
    assert (h + c)[..2 + |c|] == h + c;
  }

  lemma {:induction false} GroupSent(t: byte, c: seq<byte>, subs: seq<byte>)
    requires |c| == 2 && |subs| % 4 == 0 && 4 + |subs| <= 255
    ensures var n := 4 + |subs|;
            Grouped([t, 4] + c + Zeros(0), subs) == [t, n] + c + subs + Zeros((4 - n % 4) % 4)
  {
    var n := 4 + |subs|;
    assert (4 - n % 4) % 4 == 0 && Zeros(0) == [];
    assert [t, 4] + c + [] == [t, 4] + c;
    assert [t, n] + c + subs + [] == ([t, 4] + c + subs)[1 := n];
  }

  lemma {:induction false} NoneSent(list: Attrs)
    requires list.Nil?
    ensures AttrsBytes(list) == [] && WiresBytes(Sents(list)) == []
  {}

  /** What the encoder sends for a list: each attribute in its layout, with nothing in it but the value, in order. */
  lemma {:induction false} AttributesSent(list: Attrs)
    requires AttrsOk(list)
    ensures AttrsBytes(list) == WiresBytes(Sents(list)) && WiresOk(Sents(list)) && AllBare(Sents(list)) && Meanings(Sents(list)) == list
    decreases list
  {
    hide Content, AttrBytes, WireBytes, Carries, Bare;
    if list.Cons? {
      AttributesSent(list.head.subs);
      AttributesSent(list.tail);
      ContentSent(list.head);
      OneSent(list.head);
    }
  }
}
