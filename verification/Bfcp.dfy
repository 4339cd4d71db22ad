/** BFCP attributes and messages (sections 5.1 and 5.2 of RFC 4582): layout, decoder, and round trip. */
module Bfcp {
  import opened Bytes

  // ---------------------------------------------------------------- attributes

  type attrType = t: int | 0 <= t < 128

  const BENEFICIARY_ID: attrType := 1
  const FLOOR_ID: attrType := 2
  const FLOOR_REQUEST_ID: attrType := 3
  const PRIORITY: attrType := 4
  const REQUEST_STATUS: attrType := 5
  const ERROR_CODE: attrType := 6
  const ERROR_INFO: attrType := 7
  const PART_PROV_INFO: attrType := 8
  const STATUS_INFO: attrType := 9
  const SUPPORTED_ATTRS: attrType := 10
  const SUPPORTED_PRIMS: attrType := 11
  const USER_DISP_NAME: attrType := 12
  const USER_URI: attrType := 13
  const BENEFICIARY_INFO: attrType := 14
  const FLOOR_REQ_INFO: attrType := 15
  const REQUESTED_BY_INFO: attrType := 16
  const FLOOR_REQ_STATUS: attrType := 17
  const OVERALL_REQ_STATUS: attrType := 18

  const ATTR_HDR_SIZE := 2
  const UNKNOWN_MAX := 16

  datatype Shape = IsU16 | IsPriority | IsStatus | IsErrCode | IsStr | IsSupAttrs | IsSupPrims | IsGroup | IsUnknown

  /** How the value of an attribute type is laid out. */
  function ShapeOf(t: attrType): Shape {
    if t == BENEFICIARY_ID || t == FLOOR_ID || t == FLOOR_REQUEST_ID then IsU16
    else if t == PRIORITY then IsPriority
    else if t == REQUEST_STATUS then IsStatus
    else if t == ERROR_CODE then IsErrCode
    else if t == ERROR_INFO || t == PART_PROV_INFO || t == STATUS_INFO || t == USER_DISP_NAME || t == USER_URI then IsStr
    else if t == SUPPORTED_ATTRS then IsSupAttrs
    else if t == SUPPORTED_PRIMS then IsSupPrims
    else if t == BENEFICIARY_INFO || t == FLOOR_REQ_INFO || t == REQUESTED_BY_INFO || t == FLOOR_REQ_STATUS
         || t == OVERALL_REQ_STATUS then IsGroup
    else IsUnknown
  }

  datatype Value =
    | U16(u: u16)
    | Priority(prio: byte)
    | Status(status: byte, qpos: byte)
    | ErrCode(code: byte, details: seq<byte>)
    | Str(str: cstr)
    | SupAttrs(attrs: seq<byte>)
    | SupPrims(prims: seq<byte>)
    | Skipped

  /** An attribute, with the attributes grouped below it. */
  datatype Attr = Attr(typ: attrType, mand: bool, v: Value, subs: Attrs)
  datatype Attrs = Nil | Cons(head: Attr, tail: Attrs)

  /** The value is the member of the union that the type selects. */
  predicate Fits(a: Attr) {
    match ShapeOf(a.typ)
    case IsU16 => a.v.U16?
    case IsGroup => a.v.U16?
    case IsPriority => a.v.Priority?
    case IsStatus => a.v.Status?
    case IsErrCode => a.v.ErrCode?
    case IsStr => a.v.Str?
    case IsSupAttrs => a.v.SupAttrs?
    case IsSupPrims => a.v.SupPrims?
    case IsUnknown => a.v.Skipped?
  }

  // ---------------------------------------------------------------- encoding

  function Doubled(s: seq<byte>): (r: seq<byte>)
    ensures |r| == |s|
  {
    seq(|s|, i requires 0 <= i < |s| => (2 * s[i] as int) % 0x100)
  }

  function Halved(s: seq<byte>): (r: seq<byte>)
    ensures |r| == |s|
  {
    seq(|s|, i requires 0 <= i < |s| => s[i] as int / 2)
  }

  function Content(v: Value): seq<byte> {
    match v
    case U16(u) => Be16(u)
    case Priority(p) => [(p as int * 32) % 0x100, 0]
    case Status(s, q) => [s, q]
    case ErrCode(c, d) => [c] + d
    case Str(s) => s
    case SupAttrs(a) => Doubled(a)
    case SupPrims(p) => p
    case Skipped => []
  }

  function PadLen(n: nat): (k: nat)
    ensures k < 4 && (n + k) % 4 == 0
  {
    (4 - n % 4) % 4
  }

  function Zeros(n: nat): (z: seq<byte>)
    ensures |z| == n && forall i :: 0 <= i < n ==> z[i] == 0
  {
    seq(n, _ => 0)
  }

  function TypeByte(a: Attr): byte {
    a.typ as int * 2 + if a.mand then 1 else 0
  }

  /**
   * One attribute without its group: header, content, padding. The length is stored in eight bits,
   * and the writer steps back to what that length says before it pads.
   */
  function LeafBytes(a: Attr): seq<byte> {
    var raw := [TypeByte(a), (2 + |Content(a.v)|) % 0x100] + Content(a.v);
    var n := |raw| % 0x100;
    raw[..n] + Zeros(PadLen(n))
  }

  /** An attribute with its group: the length byte is overwritten with the total. */
  function AttrBytes(a: Attr): seq<byte>
    decreases a, 1
  {
    if a.subs.Nil? then LeafBytes(a)
    else Grouped(LeafBytes(a), AttrsBytes(a.subs))
  }

  function Grouped(leaf: seq<byte>, subs: seq<byte>): seq<byte> {
    var all := leaf + subs;
    if |all| < 2 then all else all[1 := |all| % 0x100]
  }

  function AttrsBytes(list: Attrs): seq<byte>
    decreases list
  {
    if list.Nil? then [] else AttrBytes(list.head) + AttrsBytes(list.tail)
  }

  // ---------------------------------------------------------------- decoding

  datatype Body = Body(v: Value, subs: Attrs, after: nat, uma: seq<byte>)
  datatype One = One(a: Attr, after: nat, uma: seq<byte>)
  datatype Many = Many(list: Attrs, after: nat, uma: seq<byte>)

  /** Skips to the next multiple of four behind start, but not past end. */
  function PadPos(start: nat, q: nat, end: nat): (p: nat)
    requires start <= q <= end
    ensures q <= p <= end && p <= q + 3
  {
    if q + PadLen(q - start) <= end then q + PadLen(q - start) else end
  }

  /** The content of n bytes at p, and how far it was read. */
  function DecBody(typ: attrType, mand: bool, b: seq<byte>, p: nat, n: nat, uma: seq<byte>): (r: Result<Body>)
    requires p + n <= |b|
    ensures r.Success? ==> p <= r.value.after <= p + n
    decreases n, 0
  {
    match ShapeOf(typ)
    case IsU16 => if n < 2 then Failure(EBADMSG) else Success(Body(U16(Get16(b, p)), Nil, p + 2, uma))
    case IsPriority => if n < 2 then Failure(EBADMSG) else Success(Body(Priority(b[p] as int / 32), Nil, p + 2, uma))
    case IsStatus => if n < 2 then Failure(EBADMSG) else Success(Body(Status(b[p], b[p + 1]), Nil, p + 2, uma))
    case IsErrCode => if n < 1 then Failure(EBADMSG) else Success(Body(ErrCode(b[p], b[p + 1..p + n]), Nil, p + n, uma))
    case IsStr => Success(Body(Str(CString(b[p..p + n])), Nil, p + n, uma))
    case IsSupAttrs => Success(Body(SupAttrs(Halved(b[p..p + n])), Nil, p + n, uma))
    case IsSupPrims => Success(Body(SupPrims(b[p..p + n]), Nil, p + n, uma))
    case IsGroup =>
      if n < 2 then Failure(EBADMSG)
      else
        var m :- DecAttrs(b, p + 2, p + n, uma);
        Success(Body(U16(Get16(b, p)), m.list, m.after, m.uma))
    case IsUnknown =>
      Success(Body(Skipped, Nil, p + n, if mand && |uma| < UNKNOWN_MAX then uma + [typ as int * 2] else uma))
  }

  function DecAttr(b: seq<byte>, pos: nat, end: nat, uma: seq<byte>): (r: Result<One>)
    requires pos <= end <= |b|
    ensures r.Success? ==> pos + 2 <= r.value.after <= end
    decreases end - pos, 1
  {
    if end - pos < ATTR_HDR_SIZE then Failure(EBADMSG)
    else if b[pos + 1] < ATTR_HDR_SIZE || end - pos < b[pos + 1] then Failure(EBADMSG)
    else
      var typ, mand := b[pos] as int / 2, b[pos] % 2 == 1;
      var body :- DecBody(typ, mand, b, pos + 2, b[pos + 1] - 2, uma);
      Success(One(Attr(typ, mand, body.v, body.subs), PadPos(pos, body.after, end), body.uma))
  }

  /** Attributes until less than a header is left of the window that ends at end. */
  function DecAttrs(b: seq<byte>, pos: nat, end: nat, uma: seq<byte>): (r: Result<Many>)
    requires pos <= end <= |b|
    ensures r.Success? ==> pos <= r.value.after <= end
    decreases end - pos, 2
  {
    if end - pos < ATTR_HDR_SIZE then Success(Many(Nil, pos, uma))
    else
      var one :- DecAttr(b, pos, end, uma);
      var rest :- DecAttrs(b, one.after, end, one.uma);
      Success(Many(Cons(one.a, rest.list), rest.after, rest.uma))
  }

  // ---------------------------------------------------------------- round trip of attributes

  /** The value survives the narrowing of its fields. */
  predicate ValueOk(v: Value) {
    match v
    case Priority(p) => p < 8
    case SupAttrs(attrs) => forall i :: 0 <= i < |attrs| ==> attrs[i] < 128
    case _ => true
  }

  predicate LeafOk(a: Attr) {
    Fits(a) && !ShapeOf(a.typ).IsUnknown? && ValueOk(a.v)
  }

  /** Known types, values in range, groups only where the type allows, and at most 255 bytes each. */
  predicate AttrOk(a: Attr)
    decreases a, 1
  {
    && LeafOk(a) && AttrsOk(a.subs) && (a.subs.Cons? ==> ShapeOf(a.typ).IsGroup?)
    && 2 + |Content(a.v)| + |AttrsBytes(a.subs)| <= 255
  }

  predicate AttrsOk(list: Attrs)
    decreases list
  {
    list.Cons? ==> AttrOk(list.head) && AttrsOk(list.tail)
  }

  lemma {:induction false} DoubledHalved(s: seq<byte>)
    requires forall i :: 0 <= i < |s| ==> s[i] < 128
    ensures Halved(Doubled(s)) == s
  {}

  /** The length and type bytes and the content of an attribute of n bytes in all, as found at pos. */
  ghost predicate LaidOut(b: seq<byte>, pos: nat, a: Attr, n: nat) {
    && 2 + |Content(a.v)| <= n <= 255 && pos + n <= |b|
    && b[pos] == TypeByte(a) && b[pos + 1] == n && HoldsAt(b, pos + 2, Content(a.v))
  }

  lemma {:induction false} ContentSlice(b: seq<byte>, p: nat, d: seq<byte>)
    requires HoldsAt(b, p, d)
    ensures p + |d| <= |b| && b[p..p + |d|] == d
  {}

  /** A leaf's content decodes to its value, reading exactly the content. */
  lemma {:induction false} LeafBody(b: seq<byte>, pos: nat, a: Attr, n: nat, uma: seq<byte>)
    requires LeafOk(a) && !ShapeOf(a.typ).IsGroup? && LaidOut(b, pos, a, n) && n == 2 + |Content(a.v)|
    ensures DecBody(a.typ, a.mand, b, pos + 2, n - 2, uma) == Success(Body(a.v, Nil, pos + n, uma))
  {
    hide HoldsAt, CString, Halved, Doubled, DecAttrs;
    var p, c := pos + 2, Content(a.v);
    ContentSlice(b, p, c);
    match a.v
    case U16(u) =>
      Holds16(b, p, u);
    case Priority(prio) =>
      HoldsAtIndex(b, p, c, 0);
      PrioBits(prio);
    case Status(_, _) =>
      HoldsAtIndex(b, p, c, 0);
      HoldsAtIndex(b, p, c, 1);
    case ErrCode(code, details) =>
      HoldsAtSplit(b, p, [code], details);
      HoldsAtIndex(b, p, [code], 0);
      ContentSlice(b, p + 1, details);
    case SupAttrs(attrs) =>
      DoubledHalved(attrs);
    case _ =>
  }

  lemma {:induction false} PrioBits(p: byte)
    requires p < 8
    ensures ((p as int * 32) % 0x100) / 32 == p
  {}

  lemma {:induction false} TypeBits(a: Attr)
    ensures TypeByte(a) as int / 2 == a.typ && (TypeByte(a) % 2 == 1 <==> a.mand)
  {}

  lemma {:induction false} LeafLaidOut(b: seq<byte>, pos: nat, a: Attr)
    requires HoldsAt(b, pos, LeafBytes(a)) && 2 + |Content(a.v)| <= 255
    ensures LaidOut(b, pos, a, 2 + |Content(a.v)|)
    ensures |LeafBytes(a)| == 2 + |Content(a.v)| + PadLen(2 + |Content(a.v)|)
  {
    hide HoldsAt, Content, PadLen;
    var c := Content(a.v);
    var n := 2 + |c|;
    var h := [TypeByte(a), n];
    assert LeafBytes(a) == h + c + Zeros(PadLen(n)) by {
      assert (h + c)[..n] == h + c;
    }
    HoldsAtSplit(b, pos, h + c, Zeros(PadLen(n)));
    HoldsAtSplit(b, pos, h, c);
    HoldsAtIndex(b, pos, h, 0);
    HoldsAtIndex(b, pos, h, 1);
    HoldsAtRoom(b, pos, h + c);
  }

  lemma {:induction false} HoldsAtRoom(b: seq<byte>, p: nat, d: seq<byte>)
    requires HoldsAt(b, p, d)
    ensures p + |d| <= |b|
  {}

  lemma {:induction false} GroupLaidOut(b: seq<byte>, pos: nat, a: Attr)
    requires HoldsAt(b, pos, AttrBytes(a)) && a.subs.Cons? && a.v.U16? && 4 + |AttrsBytes(a.subs)| <= 255
    ensures var n := 4 + |AttrsBytes(a.subs)|;
            |AttrBytes(a)| == n && LaidOut(b, pos, a, n) && HoldsAt(b, pos + 4, AttrsBytes(a.subs))
  {
    hide HoldsAt, AttrsBytes, Be16;
    var c, subs := Content(a.v), AttrsBytes(a.subs);
    var n := 4 + |subs|;
    assert LeafBytes(a) == [TypeByte(a), 4] + c by {
      assert ([TypeByte(a), 4] + c)[..4] + Zeros(0) == [TypeByte(a), 4] + c;
    }
    var h := [TypeByte(a), n];
    assert AttrBytes(a) == h + c + subs;
    HoldsAtSplit(b, pos, h + c, subs);
    HoldsAtSplit(b, pos, h, c);
    HoldsAtIndex(b, pos, h, 0);
    HoldsAtIndex(b, pos, h, 1);
    HoldsAtRoom(b, pos + 4, subs);
  }

  lemma {:induction false} FromBody(b: seq<byte>, pos: nat, end: nat, a: Attr, n: nat, uma: seq<byte>)
    requires LaidOut(b, pos, a, n) && pos + n <= end <= |b|
    requires DecBody(a.typ, a.mand, b, pos + 2, n - 2, uma) == Success(Body(a.v, a.subs, pos + n, uma))
    ensures DecAttr(b, pos, end, uma) == Success(One(a, PadPos(pos, pos + n, end), uma))
  {
    hide DecBody, HoldsAt, Content;
    TypeBits(a);
  }

  lemma {:induction false} PadFits(pos: nat, n: nat, end: nat)
    requires pos + n + PadLen(n) <= end
    ensures PadPos(pos, pos + n, end) == pos + n + PadLen(n)
  {}

  /** An attribute of at most 255 bytes comes back, with its whole group and nothing left over. */
  lemma {:induction false} AttrRoundTrip(a: Attr, b: seq<byte>, pos: nat, end: nat, uma: seq<byte>)
    requires AttrOk(a) && HoldsAt(b, pos, AttrBytes(a)) && pos + |AttrBytes(a)| <= end <= |b|
    ensures DecAttr(b, pos, end, uma) == Success(One(a, pos + |AttrBytes(a)|, uma))
    decreases a, 1
  {
    hide HoldsAt, DecBody, Content, LeafBytes, Grouped, LaidOut, PadLen, PadPos, DecAttr, DecAttrs;
    U16Content(a.v);
    if a.subs.Nil? {
      var n := 2 + |Content(a.v)|;
      LeafLaidOut(b, pos, a);
      if ShapeOf(a.typ).IsGroup? {
        EmptyGroup(b, pos, a, uma);
      } else {
        LeafBody(b, pos, a, n, uma);
      }
      FromBody(b, pos, end, a, n, uma);
      PadFits(pos, n, end);
    } else {
      var n := 4 + |AttrsBytes(a.subs)|;
      GroupLaidOut(b, pos, a);
      AttrsRoundTrip(a.subs, b, pos + 4, pos + n, uma);
      GroupBody(b, pos, a, n, uma);
      FromBody(b, pos, end, a, n, uma);
      AttrsAligned(a.subs);
      NoPad(n);
      PadFits(pos, n, end);
    }
  }

  lemma {:induction false} U16Content(v: Value)
    ensures v.U16? ==> |Content(v)| == 2
  {}

  lemma {:induction false} NoPad(n: nat)
    requires n % 4 == 0
    ensures PadLen(n) == 0
  {}

  /** Every encoded attribute fills whole words. */
  lemma {:induction false} AttrsAligned(list: Attrs)
    requires AttrsOk(list)
    ensures |AttrsBytes(list)| % 4 == 0
    decreases list
  {
    hide Content, LeafBytes;
    if list.Cons? {
      AttrsAligned(list.tail);
      LeafAligned(list.head);
      AttrsAligned(list.head.subs);
    }
  }

  lemma {:induction false} LeafAligned(a: Attr)
    ensures |LeafBytes(a)| % 4 == 0
  {
    hide Content;
  }

  lemma {:induction false} EmptyGroup(b: seq<byte>, pos: nat, a: Attr, uma: seq<byte>)
    requires a.v.U16? && ShapeOf(a.typ).IsGroup? && LaidOut(b, pos, a, 4)
    ensures DecBody(a.typ, a.mand, b, pos + 2, 2, uma) == Success(Body(a.v, Nil, pos + 4, uma))
  {
    Holds16(b, pos + 2, a.v.u);
    assert DecAttrs(b, pos + 4, pos + 4, uma) == Success(Many(Nil, pos + 4, uma));
  }

  lemma {:induction false} GroupBody(b: seq<byte>, pos: nat, a: Attr, n: nat, uma: seq<byte>)
    requires a.v.U16? && ShapeOf(a.typ).IsGroup? && LaidOut(b, pos, a, n) && 4 <= n
    requires DecAttrs(b, pos + 4, pos + n, uma) == Success(Many(a.subs, pos + n, uma))
    ensures DecBody(a.typ, a.mand, b, pos + 2, n - 2, uma) == Success(Body(a.v, a.subs, pos + n, uma))
  {
    hide DecAttrs;
    Holds16(b, pos + 2, a.v.u);
  }

  lemma {:induction false} AttrsRoundTrip(list: Attrs, b: seq<byte>, pos: nat, end: nat, uma: seq<byte>)
    requires AttrsOk(list) && HoldsAt(b, pos, AttrsBytes(list)) && pos + |AttrsBytes(list)| == end <= |b|
    ensures DecAttrs(b, pos, end, uma) == Success(Many(list, end, uma))
    decreases list
  {
    hide HoldsAt, DecAttr, AttrBytes, AttrOk;
    if list.Cons? {
      HoldsAtSplit(b, pos, AttrBytes(list.head), AttrsBytes(list.tail));
      AttrRoundTrip(list.head, b, pos, end, uma);
      AttrsRoundTrip(list.tail, b, pos + |AttrBytes(list.head)|, end, uma);
    }
  }

  // ---------------------------------------------------------------- attributes that are too long

  /** A length byte below two is refused. */
  lemma {:induction false} ShortLength(b: seq<byte>, pos: nat, end: nat, uma: seq<byte>)
    requires pos + 2 <= end <= |b| && b[pos + 1] < 2
    ensures DecAttr(b, pos, end, uma) == Failure(EBADMSG)
  {}

  /** Whatever it reads, the decoder ends within 258 bytes of where it started. */
  lemma {:induction false} AttrReach(b: seq<byte>, pos: nat, end: nat, uma: seq<byte>)
    requires pos <= end <= |b|
    ensures var r := DecAttr(b, pos, end, uma); r.Success? ==> r.value.after <= pos + 258
  {
    hide DecBody;
  }

  /** A group of more than 255 bytes is refused or left too early: its total does not fit the length byte. */
  lemma {:induction false} GroupIff(a: Attr, b: seq<byte>, pos: nat, end: nat, uma: seq<byte>)
    requires LeafOk(a) && ShapeOf(a.typ).IsGroup? && a.subs.Cons? && AttrsOk(a.subs)
    requires HoldsAt(b, pos, AttrBytes(a)) && pos + |AttrBytes(a)| <= end <= |b|
    ensures DecAttr(b, pos, end, uma) == Success(One(a, pos + |AttrBytes(a)|, uma)) <==> 4 + |AttrsBytes(a.subs)| <= 255
  {
    hide HoldsAt, DecAttr, AttrsOk, AttrsBytes, LeafBytes, Content;
    U16Content(a.v);
    var n := 4 + |AttrsBytes(a.subs)|;
    if n <= 255 {
      AttrRoundTrip(a, b, pos, end, uma);
    } else {
      GroupLength(a);
      AttrsAligned(a.subs);
      AttrReach(b, pos, end, uma);
      HoldsAtIndex(b, pos, AttrBytes(a), 1);
      if n == 256 {
        ShortLength(b, pos, end, uma);
      }
    }
  }

  lemma {:induction false} GroupLength(a: Attr)
    requires a.v.U16? && a.subs.Cons?
    ensures |AttrBytes(a)| == 4 + |AttrsBytes(a.subs)| && AttrBytes(a)[1] == |AttrBytes(a)| % 0x100
  {
    hide AttrsBytes;
    assert |LeafBytes(a)| == 4;
  }

  /** A plain attribute comes back exactly when it has at most 255 bytes. */
  lemma {:induction false} LeafIff(a: Attr, b: seq<byte>, pos: nat, end: nat, uma: seq<byte>)
    requires LeafOk(a) && !ShapeOf(a.typ).IsGroup? && a.subs.Nil?
    requires HoldsAt(b, pos, LeafBytes(a)) && pos + |LeafBytes(a)| <= end <= |b|
    ensures DecAttr(b, pos, end, uma) == Success(One(a, pos + |LeafBytes(a)|, uma)) <==> 2 + |Content(a.v)| <= 255
  {
    hide HoldsAt, DecAttr, Content;
    var n := 2 + |Content(a.v)|;
    if n <= 255 {
      assert AttrBytes(a) == LeafBytes(a);
      AttrRoundTrip(a, b, pos, end, uma);
    } else if n % 0x100 == 0 {
      AttrAdvances(b, pos, end, uma);
    } else {
      LeafLength(a);
      HoldsAtIndex(b, pos, LeafBytes(a), 1);
      if n % 0x100 == 1 {
        ShortLength(b, pos, end, uma);
      } else {
        TruncatedValue(b, pos, end, a, uma);
      }
    }
  }

  lemma {:induction false} LeafLength(a: Attr)
    requires (2 + |Content(a.v)|) % 0x100 > 0
    ensures |LeafBytes(a)| >= 2
    ensures LeafBytes(a)[1] == if (2 + |Content(a.v)|) % 0x100 == 1 then 0 else (2 + |Content(a.v)|) % 0x100
  {
    hide Content;
    var n := (2 + |Content(a.v)|) % 0x100;
    assert n == 1 ==> PadLen(n) == 3;
  }

  lemma {:induction false} AttrAdvances(b: seq<byte>, pos: nat, end: nat, uma: seq<byte>)
    requires pos <= end <= |b|
    ensures DecAttr(b, pos, end, uma).Success? ==> DecAttr(b, pos, end, uma).value.after >= pos + 2
  {}

  /** Number of bytes that the variable part of a value takes. */
  function ValueLen(v: Value): nat {
    match v
    case ErrCode(_, d) => 1 + |d|
    case Str(s) => |s|
    case SupAttrs(a) => |a|
    case SupPrims(p) => |p|
    case _ => 2
  }

  lemma {:induction false} BodyLen(typ: attrType, mand: bool, b: seq<byte>, p: nat, n: nat, uma: seq<byte>)
    requires p + n <= |b|
    ensures var r := DecBody(typ, mand, b, p, n, uma); r.Success? ==> ValueLen(r.value.v) <= (if n < 2 then 2 else n)
  {
    hide DecAttrs, Halved;
  }

  /** A length byte that lost its upper bits gives back a shorter value. */
  lemma {:induction false} TruncatedValue(b: seq<byte>, pos: nat, end: nat, a: Attr, uma: seq<byte>)
    requires LeafOk(a) && !ShapeOf(a.typ).IsGroup? && pos + 2 <= end <= |b| && 2 + |Content(a.v)| > 255
    ensures DecAttr(b, pos, end, uma).Success? ==> DecAttr(b, pos, end, uma).value.a != a
  {
    hide DecBody, Doubled;
    var n := b[pos + 1];
    if 2 <= n <= end - pos {
      BodyLen(b[pos] as int / 2, b[pos] % 2 == 1, b, pos + 2, n - 2, uma);
      assert |Content(a.v)| == ValueLen(a.v);
    }
  }

  // ---------------------------------------------------------------- messages

  const HDR_SIZE := 12
  const VER1 := 1
  const VER2 := 2

  datatype Msg = Msg(ver: byte, r: bool, prim: byte, confid: u32, tid: u16, userid: u16, attrs: Attrs)

  function HdrBytes(m: Msg, len: nat): (b: seq<byte>)
    ensures |b| == HDR_SIZE
  {
    [(m.ver as int * 32 + if m.r then 16 else 0) % 0x100, m.prim] + Be16(len / 4 % 0x1_0000)
    + Be32(m.confid) + Be16(m.tid) + Be16(m.userid)
  }

  function MsgBytes(m: Msg): seq<byte> {
    HdrBytes(m, |AttrsBytes(m.attrs)|) + AttrsBytes(m.attrs)
  }

  /** What the header says: the message without its attributes, and the length in words. */
  function DecHdr(b: seq<byte>, pos: nat, end: nat): (r: Result<(Msg, u16)>)
    requires end <= |b|
    ensures r.Success? ==> pos + HDR_SIZE + 4 * r.value.1 <= end
  {
    if pos + HDR_SIZE > end then Failure(ENODATA)
    else
      var ver, r, f := b[pos] as int / 32, b[pos] as int / 16 % 2 == 1, b[pos] as int / 8 % 2 == 1;
      var len := Get16(b, pos + 2);
      if ver != VER1 && ver != VER2 then Failure(EBADMSG)
      else if f then Failure(ENOSYS)
      else if pos + HDR_SIZE + 4 * len > end then Failure(ENODATA)
      else Success((Msg(ver, r, b[pos + 1], Get32(b, pos + 4), Get16(b, pos + 8), Get16(b, pos + 10), Nil), len))
  }

  datatype Decoded = Decoded(m: Msg, after: nat, uma: seq<byte>)

  function DecMsg(b: seq<byte>, pos: nat, end: nat): (r: Result<Decoded>)
    requires end <= |b|
  {
    var h :- DecHdr(b, pos, end);
    var p := pos + HDR_SIZE;
    var many :- DecAttrs(b, p, p + 4 * h.1, []);
    Success(Decoded(h.0.(attrs := many.list), many.after, many.uma))
  }

  lemma {:induction false} FirstByte(ver: byte, r: bool)
    ensures var x := (ver as int * 32 + if r then 16 else 0) % 0x100;
            x / 32 == ver % 8 && (x / 16 % 2 == 1 <==> r) && x / 8 % 2 == 0
  {
    var e, k := ver % 8, if r then 1 else 0;
    var x := (ver as int * 32 + 16 * k) % 0x100;
    assert ver as int * 32 + 16 * k == 0x100 * (ver / 8) + (32 * e + 16 * k);
    assert x == 32 * e + 16 * k;
    assert x / 16 == 2 * e + k && x / 8 == 2 * (2 * e + k);
  }

  lemma {:induction false} HdrParts(m: Msg, len: nat, b: seq<byte>, pos: nat)
    requires HoldsAt(b, pos, HdrBytes(m, len))
    ensures pos + HDR_SIZE <= |b|
    ensures b[pos] == (m.ver as int * 32 + if m.r then 16 else 0) % 0x100 && b[pos + 1] == m.prim
    ensures Get16(b, pos + 2) == len / 4 % 0x1_0000 && Get32(b, pos + 4) == m.confid
    ensures Get16(b, pos + 8) == m.tid && Get16(b, pos + 10) == m.userid
  {
    hide HoldsAt, Be16, Be32;
    var x := [(m.ver as int * 32 + if m.r then 16 else 0) % 0x100, m.prim];
    var l := Be16(len / 4 % 0x1_0000);
    HoldsAtRoom(b, pos, HdrBytes(m, len));
    HoldsAtSplit(b, pos, x + l + Be32(m.confid) + Be16(m.tid), Be16(m.userid));
    HoldsAtSplit(b, pos, x + l + Be32(m.confid), Be16(m.tid));
    HoldsAtSplit(b, pos, x + l, Be32(m.confid));
    HoldsAtSplit(b, pos, x, l);
    HoldsAtIndex(b, pos, x, 0);
    HoldsAtIndex(b, pos, x, 1);
    Holds16(b, pos + 2, len / 4 % 0x1_0000);
    Holds32(b, pos + 4, m.confid);
    Holds16(b, pos + 8, m.tid);
    Holds16(b, pos + 10, m.userid);
  }

  /**
   * A message with well-formed attributes comes back as it was, consuming exactly its bytes, if and
   * only if its version is 1 or 2 and its attributes fit the 16-bit word count.
   */
  lemma {:induction false} MsgRoundTripIff(m: Msg, b: seq<byte>, pos: nat, end: nat)
    requires AttrsOk(m.attrs) && HoldsAt(b, pos, MsgBytes(m)) && pos + |MsgBytes(m)| <= end <= |b|
    ensures DecMsg(b, pos, end) == Success(Decoded(m, pos + |MsgBytes(m)|, []))
            <==> (m.ver == VER1 || m.ver == VER2) && |AttrsBytes(m.attrs)| <= 4 * 0xffff
  {
    hide HoldsAt, AttrsBytes, AttrsOk, DecAttrs, HdrBytes, Get16, Get32;
    var body := AttrsBytes(m.attrs);
    var len := |body|;
    HoldsAtSplit(b, pos, HdrBytes(m, len), body);
    HdrParts(m, len, b, pos);
    FirstByte(m.ver, m.r);
    AttrsAligned(m.attrs);
    if (m.ver == VER1 || m.ver == VER2) && len <= 4 * 0xffff {
      assert len / 4 % 0x1_0000 == len / 4 && 4 * (len / 4) == len;
      AttrsRoundTrip(m.attrs, b, pos + HDR_SIZE, pos + HDR_SIZE + len, []);
    }
  }
}
