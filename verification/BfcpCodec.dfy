/** The BFCP encoder and decoder as they run on a memory buffer, against their specification. */
module BfcpCodec {
  import opened Bytes
  import opened MemoryBuffer
  import opened Bfcp

  // ---------------------------------------------------------------- encoder

  ghost predicate ByteAt(now: seq<byte>, p: nat, d: seq<byte>, i: nat)
    requires i < |d|
  {
    p + i < |now| && now[p + i] == d[i]
  }

  /** now holds d at p, with everything in front of p as it was; what is behind d is open. */
  ghost predicate Laid(was: seq<byte>, now: seq<byte>, p: nat, d: seq<byte>) {
    && |was| <= |now| && (forall i :: 0 <= i < p && i < |was| ==> now[i] == was[i])
    && (forall i :: 0 <= i < |d| ==> ByteAt(now, p, d, i))
  }

  lemma {:induction false} LaidNothing(b: seq<byte>, p: nat)
    ensures Laid(b, b, p, [])
  {}

  lemma {:induction false} LaidHolds(was: seq<byte>, now: seq<byte>, p: nat, d: seq<byte>)
    requires Laid(was, now, p, d) && p + |d| <= |now|
    ensures HoldsAt(now, p, d)
  {
    forall i | 0 <= i < |d|
      ensures now[p..p + |d|][i] == d[i]
    {
      assert ByteAt(now, p, d, i);
    }
  }

  lemma {:induction false} PatchedLaid(was: seq<byte>, now: seq<byte>, p: nat, d: seq<byte>)
    requires Patched(was, now, p, d)
    ensures Laid(was, now, p, d)
  {
    forall i | 0 <= i < |d|
      ensures ByteAt(now, p, d, i)
    {
      HoldsAtIndex(now, p, d, i);
    }
  }

  /** Laying e behind d. */
  lemma {:induction false} LaidAppend(a: seq<byte>, b: seq<byte>, c: seq<byte>, p: nat, d: seq<byte>, e: seq<byte>)
    requires Laid(a, b, p, d) && Laid(b, c, p + |d|, e)
    ensures Laid(a, c, p, d + e)
  {
    forall i | 0 <= i < |d + e|
      ensures ByteAt(c, p, d + e, i)
    {
      if i < |d| {
        assert ByteAt(b, p, d, i);
      } else {
        assert ByteAt(c, p + |d|, e, i - |d|);
      }
    }
  }

  /** Keeping only the first n bytes of what was laid. */
  lemma {:induction false} LaidCut(was: seq<byte>, now: seq<byte>, p: nat, d: seq<byte>, n: nat)
    requires Laid(was, now, p, d) && n <= |d|
    ensures Laid(was, now, p, d[..n])
  {
    forall i | 0 <= i < n
      ensures ByteAt(now, p, d[..n], i)
    {
      assert ByteAt(now, p, d, i);
    }
  }

  /** A header written in front of what is there. */
  lemma {:induction false} LaidPrepend(a: seq<byte>, b: seq<byte>, c: seq<byte>, p: nat, h: seq<byte>, d: seq<byte>)
    requires Laid(a, b, p + |h|, d) && Patched(b, c, p, h)
    ensures Laid(a, c, p, h + d)
  {
    forall i | 0 <= i < |h + d|
      ensures ByteAt(c, p, h + d, i)
    {
      if i < |h| {
        HoldsAtIndex(c, p, h, i);
      } else {
        assert ByteAt(b, p + |h|, d, i - |h|);
      }
    }
  }

  /** One byte of what was laid is overwritten. */
  lemma {:induction false} LaidPoke(a: seq<byte>, b: seq<byte>, c: seq<byte>, p: nat, d: seq<byte>, k: nat, v: byte)
    requires Laid(a, b, p, d) && k < |d| && Patched(b, c, p + k, [v])
    ensures Laid(a, c, p, d[k := v])
  {
    HoldsAtIndex(c, p + k, [v], 0);
    var e := d[k := v];
    forall i | 0 <= i < |e|
      ensures ByteAt(c, p, e, i)
    {
      assert ByteAt(b, p, d, i);
    }
  }

  /** A byte behind the end of nothing. */
  lemma {:induction false} LaidBeyond(a: seq<byte>, b: seq<byte>, c: seq<byte>, p: nat, k: nat, v: byte)
    requires Laid(a, b, p, []) && Patched(b, c, p + k, [v])
    ensures Laid(a, c, p, [])
  {}

  method LayU8(mb: Mbuf, v: byte, ghost was: seq<byte>, ghost p: nat, ghost d: seq<byte>)
    requires mb.Valid() && Laid(was, mb.buf, p, d) && mb.pos == p + |d|
    modifies mb
    ensures mb.Valid() && Laid(was, mb.buf, p, d + [v]) && mb.pos == old(mb.pos) + 1 && old(mb.end) <= mb.end && mb.pos <= mb.end
  {
    hide Laid, Patched;
    ghost var mid := mb.buf;
    mb.WriteU8(v);
    PatchedLaid(mid, mb.buf, p + |d|, [v]);
    LaidAppend(was, mid, mb.buf, p, d, [v]);
  }

  method LayMem(mb: Mbuf, e: seq<byte>, ghost was: seq<byte>, ghost p: nat)
    requires mb.Valid() && Laid(was, mb.buf, p, []) && mb.pos == p
    modifies mb
    ensures mb.Valid() && Laid(was, mb.buf, p, e) && mb.pos == old(mb.pos) + |e| && old(mb.end) <= mb.end && mb.pos <= mb.end
  {
    hide Laid, Patched;
    ghost var mid := mb.buf;
    mb.WriteMem(e);
    PatchedLaid(mid, mb.buf, p, e);
    LaidAppend(was, mid, mb.buf, p, [], e);
    assert [] + e == e;
  }

  /** The switch of attr_encode: the content of the value, or EINVAL for a type it does not know. */
  method EncodeContent(mb: Mbuf, a: Attr) returns (err: Errno)
    requires mb.Valid() && Fits(a)
    modifies mb
    ensures mb.Valid() && Laid(old(mb.buf), mb.buf, old(mb.pos), Content(a.v)) && mb.pos == old(mb.pos) + |Content(a.v)|
    ensures old(mb.end) <= mb.end && (Content(a.v) != [] ==> mb.pos <= mb.end)
    ensures err == if ShapeOf(a.typ).IsUnknown? then EINVAL else OK
  {
    hide Laid, Be16, Doubled;
    ghost var was, p := mb.buf, mb.pos;
    LaidNothing(was, p);
    err := OK;
    match a.v {
      case U16(u) =>
        LayMem(mb, Be16(u), was, p);
      case Priority(prio) =>
        LayU8(mb, (prio as int * 32) % 0x100, was, p, []);
        LayU8(mb, 0, was, p, [] + [(prio as int * 32) % 0x100]);
        assert [] + [(prio as int * 32) % 0x100] + [0] == Content(a.v);
      case Status(status, qpos) =>
        LayU8(mb, status, was, p, []);
        LayU8(mb, qpos, was, p, [] + [status]);
        assert [] + [status] + [qpos] == Content(a.v);
      case ErrCode(code, details) =>
        LayMem(mb, [code] + details, was, p);
      case Str(s) =>
        LayMem(mb, s, was, p);
      case SupAttrs(attrs) =>
        EncodeBytes(mb, Doubled(attrs));
      case SupPrims(prims) =>
        EncodeBytes(mb, prims);
      case Skipped =>
        err := EINVAL;
    }
  }

  /** The loops over supported attributes and primitives, one byte each. */
  method EncodeBytes(mb: Mbuf, s: seq<byte>)
    requires mb.Valid()
    modifies mb
    ensures mb.Valid() && Laid(old(mb.buf), mb.buf, old(mb.pos), s) && mb.pos == old(mb.pos) + |s| && old(mb.end) <= mb.end
    ensures s != [] ==> mb.pos <= mb.end
  {
    hide Laid;
    ghost var was, p := mb.buf, mb.pos;
    LaidNothing(was, p);
    var i := 0;
    while i < |s|
      invariant i <= |s| && mb.Valid() && mb.pos == p + i && old(mb.end) <= mb.end && Laid(was, mb.buf, p, s[..i])
      invariant i > 0 ==> mb.pos <= mb.end
    {
      LayU8(mb, s[i], was, p, s[..i]);
      assert s[..i] + [s[i]] == s[..i + 1];
      i := i + 1;
    }
    assert s[..|s|] == s;
  }

  /** attr_encode: content first, then the header in front of it, then padding to a whole word. */
  method EncodeLeaf(mb: Mbuf, a: Attr) returns (err: Errno)
    requires mb.Valid() && Fits(a)
    modifies mb
    ensures mb.Valid() && Laid(old(mb.buf), mb.buf, old(mb.pos), LeafBytes(a)) && mb.pos == old(mb.pos) + |LeafBytes(a)|
    ensures old(mb.end) <= mb.end && mb.pos <= mb.end && err == if ShapeOf(a.typ).IsUnknown? then EINVAL else OK
  {
    hide Laid, Patched, Content, PadLen;
    ghost var was, c := mb.buf, Content(a.v);
    var start := mb.pos;
    mb.pos := mb.pos + ATTR_HDR_SIZE;
    err := EncodeContent(mb, a);
    var len := (mb.pos - start) % 0x100;
    mb.pos := start;
    ghost var mid := mb.buf;
    mb.WriteU8(TypeByte(a));
    ghost var mid' := mb.buf;
    mb.WriteU8(len);
    PatchedAppend(mid, mid', mb.buf, start, [TypeByte(a)], [len]);
    assert [TypeByte(a)] + [len] == [TypeByte(a), len];
    LaidPrepend(was, mid, mb.buf, start, [TypeByte(a), len], c);
    ghost var raw := [TypeByte(a), len] + c;
    mb.pos := start + len;
    LaidCut(was, mb.buf, start, raw, len);
    EncodePad(mb, start, was, raw[..len]);
  }

  lemma {:induction false} PadStep(n: nat, k: nat)
    requires k <= PadLen(n)
    ensures (n + k) % 4 == 0 <==> k == PadLen(n)
  {}

  /** The padding loop behind the n bytes laid at start. */
  method EncodePad(mb: Mbuf, start: nat, ghost was: seq<byte>, ghost d: seq<byte>)
    requires mb.Valid() && Laid(was, mb.buf, start, d) && mb.pos == start + |d| <= mb.end
    modifies mb
    ensures mb.Valid() && Laid(was, mb.buf, start, d + Zeros(PadLen(|d|))) && mb.pos == start + |d| + PadLen(|d|)
    ensures old(mb.end) <= mb.end && mb.pos <= mb.end
  {
    hide Laid, PadLen, Zeros;
    ghost var k := 0;
    PadZeros(d, 0);
    PadStep(|d|, 0);
    while (mb.pos - start) % 4 != 0
      invariant mb.Valid() && k <= PadLen(|d|) && mb.pos == start + |d| + k <= mb.end && old(mb.end) <= mb.end
      invariant Laid(was, mb.buf, start, d + Zeros(k))
      invariant (|d| + k) % 4 == 0 <==> k == PadLen(|d|)
      decreases PadLen(|d|) - k
    {
      LayU8(mb, 0, was, start, d + Zeros(k));
      PadZeros(d, k);
      k := k + 1;
      PadStep(|d|, k);
    }
  }

  lemma {:induction false} PadZeros(d: seq<byte>, k: nat)
    ensures d + Zeros(0) == d && d + Zeros(k) + [0] == d + Zeros(k + 1)
  {}

  /** Every attribute carries the union member its type selects. */
  predicate AllFit(list: Attrs) {
    list.Cons? ==> Fits(list.head) && AllFit(list.head.subs) && AllFit(list.tail)
  }

  predicate AllKnown(list: Attrs) {
    list.Cons? ==> !ShapeOf(list.head.typ).IsUnknown? && AllKnown(list.head.subs) && AllKnown(list.tail)
  }

  /** The update of the length byte once the group below an attribute is written. */
  method EncodeTotal(mb: Mbuf, start: nat, ghost was: seq<byte>, ghost leaf: seq<byte>, ghost subs: seq<byte>)
    requires mb.Valid() && Laid(was, mb.buf, start, leaf + subs) && mb.pos == start + |leaf| + |subs| <= mb.end
    requires |leaf + subs| != 1
    modifies mb
    ensures mb.Valid() && Laid(was, mb.buf, start, Grouped(leaf, subs)) && mb.pos == start + |Grouped(leaf, subs)|
    ensures old(mb.end) <= mb.end && mb.pos <= mb.end
  {
    hide Laid, Patched;
    ghost var all := leaf + subs;
    var len := mb.pos - start;
    mb.pos := start + 1;
    ghost var mid := mb.buf;
    mb.WriteU8(len % 0x100);
    if len == 0 {
      assert all == [];
      LaidBeyond(was, mid, mb.buf, start, 1, len % 0x100);
    } else {
      LaidPoke(was, mid, mb.buf, start, all, 1, len % 0x100);
    }
    mb.pos := start + len;
  }

  /** bfcp_attrs_vencode */
  method EncodeAttrs(mb: Mbuf, list: Attrs) returns (err: Errno)
    requires mb.Valid() && AllFit(list)
    modifies mb
    ensures mb.Valid() && old(mb.end) <= mb.end && (old(mb.pos) <= old(mb.end) ==> mb.pos <= mb.end)
    ensures err == if AllKnown(list) then OK else EINVAL
    ensures err == OK ==> Laid(old(mb.buf), mb.buf, old(mb.pos), AttrsBytes(list)) && mb.pos == old(mb.pos) + |AttrsBytes(list)|
    decreases list
  {
    hide Laid, LeafBytes, Grouped, Fits;
    var cur := list;
    ghost var was, p, done: seq<byte> := mb.buf, mb.pos, [];
    LaidNothing(was, p);
    assert [] + AttrsBytes(list) == AttrsBytes(list);
    while cur.Cons?
      invariant mb.Valid() && old(mb.end) <= mb.end && (old(mb.pos) <= old(mb.end) ==> mb.pos <= mb.end) && AllFit(cur) && (AllKnown(list) <==> AllKnown(cur))
      invariant Laid(was, mb.buf, p, done) && mb.pos == p + |done| && done + AttrsBytes(cur) == AttrsBytes(list)
      invariant cur == list || cur < list
      decreases cur
    {
      var a := cur.head;
      ghost var mid, start := mb.buf, mb.pos;
      err := EncodeOne(mb, a);
      if err != OK {
        return;
      }
      LaidAppend(was, mid, mb.buf, p, done, AttrBytes(a));
      assert done + (AttrBytes(a) + AttrsBytes(cur.tail)) == done + AttrBytes(a) + AttrsBytes(cur.tail);
      done := done + AttrBytes(a);
      cur := cur.tail;
    }
    assert done + [] == done;
    return OK;
  }

  /** One turn of the loop: the attribute, and the group below it if there is one. */
  method EncodeOne(mb: Mbuf, a: Attr) returns (err: Errno)
    requires mb.Valid() && Fits(a) && AllFit(a.subs)
    modifies mb
    ensures mb.Valid() && old(mb.end) <= mb.end && mb.pos <= mb.end
    ensures err == if !ShapeOf(a.typ).IsUnknown? && AllKnown(a.subs) then OK else EINVAL
    ensures err == OK ==> Laid(old(mb.buf), mb.buf, old(mb.pos), AttrBytes(a)) && mb.pos == old(mb.pos) + |AttrBytes(a)|
    decreases a
  {
    hide Laid, LeafBytes, Grouped, Fits, AttrsBytes;
    var start := mb.pos;
    ghost var was := mb.buf;
    err := EncodeLeaf(mb, a);
    if err != OK || a.subs.Nil? {
      return;
    }
    ghost var mid := mb.buf;
    err := EncodeAttrs(mb, a.subs);
    if err != OK {
      return;
    }
    LaidAppend(was, mid, mb.buf, start, LeafBytes(a), AttrsBytes(a.subs));
    NotOne(a);
    EncodeTotal(mb, start, was, LeafBytes(a), AttrsBytes(a.subs));
  }

  lemma {:induction false} AllAligned(list: Attrs)
    ensures |AttrsBytes(list)| % 4 == 0
    decreases list
  {
    hide LeafBytes;
    if list.Cons? {
      AllAligned(list.tail);
      AllAligned(list.head.subs);
      LeafAligned(list.head);
    }
  }

  lemma {:induction false} NotOne(a: Attr)
    ensures |LeafBytes(a) + AttrsBytes(a.subs)| != 1
  {
    hide LeafBytes, AttrsBytes;
    LeafAligned(a);
    AllAligned(a.subs);
  }

  // ---------------------------------------------------------------- decoder

  /** Types of mandatory attributes that were not understood, sixteen at most. */
  class UnknownAttrs {
    var types: seq<byte>

    constructor ()
      ensures types == []
    {
      types := [];
    }
  }

  /** The loop that halves the listed attribute types while reading them. */
  method DecodeHalved(mb: Mbuf, n: nat) returns (attrs: seq<byte>)
    requires mb.Valid() && mb.pos + n <= mb.end
    modifies mb`pos
    ensures mb.pos == old(mb.pos) + n && attrs == Halved(mb.buf[old(mb.pos)..old(mb.pos) + n])
  {
    attrs := [];
    ghost var p := mb.pos;
    while |attrs| < n
      invariant |attrs| <= n && mb.pos == p + |attrs|
      invariant forall i :: 0 <= i < |attrs| ==> attrs[i] == mb.buf[p + i] as int / 2
    {
      var x := mb.ReadU8();
      attrs := attrs + [x as int / 2];
    }
  }

  /** The padding loop, which stops at the end of the window. */
  method SkipPad(mb: Mbuf, start: nat)
    requires start <= mb.pos <= mb.end
    modifies mb`pos
    ensures mb.pos == PadPos(start, old(mb.pos), mb.end)
  {
    hide PadLen;
    ghost var k, n := 0, mb.pos - start;
    PadStep(n, 0);
    while (mb.pos - start) % 4 != 0 && mb.Left() > 0
      invariant mb.pos == start + n + k <= mb.end && k <= PadLen(n)
      invariant (n + k) % 4 == 0 <==> k == PadLen(n)
      decreases PadLen(n) - k
    {
      mb.pos := mb.pos + 1;
      k := k + 1;
      PadStep(n, k);
    }
  }

  /** Values of two bytes. */
  method DecodeFixed(mb: Mbuf, typ: attrType, ghost mand: bool, n: nat, ghost uma: seq<byte>) returns (r: Result<(Value, Attrs)>)
    requires mb.Valid() && mb.pos + n <= mb.end && (ShapeOf(typ).IsU16? || ShapeOf(typ).IsPriority? || ShapeOf(typ).IsStatus?)
    modifies mb`pos
    ensures var s := DecBody(typ, mand, mb.buf, old(mb.pos), n, uma);
            if s.Success? then r == Success((s.value.v, Nil)) && s.value.subs == Nil && mb.pos == s.value.after && s.value.uma == uma
            else r == Failure(s.err)
  {
    hide Get16;
    if n < 2 {
      return Failure(EBADMSG);
    }
    if ShapeOf(typ).IsU16? {
      var v := mb.ReadU16();
      return Success((U16(v), Nil));
    }
    var x := mb.ReadU8();
    var y := mb.ReadU8();
    if ShapeOf(typ).IsPriority? {
      return Success((Priority(x as int / 32), Nil));
    }
    return Success((Status(x, y), Nil));
  }

  /** Values that take all of their content. */
  method DecodeVar(mb: Mbuf, typ: attrType, ghost mand: bool, n: nat, ghost uma: seq<byte>) returns (r: Result<(Value, Attrs)>)
    requires mb.Valid() && mb.pos + n <= mb.end
    requires ShapeOf(typ).IsErrCode? || ShapeOf(typ).IsStr? || ShapeOf(typ).IsSupAttrs? || ShapeOf(typ).IsSupPrims?
    modifies mb`pos
    ensures var s := DecBody(typ, mand, mb.buf, old(mb.pos), n, uma);
            if s.Success? then r == Success((s.value.v, Nil)) && s.value.subs == Nil && mb.pos == s.value.after && s.value.uma == uma
            else r == Failure(s.err)
  {
    hide CString, Halved;
    if ShapeOf(typ).IsErrCode? {
      if n < 1 {
        return Failure(EBADMSG);
      }
      var code := mb.ReadU8();
      var _, details := mb.ReadMem(n - 1);
      assert details == mb.buf[old(mb.pos) + 1..old(mb.pos) + n];
      return Success((ErrCode(code, details), Nil));
    }
    if ShapeOf(typ).IsSupAttrs? {
      var attrs := DecodeHalved(mb, n);
      return Success((SupAttrs(attrs), Nil));
    }
    var _, text := mb.ReadMem(n);
    assert text == mb.buf[old(mb.pos)..old(mb.pos) + n];
    if ShapeOf(typ).IsStr? {
      return Success((Str(CString(text)), Nil));
    }
    return Success((SupPrims(text), Nil));
  }

  /** The switch of attr_decode over n bytes of content. */
  method DecodeBody(mb: Mbuf, typ: attrType, mand: bool, n: nat, uma: UnknownAttrs) returns (r: Result<(Value, Attrs)>)
    requires mb.Valid() && mb.pos + n <= mb.end
    modifies mb`pos, mb`end, uma
    ensures mb.end == old(mb.end)
    ensures var s := DecBody(typ, mand, mb.buf, old(mb.pos), n, old(uma.types));
            if s.Success? then r == Success((s.value.v, s.value.subs)) && mb.pos == s.value.after && uma.types == s.value.uma
            else r == Failure(s.err)
    decreases n, 0
  {
    hide CString, Halved, DecAttrs, Get16;
    match ShapeOf(typ) {
      case IsGroup =>
        if n < 2 {
          return Failure(EBADMSG);
        }
        var v := mb.ReadU16();
        var subs :- DecodeAttrs(mb, n - 2, uma);
        return Success((U16(v), subs));
      case IsUnknown =>
        mb.pos := mb.pos + n;
        if mand && |uma.types| < UNKNOWN_MAX {
          uma.types := uma.types + [typ as int * 2];
        }
        return Success((Skipped, Nil));
      case IsU16 =>
        r := DecodeFixed(mb, typ, mand, n, uma.types);
      case IsPriority =>
        r := DecodeFixed(mb, typ, mand, n, uma.types);
      case IsStatus =>
        r := DecodeFixed(mb, typ, mand, n, uma.types);
      case _ =>
        r := DecodeVar(mb, typ, mand, n, uma.types);
    }
  }

  /** attr_decode */
  method DecodeAttr(mb: Mbuf, uma: UnknownAttrs) returns (r: Result<Attr>)
    requires mb.Valid() && mb.pos <= mb.end
    modifies mb`pos, mb`end, uma
    ensures mb.end == old(mb.end)
    ensures var s := DecAttr(mb.buf, old(mb.pos), mb.end, old(uma.types));
            if s.Success? then r == Success(s.value.a) && mb.pos == s.value.after && uma.types == s.value.uma
            else r == Failure(s.err)
    decreases mb.end - mb.pos, 1
  {
    hide DecBody, PadPos;
    if mb.Left() < ATTR_HDR_SIZE {
      return Failure(EBADMSG);
    }
    var start := mb.pos;
    var b := mb.ReadU8();
    var typ, mand := b as int / 2, b % 2 == 1;
    var len := mb.ReadU8();
    if len < ATTR_HDR_SIZE || mb.Left() < len - ATTR_HDR_SIZE {
      return Failure(EBADMSG);
    }
    var body :- DecodeBody(mb, typ, mand, len - ATTR_HDR_SIZE, uma);
    SkipPad(mb, start);
    return Success(Attr(typ, mand, body.0, body.1));
  }

  /** Appending a decoded attribute to a list. */
  function Append(list: Attrs, a: Attr): Attrs {
    if list.Nil? then Cons(a, Nil) else Cons(list.head, Append(list.tail, a))
  }

  function Concat(list: Attrs, rest: Attrs): Attrs {
    if list.Nil? then rest else Cons(list.head, Concat(list.tail, rest))
  }

  lemma {:induction false} AppendConcat(list: Attrs, a: Attr, rest: Attrs)
    ensures Concat(Append(list, a), rest) == Concat(list, Cons(a, rest))
    decreases list
  {
    if list.Cons? {
      AppendConcat(list.tail, a, rest);
    }
  }

  lemma {:induction false} ConcatNil(list: Attrs)
    ensures Concat(list, Nil) == list
    decreases list
  {
    if list.Cons? {
      ConcatNil(list.tail);
    }
  }

  /** What the whole loop gives, seen from its i-th turn: the list so far, then the rest. */
  ghost function Behind(list: Attrs, s: Result<Many>): Result<Many> {
    if s.Success? then Success(Many(Concat(list, s.value.list), s.value.after, s.value.uma)) else s
  }

  lemma {:induction false} DecodeNext(list: Attrs, b: seq<byte>, pos: nat, end: nat, uma: seq<byte>)
    requires pos + 2 <= end <= |b|
    ensures var one := DecAttr(b, pos, end, uma);
            Behind(list, DecAttrs(b, pos, end, uma)) ==
              if one.Failure? then Failure(one.err)
              else Behind(Append(list, one.value.a), DecAttrs(b, one.value.after, end, one.value.uma))
  {
    hide DecAttr;
    var one := DecAttr(b, pos, end, uma);
    if one.Success? {
      var rest := DecAttrs(b, one.value.after, end, one.value.uma);
      if rest.Success? {
        AppendConcat(list, one.value.a, rest.value.list);
      }
    }
  }

  /** bfcp_attrs_decode: a window of len bytes, closed again whatever happens inside. */
  method DecodeAttrs(mb: Mbuf, len: nat, uma: UnknownAttrs) returns (r: Result<Attrs>)
    requires mb.Valid() && mb.pos <= mb.end
    modifies mb`pos, mb`end, uma
    ensures mb.end == old(mb.end)
    ensures mb.end - old(mb.pos) < len ==> r == Failure(EINVAL)
    ensures old(mb.pos) + len <= mb.end ==>
      var s := DecAttrs(mb.buf, old(mb.pos), old(mb.pos) + len, old(uma.types));
      if s.Success? then r == Success(s.value.list) && mb.pos == s.value.after && uma.types == s.value.uma
      else r == Failure(s.err)
    decreases len, 2
  {
    hide DecAttrs, DecAttr, Behind, Append;
    if mb.Left() < len {
      return Failure(EINVAL);
    }
    var end := mb.end;
    mb.end := mb.pos + len;
    ghost var all := DecAttrs(mb.buf, mb.pos, mb.end, uma.types);
    var list := Nil;
    BehindNil(all);
    while mb.Left() >= ATTR_HDR_SIZE
      invariant mb.pos <= mb.end == old(mb.pos) + len <= end && old(mb.pos) <= mb.pos
      invariant Behind(list, DecAttrs(mb.buf, mb.pos, mb.end, uma.types)) == all
      decreases mb.end - mb.pos
    {
      DecodeNext(list, mb.buf, mb.pos, mb.end, uma.types);
      var one := DecodeAttr(mb, uma);
      if one.Failure? {
        mb.end := end;
        return Failure(one.err);
      }
      list := Append(list, one.value);
    }
    BehindEnd(list, mb.buf, mb.pos, mb.end, uma.types);
    mb.end := end;
    return Success(list);
  }

  lemma {:induction false} BehindNil(s: Result<Many>)
    ensures Behind(Nil, s) == s
  {}

  lemma {:induction false} BehindEnd(list: Attrs, b: seq<byte>, pos: nat, end: nat, uma: seq<byte>)
    requires pos <= end <= |b| && end - pos < ATTR_HDR_SIZE
    ensures Behind(list, DecAttrs(b, pos, end, uma)) == Success(Many(list, pos, uma))
  {
    ConcatNil(list);
  }

  // ---------------------------------------------------------------- messages

  /** hdr_encode at the start of a message whose attributes take len bytes. */
  method EncodeHdr(mb: Mbuf, m: Msg, len: nat)
    requires mb.Valid()
    modifies mb
    ensures mb.Valid() && Patched(old(mb.buf), mb.buf, old(mb.pos), HdrBytes(m, len)) && mb.pos == old(mb.pos) + HDR_SIZE
    ensures old(mb.end) <= mb.end && mb.pos <= mb.end
  {
    hide Patched, Be16, Be32;
    ghost var was, p := mb.buf, mb.pos;
    var x := (m.ver as int * 32 + if m.r then 16 else 0) % 0x100;
    mb.WriteU8(x);
    ghost var b1 := mb.buf;
    mb.WriteU8(m.prim);
    PatchedAppend(was, b1, mb.buf, p, [x], [m.prim]);
    assert [x] + [m.prim] == [x, m.prim];
    ghost var b2, d := mb.buf, [x, m.prim];
    var words := len / 4 % 0x1_0000;
    mb.WriteU16(words);
    PatchedAppend(was, b2, mb.buf, p, d, Be16(words));
    b2, d := mb.buf, d + Be16(words);
    mb.WriteU32(m.confid);
    PatchedAppend(was, b2, mb.buf, p, d, Be32(m.confid));
    b2, d := mb.buf, d + Be32(m.confid);
    mb.WriteU16(m.tid);
    PatchedAppend(was, b2, mb.buf, p, d, Be16(m.tid));
    b2, d := mb.buf, d + Be16(m.tid);
    mb.WriteU16(m.userid);
    PatchedAppend(was, b2, mb.buf, p, d, Be16(m.userid));
  }

  /** bfcp_msg_vencode: attributes first, then the header in front of them. */
  method EncodeMsg(mb: Mbuf, m: Msg) returns (err: Errno)
    requires mb.Valid() && AllFit(m.attrs)
    modifies mb
    ensures mb.Valid() && err == if AllKnown(m.attrs) then OK else EINVAL
    ensures err == OK ==> Laid(old(mb.buf), mb.buf, old(mb.pos), MsgBytes(m)) && mb.pos == old(mb.pos) + |MsgBytes(m)|
  {
    hide Laid, Patched, HdrBytes, AttrsBytes;
    var start := mb.pos;
    ghost var was := mb.buf;
    mb.pos := mb.pos + HDR_SIZE;
    err := EncodeAttrs(mb, m.attrs);
    if err != OK {
      return;
    }
    var len := mb.pos - start - HDR_SIZE;
    mb.pos := start;
    ghost var mid := mb.buf;
    EncodeHdr(mb, m, len);
    LaidPrepend(was, mid, mb.buf, start, HdrBytes(m, len), AttrsBytes(m.attrs));
    mb.pos := mb.pos + len;
  }

  /** hdr_decode */
  method DecodeHdr(mb: Mbuf) returns (r: Result<(Msg, u16)>)
    requires mb.Valid()
    modifies mb`pos
    ensures r == DecHdr(mb.buf, old(mb.pos), mb.end)
    ensures r.Success? ==> mb.pos == old(mb.pos) + HDR_SIZE
  {
    hide Get16, Get32;
    if mb.Left() < HDR_SIZE {
      return Failure(ENODATA);
    }
    var b := mb.ReadU8();
    var ver, rflag, f := b as int / 32, b as int / 16 % 2 == 1, b as int / 8 % 2 == 1;
    var prim := mb.ReadU8();
    var len := mb.ReadU16();
    var confid := mb.ReadU32();
    var tid := mb.ReadU16();
    var userid := mb.ReadU16();
    if ver != VER1 && ver != VER2 {
      return Failure(EBADMSG);
    }
    if f {
      return Failure(ENOSYS);
    }
    if mb.Left() < 4 * (len as int) {
      return Failure(ENODATA);
    }
    return Success((Msg(ver, rflag, prim, confid, tid, userid, Nil), len));
  }

  /** bfcp_msg_decode: a header that is refused leaves the position where it was. */
  method DecodeMsg(mb: Mbuf, uma: UnknownAttrs) returns (r: Result<Msg>)
    requires mb.Valid() && uma.types == []
    modifies mb`pos, mb`end, uma
    ensures mb.end == old(mb.end)
    ensures DecHdr(mb.buf, old(mb.pos), mb.end).Failure? ==> mb.pos == old(mb.pos)
    ensures var s := DecMsg(mb.buf, old(mb.pos), mb.end);
            if s.Success? then r == Success(s.value.m) && mb.pos == s.value.after && uma.types == s.value.uma
            else r == Failure(s.err)
  {
    hide DecHdr, DecAttrs;
    var start := mb.pos;
    var h := DecodeHdr(mb);
    if h.Failure? {
      mb.pos := start;
      return Failure(h.err);
    }
    var attrs :- DecodeAttrs(mb, 4 * (h.value.1 as int), uma);
    return Success(h.value.0.(attrs := attrs));
  }

  /** A message that was encoded into a buffer decodes there exactly under the conditions of its round trip. */
  lemma {:induction false} StoredMessage(was: seq<byte>, now: seq<byte>, p: nat, m: Msg, end: nat)
    requires AttrsOk(m.attrs) && Laid(was, now, p, MsgBytes(m)) && p + |MsgBytes(m)| <= end <= |now|
    ensures DecMsg(now, p, end) == Success(Decoded(m, p + |MsgBytes(m)|, []))
            <==> (m.ver == VER1 || m.ver == VER2) && |AttrsBytes(m.attrs)| <= 4 * 0xffff
  {
    hide Laid, DecMsg, MsgBytes, AttrsOk;
    LaidHolds(was, now, p, MsgBytes(m));
    MsgRoundTripIff(m, now, p, end);
  }
}
