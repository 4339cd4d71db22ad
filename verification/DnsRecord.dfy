/**
 * Resource records: the order of their fields on the wire, and the proof that a whole list of
 * records written against one compression table is read back record by record.
 */
module DnsRecord {
  import opened Bytes
  import opened MemoryBuffer
  import opened DnsName
  import opened DnsCompression

  // ---------------------------------------------------------------- records

  const TYPE_A: u16 := 1
  const TYPE_NS: u16 := 2
  const TYPE_CNAME: u16 := 5
  const TYPE_SOA: u16 := 6
  const TYPE_PTR: u16 := 12
  const TYPE_MX: u16 := 15
  const TYPE_TXT: u16 := 16
  const TYPE_AAAA: u16 := 28
  const TYPE_SRV: u16 := 33
  const TYPE_NAPTR: u16 := 35

  predicate Known(typ: u16) {
    || typ == TYPE_A || typ == TYPE_NS || typ == TYPE_CNAME || typ == TYPE_SOA || typ == TYPE_PTR
    || typ == TYPE_MX || typ == TYPE_TXT || typ == TYPE_AAAA || typ == TYPE_SRV || typ == TYPE_NAPTR
  }

  type otherType = t: u16 | !Known(t) witness 0
  type addr6 = a: seq<byte> | |a| == 16 witness seq(16, _ => 0)

  /** The union rdata together with the type that selects its member. */
  datatype Rdata =
    | A(addr: u32)
    | Ns(nsdname: cstr)
    | Cname(cname: cstr)
    | Soa(mname: cstr, rname: cstr, serial: u32, refresh: u32, retry: u32, expire: u32, ttlmin: u32)
    | Ptr(ptrdname: cstr)
    | Mx(pref: u16, exchange: cstr)
    | Txt(data: cstr)
    | Aaaa(addr6: addr6)
    | Srv(pri: u16, weight: u16, port: u16, target: cstr)
    | Naptr(order: u16, npref: u16, flags: cstr, services: cstr, regexp: cstr, replace: cstr)
    | Unknown(typ: otherType)

  function TypeOf(rd: Rdata): u16 {
    match rd
    case A(_) => TYPE_A
    case Ns(_) => TYPE_NS
    case Cname(_) => TYPE_CNAME
    case Soa(_, _, _, _, _, _, _) => TYPE_SOA
    case Ptr(_) => TYPE_PTR
    case Mx(_, _) => TYPE_MX
    case Txt(_) => TYPE_TXT
    case Aaaa(_) => TYPE_AAAA
    case Srv(_, _, _, _) => TYPE_SRV
    case Naptr(_, _, _, _, _, _) => TYPE_NAPTR
    case Unknown(typ) => typ
  }

  datatype Rr = Rr(name: cstr, cls: u16, ttl: i64, rdlen: u16, rdata: Rdata)

  /** Equality of two records, data included; records of unknown type never match. */
  predicate RrCmp(a: Rr, b: Rr) {
    a.cls == b.cls && CaseEq(a.name, b.name) && RdataCmp(a.rdata, b.rdata)
  }

  predicate RdataCmp(a: Rdata, b: Rdata) {
    match (a, b)
    case (A(x), A(y)) => x == y
    case (Ns(x), Ns(y)) => CaseEq(x, y)
    case (Cname(x), Cname(y)) => CaseEq(x, y)
    case (Soa(m, r, s, f, t, e, l), Soa(m', r', s', f', t', e', l')) =>
      CaseEq(m, m') && CaseEq(r, r') && s == s' && f == f' && t == t' && e == e' && l == l'
    case (Ptr(x), Ptr(y)) => CaseEq(x, y)
    case (Mx(p, x), Mx(p', y)) => p == p' && CaseEq(x, y)
    case (Txt(x), Txt(y)) => CaseEq(x, y)
    case (Aaaa(x), Aaaa(y)) => x == y
    case (Srv(p, w, o, t), Srv(p', w', o', t')) => p == p' && w == w' && o == o' && CaseEq(t, t')
    case (Naptr(o, p, f, s, r, t), Naptr(o', p', f', s', r', t')) =>
      o == o' && p == p' && CaseEq(f, f') && CaseEq(s, s') && CaseEq(r, r') && CaseEq(t, t')
    case _ => false
  }

  // ---------------------------------------------------------------- fields on the wire

  datatype Field =
    | F16(v: u16)
    | F32(w: u32)
    | FName(name: cstr, comp: bool)
    | FStr(str: cstr)
    | FTxt(txt: cstr)
    | FRaw(raw: seq<byte>)

  /** The data fields in wire order; targets of SRV and NAPTR records are written uncompressed. */
  function Fields(rd: Rdata): seq<Field> {
    match rd
    case A(addr) => [F32(addr)]
    case Ns(n) => [FName(n, true)]
    case Cname(n) => [FName(n, true)]
    case Soa(m, r, s, f, t, e, l) => [FName(m, true), FName(r, true), F32(s), F32(f), F32(t), F32(e), F32(l)]
    case Ptr(n) => [FName(n, true)]
    case Mx(p, n) => [F16(p), FName(n, true)]
    case Txt(d) => [FTxt(d)]
    case Aaaa(a) => [FRaw(a)]
    case Srv(p, w, o, t) => [F16(p), F16(w), F16(o), FName(t, false)]
    case Naptr(o, p, f, s, r, t) => [F16(o), F16(p), FStr(f), FStr(s), FStr(r), FName(t, false)]
    case Unknown(_) => []
  }

  /** A character string: its length modulo 256, then that many bytes. */
  function StrBytes(s: seq<byte>): (b: seq<byte>)
    ensures |b| == 1 + |s| % 0x100
  {
    [|s| % 0x100] + s[..|s| % 0x100]
  }

  /** A field other than a name. */
  function FlatBytes(f: Field): seq<byte>
    requires !f.FName?
  {
    match f
    case F16(v) => Be16(v)
    case F32(w) => Be32(w)
    case FStr(s) => StrBytes(s)
    case FTxt(s) => StrBytes(s)
    case FRaw(raw) => raw
  }

  function EncField(f: Field, tab: Table, off: nat): Encoded {
    if f.FName? then EncName(f.name, tab, off, f.comp) else Encoded(FlatBytes(f), tab, true)
  }

  /** The fields from the i-th on, one behind the other, with the table handed along. */
  function EncFields(fs: seq<Field>, i: nat, tab: Table, off: nat): Encoded
    requires i <= |fs|
    decreases |fs| - i
  {
    if i == |fs| then Encoded([], tab, true)
    else
      var e := EncField(fs[i], tab, off);
      var r := EncFields(fs, i + 1, e.tab, off + |e.bytes|);
      Encoded(e.bytes + r.bytes, r.tab, e.ok && r.ok)
  }

  /** The time to live left after offs seconds, as a 32-bit field. */
  function Ttl(ttl: i64, offs: i64): (r: u32)
    ensures ttl <= offs ==> r == 0
    ensures 0 <= ttl as int - offs as int < 0x1_0000_0000 ==> r == ttl as int - offs as int
  {
    if ttl > offs then (ttl as int - offs as int) % 0x1_0000_0000 else 0
  }

  function Head(rr: Rr, offs: i64): seq<Field> {
    [FName(rr.name, true), F16(TypeOf(rr.rdata)), F16(rr.cls), F32(Ttl(rr.ttl, offs))]
  }

  datatype RrEncoded = RrEncoded(bytes: seq<byte>, tab: Table, err: Errno)

  /** A record: head, data length, data. An oversized record keeps the caller's length field. */
  function EncRr(rr: Rr, offs: i64, tab: Table, off: nat): RrEncoded {
    var h := EncFields(Head(rr, offs), 0, tab, off);
    var d := EncFields(Fields(rr.rdata), 0, h.tab, off + |h.bytes| + 2);
    if |d.bytes| > 0xffff then RrEncoded(h.bytes + Be16(rr.rdlen) + d.bytes, d.tab, EOVERFLOW)
    else RrEncoded(h.bytes + Be16(|d.bytes|) + d.bytes, d.tab,
                   if rr.rdata.Unknown? || !h.ok || !d.ok then EINVAL else OK)
  }

  datatype Kind = K16 | K32 | KName | KStr | KTxt(n: nat) | KRaw(n: nat)

  /** What the decoder reads for a type, or the error it raises for a wrong data length. */
  function Kinds(typ: u16, rdlen: u16): Result<seq<Kind>>
    requires Known(typ)
  {
    if typ == TYPE_A then if rdlen != 4 then Failure(EINVAL) else Success([K32])
    else if typ == TYPE_NS || typ == TYPE_CNAME || typ == TYPE_PTR then Success([KName])
    else if typ == TYPE_SOA then Success([KName, KName, K32, K32, K32, K32, K32])
    else if typ == TYPE_MX then Success([K16, KName])
    else if typ == TYPE_TXT then Success([KTxt(rdlen)])
    else if typ == TYPE_AAAA then if rdlen != 16 then Failure(EINVAL) else Success([KRaw(16)])
    else if typ == TYPE_SRV then Success([K16, K16, K16, KName])
    else Success([K16, K16, KStr, KStr, KStr, KName])
  }

  /** The strings that fill the n bytes at p, joined. */
  function DecTxt(b: seq<byte>, p: nat, n: nat, acc: seq<byte>): (r: Result<(seq<byte>, nat)>)
    requires p + n <= |b|
    ensures r.Success? ==> r.value.1 == p + n
    decreases n
  {
    if n == 0 then Success((acc, p))
    else if b[p] > n - 1 then Failure(EINVAL)
    else DecTxt(b, p + 1 + b[p], n - 1 - b[p], acc + b[p + 1..p + 1 + b[p]])
  }

  function DecName(b: seq<byte>, end: nat, start: nat, p: nat): (r: Result<(cstr, nat)>)
    requires end <= |b|
    ensures r.Success? ==> p < r.value.1 <= end
  {
    match Walk(b, end, start, p, [], 0, None)
    case Bad => Failure(EINVAL)
    case Name(text, after) => Success((CString(text), after))
  }

  function DecField(k: Kind, b: seq<byte>, end: nat, start: nat, p: nat): (r: Result<(Field, nat)>)
    requires end <= |b|
    ensures r.Success? ==> p <= r.value.1 && (p <= end ==> r.value.1 <= end)
  {
    match k
    case K16 => if p + 2 > end then Failure(EINVAL) else Success((F16(Get16(b, p)), p + 2))
    case K32 => if p + 4 > end then Failure(EINVAL) else Success((F32(Get32(b, p)), p + 4))
    case KName =>
      var r :- DecName(b, end, start, p);
      Success((FName(r.0, false), r.1))
    case KStr =>
      if p >= end then Failure(EINVAL)
      else if p + 1 + b[p] > end then Failure(EBADMSG)
      else Success((FStr(CString(b[p + 1..p + 1 + b[p]])), p + 1 + b[p]))
    case KTxt(n) =>
      if p + n > end then Failure(EINVAL)
      else
        var r :- DecTxt(b, p, n, []);
        Success((FTxt(CString(r.0)), r.1))
    case KRaw(n) => if p + n > end then Failure(EOVERFLOW) else Success((FRaw(b[p..p + n]), p + n))
  }

  /** Reads the fields from the i-th on behind those already read. */
  function DecFields(ks: seq<Kind>, i: nat, b: seq<byte>, end: nat, start: nat, p: nat,
                     vals: seq<Field>): (r: Result<(seq<Field>, nat)>)
    requires i <= |ks| && end <= |b|
    decreases |ks| - i
  {
    if i == |ks| then Success((vals, p))
    else
      var r :- DecField(ks[i], b, end, start, p);
      DecFields(ks, i + 1, b, end, start, r.1, vals + [r.0])
  }

  /** The fields read for a type make up its data. */
  ghost predicate Fits(typ: u16, vals: seq<Field>) {
    || (typ == TYPE_A && |vals| == 1 && vals[0].F32?)
    || ((typ == TYPE_NS || typ == TYPE_CNAME || typ == TYPE_PTR) && |vals| == 1 && vals[0].FName?)
    || (typ == TYPE_SOA && |vals| == 7 && vals[0].FName? && vals[1].FName? && vals[2].F32? && vals[3].F32?
        && vals[4].F32? && vals[5].F32? && vals[6].F32?)
    || (typ == TYPE_MX && |vals| == 2 && vals[0].F16? && vals[1].FName?)
    || (typ == TYPE_TXT && |vals| == 1 && vals[0].FTxt?)
    || (typ == TYPE_AAAA && |vals| == 1 && vals[0].FRaw? && |vals[0].raw| == 16)
    || (typ == TYPE_SRV && |vals| == 4 && vals[0].F16? && vals[1].F16? && vals[2].F16? && vals[3].FName?)
    || (typ == TYPE_NAPTR && |vals| == 6 && vals[0].F16? && vals[1].F16? && vals[2].FStr? && vals[3].FStr?
        && vals[4].FStr? && vals[5].FName?)
  }

  ghost function Build(typ: u16, vals: seq<Field>): (rd: Rdata)
    requires Fits(typ, vals)
    ensures TypeOf(rd) == typ
  {
    if typ == TYPE_A then A(vals[0].w)
    else if typ == TYPE_NS then Ns(vals[0].name)
    else if typ == TYPE_CNAME then Cname(vals[0].name)
    else if typ == TYPE_SOA then
      Soa(vals[0].name, vals[1].name, vals[2].w, vals[3].w, vals[4].w, vals[5].w, vals[6].w)
    else if typ == TYPE_PTR then Ptr(vals[0].name)
    else if typ == TYPE_MX then Mx(vals[0].v, vals[1].name)
    else if typ == TYPE_TXT then Txt(vals[0].txt)
    else if typ == TYPE_AAAA then Aaaa(vals[0].raw)
    else if typ == TYPE_SRV then Srv(vals[0].v, vals[1].v, vals[2].v, vals[3].name)
    else Naptr(vals[0].v, vals[1].v, vals[2].str, vals[3].str, vals[4].str, vals[5].name)
  }

  predicate KindOk(k: Kind, f: Field) {
    match k
    case K16 => f.F16?
    case K32 => f.F32?
    case KName => f.FName?
    case KStr => f.FStr?
    case KTxt(_) => f.FTxt?
    case KRaw(n) => f.FRaw? && |f.raw| == n
  }

  lemma {:induction false} DecFieldKind(k: Kind, b: seq<byte>, end: nat, start: nat, p: nat)
    requires end <= |b|
    ensures var r := DecField(k, b, end, start, p); r.Success? ==> KindOk(k, r.value.0)
  {
    hide DecTxt, DecName, CString;
  }

  lemma {:induction false} DecFieldsKinds(ks: seq<Kind>, i: nat, b: seq<byte>, end: nat, start: nat, p: nat, vals: seq<Field>)
    requires i == |vals| <= |ks| && end <= |b| && p <= end
    requires forall j :: 0 <= j < i ==> KindOk(ks[j], vals[j])
    ensures var r := DecFields(ks, i, b, end, start, p, vals);
            r.Success? ==> |r.value.0| == |ks| && p <= r.value.1 <= end
                           && forall j :: 0 <= j < |ks| ==> KindOk(ks[j], r.value.0[j])
    decreases |ks| - i
  {
    hide DecField, KindOk;
    if i < |ks| {
      var r := DecField(ks[i], b, end, start, p);
      if r.Success? {
        DecFieldKind(ks[i], b, end, start, p);
        DecFieldsKinds(ks, i + 1, b, end, start, r.value.1, vals + [r.value.0]);
      }
    }
  }

  lemma {:induction false} KindsFit(typ: u16, rdlen: u16, vals: seq<Field>)
    requires Known(typ) && Kinds(typ, rdlen).Success?
    requires var ks := Kinds(typ, rdlen).value;
             |vals| == |ks| && forall j :: 0 <= j < |ks| ==> KindOk(ks[j], vals[j])
    ensures Fits(typ, vals)
  {
    var ks := Kinds(typ, rdlen).value;
    assert forall j :: 0 <= j < |ks| ==> KindOk(ks[j], vals[j]);
  }

  /** Everything behind the data length field. */
  ghost function DecRdata(typ: u16, rdlen: u16, b: seq<byte>, end: nat, start: nat, p: nat): (r: Result<(Rdata, nat)>)
    requires end <= |b| && p + rdlen <= end
  {
    if !Known(typ) then Success((Unknown(typ), p + rdlen))
    else
      var ks :- Kinds(typ, rdlen);
      var r :- DecFields(ks, 0, b, end, start, p, []);
      DecFieldsKinds(ks, 0, b, end, start, p, []);
      KindsFit(typ, rdlen, r.0);
      Success((Build(typ, r.0), r.1))
  }

  ghost function DecRr(b: seq<byte>, end: nat, start: nat, pos: nat): (r: Result<(Rr, nat)>)
    requires end <= |b|
  {
    var n :- DecName(b, end, start, pos);
    var p := n.1;
    if p + 10 > end then Failure(EINVAL)
    else
      var typ, cls, ttl, rdlen := Get16(b, p), Get16(b, p + 2), Get32(b, p + 4), Get16(b, p + 8);
      if p + 10 + rdlen > end then Failure(EINVAL)
      else
        var d :- DecRdata(typ, rdlen, b, end, start, p + 10);
        Success((Rr(n.0, cls, ttl, rdlen, d.0), d.1))
  }
}
