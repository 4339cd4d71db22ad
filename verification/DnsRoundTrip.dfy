/** A list of records written against one compression table is read back, in order and byte for byte. */
module DnsRoundTrip {
  import opened Bytes
  import opened MemoryBuffer
  import opened DnsName
  import opened DnsCompression
  import opened DnsRecord

  // ---------------------------------------------------------------- one field

  predicate FieldOk(f: Field) {
    match f
    case FName(name, _) => Encodable(name)
    case FStr(s) => |s| <= 255
    case FTxt(s) => |s| <= 255
    case _ => true
  }

  /** v is f as the decoder returns it: names without their final dot and up to case. */
  predicate SameField(v: Field, f: Field) {
    match f
    case FName(name, _) => v.FName? && CaseEq(v.name, Canon(name))
    case _ => v == f
  }

  function KindFor(f: Field): Kind {
    match f
    case F16(_) => K16
    case F32(_) => K32
    case FName(_, _) => KName
    case FStr(_) => KStr
    case FTxt(s) => KTxt(1 + |s|)
    case FRaw(raw) => KRaw(|raw|)
  }

  /** Reading at p gives f back and stops at q. */
  ghost predicate GivesBack(r: Result<(Field, nat)>, f: Field, q: nat) {
    r.Success? && SameField(r.value.0, f) && r.value.1 == q
  }

  /** Case folding neither makes nor removes a zero byte. */
  lemma {:induction false} NoNul(text: seq<byte>, name: seq<byte>)
    requires CaseEq(text, Canon(name)) && 0 !in name
    ensures CString(text) == text
  {
    var c := Canon(name);
    assert |FoldSeq(text)| == |FoldSeq(c)|;
    forall i | 0 <= i < |text|
      ensures text[i] != 0
    {
      assert Fold(text[i]) == FoldSeq(text)[i] == FoldSeq(c)[i] == Fold(c[i]);
      assert c[i] == name[i];
    }
  }

  lemma {:induction false} NameField(name: cstr, comp: bool, tab: Table, off: nat, b: seq<byte>, end: nat, start: nat)
    requires Encodable(name) && start + off + |EncName(name, tab, off, comp).bytes| <= end <= |b|
    requires HoldsAt(b, start + off, EncName(name, tab, off, comp).bytes)
    requires TableOk(b, start, start + off, tab)
    ensures var e := EncName(name, tab, off, comp); var q := start + off + |e.bytes|;
            && e.ok && TableOk(b, start, q, e.tab)
            && GivesBack(DecField(KName, b, end, start, start + off), FName(name, comp), q)
  {
    hide HoldsAt, EncName, TableOk, Walk, CaseEq, Canon, GoodName, CString, Continues, Span;
    NameRoundTrip(name, tab, off, comp, b, end, start);
    EncNameOk(name, tab, off, comp, b, start, start + off + |EncName(name, tab, off, comp).bytes|);
    var w := Walk(b, end, start, start + off, [], 0, None);
    NoNul(w.text, name);
  }

  lemma {:induction false} StrAt(s: seq<byte>, b: seq<byte>, p: nat)
    requires |s| <= 255 && HoldsAt(b, p, StrBytes(s))
    ensures p + 1 + |s| <= |b| && b[p] == |s| && b[p + 1..p + 1 + |s|] == s
  {
    hide HoldsAt;
    assert StrBytes(s) == [|s|] + s;
    HoldsAtSplit(b, p, [|s|], s);
    HoldsAtIndex(b, p, [|s|], 0);
    StrSlice(b, p + 1, s);
  }

  lemma {:induction false} StrField(s: cstr, b: seq<byte>, end: nat, start: nat, p: nat)
    requires |s| <= 255 && HoldsAt(b, p, StrBytes(s)) && p + 1 + |s| <= end <= |b|
    ensures GivesBack(DecField(KStr, b, end, start, p), FStr(s), p + 1 + |s|)
  {
    hide HoldsAt, StrBytes, DecTxt, DecName;
    StrAt(s, b, p);
  }

  lemma {:induction false} TxtField(s: cstr, b: seq<byte>, end: nat, start: nat, p: nat)
    requires |s| <= 255 && HoldsAt(b, p, StrBytes(s)) && p + 1 + |s| <= end <= |b|
    ensures GivesBack(DecField(KTxt(1 + |s|), b, end, start, p), FTxt(s), p + 1 + |s|)
  {
    hide HoldsAt, StrBytes, DecName;
    StrAt(s, b, p);
    assert [] + s == s;
    assert DecTxt(b, p + 1 + |s|, 0, s) == Success((s, p + 1 + |s|));
  }

  lemma {:induction false} StrSlice(b: seq<byte>, p: nat, s: seq<byte>)
    requires HoldsAt(b, p, s)
    ensures p + |s| <= |b| && b[p..p + |s|] == s
  {}

  lemma {:induction false} FieldRoundTrip(f: Field, tab: Table, off: nat, b: seq<byte>, end: nat, start: nat)
    requires FieldOk(f) && start + off + |EncField(f, tab, off).bytes| <= end <= |b|
    requires HoldsAt(b, start + off, EncField(f, tab, off).bytes)
    requires TableOk(b, start, start + off, tab)
    ensures var e := EncField(f, tab, off); var q := start + off + |e.bytes|;
            && e.ok && TableOk(b, start, q, e.tab)
            && GivesBack(DecField(KindFor(f), b, end, start, start + off), f, q)
  {
    hide HoldsAt, EncName, TableOk, DecName, StrBytes, Encodable, DecTxt, CString, CaseEq;
    var p, q := start + off, start + off + |EncField(f, tab, off).bytes|;
    match f
    case F16(v) =>
      Holds16(b, p, v);
      TableFrame(b, b, start, p, q, tab);
    case F32(w) =>
      Holds32(b, p, w);
      TableFrame(b, b, start, p, q, tab);
    case FName(name, comp) =>
      NameField(name, comp, tab, off, b, end, start);
    case FStr(s) =>
      StrField(s, b, end, start, p);
      TableFrame(b, b, start, p, q, tab);
    case FTxt(s) =>
      TxtField(s, b, end, start, p);
      TableFrame(b, b, start, p, q, tab);
    case FRaw(raw) =>
      StrSlice(b, p, raw);
      TableFrame(b, b, start, p, q, tab);
  }

  // ---------------------------------------------------------------- all fields of a record

  ghost predicate FieldsOk(fs: seq<Field>) {
    forall i :: 0 <= i < |fs| ==> FieldOk(fs[i])
  }

  ghost predicate SameFields(vals: seq<Field>, fs: seq<Field>, n: nat)
    requires n <= |fs|
  {
    |vals| == n && forall i :: 0 <= i < n ==> SameField(vals[i], fs[i])
  }

  ghost predicate KindsFor(ks: seq<Kind>, fs: seq<Field>) {
    |ks| == |fs| && forall i :: 0 <= i < |fs| ==> ks[i] == KindFor(fs[i])
  }

  ghost predicate AllBack(r: Result<(seq<Field>, nat)>, fs: seq<Field>, q: nat) {
    r.Success? && SameFields(r.value.0, fs, |fs|) && r.value.1 == q
  }

  lemma {:induction false} OneMore(vals: seq<Field>, v: Field, fs: seq<Field>, i: nat)
    requires i < |fs| && SameFields(vals, fs, i) && SameField(v, fs[i])
    ensures SameFields(vals + [v], fs, i + 1)
  {
    hide SameField;
  }

  lemma {:induction false} FieldsRoundTrip(fs: seq<Field>, ks: seq<Kind>, i: nat, tab: Table, off: nat,
                                           b: seq<byte>, end: nat, start: nat, vals: seq<Field>)
    requires i <= |fs| && FieldsOk(fs) && KindsFor(ks, fs) && SameFields(vals, fs, i)
    requires start + off + |EncFields(fs, i, tab, off).bytes| <= end <= |b|
    requires HoldsAt(b, start + off, EncFields(fs, i, tab, off).bytes)
    requires TableOk(b, start, start + off, tab)
    ensures var e := EncFields(fs, i, tab, off); var q := start + off + |e.bytes|;
            && e.ok && TableOk(b, start, q, e.tab)
            && AllBack(DecFields(ks, i, b, end, start, start + off, vals), fs, q)
    decreases |fs| - i
  {
    hide HoldsAt, TableOk, EncField, DecField, FieldOk, KindFor, SameFields;
    if i < |fs| {
      var e := EncField(fs[i], tab, off);
      HoldsAtSplit(b, start + off, e.bytes, EncFields(fs, i + 1, e.tab, off + |e.bytes|).bytes);
      FieldRoundTrip(fs[i], tab, off, b, end, start);
      var r := DecField(ks[i], b, end, start, start + off);
      OneMore(vals, r.value.0, fs, i);
      FieldsRoundTrip(fs, ks, i + 1, e.tab, off + |e.bytes|, b, end, start, vals + [r.value.0]);
    }
  }

  // ---------------------------------------------------------------- sizes

  lemma {:induction false} LabelBytesSize(name: seq<byte>, tab: Table, comp: bool)
    ensures |LabelBytes(Parse(name), tab, comp)| <= |name| + 2
    decreases |name|
  {
    hide Find, DotAt;
    var k := LabelLen(name);
    if k < |name| {
      LabelBytesSize(name[k + 1..], tab, comp);
    }
  }

  lemma {:induction false} EncNameSize(name: seq<byte>, tab: Table, off: nat, comp: bool)
    ensures |EncName(name, tab, off, comp).bytes| <= |name| + 2
  {
    hide Find, Parse, LabelTable, LabelsOk;
    LabelBytesSize(name, tab, comp);
  }

  lemma {:induction false} FieldSize(f: Field, tab: Table, off: nat)
    requires FieldOk(f) && (f.FRaw? ==> |f.raw| == 16)
    ensures |EncField(f, tab, off).bytes| <= 258
  {
    hide EncName, GoodName;
    if f.FName? {
      EncNameSize(f.name, tab, off, f.comp);
    }
  }

  lemma {:induction false} FieldsSize(fs: seq<Field>, i: nat, tab: Table, off: nat)
    requires i <= |fs| && FieldsOk(fs) && (forall j :: 0 <= j < |fs| && fs[j].FRaw? ==> |fs[j].raw| == 16)
    ensures |EncFields(fs, i, tab, off).bytes| <= 258 * (|fs| - i)
    decreases |fs| - i
  {
    hide EncField, FieldOk;
    if i < |fs| {
      FieldSize(fs[i], tab, off);
      var e := EncField(fs[i], tab, off);
      FieldsSize(fs, i + 1, e.tab, off + |e.bytes|);
    }
  }

  // ---------------------------------------------------------------- one record

  function Undotted(name: cstr): cstr {
    Canon(name)
  }

  /** The record with the final dots of its names taken off. */
  function Canonical(rr: Rr): Rr {
    rr.(name := Undotted(rr.name), rdata := CanonicalData(rr.rdata))
  }

  function CanonicalData(rd: Rdata): (r: Rdata)
    ensures TypeOf(r) == TypeOf(rd)
  {
    match rd
    case Ns(n) => Ns(Undotted(n))
    case Cname(n) => Cname(Undotted(n))
    case Soa(m, r, s, f, t, e, l) => Soa(Undotted(m), Undotted(r), s, f, t, e, l)
    case Ptr(n) => Ptr(Undotted(n))
    case Mx(p, n) => Mx(p, Undotted(n))
    case Srv(p, w, o, t) => Srv(p, w, o, Undotted(t))
    case Naptr(o, p, f, s, r, t) => Naptr(o, p, f, s, r, Undotted(t))
    case _ => rd
  }

  /** Records that survive: known type, encodable names, strings of at most 255 bytes. */
  ghost predicate RrOk(rr: Rr) {
    !rr.rdata.Unknown? && Encodable(rr.name) && FieldsOk(Fields(rr.rdata))
  }

  lemma {:induction false} BuildSame(rd: Rdata, vals: seq<Field>)
    requires !rd.Unknown? && SameFields(vals, Fields(rd), |Fields(rd)|)
    ensures Fits(TypeOf(rd), vals) && RdataCmp(Build(TypeOf(rd), vals), CanonicalData(rd))
  {
    hide CaseEq;
    var fs := Fields(rd);
    assert forall i :: 0 <= i < |fs| ==> SameField(vals[i], fs[i]);
    BuildSameStrings(rd);
  }

  lemma {:induction false} BuildSameStrings(rd: Rdata)
    ensures rd.Txt? ==> CaseEq(rd.data, rd.data)
    ensures rd.Naptr? ==> CaseEq(rd.flags, rd.flags) && CaseEq(rd.services, rd.services) && CaseEq(rd.regexp, rd.regexp)
  {}

  lemma {:induction false} KindsAgree(rd: Rdata, rdlen: u16, tab: Table, off: nat)
    requires !rd.Unknown? && FieldsOk(Fields(rd)) && rdlen == |EncFields(Fields(rd), 0, tab, off).bytes|
    ensures Known(TypeOf(rd)) && Kinds(TypeOf(rd), rdlen).Success? && KindsFor(Kinds(TypeOf(rd), rdlen).value, Fields(rd))
  {
    hide EncName, FieldOk, EncField;
    var fs := Fields(rd);
    if rd.A? || rd.Aaaa? || rd.Txt? {
      OneField(fs, tab, off);
      OneFieldLen(fs[0], tab, off);
      assert FieldOk(fs[0]);
      OkTxt(fs[0]);
    }
  }

  lemma {:induction false} OkTxt(f: Field)
    requires FieldOk(f)
    ensures f.FTxt? ==> |f.txt| <= 255
  {}

  lemma {:induction false} OneField(fs: seq<Field>, tab: Table, off: nat)
    requires |fs| == 1
    ensures |EncFields(fs, 0, tab, off).bytes| == |EncField(fs[0], tab, off).bytes|
  {
    var e := EncField(fs[0], tab, off);
    assert EncFields(fs, 1, e.tab, off + |e.bytes|).bytes == [];
  }

  lemma {:induction false} OneFieldLen(f: Field, tab: Table, off: nat)
    ensures f.F32? ==> |EncField(f, tab, off).bytes| == 4
    ensures f.FRaw? ==> |EncField(f, tab, off).bytes| == |f.raw|
    ensures f.FTxt? && |f.txt| <= 255 ==> |EncField(f, tab, off).bytes| == 1 + |f.txt|
  {}

  /** What reading a record at p must give: the record, its reduced time to live, and the position behind it. */
  ghost predicate RrBack(r: Result<(Rr, nat)>, rr: Rr, offs: i64, q: nat) {
    && r.Success? && r.value.1 == q
    && RrCmp(r.value.0, Canonical(rr)) && r.value.0.ttl == Ttl(rr.ttl, offs)
  }

  lemma {:induction false} RdataRoundTrip(rd: Rdata, tab: Table, off: nat, b: seq<byte>, end: nat, start: nat)
    requires !rd.Unknown? && FieldsOk(Fields(rd))
    requires var e := EncFields(Fields(rd), 0, tab, off);
             start + off + |e.bytes| <= end <= |b| && HoldsAt(b, start + off, e.bytes)
    requires TableOk(b, start, start + off, tab)
    ensures var e := EncFields(Fields(rd), 0, tab, off); var q := start + off + |e.bytes|;
            && e.ok && TableOk(b, start, q, e.tab) && |e.bytes| <= 0xffff
            && var r := DecRdata(TypeOf(rd), |e.bytes|, b, end, start, start + off);
               r.Success? && r.value.1 == q && RdataCmp(r.value.0, CanonicalData(rd))
  {
    hide HoldsAt, TableOk, EncFields, DecFields, RdataCmp, CanonicalData, Build, Fits, Kinds, FieldsOk, SameFields, KindsFor;
    var fs := Fields(rd);
    var e := EncFields(fs, 0, tab, off);
    FieldsSizeOf(rd, tab, off);
    KindsAgree(rd, |e.bytes|, tab, off);
    var ks := Kinds(TypeOf(rd), |e.bytes|).value;
    SameNothing(fs);
    FieldsRoundTrip(fs, ks, 0, tab, off, b, end, start, []);
    var vals := DecFields(ks, 0, b, end, start, start + off, []).value.0;
    BuildSame(rd, vals);
  }

  lemma {:induction false} SameNothing(fs: seq<Field>)
    ensures SameFields([], fs, 0)
  {}

  lemma {:induction false} FieldsSizeOf(rd: Rdata, tab: Table, off: nat)
    requires FieldsOk(Fields(rd))
    ensures |EncFields(Fields(rd), 0, tab, off).bytes| <= 258 * 7
  {
    hide EncFields, FieldOk;
    FieldsSize(Fields(rd), 0, tab, off);
  }

  /** The four fields in front of the data length. */
  lemma {:induction false} HeadBytes(rr: Rr, offs: i64, tab: Table, off: nat)
    ensures var n := EncName(rr.name, tab, off, true);
            EncFields(Head(rr, offs), 0, tab, off)
              == Encoded(n.bytes + (Be16(TypeOf(rr.rdata)) + (Be16(rr.cls) + Be32(Ttl(rr.ttl, offs)))), n.tab, n.ok)
  {
    hide EncName, Be16, Be32, Ttl;
    var fs := Head(rr, offs);
    var n := EncName(rr.name, tab, off, true);
    var o := off + |n.bytes|;
    assert EncFields(fs, 4, n.tab, o + 8) == Encoded([], n.tab, true);
    var x := Be32(Ttl(rr.ttl, offs));
    assert EncFields(fs, 3, n.tab, o + 4) == Encoded(x, n.tab, true) by { assert x + [] == x; }
    assert EncFields(fs, 2, n.tab, o + 2) == Encoded(Be16(rr.cls) + x, n.tab, true);
    assert EncFields(fs, 1, n.tab, o) == Encoded(Be16(TypeOf(rr.rdata)) + (Be16(rr.cls) + x), n.tab, true);
  }

  /**
   * The error of the encoder: EOVERFLOW exactly for more than 65535 bytes of data, otherwise EINVAL for an
   * unknown type and for a bad owner name or name in the data, and nothing else is refused. The length
   * field holds the number of bytes behind it.
   */
  lemma {:induction false} EncodeErrors(rr: Rr, offs: i64, tab: Table, off: nat)
    ensures var r, n := EncRr(rr, offs, tab, off), EncName(rr.name, tab, off, true);
            var d := EncFields(Fields(rr.rdata), 0, n.tab, off + |n.bytes| + 10);
            && |r.bytes| == |n.bytes| + 10 + |d.bytes|
            && (r.err == EOVERFLOW <==> |d.bytes| > 65535)
            && (r.err == EINVAL <==> |d.bytes| <= 65535 && (rr.rdata.Unknown? || !n.ok || !d.ok))
            && (r.err == OK <==> |d.bytes| <= 65535 && !rr.rdata.Unknown? && n.ok && d.ok)
            && (|d.bytes| <= 65535 ==> HoldsAt(r.bytes, |n.bytes| + 8, Be16(|d.bytes|)) && HoldsAt(r.bytes, |n.bytes| + 10, d.bytes))
  {
    hide EncName, EncFields, Fields, Be32, Ttl;
    HeadBytes(rr, offs, tab, off);
  }

  /** Names are compressed in NS, CNAME, SOA, PTR and MX data, and in no other. */
  lemma {:induction false} CompressedIff(rd: Rdata, i: nat)
    requires i < |Fields(rd)| && Fields(rd)[i].FName?
    ensures Fields(rd)[i].comp <==> TypeOf(rd) == 2 || TypeOf(rd) == 5 || TypeOf(rd) == 6 || TypeOf(rd) == 12 || TypeOf(rd) == 15
  {}

  /** A record read back where its name, fixed fields and data stand. */
  lemma {:induction false} RrParts(rr: Rr, offs: i64, tab: Table, off: nat, b: seq<byte>, end: nat, start: nat)
    requires RrOk(rr)
    requires var e := EncRr(rr, offs, tab, off);
             start + off + |e.bytes| <= end <= |b| && HoldsAt(b, start + off, e.bytes)
    ensures var n := EncName(rr.name, tab, off, true);
            var p := start + off + |n.bytes|;
            var d := EncFields(Fields(rr.rdata), 0, n.tab, off + |n.bytes| + 10);
            && |d.bytes| <= 0xffff && p + 10 + |d.bytes| == start + off + |EncRr(rr, offs, tab, off).bytes|
            && HoldsAt(b, start + off, n.bytes) && HoldsAt(b, p + 10, d.bytes)
            && Get16(b, p) == TypeOf(rr.rdata) && Get16(b, p + 2) == rr.cls
            && Get32(b, p + 4) == Ttl(rr.ttl, offs) && Get16(b, p + 8) == |d.bytes|
            && EncRr(rr, offs, tab, off).tab == d.tab
            && (EncRr(rr, offs, tab, off).err == OK <==> n.ok && d.ok)
  {
    hide HoldsAt, EncName, EncFields, FieldsOk, Encodable, Ttl, Be16, Be32;
    HeadBytes(rr, offs, tab, off);
    var n := EncName(rr.name, tab, off, true);
    var x, y, z := Be16(TypeOf(rr.rdata)), Be16(rr.cls), Be32(Ttl(rr.ttl, offs));
    var h := n.bytes + (x + (y + z));
    var d := EncFields(Fields(rr.rdata), 0, n.tab, off + |n.bytes| + 10);
    FieldsSizeOf(rr.rdata, n.tab, off + |n.bytes| + 10);
    var l := Be16(|d.bytes|);
    var p := start + off;
    HoldsAtSplit(b, p, h + l, d.bytes);
    HoldsAtSplit(b, p, h, l);
    HoldsAtSplit(b, p, n.bytes, x + (y + z));
    p := p + |n.bytes|;
    HoldsAtSplit(b, p, x, y + z);
    HoldsAtSplit(b, p + 2, y, z);
    Holds16(b, p, TypeOf(rr.rdata));
    Holds16(b, p + 2, rr.cls);
    Holds32(b, p + 4, Ttl(rr.ttl, offs));
    Holds16(b, p + 8, |d.bytes|);
  }

  lemma {:induction false} RrRoundTrip(rr: Rr, offs: i64, tab: Table, off: nat, b: seq<byte>, end: nat, start: nat)
    requires RrOk(rr)
    requires var e := EncRr(rr, offs, tab, off);
             start + off + |e.bytes| <= end <= |b| && HoldsAt(b, start + off, e.bytes)
    requires TableOk(b, start, start + off, tab)
    ensures var e := EncRr(rr, offs, tab, off); var q := start + off + |e.bytes|;
            e.err == OK && TableOk(b, start, q, e.tab) && RrBack(DecRr(b, end, start, start + off), rr, offs, q)
  {
    hide HoldsAt, TableOk, EncName, EncFields, DecRdata, RdataCmp, CanonicalData, Ttl, FieldsOk, Encodable, CaseEq,
         EncRr, DecName, Walk, Get16, Get32, Fields;
    RrParts(rr, offs, tab, off, b, end, start);
    var n := EncName(rr.name, tab, off, true);
    var p := start + off + |n.bytes|;
    NameField(rr.name, true, tab, off, b, end, start);
    TableFrame(b, b, start, p, p + 10, n.tab);
    RdataRoundTrip(rr.rdata, n.tab, off + |n.bytes| + 10, b, end, start);
  }

  // ---------------------------------------------------------------- a whole section of records

  /** Records from the i-th on, one behind the other, sharing the table. */
  function EncRrs(rrs: seq<Rr>, i: nat, offs: i64, tab: Table, off: nat): RrEncoded
    requires i <= |rrs|
    decreases |rrs| - i
  {
    if i == |rrs| then RrEncoded([], tab, OK)
    else
      var e := EncRr(rrs[i], offs, tab, off);
      var r := EncRrs(rrs, i + 1, offs, e.tab, off + |e.bytes|);
      RrEncoded(e.bytes + r.bytes, r.tab, if e.err == OK then r.err else e.err)
  }

  /** Reading record after record from p gives rrs from the i-th on and ends at q. */
  ghost predicate RrsBack(rrs: seq<Rr>, i: nat, offs: i64, b: seq<byte>, end: nat, start: nat, p: nat, q: nat)
    requires i <= |rrs| && end <= |b|
    decreases |rrs| - i
  {
    if i == |rrs| then p == q
    else
      var r := DecRr(b, end, start, p);
      r.Success? && RrBack(r, rrs[i], offs, r.value.1) && RrsBack(rrs, i + 1, offs, b, end, start, r.value.1, q)
  }

  ghost predicate RrsOk(rrs: seq<Rr>) {
    forall i :: 0 <= i < |rrs| ==> RrOk(rrs[i])
  }

  /** The round trip of a whole section, from any table that is right for the bytes in front of it. */
  lemma {:induction false} RecordsRoundTrip(rrs: seq<Rr>, i: nat, offs: i64, tab: Table, off: nat, b: seq<byte>, end: nat, start: nat)
    requires i <= |rrs| && RrsOk(rrs)
    requires var e := EncRrs(rrs, i, offs, tab, off);
             start + off + |e.bytes| <= end <= |b| && HoldsAt(b, start + off, e.bytes)
    requires TableOk(b, start, start + off, tab)
    ensures var e := EncRrs(rrs, i, offs, tab, off); var q := start + off + |e.bytes|;
            e.err == OK && TableOk(b, start, q, e.tab) && RrsBack(rrs, i, offs, b, end, start, start + off, q)
    decreases |rrs| - i
  {
    hide HoldsAt, TableOk, EncRr, DecRr, RrOk;
    if i < |rrs| {
      var e := EncRr(rrs[i], offs, tab, off);
      HoldsAtSplit(b, start + off, e.bytes, EncRrs(rrs, i + 1, offs, e.tab, off + |e.bytes|).bytes);
      RrRoundTrip(rrs[i], offs, tab, off, b, end, start);
      RecordsRoundTrip(rrs, i + 1, offs, e.tab, off + |e.bytes|, b, end, start);
    }
  }

  /** Names without a final dot come back as they were, and so compare equal to the originals. */
  lemma {:induction false} UndottedSame(rr: Rr, r: Result<(Rr, nat)>, offs: i64, q: nat)
    requires RrBack(r, rr, offs, q) && Canonical(rr) == rr
    ensures RrCmp(r.value.0, rr)
  {}

  /** The same, said of a buffer into which the section was stored at p with a table right so far. */
  lemma {:induction false} StoredSection(rrs: seq<Rr>, offs: i64, tab: Table, was: seq<byte>, now: seq<byte>, start: nat, p: nat, end: nat)
    requires RrsOk(rrs) && start <= p <= |was| && TableOk(was, start, p, tab)
    requires var e := EncRrs(rrs, 0, offs, tab, p - start);
             Patched(was, now, p, e.bytes) && p + |e.bytes| <= end <= |now|
    ensures var e := EncRrs(rrs, 0, offs, tab, p - start); var q := p + |e.bytes|;
            e.err == OK && TableOk(now, start, q, e.tab) && RrsBack(rrs, 0, offs, now, end, start, p, q)
  {
    hide TableOk, EncRrs, RrsBack, RrsOk;
    assert was[..p] == now[..p];
    TableFrame(was, now, start, p, p, tab);
    RecordsRoundTrip(rrs, 0, offs, tab, p - start, now, end, start);
  }

  /** A message from scratch: any header, then the records with a table that starts out empty. */
  lemma {:induction false} MessageRoundTrip(rrs: seq<Rr>, offs: i64, head: seq<byte>)
    requires RrsOk(rrs)
    ensures var e := EncRrs(rrs, 0, offs, Empty, |head|); var b := head + e.bytes;
            e.err == OK && TableOk(b, 0, |b|, e.tab) && RrsBack(rrs, 0, offs, b, |b|, 0, |head|, |b|)
  {
    hide EncRrs, RrsBack, RrsOk;
    var e := EncRrs(rrs, 0, offs, Empty, |head|);
    var b := head + e.bytes;
    assert HoldsAt(b, |head|, e.bytes);
    RecordsRoundTrip(rrs, 0, offs, Empty, |head|, b, |b|, 0);
  }
}
