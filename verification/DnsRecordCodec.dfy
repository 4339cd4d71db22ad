/** Record encoder and decoder as they run on a memory buffer, against their specification. */
module DnsRecordCodec {
  import opened Bytes
  import opened MemoryBuffer
  import opened DnsName
  import opened DnsCompression
  import opened DnsNameCodec
  import opened DnsRecord

  // ---------------------------------------------------------------- encoder

  /** A run of fields being written at position at of a buffer that was was, with what it has to become. */
  datatype Job = Job(fs: seq<Field>, goal: Encoded, was: seq<byte>, at: nat)

  /** With n bytes out, the fields from i on give the rest of the goal. */
  ghost predicate Owed(j: Job, i: nat, tab: Table, off: nat, n: nat, ok: bool) {
    && i <= |j.fs| && n <= |j.goal.bytes|
    && var r := EncFields(j.fs, i, tab, off);
       j.goal.bytes[n..] == r.bytes && j.goal.tab == r.tab && (j.goal.ok <==> ok && r.ok)
  }

  lemma {:induction false} OwedStep(j: Job, i: nat, tab: Table, off: nat, n: nat, ok: bool)
    requires Owed(j, i, tab, off, n, ok) && i < |j.fs|
    ensures var e := EncField(j.fs[i], tab, off); var m := n + |e.bytes|;
            && m <= |j.goal.bytes| && j.goal.bytes[n..m] == e.bytes
            && Owed(j, i + 1, e.tab, off + |e.bytes|, m, ok && e.ok)
  {
    hide EncField;
    var e := EncField(j.fs[i], tab, off);
    var r := EncFields(j.fs, i + 1, e.tab, off + |e.bytes|);
    var m := n + |e.bytes|;
    assert j.goal.bytes[n..] == e.bytes + r.bytes;
    assert j.goal.bytes[n..m] == j.goal.bytes[n..][..|e.bytes|];
    assert j.goal.bytes[m..] == j.goal.bytes[n..][|e.bytes|..];
  }

  /** The first i fields are written; ok tells whether all of them could be. */
  ghost predicate Wrote(mb: Mbuf, ht: NameTable?, start: nat, j: Job, i: nat, ok: bool)
    reads mb, ht
  {
    && mb.Valid() && start <= j.at <= mb.pos && mb.pos - j.at <= |j.goal.bytes|
    && Patched(j.was, mb.buf, j.at, j.goal.bytes[..mb.pos - j.at])
    && Owed(j, i, View(ht), mb.pos - start, mb.pos - j.at, ok)
  }

  lemma {:induction false} PatchedMore(was: seq<byte>, mid: seq<byte>, now: seq<byte>, at: nat, g: seq<byte>, n: nat, m: nat)
    requires n <= m <= |g| && Patched(was, mid, at, g[..n]) && Patched(mid, now, at + n, g[n..m])
    ensures Patched(was, now, at, g[..m])
  {
    hide Patched;
    PatchedAppend(was, mid, now, at, g[..n], g[n..m]);
    assert g[..n] + g[n..m] == g[..m];
  }

  method PutBytes(mb: Mbuf, ht: NameTable?, start: nat, data: seq<byte>, ghost j: Job, ghost i: nat, ghost ok: bool)
    requires Wrote(mb, ht, start, j, i, ok) && i < |j.fs|
    requires !j.fs[i].FName? && data == FlatBytes(j.fs[i])
    modifies mb
    ensures Wrote(mb, ht, start, j, i + 1, ok)
    ensures old(mb.pos) <= mb.pos && mb.end == if old(mb.end) < mb.pos then mb.pos else old(mb.end)
  {
    hide Patched, Owed, FlatBytes;
    ghost var n := mb.pos - j.at;
    OwedStep(j, i, View(ht), mb.pos - start, n, ok);
    ghost var mid := mb.buf;
    mb.WriteMem(data);
    PatchedMore(j.was, mid, mb.buf, j.at, j.goal.bytes, n, n + |data|);
  }

  method PutName(mb: Mbuf, ht: NameTable?, start: nat, name: cstr, comp: bool, err: Errno, ghost j: Job, ghost i: nat)
    returns (err': Errno)
    requires Wrote(mb, ht, start, j, i, err == OK) && i < |j.fs| && j.fs[i] == FName(name, comp)
    requires err == OK || err == EINVAL
    modifies mb, ht
    ensures Wrote(mb, ht, start, j, i + 1, err' == OK) && (err' == OK || err' == EINVAL)
    ensures old(mb.pos) <= mb.pos && mb.end == if old(mb.end) < mb.pos then mb.pos else old(mb.end)
  {
    hide Patched, Owed, EncName;
    ghost var n := mb.pos - j.at;
    OwedStep(j, i, View(ht), mb.pos - start, n, err == OK);
    ghost var mid, e := mb.buf, EncName(name, View(ht), mb.pos - start, comp);
    assert j.at + n == mb.pos && EncField(j.fs[i], View(ht), mb.pos - start) == e;
    var one := EncodeName(mb, name, ht, start, comp);
    PatchedMore(j.was, mid, mb.buf, j.at, j.goal.bytes, n, n + |e.bytes|);
    err' := if err == OK then one else err;
  }

  /** dns_cstr_encode: the length is cut to eight bits, and with it the string. */
  method EncodeCstr(mb: Mbuf, s: cstr)
    requires mb.Valid()
    modifies mb
    ensures mb.Valid() && Patched(old(mb.buf), mb.buf, old(mb.pos), StrBytes(s)) && mb.pos == old(mb.pos) + |StrBytes(s)|
    ensures mb.end == if old(mb.end) < mb.pos then mb.pos else old(mb.end)
  {
    hide Patched;
    var len := |s| % 0x100;
    mb.WriteU8(len);
    ghost var mid := mb.buf;
    mb.WriteMem(s[..len]);
    PatchedAppend(old(mb.buf), mid, mb.buf, old(mb.pos), [len], s[..len]);
  }

  method PutStr(mb: Mbuf, ht: NameTable?, start: nat, s: cstr, ghost j: Job, ghost i: nat, ghost ok: bool)
    requires Wrote(mb, ht, start, j, i, ok) && i < |j.fs| && j.fs[i] == FStr(s)
    modifies mb
    ensures Wrote(mb, ht, start, j, i + 1, ok)
    ensures old(mb.pos) <= mb.pos && mb.end == if old(mb.end) < mb.pos then mb.pos else old(mb.end)
  {
    hide Patched, Owed, StrBytes;
    ghost var n := mb.pos - j.at;
    OwedStep(j, i, View(ht), mb.pos - start, n, ok);
    ghost var mid := mb.buf;
    EncodeCstr(mb, s);
    PatchedMore(j.was, mid, mb.buf, j.at, j.goal.bytes, n, n + |StrBytes(s)|);
  }

  /** What one pass of the TXT loop leaves of dlen characters: the low eight bits are written. */
  function TxtLeft(dlen: nat, passes: nat): nat {
    if passes == 0 then dlen else TxtLeft(dlen - dlen % 0x100, passes - 1)
  }

  /** The TXT loop ends after one pass for up to 255 characters and never for more. */
  lemma {:induction false} TxtEnds(dlen: nat, passes: nat)
    requires passes > 0
    ensures TxtLeft(dlen, passes) == 0 <==> dlen <= 255
  {
    var left := dlen - dlen % 0x100;
    if passes > 1 {
      TxtEnds(left, passes - 1);
    }
  }

  /** The TXT arm. TxtEnds tells why longer data is excluded. */
  method PutTxt(mb: Mbuf, ht: NameTable?, start: nat, data: cstr, ghost j: Job, ghost i: nat, ghost ok: bool)
    requires Wrote(mb, ht, start, j, i, ok) && i < |j.fs| && j.fs[i] == FTxt(data) && |data| <= 255
    modifies mb
    ensures Wrote(mb, ht, start, j, i + 1, ok)
    ensures old(mb.pos) <= mb.pos && mb.end == if old(mb.end) < mb.pos then mb.pos else old(mb.end)
  {
    hide Patched, Owed;
    ghost var n := mb.pos - j.at;
    OwedStep(j, i, View(ht), mb.pos - start, n, ok);
    var ptr, dlen, more := 0, |data|, true;
    while more
      invariant mb.Valid()
      invariant more ==> ptr == 0 && dlen == |data| && unchanged(mb)
      invariant !more ==> Patched(old(mb.buf), mb.buf, old(mb.pos), StrBytes(data)) && mb.pos == old(mb.pos) + |StrBytes(data)|
      invariant !more ==> mb.end == if old(mb.end) < mb.pos then mb.pos else old(mb.end)
      decreases more
    {
      var slen := dlen % 0x100;
      mb.WriteU8(slen);
      ghost var mid := mb.buf;
      mb.WriteMem(data[ptr..ptr + slen]);
      PatchedAppend(old(mb.buf), mid, mb.buf, old(mb.pos), [slen], data[ptr..ptr + slen]);
      ptr, dlen := ptr + slen, dlen - slen;
      more := dlen > 0;
    }
    PatchedMore(j.was, old(mb.buf), mb.buf, j.at, j.goal.bytes, n, n + |StrBytes(data)|);
  }

  method EncodeSoa(mb: Mbuf, ht: NameTable?, start: nat, rd: Rdata, err: Errno, ghost j: Job) returns (err': Errno)
    requires Wrote(mb, ht, start, j, 0, err == OK) && j.fs == Fields(rd) && rd.Soa?
    requires mb.pos <= mb.end && (err == OK || err == EINVAL)
    modifies mb, ht
    ensures Wrote(mb, ht, start, j, |j.fs|, err' == OK) && (err' == OK || err' == EINVAL)
    ensures old(mb.pos) <= mb.pos && mb.end == if old(mb.end) < mb.pos then mb.pos else old(mb.end)
  {
    hide Wrote, Be16, Be32, Owed;
    err' := PutName(mb, ht, start, rd.mname, true, err, j, 0);
    err' := PutName(mb, ht, start, rd.rname, true, err', j, 1);
    PutBytes(mb, ht, start, Be32(rd.serial), j, 2, err' == OK);
    PutBytes(mb, ht, start, Be32(rd.refresh), j, 3, err' == OK);
    PutBytes(mb, ht, start, Be32(rd.retry), j, 4, err' == OK);
    PutBytes(mb, ht, start, Be32(rd.expire), j, 5, err' == OK);
    PutBytes(mb, ht, start, Be32(rd.ttlmin), j, 6, err' == OK);
  }

  method EncodeSrv(mb: Mbuf, ht: NameTable?, start: nat, rd: Rdata, err: Errno, ghost j: Job) returns (err': Errno)
    requires Wrote(mb, ht, start, j, 0, err == OK) && j.fs == Fields(rd) && rd.Srv?
    requires mb.pos <= mb.end && (err == OK || err == EINVAL)
    modifies mb, ht
    ensures Wrote(mb, ht, start, j, |j.fs|, err' == OK) && (err' == OK || err' == EINVAL)
    ensures old(mb.pos) <= mb.pos && mb.end == if old(mb.end) < mb.pos then mb.pos else old(mb.end)
  {
    hide Wrote, Be16, Be32, Owed;
    PutBytes(mb, ht, start, Be16(rd.pri), j, 0, err == OK);
    PutBytes(mb, ht, start, Be16(rd.weight), j, 1, err == OK);
    PutBytes(mb, ht, start, Be16(rd.port), j, 2, err == OK);
    err' := PutName(mb, ht, start, rd.target, false, err, j, 3);
  }

  method EncodeNaptr(mb: Mbuf, ht: NameTable?, start: nat, rd: Rdata, err: Errno, ghost j: Job) returns (err': Errno)
    requires Wrote(mb, ht, start, j, 0, err == OK) && j.fs == Fields(rd) && rd.Naptr?
    requires mb.pos <= mb.end && (err == OK || err == EINVAL)
    modifies mb, ht
    ensures Wrote(mb, ht, start, j, |j.fs|, err' == OK) && (err' == OK || err' == EINVAL)
    ensures old(mb.pos) <= mb.pos && mb.end == if old(mb.end) < mb.pos then mb.pos else old(mb.end)
  {
    hide Wrote, Be16, Be32, Owed;
    PutBytes(mb, ht, start, Be16(rd.order), j, 0, err == OK);
    PutBytes(mb, ht, start, Be16(rd.npref), j, 1, err == OK);
    PutStr(mb, ht, start, rd.flags, j, 2, err == OK);
    PutStr(mb, ht, start, rd.services, j, 3, err == OK);
    PutStr(mb, ht, start, rd.regexp, j, 4, err == OK);
    err' := PutName(mb, ht, start, rd.replace, false, err, j, 5);
  }

  /** The switch over the record type. */
  method EncodeRdata(mb: Mbuf, ht: NameTable?, start: nat, rd: Rdata, err: Errno, ghost j: Job) returns (err': Errno)
    requires Wrote(mb, ht, start, j, 0, err == OK) && j.fs == Fields(rd) && (rd.Txt? ==> |rd.data| <= 255)
    requires mb.pos <= mb.end && (err == OK || err == EINVAL)
    modifies mb, ht
    ensures err' == OK || err' == EINVAL
    ensures Wrote(mb, ht, start, j, |j.fs|, if rd.Unknown? then err == OK else err' == OK) && (rd.Unknown? ==> err' == EINVAL)
    ensures old(mb.pos) <= mb.pos && mb.end == if old(mb.end) < mb.pos then mb.pos else old(mb.end)
  {
    hide Wrote, Be16, Be32, Owed;
    err' := err;
    match rd {
      case A(addr) =>
        PutBytes(mb, ht, start, Be32(addr), j, 0, err == OK);
      case Ns(name) =>
        err' := PutName(mb, ht, start, name, true, err, j, 0);
      case Cname(name) =>
        err' := PutName(mb, ht, start, name, true, err, j, 0);
      case Soa(_, _, _, _, _, _, _) =>
        err' := EncodeSoa(mb, ht, start, rd, err, j);
      case Ptr(name) =>
        err' := PutName(mb, ht, start, name, true, err, j, 0);
      case Mx(pref, exchange) =>
        PutBytes(mb, ht, start, Be16(pref), j, 0, err == OK);
        err' := PutName(mb, ht, start, exchange, true, err, j, 1);
      case Txt(data) =>
        PutTxt(mb, ht, start, data, j, 0, err == OK);
      case Aaaa(addr) =>
        PutBytes(mb, ht, start, addr, j, 0, err == OK);
      case Srv(_, _, _, _) =>
        err' := EncodeSrv(mb, ht, start, rd, err, j);
      case Naptr(_, _, _, _, _, _) =>
        err' := EncodeNaptr(mb, ht, start, rd, err, j);
      case Unknown(_) =>
        err' := EINVAL;
    }
  }

  lemma {:induction false} WroteNothing(mb: Mbuf, ht: NameTable?, start: nat, fs: seq<Field>, ok: bool)
    requires mb.Valid() && start <= mb.pos && mb.pos <= |mb.buf|
    ensures var e := EncFields(fs, 0, View(ht), mb.pos - start);
            Wrote(mb, ht, start, Job(fs, e.(ok := ok && e.ok), mb.buf, mb.pos), 0, ok)
  {
    var e := EncFields(fs, 0, View(ht), mb.pos - start);
    assert e.bytes[..0] == [] && e.bytes[0..] == e.bytes;
    assert mb.buf[mb.pos..mb.pos] == [];
  }

  lemma {:induction false} WroteAll(mb: Mbuf, ht: NameTable?, start: nat, j: Job, ok: bool)
    requires Wrote(mb, ht, start, j, |j.fs|, ok)
    ensures mb.Valid() && Patched(j.was, mb.buf, j.at, j.goal.bytes) && mb.pos == j.at + |j.goal.bytes|
    ensures View(ht) == j.goal.tab && (j.goal.ok <==> ok)
  {
    assert j.goal.bytes[..|j.goal.bytes|] == j.goal.bytes;
  }

  lemma {:induction false} WroteFirst(mb: Mbuf, ht: NameTable?, start: nat, fs: seq<Field>, tab: Table, was: seq<byte>, at: nat, ok: bool)
    requires start <= at && |fs| > 0
    requires var e := EncField(fs[0], tab, at - start);
             && mb.Valid() && Patched(was, mb.buf, at, e.bytes) && mb.pos == at + |e.bytes|
             && View(ht) == e.tab && (e.ok <==> ok)
    ensures Wrote(mb, ht, start, Job(fs, EncFields(fs, 0, tab, at - start), was, at), 1, ok)
  {
    hide EncField, Patched;
    var e := EncField(fs[0], tab, at - start);
    var goal := EncFields(fs, 0, tab, at - start);
    assert goal.bytes[..|e.bytes|] == e.bytes;
    assert goal.bytes[|e.bytes|..] == EncFields(fs, 1, e.tab, at - start + |e.bytes|).bytes;
  }

  /** The owner name, type, class and time to live. */
  method EncodeHead(mb: Mbuf, ht: NameTable?, start: nat, rr: Rr, offs: i64) returns (err: Errno)
    requires mb.Valid() && start <= mb.pos
    modifies mb, ht
    ensures var e := EncFields(Head(rr, offs), 0, old(View(ht)), old(mb.pos) - start);
            && mb.Valid() && Patched(old(mb.buf), mb.buf, old(mb.pos), e.bytes) && mb.pos == old(mb.pos) + |e.bytes|
            && View(ht) == e.tab && (e.ok <==> err == OK) && (err == OK || err == EINVAL)
    ensures old(mb.pos) <= mb.pos && mb.end == if old(mb.end) < mb.pos then mb.pos else old(mb.end)
  {
    hide Wrote, Patched, EncFields, EncName, Ttl, TypeOf, Be16, Be32, Owed;
    ghost var fs := Head(rr, offs);
    ghost var j := Job(fs, EncFields(fs, 0, View(ht), mb.pos - start), mb.buf, mb.pos);
    var ttl := Ttl(rr.ttl, offs);
    err := EncodeName(mb, rr.name, ht, start, true);
    WroteFirst(mb, ht, start, fs, old(View(ht)), old(mb.buf), old(mb.pos), err == OK);
    PutBytes(mb, ht, start, Be16(TypeOf(rr.rdata)), j, 1, err == OK);
    PutBytes(mb, ht, start, Be16(rr.cls), j, 2, err == OK);
    PutBytes(mb, ht, start, Be32(ttl), j, 3, err == OK);
    WroteAll(mb, ht, start, j, err == OK);
  }

  /** The length field and the data, with the length patched in once it is known. */
  method EncodeTail(mb: Mbuf, ht: NameTable?, start: nat, rr: Rr, err: Errno) returns (err': Errno)
    requires mb.Valid() && start <= mb.pos && (err == OK || err == EINVAL) && (rr.rdata.Txt? ==> |rr.rdata.data| <= 255)
    modifies mb, ht
    ensures var d := EncFields(Fields(rr.rdata), 0, old(View(ht)), old(mb.pos) + 2 - start);
            var len := if |d.bytes| > 0xffff then rr.rdlen else |d.bytes|;
            && mb.Valid() && Patched(old(mb.buf), mb.buf, old(mb.pos), Be16(len) + d.bytes)
            && mb.pos == old(mb.pos) + 2 + |d.bytes| && View(ht) == d.tab
            && err' == if |d.bytes| > 0xffff then EOVERFLOW
                       else if rr.rdata.Unknown? || err != OK || !d.ok then EINVAL else OK
    ensures mb.end == if old(mb.end) < mb.pos then mb.pos else old(mb.end)
  {
    hide Wrote, Patched, EncFields, Be16, Owed, Fields;
    mb.WriteU16(rr.rdlen);
    var startRdata := mb.pos;
    ghost var fs := Fields(rr.rdata);
    ghost var mid, d := mb.buf, EncFields(fs, 0, View(ht), mb.pos - start);
    ghost var j := Job(fs, d.(ok := err == OK && d.ok), mb.buf, mb.pos);
    WroteNothing(mb, ht, start, fs, err == OK);
    err' := EncodeRdata(mb, ht, start, rr.rdata, err, j);
    WroteAll(mb, ht, start, j, if rr.rdata.Unknown? then err == OK else err' == OK);
    PatchedAppend(old(mb.buf), mid, mb.buf, old(mb.pos), Be16(rr.rdlen), d.bytes);
    var len := mb.pos - startRdata;
    if len > 0xffff {
      return EOVERFLOW;
    }
    mid := mb.buf;
    mb.pos := startRdata - 2;
    mb.WriteU16(len);
    Repatched(old(mb.buf), mid, mb.buf, old(mb.pos), rr.rdlen, len, d.bytes);
    mb.pos := mb.pos + len;
  }

  lemma {:induction false} Repatched(was: seq<byte>, mid: seq<byte>, now: seq<byte>, at: nat, x: u16, y: u16, d: seq<byte>)
    requires Patched(was, mid, at, Be16(x) + d) && Patched(mid, now, at, Be16(y))
    ensures Patched(was, now, at, Be16(y) + d)
  {
    hide Patched, Be16;
    var e := Be16(x) + d;
    PatchedInside(was, mid, now, at, e, at, Be16(y));
    assert e[..0] + Be16(y) + e[2..] == Be16(y) + d;
  }

  /** dns_rr_encode */
  method EncodeRr(mb: Mbuf, rr: Rr, offs: i64, ht: NameTable?, start: nat) returns (err: Errno)
    requires mb.Valid() && start <= mb.pos && (rr.rdata.Txt? ==> |rr.rdata.data| <= 255)
    modifies mb, ht
    ensures var e := EncRr(rr, offs, old(View(ht)), old(mb.pos) - start);
            && mb.Valid() && Patched(old(mb.buf), mb.buf, old(mb.pos), e.bytes) && mb.pos == old(mb.pos) + |e.bytes|
            && View(ht) == e.tab && err == e.err
    ensures mb.end == if old(mb.end) < mb.pos then mb.pos else old(mb.end)
  {
    hide Patched, EncFields, Be16, Head, Fields;
    ghost var h := EncFields(Head(rr, offs), 0, View(ht), mb.pos - start);
    err := EncodeHead(mb, ht, start, rr, offs);
    ghost var mid, p := mb.buf, mb.pos;
    ghost var d := EncFields(Fields(rr.rdata), 0, View(ht), mb.pos + 2 - start);
    err := EncodeTail(mb, ht, start, rr, err);
    ghost var len := if |d.bytes| > 0xffff then rr.rdlen else |d.bytes|;
    PatchedAppend(old(mb.buf), mid, mb.buf, old(mb.pos), h.bytes, Be16(len) + d.bytes);
    assert h.bytes + (Be16(len) + d.bytes) == h.bytes + Be16(len) + d.bytes;
  }

  // ---------------------------------------------------------------- decoder

  /** The method result r with the position where it stopped is the specified one. */
  ghost predicate Agrees<T(!new)>(r: Result<T>, pos: nat, s: Result<(T, nat)>) {
    if s.Success? then r == Success(s.value.0) && pos == s.value.1 else r == Failure(s.err)
  }

  /** A decoding job: the kinds to read, the bytes, and what reading all of them gives. */
  datatype Task = Task(ks: seq<Kind>, b: seq<byte>, end: nat, start: nat, all: Result<(seq<Field>, nat)>)

  /** The first i fields gave vals; what is left from p on decides the rest. */
  ghost predicate Got(t: Task, i: nat, p: nat, vals: seq<Field>) {
    && i <= |t.ks| && p <= t.end <= |t.b|
    && t.all == DecFields(t.ks, i, t.b, t.end, t.start, p, vals)
  }

  lemma {:induction false} GotNext(t: Task, i: nat, p: nat, vals: seq<Field>)
    requires Got(t, i, p, vals) && i < |t.ks|
    ensures var r := DecField(t.ks[i], t.b, t.end, t.start, p);
            if r.Success? then Got(t, i + 1, r.value.1, vals + [r.value.0]) else t.all == Failure(r.err)
  {
    hide DecField;
  }

  lemma {:induction false} GotAll(t: Task, p: nat, vals: seq<Field>)
    requires Got(t, |t.ks|, p, vals)
    ensures t.all == Success((vals, p))
  {}

  /** Too few bytes for the next n fields of w bytes each. */
  lemma {:induction false} TooShort(t: Task, i: nat, p: nat, vals: seq<Field>, n: nat, w: nat)
    requires Got(t, i, p, vals) && i + n <= |t.ks| && (w == 2 || w == 4) && t.end < p + n * w
    requires forall k :: i <= k < i + n ==> t.ks[k] == if w == 2 then K16 else K32
    ensures t.all == Failure(EINVAL)
    decreases n
  {
    GotNext(t, i, p, vals);
    var r := DecField(t.ks[i], t.b, t.end, t.start, p);
    if r.Success? {
      TooShort(t, i + 1, r.value.1, vals + [r.value.0], n - 1, w);
    }
  }

  method Read16(mb: Mbuf, ghost t: Task, ghost i: nat, ghost vals: seq<Field>) returns (v: u16)
    requires mb.Valid() && t.b == mb.buf && t.end == mb.end && Got(t, i, mb.pos, vals)
    requires i < |t.ks| && t.ks[i] == K16 && mb.pos + 2 <= mb.end
    modifies mb`pos
    ensures mb.pos == old(mb.pos) + 2 && Got(t, i + 1, mb.pos, vals + [F16(v)])
  {
    hide Got;
    GotNext(t, i, mb.pos, vals);
    v := mb.ReadU16();
  }

  method Read32(mb: Mbuf, ghost t: Task, ghost i: nat, ghost vals: seq<Field>) returns (v: u32)
    requires mb.Valid() && t.b == mb.buf && t.end == mb.end && Got(t, i, mb.pos, vals)
    requires i < |t.ks| && t.ks[i] == K32 && mb.pos + 4 <= mb.end
    modifies mb`pos
    ensures mb.pos == old(mb.pos) + 4 && Got(t, i + 1, mb.pos, vals + [F32(v)])
  {
    hide Got;
    GotNext(t, i, mb.pos, vals);
    v := mb.ReadU32();
  }

  method ReadName(mb: Mbuf, ghost t: Task, start: nat, ghost i: nat, ghost vals: seq<Field>) returns (r: Result<cstr>)
    requires mb.Valid() && t.b == mb.buf && t.end == mb.end && t.start == start && Got(t, i, mb.pos, vals)
    requires i < |t.ks| && t.ks[i] == KName
    modifies mb`pos
    ensures r.Success? ==> Got(t, i + 1, mb.pos, vals + [FName(r.value, false)])
    ensures r.Failure? ==> t.all == Failure(r.err)
  {
    hide Got, Walk, CString;
    GotNext(t, i, mb.pos, vals);
    r := DecodeName(mb, start);
  }

  /** dns_cstr_decode */
  method DecodeCstr(mb: Mbuf) returns (r: Result<cstr>)
    requires mb.Valid()
    modifies mb`pos
    ensures var s := DecField(KStr, mb.buf, mb.end, 0, old(mb.pos));
            if s.Success? then r == Success(s.value.0.str) && mb.pos == s.value.1 && s.value.0.FStr? else r == Failure(s.err)
  {
    hide CString;
    if mb.Left() < 1 {
      return Failure(EINVAL);
    }
    var len := mb.ReadU8();
    if mb.Left() < len {
      return Failure(EBADMSG);
    }
    var err, data := mb.ReadMem(len);
    assert data == mb.buf[old(mb.pos) + 1..old(mb.pos) + 1 + len];
    return Success(CString(data));
  }

  method ReadStr(mb: Mbuf, ghost t: Task, ghost i: nat, ghost vals: seq<Field>) returns (r: Result<cstr>)
    requires mb.Valid() && t.b == mb.buf && t.end == mb.end && Got(t, i, mb.pos, vals)
    requires i < |t.ks| && t.ks[i] == KStr
    modifies mb`pos
    ensures r.Success? ==> Got(t, i + 1, mb.pos, vals + [FStr(r.value)])
    ensures r.Failure? ==> t.all == Failure(r.err)
  {
    hide Got, CString;
    GotNext(t, i, mb.pos, vals);
    r := DecodeCstr(mb);
  }

  /** The TXT loop: strings until rdlen bytes are used up, copied one behind the other. */
  method DecodeTxt(mb: Mbuf, rdlen: u16) returns (r: Result<cstr>)
    requires mb.Valid() && mb.pos + rdlen <= mb.end
    modifies mb`pos
    ensures var s := DecTxt(mb.buf, old(mb.pos), rdlen, []);
            if s.Success? then r == Success(CString(s.value.0)) && mb.pos == s.value.1 else r == Failure(s.err)
  {
    hide CString;
    var left: nat, data: seq<byte> := rdlen, [];
    while left > 0
      invariant mb.pos + left <= mb.end
      invariant DecTxt(mb.buf, mb.pos, left, data) == DecTxt(mb.buf, old(mb.pos), rdlen, [])
    {
      ghost var p := mb.pos;
      var len := mb.ReadU8();
      left := left - 1;
      if len > left {
        return Failure(EINVAL);
      }
      var err, part := mb.ReadMem(len);
      assert part == mb.buf[p + 1..p + 1 + len];
      data := data + part;
      left := left - len;
    }
    return Success(CString(data));
  }

  ghost function TaskFor(typ: u16, rdlen: u16, b: seq<byte>, end: nat, start: nat, p: nat): (t: Task)
    requires Known(typ) && Kinds(typ, rdlen).Success? && p <= end <= |b|
    ensures Got(t, 0, p, []) && t.b == b && t.end == end && t.start == start && t.ks == Kinds(typ, rdlen).value
  {
    var ks := Kinds(typ, rdlen).value;
    Task(ks, b, end, start, DecFields(ks, 0, b, end, start, p, []))
  }

  /** The end of an arm: all fields read, or the error that stopped it. */
  lemma {:induction false} ArmDone(t: Task, typ: u16, rdlen: u16, b: seq<byte>, end: nat, start: nat, p: nat)
    requires Known(typ) && Kinds(typ, rdlen).Success? && p + rdlen <= end <= |b| && t == TaskFor(typ, rdlen, b, end, start, p)
    ensures var s := DecRdata(typ, rdlen, b, end, start, p);
            if t.all.Success? then Fits(typ, t.all.value.0) && s == Success((Build(typ, t.all.value.0), t.all.value.1))
            else s == Failure(t.all.err)
  {
    hide DecFields, Build, Kinds;
    var ks := Kinds(typ, rdlen).value;
    DecFieldsKinds(ks, 0, b, end, start, p, []);
    if t.all.Success? {
      KindsFit(typ, rdlen, t.all.value.0);
    }
  }

  method DecodeSoa(mb: Mbuf, rdlen: u16, start: nat) returns (r: Result<Rdata>)
    requires mb.Valid() && mb.pos + rdlen <= mb.end
    modifies mb`pos
    ensures Agrees(r, mb.pos, DecRdata(TYPE_SOA, rdlen, mb.buf, mb.end, start, old(mb.pos)))
  {
    hide Got, DecRdata, DecFields;
    ghost var t := TaskFor(TYPE_SOA, rdlen, mb.buf, mb.end, start, mb.pos);
    ArmDone(t, TYPE_SOA, rdlen, mb.buf, mb.end, start, mb.pos);
    var m :- ReadName(mb, t, start, 0, []);
    var n :- ReadName(mb, t, start, 1, [] + [FName(m, false)]);
    ghost var vals := [] + [FName(m, false)] + [FName(n, false)];
    if mb.Left() < 20 {
      TooShort(t, 2, mb.pos, vals, 5, 4);
      return Failure(EINVAL);
    }
    var serial := Read32(mb, t, 2, vals);
    var refresh := Read32(mb, t, 3, vals + [F32(serial)]);
    var retry := Read32(mb, t, 4, vals + [F32(serial)] + [F32(refresh)]);
    var expire := Read32(mb, t, 5, vals + [F32(serial)] + [F32(refresh)] + [F32(retry)]);
    var ttlmin := Read32(mb, t, 6, vals + [F32(serial)] + [F32(refresh)] + [F32(retry)] + [F32(expire)]);
    GotAll(t, mb.pos, vals + [F32(serial)] + [F32(refresh)] + [F32(retry)] + [F32(expire)] + [F32(ttlmin)]);
    return Success(Soa(m, n, serial, refresh, retry, expire, ttlmin));
  }

  method DecodeMx(mb: Mbuf, rdlen: u16, start: nat) returns (r: Result<Rdata>)
    requires mb.Valid() && mb.pos + rdlen <= mb.end
    modifies mb`pos
    ensures Agrees(r, mb.pos, DecRdata(TYPE_MX, rdlen, mb.buf, mb.end, start, old(mb.pos)))
  {
    hide Got, DecRdata, DecFields;
    ghost var t := TaskFor(TYPE_MX, rdlen, mb.buf, mb.end, start, mb.pos);
    ArmDone(t, TYPE_MX, rdlen, mb.buf, mb.end, start, mb.pos);
    if mb.Left() < 2 {
      TooShort(t, 0, mb.pos, [], 1, 2);
      return Failure(EINVAL);
    }
    var pref := Read16(mb, t, 0, []);
    var exchange :- ReadName(mb, t, start, 1, [] + [F16(pref)]);
    GotAll(t, mb.pos, [] + [F16(pref)] + [FName(exchange, false)]);
    return Success(Mx(pref, exchange));
  }

  method DecodeSrv(mb: Mbuf, rdlen: u16, start: nat) returns (r: Result<Rdata>)
    requires mb.Valid() && mb.pos + rdlen <= mb.end
    modifies mb`pos
    ensures Agrees(r, mb.pos, DecRdata(TYPE_SRV, rdlen, mb.buf, mb.end, start, old(mb.pos)))
  {
    hide Got, DecRdata, DecFields;
    ghost var t := TaskFor(TYPE_SRV, rdlen, mb.buf, mb.end, start, mb.pos);
    ArmDone(t, TYPE_SRV, rdlen, mb.buf, mb.end, start, mb.pos);
    if mb.Left() < 6 {
      TooShort(t, 0, mb.pos, [], 3, 2);
      return Failure(EINVAL);
    }
    var pri := Read16(mb, t, 0, []);
    var weight := Read16(mb, t, 1, [] + [F16(pri)]);
    var port := Read16(mb, t, 2, [] + [F16(pri)] + [F16(weight)]);
    var target :- ReadName(mb, t, start, 3, [] + [F16(pri)] + [F16(weight)] + [F16(port)]);
    GotAll(t, mb.pos, [] + [F16(pri)] + [F16(weight)] + [F16(port)] + [FName(target, false)]);
    return Success(Srv(pri, weight, port, target));
  }

  method DecodeNaptr(mb: Mbuf, rdlen: u16, start: nat) returns (r: Result<Rdata>)
    requires mb.Valid() && mb.pos + rdlen <= mb.end
    modifies mb`pos
    ensures Agrees(r, mb.pos, DecRdata(TYPE_NAPTR, rdlen, mb.buf, mb.end, start, old(mb.pos)))
  {
    hide Got, DecRdata, DecFields;
    ghost var t := TaskFor(TYPE_NAPTR, rdlen, mb.buf, mb.end, start, mb.pos);
    ArmDone(t, TYPE_NAPTR, rdlen, mb.buf, mb.end, start, mb.pos);
    if mb.Left() < 4 {
      TooShort(t, 0, mb.pos, [], 2, 2);
      return Failure(EINVAL);
    }
    var order := Read16(mb, t, 0, []);
    var pref := Read16(mb, t, 1, [] + [F16(order)]);
    ghost var vals := [] + [F16(order)] + [F16(pref)];
    var flags :- ReadStr(mb, t, 2, vals);
    var services :- ReadStr(mb, t, 3, vals + [FStr(flags)]);
    var regexp :- ReadStr(mb, t, 4, vals + [FStr(flags)] + [FStr(services)]);
    var replace :- ReadName(mb, t, start, 5, vals + [FStr(flags)] + [FStr(services)] + [FStr(regexp)]);
    GotAll(t, mb.pos, vals + [FStr(flags)] + [FStr(services)] + [FStr(regexp)] + [FName(replace, false)]);
    return Success(Naptr(order, pref, flags, services, regexp, replace));
  }

  /** Records whose data is one name. */
  method DecodeOneName(mb: Mbuf, typ: u16, rdlen: u16, start: nat) returns (r: Result<Rdata>)
    requires mb.Valid() && mb.pos + rdlen <= mb.end && (typ == TYPE_NS || typ == TYPE_CNAME || typ == TYPE_PTR)
    modifies mb`pos
    ensures Agrees(r, mb.pos, DecRdata(typ, rdlen, mb.buf, mb.end, start, old(mb.pos)))
  {
    hide Got, DecRdata, DecFields;
    ghost var t := TaskFor(typ, rdlen, mb.buf, mb.end, start, mb.pos);
    ArmDone(t, typ, rdlen, mb.buf, mb.end, start, mb.pos);
    var name :- ReadName(mb, t, start, 0, []);
    GotAll(t, mb.pos, [] + [FName(name, false)]);
    if typ == TYPE_NS {
      return Success(Ns(name));
    } else if typ == TYPE_CNAME {
      return Success(Cname(name));
    }
    return Success(Ptr(name));
  }

  /** Records whose data is a number, an address or text. */
  method DecodeFlat(mb: Mbuf, typ: u16, rdlen: u16, start: nat) returns (r: Result<Rdata>)
    requires mb.Valid() && mb.pos + rdlen <= mb.end && (typ == TYPE_A || typ == TYPE_AAAA || typ == TYPE_TXT)
    modifies mb`pos
    ensures Agrees(r, mb.pos, DecRdata(typ, rdlen, mb.buf, mb.end, start, old(mb.pos)))
  {
    hide Got, DecRdata, DecFields, DecTxt, CString;
    if (typ == TYPE_A && rdlen != 4) || (typ == TYPE_AAAA && rdlen != 16) {
      WrongLength(typ, rdlen, mb.buf, mb.end, start, mb.pos);
      return Failure(EINVAL);
    }
    ghost var t := TaskFor(typ, rdlen, mb.buf, mb.end, start, mb.pos);
    ArmDone(t, typ, rdlen, mb.buf, mb.end, start, mb.pos);
    GotNext(t, 0, mb.pos, []);
    if typ == TYPE_A {
      var addr := mb.ReadU32();
      GotAll(t, mb.pos, [] + [F32(addr)]);
      return Success(A(addr));
    } else if typ == TYPE_AAAA {
      var err, addr := mb.ReadMem(16);
      GotAll(t, mb.pos, [] + [FRaw(addr)]);
      return Success(Aaaa(addr));
    }
    var txt :- DecodeTxt(mb, rdlen);
    GotAll(t, mb.pos, [] + [FTxt(txt)]);
    return Success(Txt(txt));
  }

  lemma {:induction false} WrongLength(typ: u16, rdlen: u16, b: seq<byte>, end: nat, start: nat, p: nat)
    requires Known(typ) && Kinds(typ, rdlen).Failure? && p + rdlen <= end <= |b|
    ensures DecRdata(typ, rdlen, b, end, start, p) == Failure(EINVAL)
  {}

  lemma {:induction false} Skipped(typ: otherType, rdlen: u16, b: seq<byte>, end: nat, start: nat, p: nat)
    requires p + rdlen <= end <= |b|
    ensures DecRdata(typ, rdlen, b, end, start, p) == Success((Unknown(typ), p + rdlen))
  {}

  method DecodeRdata(mb: Mbuf, typ: u16, rdlen: u16, start: nat) returns (r: Result<Rdata>)
    requires mb.Valid() && mb.pos + rdlen <= mb.end
    modifies mb`pos
    ensures Agrees(r, mb.pos, DecRdata(typ, rdlen, mb.buf, mb.end, start, old(mb.pos)))
  {
    hide DecRdata;
    if typ == TYPE_A || typ == TYPE_TXT || typ == TYPE_AAAA {
      r := DecodeFlat(mb, typ, rdlen, start);
    } else if typ == TYPE_NS || typ == TYPE_CNAME || typ == TYPE_PTR {
      r := DecodeOneName(mb, typ, rdlen, start);
    } else if typ == TYPE_SOA {
      r := DecodeSoa(mb, rdlen, start);
    } else if typ == TYPE_MX {
      r := DecodeMx(mb, rdlen, start);
    } else if typ == TYPE_SRV {
      r := DecodeSrv(mb, rdlen, start);
    } else if typ == TYPE_NAPTR {
      r := DecodeNaptr(mb, rdlen, start);
    } else {
      Skipped(typ, rdlen, mb.buf, mb.end, start, mb.pos);
      mb.pos := mb.pos + rdlen;
      r := Success(Unknown(typ));
    }
  }

  /** dns_rr_decode */
  method DecodeRr(mb: Mbuf, start: nat) returns (r: Result<Rr>)
    requires mb.Valid()
    modifies mb`pos
    ensures Agrees(r, mb.pos, DecRr(mb.buf, mb.end, start, old(mb.pos)))
  {
    hide DecRdata, Walk, CString, Get16, Get32;
    var name :- DecodeName(mb, start);
    if mb.Left() < 10 {
      return Failure(EINVAL);
    }
    var typ := mb.ReadU16();
    var cls := mb.ReadU16();
    var ttl := mb.ReadU32();
    var rdlen := mb.ReadU16();
    if mb.Left() < rdlen {
      return Failure(EINVAL);
    }
    var rdata :- DecodeRdata(mb, typ, rdlen, start);
    return Success(Rr(name, cls, ttl, rdlen, rdata));
  }
}
