/** The AV1 packetizer as it runs on memory buffers, against its specification. */
module Av1Codec {
  import opened Bytes
  import opened MemoryBuffer
  import opened RtpPackets
  import opened Av1

  /** av1_leb128_encode */
  method EncodeLeb(mb: Mbuf, v: nat)
    requires mb.Valid()
    modifies mb
    ensures mb.Valid() && Patched(old(mb.buf), mb.buf, old(mb.pos), Leb(v)) && mb.pos == old(mb.pos) + |Leb(v)|
    ensures mb.end == if old(mb.end) < mb.pos then mb.pos else old(mb.end)
  {
    hide Patched;
    var value := v;
    ghost var done: seq<byte>, p := [], mb.pos;
    assert done + Leb(v) == Leb(v);
    while value >= 0x80
      invariant mb.Valid() && mb.pos == p + |done| && done + Leb(value) == Leb(v)
      invariant if done == [] then unchanged(mb) else Patched(old(mb.buf), mb.buf, p, done)
      invariant done != [] ==> mb.end == if old(mb.end) < mb.pos then mb.pos else old(mb.end)
      decreases value
    {
      ghost var mid, x := mb.buf, 0x80 + value % 0x80;
      mb.WriteU8(0x80 + value % 0x80);
      LaidNext(old(mb.buf), mid, mb.buf, p, done, x);
      assert done + ([x] + Leb(value / 0x80)) == done + [x] + Leb(value / 0x80);
      done := done + [x];
      value := value / 0x80;
    }
    ghost var mid := mb.buf;
    mb.WriteU8(value);
    LaidNext(old(mb.buf), mid, mb.buf, p, done, value);
  }

  /** One more byte behind what was stored. */
  lemma {:induction false} LaidNext(was: seq<byte>, mid: seq<byte>, now: seq<byte>, p: nat, done: seq<byte>, x: byte)
    requires if done == [] then mid == was else Patched(was, mid, p, done)
    requires Patched(mid, now, p + |done|, [x])
    ensures Patched(was, now, p, done + [x])
  {
    hide Patched;
    if done != [] {
      PatchedAppend(was, mid, now, p, done, [x]);
    } else {
      assert done + [x] == [x];
    }
  }

  /** The bits gathered by the first i turns of the decoder loop, and what the others add. */
  lemma {:induction false} LebTurn(b: seq<byte>, p: nat, end: nat, n: nat, acc: nat, weight: nat)
    requires p < end <= |b| && n > 0
    ensures var r, v := DecLeb(b, p, end, n), b[p] as int % 0x80;
            if b[p] < 0x80 then r == Success((v, p + 1))
            else var rest := DecLeb(b, p + 1, end, n - 1);
                 if rest.Success? then r.Success? && r.value.1 == rest.value.1
                                       && acc + weight * r.value.0 == acc + weight * v + (weight * 0x80) * rest.value.0
                 else r == Failure(rest.err)
  {
    var v := b[p] as int % 0x80;
    if b[p] >= 0x80 {
      var rest := DecLeb(b, p + 1, end, n - 1);
      if rest.Success? {
        Distribute(weight, v, rest.value.0);
      }
    }
  }

  lemma {:induction false} Distribute(weight: nat, v: nat, r: nat)
    ensures weight * (v + 0x80 * r) == weight * v + (weight * 0x80) * r
  {}

  /** What the whole loop gives, seen from a turn: bits so far plus the weighted rest. */
  ghost function Weighted(acc: nat, weight: nat, s: Result<(nat, nat)>): Result<(nat, nat)> {
    if s.Success? then Success((acc + weight * s.value.0, s.value.1)) else s
  }

  /** av1_leb128_decode */
  method DecodeLeb(mb: Mbuf) returns (r: Result<nat>)
    requires mb.Valid() && mb.pos <= mb.end
    modifies mb`pos
    ensures match DecLeb(mb.buf, old(mb.pos), mb.end, LEB_MAX)
      case Failure(e) => r == Failure(e)
      case Success(v) => r == Success(v.0) && mb.pos == v.1
  {
    hide DecLeb;
    var i, ret: nat, weight: nat := 0, 0, 1;
    ghost var all := DecLeb(mb.buf, mb.pos, mb.end, LEB_MAX);
    while i < LEB_MAX
      invariant i <= LEB_MAX && mb.pos <= mb.end
      invariant Weighted(ret, weight, DecLeb(mb.buf, mb.pos, mb.end, LEB_MAX - i)) == all
    {
      if mb.Left() < 1 {
        NoByte(mb.buf, mb.pos, LEB_MAX - i);
        return Failure(EBADMSG);
      }
      LebTurn(mb.buf, mb.pos, mb.end, LEB_MAX - i, ret, weight);
      var x := mb.ReadU8();
      ret := ret + weight * (x as int % 0x80);
      if x < 0x80 {
        return Success(ret);
      }
      i, weight := i + 1, weight * 0x80;
    }
    LebStop(mb.buf, mb.pos, mb.end);
    return Success(ret);
  }

  lemma {:induction false} NoByte(b: seq<byte>, end: nat, n: nat)
    requires end <= |b| && n > 0
    ensures DecLeb(b, end, end, n) == Failure(EBADMSG)
  {}

  lemma {:induction false} LebStop(b: seq<byte>, p: nat, end: nat)
    requires p <= end <= |b|
    ensures DecLeb(b, p, end, 0) == Success((0, p))
  {}

  /** av1_obu_decode */
  method DecodeObu(mb: Mbuf) returns (r: Result<Hdr>)
    requires mb.Valid() && mb.pos <= mb.end
    modifies mb`pos
    ensures r == DecObu(mb.buf, old(mb.pos), mb.end)
    ensures r.Success? ==> mb.pos == r.value.body
  {
    hide DecLeb;
    if mb.Left() < 1 {
      return Failure(EBADMSG);
    }
    var v := mb.ReadU8();
    var typ, x, s := v as int / 8 % 16, v as int / 4 % 2, v as int / 2 % 2;
    if v >= 0x80 {
      return Failure(EBADMSG);
    }
    if typ == 0 {
      return Failure(EBADMSG);
    }
    if x == 1 {
      return Failure(ENOTSUP);
    }
    if s == 1 {
      var size :- DecodeLeb(mb);
      if size > mb.Left() {
        return Failure(EBADMSG);
      }
      return Success(Hdr(typ, size, mb.pos));
    }
    return Success(Hdr(typ, mb.Left(), mb.pos));
  }

  /** av1_obu_count_rtp: an input that cannot be decoded counts as empty. */
  method CountObus(b: seq<byte>) returns (count: nat)
    ensures count == match CountRtp(b, 0, |b|) case None => 0 case Some(n) => n
  {
    hide DecObu, CountRtp;
    var wrap := new Mbuf.Wrap(b);
    count := 0;
    ghost var all := CountRtp(b, 0, |b|);
    while wrap.Left() > 1
      invariant wrap.Valid() && wrap.buf == b && wrap.end == |b| && wrap.pos <= |b|
      invariant match CountRtp(b, wrap.pos, |b|) case None => all == None case Some(n) => all == Some(count + n)
      decreases |b| - wrap.pos
    {
      CountNext(b, wrap.pos, |b|);
      var h := DecodeObu(wrap);
      if h.Failure? {
        return 0;
      }
      if Allowed(h.value.typ) {
        count := count + 1;
      }
      wrap.pos := wrap.pos + h.value.size;
    }
    CountEnd(b, wrap.pos, |b|);
  }

  lemma {:induction false} CountNext(b: seq<byte>, p: nat, end: nat)
    requires p + 2 <= end <= |b|
    ensures CountRtp(b, p, end) ==
      match DecObu(b, p, end)
      case Failure(_) => None
      case Success(h) =>
        match CountRtp(b, h.body + h.size, end)
        case None => None
        case Some(n) => Some(n + if Allowed(h.typ) then 1 else 0)
  {}

  lemma {:induction false} CountEnd(b: seq<byte>, p: nat, end: nat)
    requires p <= end <= |b| && end - p < 2
    ensures CountRtp(b, p, end) == Some(0)
  {}

  /** The element of an allowed OBU, with its length in front unless it is bare. */
  method WriteElement(mb: Mbuf, t: obuType, pld: seq<byte>, bare: bool)
    requires mb.Valid() && mb.pos <= |mb.buf|
    modifies mb
    ensures mb.Valid() && mb.pos <= |mb.buf|
    ensures Patched(old(mb.buf), mb.buf, old(mb.pos), Copied(t, pld, bare)) && mb.pos == old(mb.pos) + |Copied(t, pld, bare)|
  {
    hide Patched, Leb;
    ghost var was, p := mb.buf, mb.pos;
    if !Allowed(t) {
      StoredNothing(was, p);
      return;
    }
    var elem := Element(t, pld);
    if !bare {
      EncodeLeb(mb, |elem|);
    }
    ghost var mid := mb.buf;
    mb.WriteMem(elem);
    if !bare {
      PatchedAppend(was, mid, mb.buf, p, Leb(|elem|), elem);
    }
    PatchedRoom(was, mb.buf, p, Copied(t, pld, bare));
  }

  lemma {:induction false} StoredNothing(b: seq<byte>, p: nat)
    requires p <= |b|
    ensures Patched(b, b, p, [])
  {}

  /** copy_obus into a packet buffer. */
  method CopyObus(mb: Mbuf, b: seq<byte>, w0: bool) returns (err: Errno)
    requires mb.Valid() && mb.pos <= |mb.buf|
    modifies mb
    ensures mb.Valid()
    ensures match Copy(b, 0, |b|, w0)
      case Failure(e) => err == e
      case Success(s) => err == OK && Patched(old(mb.buf), mb.buf, old(mb.pos), s) && mb.pos == old(mb.pos) + |s|
  {
    hide Patched, DecObu, Copy, Copied;
    var wrap := new Mbuf.Wrap(b);
    ghost var done: seq<byte>, p, all := [], mb.pos, Copy(b, 0, |b|, w0);
    StoredNothing(mb.buf, p);
    BehindNothing(all);
    while wrap.Left() >= 2
      invariant wrap.Valid() && wrap.buf == b && wrap.end == |b| && wrap.pos <= |b| && mb.Valid() && mb.pos <= |mb.buf|
      invariant Patched(old(mb.buf), mb.buf, p, done) && mb.pos == p + |done|
      invariant Behind(done, Copy(b, wrap.pos, |b|, w0)) == all
      decreases |b| - wrap.pos
    {
      CopyNext(b, wrap.pos, |b|, w0, done);
      var h := DecodeObu(wrap);
      if h.Failure? {
        return h.err;
      }
      var last := h.value.size == wrap.Left();
      var pld := b[wrap.pos..wrap.pos + h.value.size];
      ghost var mid := mb.buf;
      WriteElement(mb, h.value.typ, pld, last && !w0);
      PatchedAppend(old(mb.buf), mid, mb.buf, p, done, Copied(h.value.typ, pld, last && !w0));
      done := done + Copied(h.value.typ, pld, last && !w0);
      wrap.pos := wrap.pos + h.value.size;
    }
    CopyEnd(b, wrap.pos, |b|, w0, done);
    return OK;
  }

  /** The whole copy, seen from a turn of the loop: what is written, then the rest. */
  ghost function Behind(done: seq<byte>, s: Result<seq<byte>>): Result<seq<byte>> {
    if s.Success? then Success(done + s.value) else s
  }

  lemma {:induction false} BehindNothing(s: Result<seq<byte>>)
    ensures Behind([], s) == s
  {
    if s.Success? {
      assert [] + s.value == s.value;
    }
  }

  lemma {:induction false} CopyNext(b: seq<byte>, p: nat, end: nat, w0: bool, done: seq<byte>)
    requires p + 2 <= end <= |b|
    ensures var h := DecObu(b, p, end);
            if h.Failure? then Behind(done, Copy(b, p, end, w0)) == Failure(h.err)
            else var q := h.value.body + h.value.size;
                 Behind(done, Copy(b, p, end, w0))
                 == Behind(done + Copied(h.value.typ, b[h.value.body..q], q == end && !w0), Copy(b, q, end, w0))
  {
    hide DecObu, Copied;
    var h := DecObu(b, p, end);
    if h.Success? {
      var q := h.value.body + h.value.size;
      var rest := Copy(b, q, end, w0);
      if rest.Success? {
        var c := Copied(h.value.typ, b[h.value.body..q], q == end && !w0);
        assert done + (c + rest.value) == done + c + rest.value;
      }
    }
  }

  lemma {:induction false} CopyEnd(b: seq<byte>, p: nat, end: nat, w0: bool, done: seq<byte>)
    requires p <= end <= |b| && end - p < 2
    ensures Behind(done, Copy(b, p, end, w0)) == Success(done)
  {
    assert done + [] == done;
  }

  /** av1_packetize_internal; the first packet of a new sequence carries N. */
  method Fragment(sink: Sink, s: seq<byte>, maxlen: nat, w0: nat, fresh': bool, marker: bool)
    requires maxlen >= 2 && w0 <= 3
    modifies sink
    ensures sink.sent == old(sink.sent) + AsSeq(Packetized(s, 0, maxlen - 1, w0, false, fresh', marker))
  {
    hide AggrHdr;
    var max, i, w, cont, n := maxlen - 1, 0, w0, false, fresh';
    ghost var all := AsSeq(Packetized(s, 0, max, w, cont, n, marker));
    while |s| - i > max
      invariant i <= |s| && w <= 3
      invariant sink.sent + AsSeq(Packetized(s, i, max, w, cont, n, marker)) == old(sink.sent) + all
      decreases |s| - i
    {
      var p := Packet(false, [AggrHdr(cont, true, w, n)], s[i..i + max]);
      SentOne(sink.sent, p, Packetized(s, i + max, max, if w == 2 then 1 else w, true, false, marker));
      sink.Send(p);
      i, cont, n := i + max, true, false;
      if w == 2 {
        w := 1;
      }
    }
    var p := Packet(marker, [AggrHdr(cont, false, w, n)], s[i..]);
    SentOne(sink.sent, p, Done);
    sink.Send(p);
    assert sink.sent + [] == sink.sent;
  }

  /** av1_packetize_high: returns the error and whether the next unit still starts a new sequence. */
  method Packetize(sink: Sink, b: seq<byte>, maxlen: nat, isNew: bool, marker: bool) returns (err: Errno, isNew': bool)
    modifies sink
    ensures b == [] || maxlen < 2 ==> err == EINVAL && sink.sent == old(sink.sent) && isNew' == isNew
    ensures b != [] && maxlen >= 2 ==>
      var n := match CountRtp(b, 0, |b|) case None => 0 case Some(n) => n;
      match Copy(b, 0, |b|, n > MAX_OBUS)
      case Failure(e) => err == e && sink.sent == old(sink.sent) && isNew' == isNew
      case Success(s) =>
        err == OK && !isNew' && sink.sent == old(sink.sent) + AsSeq(Packetized(s, 0, maxlen - 1, WField(n), false, isNew, marker))
  {
    hide Patched, Copy, CountRtp, AsSeq, Packetized;
    if b == [] || maxlen < 2 {
      return EINVAL, isNew;
    }
    var mb := new Mbuf(|b|);
    ghost var was := mb.buf;
    var count := CountObus(b);
    var w := if count > MAX_OBUS then 0 else count;
    err := CopyObus(mb, b, count > MAX_OBUS);
    if err != OK {
      return err, isNew;
    }
    ghost var s := Copy(b, 0, |b|, count > MAX_OBUS).value;
    PatchedHolds(was, mb.buf, 0, s);
    var wire := mb.buf[..mb.pos];
    WireWritten(mb.buf, s);
    Fragment(sink, wire, maxlen, w, isNew, marker);
    return OK, false;
  }

  lemma {:induction false} PatchedHolds(was: seq<byte>, now: seq<byte>, p: nat, d: seq<byte>)
    requires Patched(was, now, p, d)
    ensures HoldsAt(now, p, d) && p + |d| <= |now|
  {}

  lemma {:induction false} WireWritten(b: seq<byte>, s: seq<byte>)
    requires HoldsAt(b, 0, s)
    ensures |s| <= |b| && b[..|s|] == s
  {}
}
