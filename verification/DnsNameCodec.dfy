/** The name encoder and decoder as they run on a memory buffer, against their specification. */
module DnsNameCodec {
  import opened Bytes
  import opened MemoryBuffer
  import opened DnsName
  import opened DnsCompression

  // ---------------------------------------------------------------- encoder

  /** now is tab with entries added, all for names of n characters or more. */
  ghost predicate Grown(tab: Table, now: Table, n: nat) {
    now == tab || (now.Snoc? && |now.last.name| >= n && Grown(tab, now.init, n))
  }

  lemma {:induction false} FindGrown(tab: Table, now: Table, n: nat, name: seq<byte>)
    requires Grown(tab, now, n) && |name| < n
    ensures Find(now, name) == Find(tab, name)
    decreases now
  {
    if now != tab {
      FindGrown(tab, now.init, n, name);
      assert |FoldSeq(now.last.name)| != |FoldSeq(name)|;
    }
  }

  lemma {:induction false} GrownRecord(tab: Table, name: seq<byte>, off: nat)
    ensures Grown(tab, tab, |name|) && Grown(tab, Record(tab, name, off), |name|)
  {}

  lemma {:induction false} GrownLess(tab: Table, now: Table, n: nat, m: nat)
    requires Grown(tab, now, n) && m <= n
    ensures Grown(tab, now, m)
    decreases now
  {
    if now != tab {
      GrownLess(tab, now.init, n, m);
    }
  }

  /** What is left to write: the labels d, cut from n characters, with the table as it is now. */
  ghost predicate Remaining(d: Dn, n: nat, tab: Table, comp: bool, all: Encoded,
                            done: seq<byte>, now: Table, off: nat)
  {
    && Grown(tab, now, n)
    && all.bytes == done + LabelBytes(d, tab, comp)
    && all.tab == LabelTable(d, tab, now, off, comp)
    && all.ok == LabelsOk(d, tab, comp)
  }

  ghost predicate NoDot(name: seq<byte>, ls: nat, k: nat)
    requires k <= |name|
  {
    forall j {:trigger name[j]} :: ls <= j < k ==> name[j] != DOT
  }

  /** d is what name holds from character ls on. */
  ghost predicate Describes(d: Dn, name: seq<byte>, ls: nat) {
    match d
    case End => ls == |name|
    case Label(lab, last, suffix, rest) =>
      var k := ls + |lab|;
      && k <= |name| && lab == name[ls..k] && NoDot(name, ls, k)
      && if last then k == |name| && lab != [] && rest == End
         else k < |name| && name[k] == DOT && suffix == name[k + 1..] && Describes(rest, name, k + 1)
  }

  /** The first label of what name holds from ls on. */
  lemma {:induction false} ParseAt(name: seq<byte>, ls: nat) returns (k: nat)
    requires ls < |name|
    ensures ls <= k <= |name| && NoDot(name, ls, k) && (k < |name| ==> name[k] == DOT)
    ensures Parse(name[ls..]) == if k == |name| then Label(name[ls..k], true, [], End)
                                 else Label(name[ls..k], false, name[k + 1..], Parse(name[k + 1..]))
  {
    var s := name[ls..];
    k := DotAt(name, ls);
    LabelLenUnique(s, k - ls);
    assert s[..k - ls] == name[ls..k];
    if k < |name| {
      assert s[k - ls + 1..] == name[k + 1..];
    }
  }

  lemma {:induction false} ParseDescribes(name: seq<byte>, ls: nat)
    requires ls <= |name|
    ensures Describes(Parse(name[ls..]), name, ls)
    decreases |name| - ls
  {
    hide Parse, NoDot;
    if ls == |name| {
      ParseNothing(name[ls..]);
    } else {
      var k := ParseAt(name, ls);
      if k < |name| {
        ParseDescribes(name, k + 1);
      }
    }
  }

  lemma {:induction false} ParseNothing(name: seq<byte>)
    requires name == []
    ensures Parse(name) == End
  {}

  /** Character i is still within, or right behind, the first label of d. */
  ghost predicate InLabel(d: Dn, ls: nat, i: nat) {
    ls <= i <= ls + if d.Label? then |d.lab| else 0
  }

  /** The label is complete at i. */
  lemma {:induction false} LabelDone(d: Dn, name: seq<byte>, ls: nat, i: nat)
    requires Describes(d, name, ls) && InLabel(d, ls, i) && i <= |name| && (i < |name| ==> name[i] == DOT)
    ensures if i == |name| then d == if ls == i then End else Label(name[ls..i], true, d.suffix, End)
            else d.Label? && !d.last && d.lab == name[ls..i] && d.suffix == name[i + 1..] && Describes(d.rest, name, i + 1)
  {
  }

  /** The label goes on behind i. */
  lemma {:induction false} LabelGoesOn(d: Dn, name: seq<byte>, ls: nat, i: nat)
    requires Describes(d, name, ls) && InLabel(d, ls, i) && i < |name| && name[i] != DOT
    ensures InLabel(d, ls, i + 1)
  {}

  /** A label that ends at a dot and is not followed by a pointer. */
  lemma {:induction false} AtDot(d: Dn, n: nat, tab: Table, comp: bool, all: Encoded, done: seq<byte>, now: Table, off: nat)
    requires Remaining(d, n, tab, comp, all, done, now, off)
    requires d.Label? && !d.last && d.lab != [] && |d.suffix| < n
    ensures Find(now, d.suffix) == Find(tab, d.suffix)
    ensures var lab := [|d.lab| % 0x100] + d.lab;
            var found := Find(now, d.suffix);
            var off' := off + 1 + |d.lab|;
            if found.Some? && comp then
              all.ok && all.tab == now && all.bytes == done + lab + Pointer(found.value)
            else
              Remaining(d.rest, |d.suffix|, tab, comp, all, done + lab,
                        if found.None? then Record(now, d.suffix, off') else now, off')
  {
    FindGrown(tab, now, n, d.suffix);
    GrownLess(tab, now, n, |d.suffix|);
    var lab := [|d.lab| % 0x100] + d.lab;
    if Stops(d.suffix, tab, comp) {
      assert done + (lab + Pointer(Find(tab, d.suffix).value)) == done + lab + Pointer(Find(tab, d.suffix).value);
    } else {
      var b := LabelBytes(d.rest, tab, comp);
      assert done + (lab + b) == done + lab + b;
    }
  }

  lemma {:induction false} AtEmpty(d: Dn, n: nat, tab: Table, comp: bool, all: Encoded, done: seq<byte>, now: Table, off: nat)
    requires Remaining(d, n, tab, comp, all, done, now, off) && d.Label? && d.lab == []
    ensures !all.ok && all.tab == now && all.bytes == done + [0]
  {}

  lemma {:induction false} AtEnd(d: Dn, n: nat, tab: Table, comp: bool, all: Encoded, done: seq<byte>, now: Table, off: nat)
    requires Remaining(d, n, tab, comp, all, done, now, off) && (d.Label? ==> d.last && d.lab != [])
    ensures all.ok && all.tab == now && all.bytes == done + LabelBytes(d, tab, comp)
  {}

  /** Stores the length byte in front of the finished label. */
  method CloseLabel(mb: Mbuf, pos: nat, lablen: nat, ghost was: seq<byte>, ghost at: nat,
                    ghost done: seq<byte>, ghost lab: seq<byte>)
    requires mb.Valid() && |lab| == lablen && pos == at + |done|
    requires Patched(was, mb.buf, at, done + [0] + lab)
    modifies mb`buf
    ensures mb.Valid() && Patched(was, mb.buf, at, done + ([lablen % 0x100] + lab))
  {
    hide Patched;
    ghost var before := mb.buf;
    ghost var d := done + [0] + lab;
    PatchedRoom(was, mb.buf, at, d);
    mb.Poke(pos, lablen % 0x100);
    PatchedInside(was, before, mb.buf, at, d, pos, [lablen % 0x100]);
    assert d[..|done|] + [lablen % 0x100] + d[|done| + 1..] == done + ([lablen % 0x100] + lab);
  }

  /** A dot behind the label d.lab: a pointer to the rest, or the next length byte. */
  method NextLabel(mb: Mbuf, rest: seq<byte>, ht: NameTable?, start: nat, comp: bool, pos: nat, lablen: nat,
                   ghost was: seq<byte>, ghost at: nat, ghost d: Dn, ghost n: nat, ghost tab: Table,
                   ghost all: Encoded, ghost done: seq<byte>) returns (stop: bool)
    requires mb.Valid() && start <= pos == at + |done| && mb.pos == pos + 1 + lablen
    requires d.Label? && !d.last && |d.lab| == lablen > 0 && d.suffix == rest && |rest| < n
    requires Remaining(d, n, tab, comp, all, done, View(ht), pos - start)
    requires Patched(was, mb.buf, at, done + [0] + d.lab)
    modifies mb, ht
    ensures mb.Valid() && old(mb.pos) < mb.pos && mb.end == if old(mb.end) < mb.pos then mb.pos else old(mb.end)
    ensures stop ==> all.ok && View(ht) == all.tab && Patched(was, mb.buf, at, all.bytes) && mb.pos == at + |all.bytes|
    ensures !stop ==>
      var head := done + ([lablen % 0x100] + d.lab);
      && Patched(was, mb.buf, at, head + [0]) && mb.pos == old(mb.pos) + 1
      && Remaining(d.rest, |rest|, tab, comp, all, head, View(ht), old(mb.pos) - start)
  {
    hide Patched, Remaining, Find, Record;
    AtDot(d, n, tab, comp, all, done, View(ht), pos - start);
    CloseLabel(mb, pos, lablen, was, at, done, d.lab);
    ghost var head := done + ([lablen % 0x100] + d.lab);
    ghost var before := mb.buf;
    var dn := LookupIn(ht, rest);
    if dn.Some? && comp {
      mb.WriteU16(dn.value as int + 0xc000);
      PatchedAppend(was, before, mb.buf, at, head, Pointer(dn.value));
      return true;
    }
    if dn.None? {
      Append(ht, rest, mb.pos - start);
    }
    mb.WriteU8(0);
    PatchedAppend(was, before, mb.buf, at, head, [0]);
    return false;
  }

  method AddChar(mb: Mbuf, name: seq<byte>, i: nat, ghost was: seq<byte>, ghost at: nat, ghost done: seq<byte>, ghost ls: nat)
    requires mb.Valid() && ls <= i < |name| && mb.pos == at + |done| + 1 + (i - ls)
    requires Patched(was, mb.buf, at, done + [0] + name[ls..i])
    modifies mb
    ensures mb.Valid() && mb.pos == old(mb.pos) + 1 && mb.end == if old(mb.end) < mb.pos then mb.pos else old(mb.end)
    ensures Patched(was, mb.buf, at, done + [0] + name[ls..i + 1])
  {
    hide Patched;
    ghost var before := mb.buf;
    mb.WriteU8(name[i]);
    PatchedAppend(was, before, mb.buf, at, done + [0] + name[ls..i], [name[i]]);
    assert done + [0] + name[ls..i] + [name[i]] == done + [0] + name[ls..i + 1];
  }

  /** The loop behind the first length byte, which was just written at position at. */
  method EncodeLabels(mb: Mbuf, name: seq<byte>, ht: NameTable?, start: nat, comp: bool, at: nat,
                      ghost tab: Table, ghost was: seq<byte>, ghost all: Encoded, ghost d0: Dn) returns (err: Errno)
    requires mb.Valid() && start <= at && mb.pos == at + 1 <= mb.end
    requires Patched(was, mb.buf, at, [0])
    requires Describes(d0, name, 0) && Remaining(d0, |name|, tab, comp, all, [], View(ht), at - start)
    modifies mb, ht
    ensures mb.Valid() && (err == OK || err == EINVAL)
    ensures Patched(was, mb.buf, at, all.bytes) && mb.pos == at + |all.bytes|
    ensures View(ht) == all.tab && (err == OK <==> all.ok)
    ensures old(mb.pos) <= mb.pos && mb.end == if old(mb.end) < mb.pos then mb.pos else old(mb.end)
  {
    hide Patched, Remaining, Describes, LabelBytes;
    ghost var d := d0;
    ghost var done: seq<byte>, ls := [], 0;
    var pos, i := at, 0;
    assert done + [0] + name[0..0] == [0];
    while true
      invariant mb.Valid() && start <= pos && ls <= i <= |name| && InLabel(d, ls, i) && Describes(d, name, ls)
      invariant Remaining(d, |name| - ls, tab, comp, all, done, View(ht), pos - start)
      invariant pos == at + |done| && old(mb.pos) <= mb.pos == pos + 1 + (i - ls)
      invariant Patched(was, mb.buf, at, done + [0] + name[ls..i])
      invariant mb.end == if old(mb.end) < mb.pos then mb.pos else old(mb.end)
      decreases |name| - i
    {
      var lablen := mb.pos - pos - 1;
      ghost var lab := name[ls..i];
      if i == |name| {
        LabelDone(d, name, ls, i);
        AtEnd(d, |name| - ls, tab, comp, all, done, View(ht), pos - start);
        err := FinishName(mb, pos, lablen, was, at, d, tab, comp, done, lab);
        return;
      } else if name[i] == DOT {
        LabelDone(d, name, ls, i);
        if lablen == 0 {
          AtEmpty(d, |name| - ls, tab, comp, all, done, View(ht), pos - start);
          assert done + [0] + lab == done + [0];
          return EINVAL;
        }
        var next := mb.pos;
        var stop := NextLabel(mb, name[i + 1..], ht, start, comp, pos, lablen, was, at, d, |name| - ls, tab, all, done);
        if stop {
          return OK;
        }
        pos := next;
        done, ls, d := done + ([lablen % 0x100] + lab), i + 1, d.rest;
        assert done + [0] + name[i + 1..i + 1] == done + [0];
      } else {
        LabelGoesOn(d, name, ls, i);
        AddChar(mb, name, i, was, at, done, ls);
      }
      i := i + 1;
    }
  }

  /** The end of the name: close the last label, if there is one. */
  method FinishName(mb: Mbuf, pos: nat, lablen: nat, ghost was: seq<byte>, ghost at: nat, ghost d: Dn,
                    ghost tab: Table, ghost comp: bool, ghost done: seq<byte>, ghost lab: seq<byte>) returns (err: Errno)
    requires mb.Valid() && pos == at + |done| && mb.pos == pos + 1 + lablen && |lab| == lablen
    requires if lab == [] then d == End else d.Label? && d.lab == lab && d.last
    requires Patched(was, mb.buf, at, done + [0] + lab)
    modifies mb
    ensures mb.Valid() && err == OK && Patched(was, mb.buf, at, done + LabelBytes(d, tab, comp))
    ensures mb.pos == pos + |LabelBytes(d, tab, comp)|
    ensures lablen == 0 ==> mb.end == old(mb.end) && mb.pos == old(mb.pos)
    ensures lablen > 0 ==> mb.pos == old(mb.pos) + 1 && mb.end == if old(mb.end) < mb.pos then mb.pos else old(mb.end)
  {
    hide Patched;
    if lablen == 0 {
      assert done + [0] + lab == done + [0];
      return OK;
    }
    CloseLabel(mb, pos, lablen, was, at, done, lab);
    ghost var before := mb.buf;
    mb.WriteU8(0);
    PatchedAppend(was, before, mb.buf, at, done + ([lablen % 0x100] + lab), [0]);
    assert done + ([lablen % 0x100] + lab) + [0] == done + LabelBytes(d, tab, comp);
    return OK;
  }

  lemma {:induction false} EncRoot(tab: Table, off: nat, comp: bool)
    requires !(comp && Find(tab, ROOT).Some?)
    ensures EncName(ROOT, tab, off, comp) ==
            Encoded([0], if Find(tab, ROOT).None? then Record(tab, ROOT, off) else tab, true)
  {}

  method EncodeName(mb: Mbuf, name: seq<byte>, ht: NameTable?, start: nat, comp: bool) returns (err: Errno)
    requires mb.Valid() && start <= mb.pos
    modifies mb, ht
    ensures mb.Valid() && (err == OK || err == EINVAL)
    ensures var r := EncName(name, old(View(ht)), old(mb.pos) - start, comp);
            && Patched(old(mb.buf), mb.buf, old(mb.pos), r.bytes)
            && mb.pos == old(mb.pos) + |r.bytes| && View(ht) == r.tab && (err == OK <==> r.ok)
    ensures mb.end == if old(mb.end) < mb.pos then mb.pos else old(mb.end)
  {
    hide Patched, LabelBytes, LabelTable, LabelsOk, Parse, Find, Record;
    var found := LookupIn(ht, name);
    if found.Some? && comp {
      mb.WriteU16(found.value as int + 0xc000);
      return OK;
    }
    var pos := mb.pos;
    if found.None? {
      Append(ht, name, pos - start);
    }
    mb.WriteU8(0);
    if name == ROOT {
      EncRoot(old(View(ht)), pos - start, comp);
      return OK;
    }
    ghost var all := EncName(name, old(View(ht)), pos - start, comp);
    assert [] + all.bytes == all.bytes;
    assert name[0..] == name;
    ParseDescribes(name, 0);
    GrownRecord(old(View(ht)), name, pos - start);
    err := EncodeLabels(mb, name, ht, start, comp, pos, old(View(ht)), old(mb.buf), all, Parse(name));
  }

  // ---------------------------------------------------------------- decoder

  /** Behind the length byte len of a label at pos: a dot if need be, then len bytes. */
  method CopyLabel(mb: Mbuf, text: array<byte>, n: nat, len: byte) returns (m: nat)
    requires mb.Valid() && text.Length == TEXT_SIZE && n + len + 2 <= TEXT_SIZE && 0 < len && mb.pos + len <= mb.end
    modifies mb`pos, text
    ensures mb.pos == old(mb.pos) + len && m < TEXT_SIZE
    ensures text[..m] == AddLabel(old(text[..n]), mb.buf[old(mb.pos)..mb.pos])
  {
    m := n;
    if n > 0 {
      text[m] := DOT;
      m := m + 1;
    }
    ghost var head, from := text[..m], mb.pos;
    var left: nat := len;
    while left > 0
      invariant left <= len && mb.pos == from + len - left && m == |head| + len - left
      invariant text[..m] == head + mb.buf[from..mb.pos]
    {
      text[m] := mb.buf[mb.pos];
      assert text[..m + 1] == text[..m] + [text[m]];
      m := m + 1;
      mb.pos := mb.pos + 1;
      left := left - 1;
    }
  }

  lemma {:induction false} WalkJump(b: seq<byte>, end: nat, start: nat, pos: nat, text: seq<byte>, loopc: nat, ret: Option<nat>)
    requires pos + 2 <= end <= |b| && loopc <= COMP_LOOP && |text| < TEXT_SIZE && (ret.Some? ==> ret.value <= end)
    requires b[pos] >= 0xc0
    ensures Walk(b, end, start, pos, text, loopc, ret)
         == Walk(b, end, start, Get16(b, pos) % 0x4000 + start, text, loopc + 1, if ret.Some? then ret else Some(pos + 2))
  {
    TargetMask(b, pos);
  }

  lemma {:induction false} WalkOn(b: seq<byte>, end: nat, start: nat, pos: nat, text: seq<byte>, loopc: nat, ret: Option<nat>)
    requires pos < end <= |b| && loopc <= COMP_LOOP + 1 && |text| < TEXT_SIZE && (ret.Some? ==> ret.value <= end)
    requires 0 < b[pos] < 0xc0 && pos + 1 + b[pos] <= end && b[pos] + |text| + 2 <= TEXT_SIZE
    ensures Walk(b, end, start, pos, text, loopc, ret)
         == Walk(b, end, start, pos + 1 + b[pos], AddLabel(text, b[pos + 1..pos + 1 + b[pos]]), loopc, ret)
  {}

  lemma {:induction false} WalkStuck(b: seq<byte>, end: nat, start: nat, pos: nat, text: seq<byte>, loopc: nat, ret: Option<nat>)
    requires end <= |b| && loopc <= COMP_LOOP + 1 && |text| < TEXT_SIZE && (ret.Some? ==> ret.value <= end)
    requires pos < end && b[pos] < 0xc0 ==> b[pos] != 0 && (end < pos + 1 + b[pos] || b[pos] + |text| + 2 > TEXT_SIZE)
    requires pos < end && b[pos] >= 0xc0 ==> loopc > COMP_LOOP || end < pos + 2
    ensures Walk(b, end, start, pos, text, loopc, ret) == Bad
  {}

  /**
   * Reads a name: the result and the final position are those of Walk, so that decoding ends inside
   * the buffer for any bytes whatsoever.
   */
  method DecodeName(mb: Mbuf, start: nat) returns (r: Result<cstr>)
    requires mb.Valid()
    modifies mb`pos
    ensures match Walk(mb.buf, mb.end, start, old(mb.pos), [], 0, None)
      case Bad => r == Failure(EINVAL)
      case Name(text, after) => r == Success(CString(text)) && mb.pos == after
  {
    hide Walk, CString, AddLabel, Get16;
    var text := new byte[TEXT_SIZE];
    var n: nat, loopc: nat, comp, ret: nat := 0, 0, false, 0;
    while mb.pos < mb.end
      invariant n < TEXT_SIZE && loopc <= COMP_LOOP + 1 && (comp ==> ret <= mb.end)
      invariant Walk(mb.buf, mb.end, start, mb.pos, text[..n], loopc, if comp then Some(ret) else None)
             == Walk(mb.buf, mb.end, start, old(mb.pos), [], 0, None)
      decreases COMP_LOOP + 1 - loopc, mb.end - mb.pos
    {
      var len := mb.buf[mb.pos];
      ghost var pos, back := mb.pos, if comp then Some(ret) else None;
      mb.pos := mb.pos + 1;
      if len == 0 {
        WalkRoot(mb.buf, mb.end, start, pos, text[..n], loopc, back);
        if comp {
          mb.pos := ret;
        }
        return Success(CString(text[..n]));
      } else if len >= 0xc0 {
        if loopc > COMP_LOOP {
          WalkStuck(mb.buf, mb.end, start, pos, text[..n], loopc, back);
          return Failure(EINVAL);
        }
        mb.pos := mb.pos - 1;
        if mb.Left() < 2 {
          WalkStuck(mb.buf, mb.end, start, pos, text[..n], loopc, back);
          return Failure(EINVAL);
        }
        WalkJump(mb.buf, mb.end, start, pos, text[..n], loopc, back);
        loopc := loopc + 1;
        var field := mb.ReadU16();
        if !comp {
          ret, comp := mb.pos, true;
        }
        mb.pos := field % 0x4000 + start;
      } else if len > mb.Left() || len + n + 2 > TEXT_SIZE {
        WalkStuck(mb.buf, mb.end, start, pos, text[..n], loopc, back);
        return Failure(EINVAL);
      } else {
        WalkOn(mb.buf, mb.end, start, pos, text[..n], loopc, back);
        n := CopyLabel(mb, text, n, len);
      }
    }
    WalkStuck(mb.buf, mb.end, start, mb.pos, text[..n], loopc, if comp then Some(ret) else None);
    return Failure(EINVAL);
  }
}
