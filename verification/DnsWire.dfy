/**
 * What the decoder makes of the bytes of any sender: which bytes are which name, string and record,
 * in both directions. Nothing here speaks of the encoder.
 */
module DnsWire {
  import opened Bytes
  import opened DnsName
  import opened DnsRecord

  // ---------------------------------------------------------------- names

  /** The way through a name: labels, pointers, and the root at its end. */
  datatype Path = Root | Lab(lab: seq<byte>, rest: Path) | Jump(to: nat, rest: Path)

  /** The bytes in front of end that spell the path from p on; pointers count from start. */
  ghost predicate Spelled(b: seq<byte>, end: nat, start: nat, p: nat, path: Path)
    requires end <= |b|
    decreases path
  {
    match path
    case Root => p < end && b[p] == 0
    case Lab(lab, rest) =>
      && 1 <= |lab| <= 191 && p + 1 + |lab| <= end && b[p] == |lab| && HoldsAt(b, p + 1, lab)
      && Spelled(b, end, start, p + 1 + |lab|, rest)
    case Jump(to, rest) =>
      && p + 2 <= end && to <= 0x3fff && Get16(b, p) == 0xc000 + to && Spelled(b, end, start, start + to, rest)
  }

  function Hops(path: Path): nat {
    match path
    case Root => 0
    case Lab(_, rest) => Hops(rest)
    case Jump(_, rest) => 1 + Hops(rest)
  }

  /** Where the record goes on: behind the root, or behind the first pointer. */
  function After(p: nat, path: Path): nat
    decreases path
  {
    match path
    case Root => p + 1
    case Lab(lab, rest) => After(p + 1 + |lab|, rest)
    case Jump(_, _) => p + 2
  }

  predicate Bare(path: Path) {
    match path
    case Root => true
    case Lab(_, _) => false
    case Jump(_, rest) => Bare(rest)
  }

  /** The labels as they stand in the bytes, with dots between them. */
  function Dotted(path: Path): seq<byte> {
    match path
    case Root => []
    case Lab(lab, rest) => if Bare(rest) then lab else lab + [46] + Dotted(rest)
    case Jump(_, rest) => Dotted(rest)
  }

  function Extend(text: seq<byte>, path: Path): seq<byte>
    decreases path
  {
    match path
    case Root => text
    case Lab(lab, rest) => Extend(AddLabel(text, lab), rest)
    case Jump(_, rest) => Extend(text, rest)
  }

  lemma {:induction false} ExtendIs(text: seq<byte>, path: Path, b: seq<byte>, end: nat, start: nat, p: nat)
    requires end <= |b| && Spelled(b, end, start, p, path)
    ensures Extend(text, path) == if Bare(path) then text else if text == [] then Dotted(path) else text + [46] + Dotted(path)
    ensures |Extend(text, path)| >= |text|
    decreases path
  {
    hide HoldsAt;
    match path
    case Root =>
    case Lab(lab, rest) =>
      ExtendIs(AddLabel(text, lab), rest, b, end, start, p + 1 + |lab|);
      assert text + [46] + (lab + [46] + Dotted(rest)) == text + [46] + lab + [46] + Dotted(rest);
    case Jump(to, rest) =>
      ExtendIs(text, rest, b, end, start, start + to);
  }

  /** One turn of the decoder loop. */
  lemma {:induction false} Turn(b: seq<byte>, end: nat, start: nat, p: nat, text: seq<byte>, loopc: nat, ret: Option<nat>)
    requires end <= |b| && loopc <= 256 && |text| <= 255 && (ret.Some? ==> ret.value <= end)
    ensures var w := Walk(b, end, start, p, text, loopc, ret);
            && (p >= end ==> w == Bad)
            && (p < end && b[p] == 0 ==> w == Name(text, if ret.Some? then ret.value else p + 1))
            && (p < end && b[p] >= 0xc0 ==>
                  if loopc == 256 || p + 2 > end then w == Bad
                  else w == Walk(b, end, start, start + Target(b, p), text, loopc + 1, if ret.Some? then ret else Some(p + 2)))
            && (p < end && 1 <= b[p] <= 191 ==>
                  if p + 1 + b[p] > end || b[p] + |text| > 254 then w == Bad
                  else w == Walk(b, end, start, p + 1 + b[p], AddLabel(text, b[p + 1..p + 1 + b[p]]), loopc, ret))
  {}

  /** What the decoder loop finds on a path with at most 256 pointers and 255 characters. */
  lemma {:induction false} WalkPath(b: seq<byte>, end: nat, start: nat, p: nat, path: Path, text: seq<byte>, loopc: nat, ret: Option<nat>)
    requires end <= |b| && Spelled(b, end, start, p, path) && loopc + Hops(path) <= 256
    requires |Extend(text, path)| <= 255 && |text| <= 255 && (ret.Some? ==> ret.value <= end)
    ensures Walk(b, end, start, p, text, loopc, ret) == Name(Extend(text, path), if ret.Some? then ret.value else After(p, path))
    decreases path
  {
    hide Walk, HoldsAt, Target, Spelled, Extend, Hops, After, AddLabel;
    Unfold(b, end, start, p, path, text);
    match path
    case Root =>
      Turn(b, end, start, p, text, loopc, ret);
    case Lab(lab, rest) =>
      var q, text' := p + 1 + |lab|, AddLabel(text, lab);
      ExtendIs(text', rest, b, end, start, q);
      TurnLabel(b, end, start, p, lab, text, loopc, ret);
      WalkPath(b, end, start, q, rest, text', loopc, ret);
    case Jump(to, rest) =>
      TurnJump(b, end, start, p, to, text, loopc, ret);
      WalkPath(b, end, start, start + to, rest, text, loopc + 1, if ret.Some? then ret else Some(p + 2));
  }

  lemma {:induction false} Unfold(b: seq<byte>, end: nat, start: nat, p: nat, path: Path, text: seq<byte>)
    requires end <= |b| && Spelled(b, end, start, p, path)
    ensures path.Root? ==> p < end && b[p] == 0 && Extend(text, path) == text && After(p, path) == p + 1
    ensures path.Lab? ==>
      && 1 <= |path.lab| <= 191 && p + 1 + |path.lab| <= end && b[p] == |path.lab| && HoldsAt(b, p + 1, path.lab)
      && Spelled(b, end, start, p + 1 + |path.lab|, path.rest) && Hops(path) == Hops(path.rest)
      && Extend(text, path) == Extend(AddLabel(text, path.lab), path.rest) && After(p, path) == After(p + 1 + |path.lab|, path.rest)
    ensures path.Jump? ==>
      && p + 2 <= end && path.to <= 0x3fff && Get16(b, p) == 0xc000 + path.to && Spelled(b, end, start, start + path.to, path.rest)
      && Hops(path) == 1 + Hops(path.rest) && Extend(text, path) == Extend(text, path.rest) && After(p, path) == p + 2
  {}

  lemma {:induction false} TurnLabel(b: seq<byte>, end: nat, start: nat, p: nat, lab: seq<byte>, text: seq<byte>, loopc: nat, ret: Option<nat>)
    requires end <= |b| && loopc <= 256 && |AddLabel(text, lab)| <= 255 && (ret.Some? ==> ret.value <= end)
    requires 1 <= |lab| <= 191 && p + 1 + |lab| <= end && b[p] == |lab| && HoldsAt(b, p + 1, lab)
    ensures |text| <= 255
    ensures Walk(b, end, start, p, text, loopc, ret) == Walk(b, end, start, p + 1 + |lab|, AddLabel(text, lab), loopc, ret)
  {
    hide Walk;
    Turn(b, end, start, p, text, loopc, ret);
    assert b[p + 1..p + 1 + |lab|] == lab;
  }

  lemma {:induction false} TurnJump(b: seq<byte>, end: nat, start: nat, p: nat, to: nat, text: seq<byte>, loopc: nat, ret: Option<nat>)
    requires end <= |b| && loopc < 256 && |text| <= 255 && (ret.Some? ==> ret.value <= end)
    requires p + 2 <= end && to <= 0x3fff && Get16(b, p) == 0xc000 + to
    ensures Walk(b, end, start, p, text, loopc, ret) ==
            Walk(b, end, start, start + to, text, loopc + 1, if ret.Some? then ret else Some(p + 2))
  {
    hide Walk;
    Turn(b, end, start, p, text, loopc, ret);
    JumpTo(b, p, to);
  }

  lemma {:induction false} JumpTo(b: seq<byte>, p: nat, to: nat)
    requires p + 2 <= |b| && to <= 0x3fff
    ensures Get16(b, p) == 0xc000 + to <==> b[p] >= 0xc0 && Target(b, p) == to
  {}

  /** Whatever the decoder loop finds is on such a path. */
  lemma {:induction false} PathOf(b: seq<byte>, end: nat, start: nat, p: nat, text: seq<byte>, loopc: nat, ret: Option<nat>) returns (path: Path)
    requires end <= |b| && loopc <= 256 && |text| <= 255 && (ret.Some? ==> ret.value <= end)
    requires Walk(b, end, start, p, text, loopc, ret).Name?
    ensures Spelled(b, end, start, p, path) && loopc + Hops(path) <= 256 && |Extend(text, path)| <= 255
    decreases COMP_LOOP + 1 - loopc, if p < end then end - p else 0
  {
    hide Walk;
    Turn(b, end, start, p, text, loopc, ret);
    var len := b[p];
    if len == 0 {
      path := Root;
    } else if len >= 0xc0 {
      var to := Target(b, p);
      JumpTo(b, p, to);
      var rest := PathOf(b, end, start, start + to, text, loopc + 1, if ret.Some? then ret else Some(p + 2));
      path := Jump(to, rest);
    } else {
      var lab := b[p + 1..p + 1 + len];
      var rest := PathOf(b, end, start, p + 1 + len, AddLabel(text, lab), loopc, ret);
      path := Lab(lab, rest);
    }
  }

  /** The bytes at p are the name n, and the record goes on at q. */
  ghost predicate NameAt(b: seq<byte>, end: nat, start: nat, p: nat, n: cstr, q: nat)
    requires end <= |b|
  {
    exists path :: Spelled(b, end, start, p, path) && Hops(path) <= 256 && |Dotted(path)| <= 255
                   && n == CString(Dotted(path)) && q == After(p, path)
  }

  /**
   * A name is read exactly if its bytes spell one with at most 256 pointers and 255 characters: the
   * labels as they stand there, up to a zero byte, with dots between them.
   */
  lemma {:induction false} NameReadIff(b: seq<byte>, end: nat, start: nat, p: nat, n: cstr, q: nat)
    requires end <= |b|
    ensures DecName(b, end, start, p) == Success((n, q)) <==> NameAt(b, end, start, p, n, q)
  {
    hide Walk, Spelled, CString, Extend;
    if NameAt(b, end, start, p, n, q) {
      var path :| Spelled(b, end, start, p, path) && Hops(path) <= 256 && |Dotted(path)| <= 255
                  && n == CString(Dotted(path)) && q == After(p, path);
      DottedIs(path, b, end, start, p);
      WalkPath(b, end, start, p, path, [], 0, None);
    }
    if DecName(b, end, start, p).Success? {
      var path := PathOf(b, end, start, p, [], 0, None);
      DottedIs(path, b, end, start, p);
      WalkPath(b, end, start, p, path, [], 0, None);
    }
  }

  lemma {:induction false} DottedIs(path: Path, b: seq<byte>, end: nat, start: nat, p: nat)
    requires end <= |b| && Spelled(b, end, start, p, path)
    ensures Extend([], path) == Dotted(path)
  {
    ExtendIs([], path, b, end, start, p);
    if Bare(path) {
      BareIs(path);
    }
  }

  lemma {:induction false} BareIs(path: Path)
    requires Bare(path)
    ensures Dotted(path) == []
    decreases path
  {
    if path.Jump? {
      BareIs(path.rest);
    }
  }

  // ---------------------------------------------------------------- numbers and strings

  ghost predicate Num16(b: seq<byte>, end: nat, p: nat, v: u16) {
    p + 2 <= end && HoldsAt(b, p, Be16(v))
  }

  ghost predicate Num32(b: seq<byte>, end: nat, p: nat, v: u32) {
    p + 4 <= end && HoldsAt(b, p, Be32(v))
  }

  lemma {:induction false} Num16Iff(b: seq<byte>, end: nat, start: nat, p: nat, v: u16, q: nat)
    requires end <= |b|
    ensures DecField(K16, b, end, start, p) == Success((F16(v), q)) <==> Num16(b, end, p, v) && q == p + 2
  {
    if p + 2 <= end {
      assert b[p..p + 2] == [b[p], b[p + 1]] == Be16(Get16(b, p));
      if HoldsAt(b, p, Be16(v)) {
        Holds16(b, p, v);
      }
    }
  }

  lemma {:induction false} Num32Iff(b: seq<byte>, end: nat, start: nat, p: nat, v: u32, q: nat)
    requires end <= |b|
    ensures DecField(K32, b, end, start, p) == Success((F32(v), q)) <==> Num32(b, end, p, v) && q == p + 4
  {
    if p + 4 <= end {
      Split32(b, p);
      if HoldsAt(b, p, Be32(v)) {
        Holds32(b, p, v);
      }
    }
  }

  lemma {:induction false} Split32(b: seq<byte>, p: nat)
    requires p + 4 <= |b|
    ensures HoldsAt(b, p, Be32(Get32(b, p)))
  {
    var w := Get32(b, p);
    assert w / 0x1_0000 == Get16(b, p) && w % 0x1_0000 == Get16(b, p + 2);
    assert Be32(w) == [b[p], b[p + 1], b[p + 2], b[p + 3]];
  }

  /** A character string: a length byte and that many bytes, up to a zero byte. */
  ghost predicate StrAt(b: seq<byte>, end: nat, p: nat, s: cstr, q: nat) {
    exists raw :: HoldsAt(b, p, raw) && StrIs(raw, s) && q == p + |raw| <= end
  }

  predicate StrIs(raw: seq<byte>, s: cstr) {
    raw != [] && raw[0] == |raw| - 1 && s == CString(raw[1..])
  }

  lemma {:induction false} StrReadIff(b: seq<byte>, end: nat, start: nat, p: nat, s: cstr, q: nat)
    requires end <= |b|
    ensures DecField(KStr, b, end, start, p) == Success((FStr(s), q)) <==> StrAt(b, end, p, s, q)
  {
    hide CString, DecTxt, DecName, HoldsAt, StrIs;
    if p < end && p + 1 + b[p] <= end {
      StrHere(b, p);
    }
    if StrAt(b, end, p, s, q) {
      var raw :| HoldsAt(b, p, raw) && StrIs(raw, s) && q == p + |raw| <= end;
      StrFound(b, p, raw, s);
    }
  }

  lemma {:induction false} StrHere(b: seq<byte>, p: nat)
    requires p + 1 <= |b| && p + 1 + b[p] <= |b|
    ensures var raw := b[p..p + 1 + b[p]]; HoldsAt(b, p, raw) && StrIs(raw, CString(b[p + 1..p + 1 + b[p]]))
  {
    hide CString;
    var raw := b[p..p + 1 + b[p]];
    assert raw[1..] == b[p + 1..p + 1 + b[p]];
  }

  lemma {:induction false} StrFound(b: seq<byte>, p: nat, raw: seq<byte>, s: cstr)
    requires HoldsAt(b, p, raw) && StrIs(raw, s)
    ensures p < |b| && b[p] == |raw| - 1 && p + |raw| <= |b| && s == CString(b[p + 1..p + |raw|])
  {
    hide CString;
    HoldsAtIndex(b, p, raw, 0);
    assert raw[1..] == b[p + 1..p + |raw|];
  }

  type strings = ss: seq<seq<byte>> | forall i :: 0 <= i < |ss| ==> |ss[i]| <= 255

  /** Strings one behind the other, each behind its length. */
  function StringsBytes(ss: strings): seq<byte> {
    if ss == [] then [] else [|ss[0]|] + ss[0] + StringsBytes(ss[1..])
  }

  function Concat(ss: seq<seq<byte>>): seq<byte> {
    if ss == [] then [] else ss[0] + Concat(ss[1..])
  }

  /** Any number of strings is read as their concatenation. */
  lemma {:induction false} StringsRead(ss: strings, b: seq<byte>, p: nat, n: nat, acc: seq<byte>)
    requires p + n <= |b| && HoldsAt(b, p, StringsBytes(ss)) && n == |StringsBytes(ss)|
    ensures DecTxt(b, p, n, acc) == Success((acc + Concat(ss), p + n))
    decreases |ss|
  {
    hide HoldsAt;
    if ss != [] {
      FirstString(ss, b, p);
      StringsRead(ss[1..], b, p + 1 + |ss[0]|, n - 1 - |ss[0]|, acc + ss[0]);
      assert acc + ss[0] + Concat(ss[1..]) == acc + (ss[0] + Concat(ss[1..]));
    } else {
      assert acc + [] == acc;
    }
  }

  lemma {:induction false} FirstString(ss: strings, b: seq<byte>, p: nat)
    requires ss != [] && HoldsAt(b, p, StringsBytes(ss))
    ensures var q := p + 1 + |ss[0]|;
            && q <= |b| && b[p] == |ss[0]| && b[p + 1..q] == ss[0] && HoldsAt(b, q, StringsBytes(ss[1..]))
            && |StringsBytes(ss)| == 1 + |ss[0]| + |StringsBytes(ss[1..])|
  {
    hide HoldsAt;
    var h, s, rest := [|ss[0]|], ss[0], StringsBytes(ss[1..]);
    HoldsAtSplit(b, p, h + s, rest);
    HoldsAtSplit(b, p, h, s);
    HoldsAtIndex(b, p, h, 0);
    Sliced(b, p + 1, s);
  }

  lemma {:induction false} Sliced(b: seq<byte>, p: nat, d: seq<byte>)
    requires HoldsAt(b, p, d)
    ensures p + |d| <= |b| && b[p..p + |d|] == d
  {}

  /** Strings behind which a length byte goes beyond the data are refused. */
  lemma {:induction false} StringTooLong(ss: strings, b: seq<byte>, p: nat, n: nat, acc: seq<byte>)
    requires p + n <= |b| && HoldsAt(b, p, StringsBytes(ss)) && |StringsBytes(ss)| < n
    requires b[p + |StringsBytes(ss)|] >= n - |StringsBytes(ss)|
    ensures DecTxt(b, p, n, acc) == Failure(EINVAL)
    decreases |ss|
  {
    hide HoldsAt;
    if ss != [] {
      FirstString(ss, b, p);
      StringTooLong(ss[1..], b, p + 1 + |ss[0]|, n - 1 - |ss[0]|, acc + ss[0]);
    }
  }

  /** Every input is one of the two. */
  lemma {:induction false} StringsOf(b: seq<byte>, p: nat, n: nat) returns (ss: strings)
    requires p + n <= |b|
    ensures HoldsAt(b, p, StringsBytes(ss)) && |StringsBytes(ss)| <= n
    ensures |StringsBytes(ss)| < n ==> b[p + |StringsBytes(ss)|] >= n - |StringsBytes(ss)|
    decreases n
  {
    hide HoldsAt;
    ss := [];
    HoldsNothing(b, p);
    if n > 0 && b[p] < n {
      var len := b[p];
      var s := b[p + 1..p + 1 + len];
      var rest := StringsOf(b, p + 1 + len, n - 1 - len);
      ss := [s] + rest;
      OneString(b, p, s, rest);
    }
  }

  lemma {:induction false} HoldsNothing(b: seq<byte>, p: nat)
    requires p <= |b|
    ensures HoldsAt(b, p, [])
  {}

  lemma {:induction false} OneString(b: seq<byte>, p: nat, s: seq<byte>, rest: strings)
    requires p + 1 + |s| <= |b| && |s| <= 255 && b[p] == |s| && b[p + 1..p + 1 + |s|] == s && HoldsAt(b, p + 1 + |s|, StringsBytes(rest))
    ensures var ss: strings := [s] + rest;
            HoldsAt(b, p, StringsBytes(ss)) && |StringsBytes(ss)| == 1 + |s| + |StringsBytes(rest)|
  {
    var ss: strings := [s] + rest;
    assert ss[1..] == rest;
    HoldsAtSplit(b, p, [|s|] + s, StringsBytes(rest));
    assert b[p..p + 1 + |s|] == [|s|] + s;
  }

  /** Text data: the n bytes at p are strings that make up s, up to a zero byte. */
  ghost predicate TxtAt(b: seq<byte>, p: nat, n: nat, s: cstr) {
    exists ss: strings :: HoldsAt(b, p, StringsBytes(ss)) && |StringsBytes(ss)| == n && s == CString(Concat(ss))
  }

  lemma {:induction false} TxtReadIff(b: seq<byte>, end: nat, start: nat, p: nat, n: nat, s: cstr, q: nat)
    requires p + n <= end <= |b|
    ensures DecField(KTxt(n), b, end, start, p) == Success((FTxt(s), q)) <==> TxtAt(b, p, n, s) && q == p + n
  {
    hide HoldsAt, StringsBytes, Concat, CString, DecTxt, DecName;
    if TxtAt(b, p, n, s) {
      var ss: strings :| HoldsAt(b, p, StringsBytes(ss)) && |StringsBytes(ss)| == n && s == CString(Concat(ss));
      StringsRead(ss, b, p, n, []);
      assert [] + Concat(ss) == Concat(ss);
    }
    if DecTxt(b, p, n, []).Success? {
      var ss := StringsOf(b, p, n);
      if |StringsBytes(ss)| < n {
        StringTooLong(ss, b, p, n, []);
      } else {
        StringsRead(ss, b, p, n, []);
        assert [] + Concat(ss) == Concat(ss);
      }
    }
  }

  // ---------------------------------------------------------------- record data

  /** The data of a record of this type and length, from p to q. */
  ghost predicate DataAt(typ: u16, rdlen: u16, rd: Rdata, b: seq<byte>, end: nat, start: nat, p: nat, q: nat)
    requires end <= |b|
  {
    if typ == 1 then rd.A? && rdlen == 4 && Num32(b, end, p, rd.addr) && q == p + 4
    else if typ == 2 then rd.Ns? && NameAt(b, end, start, p, rd.nsdname, q)
    else if typ == 5 then rd.Cname? && NameAt(b, end, start, p, rd.cname, q)
    else if typ == 6 then rd.Soa? && exists m: nat, r: nat :: SoaAt(rd, b, end, start, p, m, r) && q == r + 20
    else if typ == 12 then rd.Ptr? && NameAt(b, end, start, p, rd.ptrdname, q)
    else if typ == 15 then rd.Mx? && Num16(b, end, p, rd.pref) && NameAt(b, end, start, p + 2, rd.exchange, q)
    else if typ == 16 then rd.Txt? && TxtAt(b, p, rdlen, rd.data) && q == p + rdlen
    else if typ == 28 then rd.Aaaa? && rdlen == 16 && HoldsAt(b, p, rd.addr6) && q == p + 16
    else if typ == 33 then
      rd.Srv? && Num16(b, end, p, rd.pri) && Num16(b, end, p + 2, rd.weight) && Num16(b, end, p + 4, rd.port)
      && NameAt(b, end, start, p + 6, rd.target, q)
    else if typ == 35 then rd.Naptr? && exists f: nat, s: nat, r: nat :: NaptrAt(rd, b, end, start, p, f, s, r, q)
    else rd.Unknown? && rd.typ == typ && q == p + rdlen
  }

  /** Two names up to m and r, then five numbers. */
  ghost predicate SoaAt(rd: Rdata, b: seq<byte>, end: nat, start: nat, p: nat, m: nat, r: nat)
    requires end <= |b| && rd.Soa?
  {
    && NameAt(b, end, start, p, rd.mname, m) && NameAt(b, end, start, m, rd.rname, r)
    && Num32(b, end, r, rd.serial) && Num32(b, end, r + 4, rd.refresh) && Num32(b, end, r + 8, rd.retry)
    && Num32(b, end, r + 12, rd.expire) && Num32(b, end, r + 16, rd.ttlmin)
  }

  /** Two numbers, three strings up to f, s and r, then a name. */
  ghost predicate NaptrAt(rd: Rdata, b: seq<byte>, end: nat, start: nat, p: nat, f: nat, s: nat, r: nat, q: nat)
    requires end <= |b| && rd.Naptr?
  {
    && Num16(b, end, p, rd.order) && Num16(b, end, p + 2, rd.npref)
    && StrAt(b, end, p + 4, rd.flags, f) && StrAt(b, end, f, rd.services, s) && StrAt(b, end, s, rd.regexp, r)
    && NameAt(b, end, start, r, rd.replace, q)
  }

  lemma {:induction false} NameFieldIff(b: seq<byte>, end: nat, start: nat, p: nat, n: cstr, q: nat)
    requires end <= |b|
    ensures DecField(KName, b, end, start, p) == Success((FName(n, false), q)) <==> NameAt(b, end, start, p, n, q)
  {
    hide DecName, NameAt;
    NameReadIff(b, end, start, p, n, q);
  }

  /** What a field of this kind is, from p to q. */
  ghost predicate FieldAt(k: Kind, f: Field, b: seq<byte>, end: nat, start: nat, p: nat, q: nat)
    requires end <= |b|
  {
    match k
    case K16 => f.F16? && Num16(b, end, p, f.v) && q == p + 2
    case K32 => f.F32? && Num32(b, end, p, f.w) && q == p + 4
    case KName => f.FName? && !f.comp && NameAt(b, end, start, p, f.name, q)
    case KStr => f.FStr? && StrAt(b, end, p, f.str, q)
    case KTxt(n) => f.FTxt? && p + n <= end && TxtAt(b, p, n, f.txt) && q == p + n
    case KRaw(n) => f.FRaw? && |f.raw| == n && p + n <= end && HoldsAt(b, p, f.raw) && q == p + n
  }

  lemma {:induction false} FieldReadIff(k: Kind, f: Field, b: seq<byte>, end: nat, start: nat, p: nat, q: nat)
    requires end <= |b|
    ensures DecField(k, b, end, start, p) == Success((f, q)) <==> FieldAt(k, f, b, end, start, p, q)
  {
    hide DecName, NameAt, Num16, Num32, StrAt, TxtAt, DecTxt, CString;
    match k
    case K16 => if f.F16? { Num16Iff(b, end, start, p, f.v, q); }
    case K32 => if f.F32? { Num32Iff(b, end, start, p, f.w, q); }
    case KName => if f.FName? { NameFieldIff(b, end, start, p, f.name, q); }
    case KStr => if f.FStr? { StrReadIff(b, end, start, p, f.str, q); }
    case KTxt(n) => if f.FTxt? && p + n <= end { TxtReadIff(b, end, start, p, n, f.txt, q); }
    case KRaw(n) => if f.FRaw? && p + n <= end { RawIff(b, p, n, f.raw); }
  }

  lemma {:induction false} RawIff(b: seq<byte>, p: nat, n: nat, raw: seq<byte>)
    requires p + n <= |b|
    ensures b[p..p + n] == raw <==> |raw| == n && HoldsAt(b, p, raw)
  {}

  /** The fields from the i-th on, one behind the other, from p to q. */
  ghost predicate FieldsAt(ks: seq<Kind>, i: nat, fs: seq<Field>, b: seq<byte>, end: nat, start: nat, p: nat, q: nat)
    requires i <= |ks| == |fs| && end <= |b|
    decreases |ks| - i
  {
    if i == |ks| then p == q
    else exists m: nat :: FieldAt(ks[i], fs[i], b, end, start, p, m) && FieldsAt(ks, i + 1, fs, b, end, start, m, q)
  }

  lemma {:induction false} FieldsRead(ks: seq<Kind>, i: nat, fs: seq<Field>, b: seq<byte>, end: nat, start: nat, p: nat, q: nat)
    requires i <= |ks| == |fs| && end <= |b| && FieldsAt(ks, i, fs, b, end, start, p, q)
    ensures DecFields(ks, i, b, end, start, p, fs[..i]) == Success((fs, q))
    decreases |ks| - i
  {
    hide DecField, FieldAt;
    if i == |ks| {
      assert fs[..i] == fs;
    } else {
      var m: nat :| FieldAt(ks[i], fs[i], b, end, start, p, m) && FieldsAt(ks, i + 1, fs, b, end, start, m, q);
      FieldReadIff(ks[i], fs[i], b, end, start, p, m);
      FieldsRead(ks, i + 1, fs, b, end, start, m, q);
      assert fs[..i + 1] == fs[..i] + [fs[i]];
    }
  }

  lemma {:induction false} FieldsFound(ks: seq<Kind>, i: nat, b: seq<byte>, end: nat, start: nat, p: nat, vals: seq<Field>)
    requires i == |vals| <= |ks| && end <= |b| && DecFields(ks, i, b, end, start, p, vals).Success?
    ensures var r := DecFields(ks, i, b, end, start, p, vals).value;
            |r.0| == |ks| && r.0[..i] == vals && FieldsAt(ks, i, r.0, b, end, start, p, r.1)
    decreases |ks| - i
  {
    hide DecField, FieldAt;
    if i < |ks| {
      var f := DecField(ks[i], b, end, start, p).value;
      FieldReadIff(ks[i], f.0, b, end, start, p, f.1);
      FieldsFound(ks, i + 1, b, end, start, f.1, vals + [f.0]);
      var r := DecFields(ks, i, b, end, start, p, vals).value;
      assert r.0[i] == r.0[..i + 1][i] == f.0 && r.0[..i] == r.0[..i + 1][..i];
    }
  }

  /** The fields in the order of the record data; what a name was written with is not known to a reader. */
  function Flat(rd: Rdata): seq<Field> {
    match rd
    case A(addr) => [F32(addr)]
    case Ns(n) => [FName(n, false)]
    case Cname(n) => [FName(n, false)]
    case Soa(m, r, s, f, t, e, l) => [FName(m, false), FName(r, false), F32(s), F32(f), F32(t), F32(e), F32(l)]
    case Ptr(n) => [FName(n, false)]
    case Mx(p, n) => [F16(p), FName(n, false)]
    case Txt(d) => [FTxt(d)]
    case Aaaa(a) => [FRaw(a)]
    case Srv(p, w, o, t) => [F16(p), F16(w), F16(o), FName(t, false)]
    case Naptr(o, p, f, s, r, t) => [F16(o), F16(p), FStr(f), FStr(s), FStr(r), FName(t, false)]
    case Unknown(_) => []
  }

  lemma {:induction false} BuildFlat(typ: u16, rdlen: u16, vals: seq<Field>)
    requires Known(typ) && Kinds(typ, rdlen).Success?
    requires var ks := Kinds(typ, rdlen).value;
             |vals| == |ks| && forall j :: 0 <= j < |ks| ==> KindOk(ks[j], vals[j]) && (vals[j].FName? ==> !vals[j].comp)
    ensures Fits(typ, vals) && Flat(Build(typ, vals)) == vals
  {
    KindsFit(typ, rdlen, vals);
    var ks := Kinds(typ, rdlen).value;
    assert forall j :: 0 <= j < |ks| ==> KindOk(ks[j], vals[j]);
  }

  lemma {:induction false} FlatBuild(typ: u16, rdlen: u16, rd: Rdata)
    requires Known(typ) && Kinds(typ, rdlen).Success? && TypeOf(rd) == typ
    ensures Fits(typ, Flat(rd)) && Build(typ, Flat(rd)) == rd && |Flat(rd)| == |Kinds(typ, rdlen).value|
  {}

  lemma {:induction false} FieldsEach(ks: seq<Kind>, i: nat, fs: seq<Field>, b: seq<byte>, end: nat, start: nat, p: nat, q: nat)
    requires i <= |ks| == |fs| && end <= |b| && FieldsAt(ks, i, fs, b, end, start, p, q)
    ensures forall j :: i <= j < |ks| ==> KindOk(ks[j], fs[j]) && (fs[j].FName? ==> !fs[j].comp)
    decreases |ks| - i
  {
    hide NameAt, Num16, Num32, StrAt, TxtAt;
    if i < |ks| {
      var m: nat :| FieldAt(ks[i], fs[i], b, end, start, p, m) && FieldsAt(ks, i + 1, fs, b, end, start, m, q);
      FieldsEach(ks, i + 1, fs, b, end, start, m, q);
    }
  }

  lemma {:induction false} KnownIff(typ: u16, rdlen: u16, rd: Rdata, b: seq<byte>, end: nat, start: nat, p: nat, q: nat)
    requires Known(typ) && p + rdlen <= end <= |b|
    ensures DecRdata(typ, rdlen, b, end, start, p) == Success((rd, q)) <==>
            && Kinds(typ, rdlen).Success? && TypeOf(rd) == typ && |Flat(rd)| == |Kinds(typ, rdlen).value|
            && FieldsAt(Kinds(typ, rdlen).value, 0, Flat(rd), b, end, start, p, q)
  {
    hide FieldsAt, DecFields, Flat, Build, Kinds, Known, Fits;
    if Kinds(typ, rdlen).Success? {
      var ks := Kinds(typ, rdlen).value;
      if TypeOf(rd) == typ && |Flat(rd)| == |ks| && FieldsAt(ks, 0, Flat(rd), b, end, start, p, q) {
        FieldsRead(ks, 0, Flat(rd), b, end, start, p, q);
        assert Flat(rd)[..0] == [];
        FlatBuild(typ, rdlen, rd);
      }
      if DecFields(ks, 0, b, end, start, p, []).Success? {
        var r := DecFields(ks, 0, b, end, start, p, []).value;
        FieldsFound(ks, 0, b, end, start, p, []);
        FieldsEach(ks, 0, r.0, b, end, start, p, r.1);
        BuildFlat(typ, rdlen, r.0);
      }
    }
  }

  /** A number, then the rest. */
  lemma {:induction false} NumberFirst(ks: seq<Kind>, i: nat, fs: seq<Field>, b: seq<byte>, end: nat, start: nat, p: nat, q: nat)
    requires i < |ks| == |fs| && end <= |b|
    ensures ks[i].K16? && fs[i].F16? ==>
              (FieldsAt(ks, i, fs, b, end, start, p, q) <==> Num16(b, end, p, fs[i].v) && FieldsAt(ks, i + 1, fs, b, end, start, p + 2, q))
    ensures ks[i].K32? && fs[i].F32? ==>
              (FieldsAt(ks, i, fs, b, end, start, p, q) <==> Num32(b, end, p, fs[i].w) && FieldsAt(ks, i + 1, fs, b, end, start, p + 4, q))
  {
    hide Num16, Num32;
    if ks[i].K16? && fs[i].F16? && Num16(b, end, p, fs[i].v) {
      assert FieldAt(ks[i], fs[i], b, end, start, p, p + 2);
    }
    if ks[i].K32? && fs[i].F32? && Num32(b, end, p, fs[i].w) {
      assert FieldAt(ks[i], fs[i], b, end, start, p, p + 4);
    }
  }

  /** A name or a string that ends at m, then the rest. */
  lemma {:induction false} TextFirst(ks: seq<Kind>, i: nat, fs: seq<Field>, b: seq<byte>, end: nat, start: nat, p: nat, q: nat)
    requires i < |ks| == |fs| && end <= |b|
    ensures ks[i].KName? && fs[i].FName? && !fs[i].comp ==>
              (FieldsAt(ks, i, fs, b, end, start, p, q) <==>
               exists m: nat :: NameAt(b, end, start, p, fs[i].name, m) && FieldsAt(ks, i + 1, fs, b, end, start, m, q))
    ensures ks[i].KStr? && fs[i].FStr? ==>
              (FieldsAt(ks, i, fs, b, end, start, p, q) <==>
               exists m: nat :: StrAt(b, end, p, fs[i].str, m) && FieldsAt(ks, i + 1, fs, b, end, start, m, q))
  {
    hide NameAt, StrAt;
    if ks[i].KName? && fs[i].FName? && !fs[i].comp {
      forall m: nat
        ensures FieldAt(ks[i], fs[i], b, end, start, p, m) <==> NameAt(b, end, start, p, fs[i].name, m)
      {}
    }
    if ks[i].KStr? && fs[i].FStr? {
      forall m: nat
        ensures FieldAt(ks[i], fs[i], b, end, start, p, m) <==> StrAt(b, end, p, fs[i].str, m)
      {}
    }
  }

  lemma {:induction false} NoFields(ks: seq<Kind>, fs: seq<Field>, b: seq<byte>, end: nat, start: nat, p: nat, q: nat)
    requires |ks| == |fs| && end <= |b|
    ensures FieldsAt(ks, |ks|, fs, b, end, start, p, q) <==> p == q
  {}

  /** Data that is one name from the i-th field on. */
  lemma {:induction false} NameLast(ks: seq<Kind>, fs: seq<Field>, b: seq<byte>, end: nat, start: nat, p: nat, q: nat)
    requires 0 < |ks| == |fs| && end <= |b| && ks[|ks| - 1].KName? && fs[|ks| - 1].FName? && !fs[|ks| - 1].comp
    ensures FieldsAt(ks, |ks| - 1, fs, b, end, start, p, q) <==> NameAt(b, end, start, p, fs[|ks| - 1].name, q)
  {
    hide NameAt, FieldsAt;
    TextFirst(ks, |ks| - 1, fs, b, end, start, p, q);
    forall m: nat
      ensures FieldsAt(ks, |ks|, fs, b, end, start, m, q) <==> m == q
    {
      NoFields(ks, fs, b, end, start, m, q);
    }
  }

  lemma {:induction false} SoaIff(rdlen: u16, rd: Rdata, b: seq<byte>, end: nat, start: nat, p: nat, q: nat)
    requires rd.Soa? && end <= |b|
    ensures FieldsAt(Kinds(6, rdlen).value, 0, Flat(rd), b, end, start, p, q) <==>
            exists m: nat, r: nat :: SoaAt(rd, b, end, start, p, m, r) && q == r + 20
  {
    hide NameAt, FieldsAt, Num32;
    var ks, fs := Kinds(6, rdlen).value, Flat(rd);
    TextFirst(ks, 0, fs, b, end, start, p, q);
    forall m: nat
      ensures FieldsAt(ks, 1, fs, b, end, start, m, q) <==>
              exists r: nat :: NameAt(b, end, start, m, rd.rname, r) && FieldsAt(ks, 2, fs, b, end, start, r, q)
    {
      TextFirst(ks, 1, fs, b, end, start, m, q);
    }
    forall r: nat
      ensures FieldsAt(ks, 2, fs, b, end, start, r, q) <==>
              && Num32(b, end, r, rd.serial) && Num32(b, end, r + 4, rd.refresh) && Num32(b, end, r + 8, rd.retry)
              && Num32(b, end, r + 12, rd.expire) && Num32(b, end, r + 16, rd.ttlmin) && q == r + 20
    {
      NumberFirst(ks, 2, fs, b, end, start, r, q);
      NumberFirst(ks, 3, fs, b, end, start, r + 4, q);
      NumberFirst(ks, 4, fs, b, end, start, r + 8, q);
      NumberFirst(ks, 5, fs, b, end, start, r + 12, q);
      NumberFirst(ks, 6, fs, b, end, start, r + 16, q);
      NoFields(ks, fs, b, end, start, r + 20, q);
    }
    if FieldsAt(ks, 0, fs, b, end, start, p, q) {
      var m: nat :| NameAt(b, end, start, p, rd.mname, m) && FieldsAt(ks, 1, fs, b, end, start, m, q);
      var r: nat :| NameAt(b, end, start, m, rd.rname, r) && FieldsAt(ks, 2, fs, b, end, start, r, q);
      assert SoaAt(rd, b, end, start, p, m, r);
    }
    if m: nat, r: nat :| SoaAt(rd, b, end, start, p, m, r) && q == r + 20 {
      assert FieldsAt(ks, 2, fs, b, end, start, r, q);
      assert FieldsAt(ks, 1, fs, b, end, start, m, q);
    }
  }

  lemma {:induction false} NaptrIff(rdlen: u16, rd: Rdata, b: seq<byte>, end: nat, start: nat, p: nat, q: nat)
    requires rd.Naptr? && end <= |b|
    ensures FieldsAt(Kinds(35, rdlen).value, 0, Flat(rd), b, end, start, p, q) <==>
            exists f: nat, s: nat, r: nat :: NaptrAt(rd, b, end, start, p, f, s, r, q)
  {
    hide NameAt, FieldsAt, Num16, StrAt;
    var ks, fs := Kinds(35, rdlen).value, Flat(rd);
    NumberFirst(ks, 0, fs, b, end, start, p, q);
    NumberFirst(ks, 1, fs, b, end, start, p + 2, q);
    TextFirst(ks, 2, fs, b, end, start, p + 4, q);
    forall f: nat
      ensures FieldsAt(ks, 3, fs, b, end, start, f, q) <==>
              exists s: nat :: StrAt(b, end, f, rd.services, s) && FieldsAt(ks, 4, fs, b, end, start, s, q)
    {
      TextFirst(ks, 3, fs, b, end, start, f, q);
    }
    forall s: nat
      ensures FieldsAt(ks, 4, fs, b, end, start, s, q) <==>
              exists r: nat :: StrAt(b, end, s, rd.regexp, r) && FieldsAt(ks, 5, fs, b, end, start, r, q)
    {
      TextFirst(ks, 4, fs, b, end, start, s, q);
    }
    forall r: nat
      ensures FieldsAt(ks, 5, fs, b, end, start, r, q) <==> NameAt(b, end, start, r, rd.replace, q)
    {
      NameLast(ks, fs, b, end, start, r, q);
    }
    if FieldsAt(ks, 0, fs, b, end, start, p, q) {
      var f: nat :| StrAt(b, end, p + 4, rd.flags, f) && FieldsAt(ks, 3, fs, b, end, start, f, q);
      var s: nat :| StrAt(b, end, f, rd.services, s) && FieldsAt(ks, 4, fs, b, end, start, s, q);
      var r: nat :| StrAt(b, end, s, rd.regexp, r) && FieldsAt(ks, 5, fs, b, end, start, r, q);
      assert NaptrAt(rd, b, end, start, p, f, s, r, q);
    }
    if f: nat, s: nat, r: nat :| NaptrAt(rd, b, end, start, p, f, s, r, q) {
      assert FieldsAt(ks, 5, fs, b, end, start, r, q);
      assert FieldsAt(ks, 4, fs, b, end, start, s, q);
      assert FieldsAt(ks, 3, fs, b, end, start, f, q);
    }
  }

  lemma {:induction false} FlatIff(typ: u16, rdlen: u16, rd: Rdata, b: seq<byte>, end: nat, start: nat, p: nat, q: nat)
    requires typ == 1 || typ == 16 || typ == 28
    requires p + rdlen <= end <= |b| && TypeOf(rd) == typ && Kinds(typ, rdlen).Success?
    ensures FieldsAt(Kinds(typ, rdlen).value, 0, Flat(rd), b, end, start, p, q) <==> DataAt(typ, rdlen, rd, b, end, start, p, q)
  {
    hide NameAt, Num32, TxtAt;
    var ks, fs := Kinds(typ, rdlen).value, Flat(rd);
    if typ == 1 {
      NumberFirst(ks, 0, fs, b, end, start, p, q);
      NoFields(ks, fs, b, end, start, p + 4, q);
    } else {
      forall m: nat
        ensures FieldsAt(ks, 1, fs, b, end, start, m, q) <==> m == q
      {
        NoFields(ks, fs, b, end, start, m, q);
      }
      if DataAt(typ, rdlen, rd, b, end, start, p, q) {
        assert FieldAt(ks[0], fs[0], b, end, start, p, q);
      }
    }
  }

  lemma {:induction false} NamedIff(typ: u16, rdlen: u16, rd: Rdata, b: seq<byte>, end: nat, start: nat, p: nat, q: nat)
    requires p + rdlen <= end <= |b| && TypeOf(rd) == typ && (typ == 2 || typ == 5 || typ == 12 || typ == 15 || typ == 33)
    ensures FieldsAt(Kinds(typ, rdlen).value, 0, Flat(rd), b, end, start, p, q) <==> DataAt(typ, rdlen, rd, b, end, start, p, q)
  {
    hide NameAt, Num16, FieldsAt;
    var ks, fs := Kinds(typ, rdlen).value, Flat(rd);
    if typ == 15 {
      NumberFirst(ks, 0, fs, b, end, start, p, q);
      NameLast(ks, fs, b, end, start, p + 2, q);
    } else if typ == 33 {
      NumberFirst(ks, 0, fs, b, end, start, p, q);
      NumberFirst(ks, 1, fs, b, end, start, p + 2, q);
      NumberFirst(ks, 2, fs, b, end, start, p + 4, q);
      NameLast(ks, fs, b, end, start, p + 6, q);
    } else {
      NameLast(ks, fs, b, end, start, p, q);
    }
  }

  /** Record data is read exactly if the bytes are the data of that type, and read up to its end. */
  lemma {:induction false} DataReadIff(typ: u16, rdlen: u16, rd: Rdata, b: seq<byte>, end: nat, start: nat, p: nat, q: nat)
    requires p + rdlen <= end <= |b|
    ensures DecRdata(typ, rdlen, b, end, start, p) == Success((rd, q)) <==> DataAt(typ, rdlen, rd, b, end, start, p, q)
  {
    hide NameAt, Num16, Num32, StrAt, TxtAt, FieldsAt, Flat, SoaAt, NaptrAt, DecFields;
    if Known(typ) {
      KnownIff(typ, rdlen, rd, b, end, start, p, q);
      if TypeOf(rd) == typ && Kinds(typ, rdlen).Success? {
        FlatBuild(typ, rdlen, rd);
        if typ == 6 {
          SoaIff(rdlen, rd, b, end, start, p, q);
        } else if typ == 35 {
          NaptrIff(rdlen, rd, b, end, start, p, q);
        } else if typ == 1 || typ == 16 || typ == 28 {
          FlatIff(typ, rdlen, rd, b, end, start, p, q);
        } else {
          NamedIff(typ, rdlen, rd, b, end, start, p, q);
        }
      }
    }
  }

  // ---------------------------------------------------------------- whole records

  /** A record from pos to q whose name ends at h: type, class, time to live and data length follow, then its data. */
  ghost predicate RecordAt(rr: Rr, typ: u16, b: seq<byte>, end: nat, start: nat, pos: nat, h: nat, q: nat)
    requires end <= |b|
  {
    && NameAt(b, end, start, pos, rr.name, h) && h + 10 + rr.rdlen <= end
    && Num16(b, end, h, typ) && Num16(b, end, h + 2, rr.cls)
    && 0 <= rr.ttl < 0x1_0000_0000 && Num32(b, end, h + 4, rr.ttl) && Num16(b, end, h + 8, rr.rdlen)
    && DataAt(typ, rr.rdlen, rr.rdata, b, end, start, h + 10, q)
  }

  /**
   * Text data of any strings without zero bytes, one behind the other, is their concatenation, and reading
   * ends behind the last. If a length byte behind them goes beyond the data it is refused.
   */
  lemma {:induction false} TextRead(ss: strings, b: seq<byte>, end: nat, start: nat, p: nat, rdlen: u16)
    requires p + rdlen <= end <= |b| && HoldsAt(b, p, StringsBytes(ss)) && |StringsBytes(ss)| <= rdlen
    requires forall i :: 0 <= i < |ss| ==> 0 !in ss[i]
    ensures 0 !in Concat(ss)
    ensures |StringsBytes(ss)| == rdlen ==> DecRdata(16, rdlen, b, end, start, p) == Success((Txt(Concat(ss)), p + rdlen))
    ensures |StringsBytes(ss)| < rdlen && b[p + |StringsBytes(ss)|] >= rdlen - |StringsBytes(ss)| ==>
              DecRdata(16, rdlen, b, end, start, p) == Failure(EINVAL)
  {
    hide HoldsAt, StringsBytes, Concat, DecTxt, CString, NameAt;
    ConcatClean(ss);
    var text: cstr := Concat(ss);
    WholeString(text);
    if |StringsBytes(ss)| == rdlen {
      assert TxtAt(b, p, rdlen, text);
      DataReadIff(16, rdlen, Txt(text), b, end, start, p, p + rdlen);
    } else if b[p + |StringsBytes(ss)|] >= rdlen - |StringsBytes(ss)| {
      StringTooLong(ss, b, p, rdlen, []);
      assert DecField(KTxt(rdlen), b, end, start, p) == Failure(EINVAL);
    }
  }

  lemma {:induction false} ConcatClean(ss: seq<seq<byte>>)
    requires forall i :: 0 <= i < |ss| ==> 0 !in ss[i]
    ensures 0 !in Concat(ss)
    decreases |ss|
  {
    if ss != [] {
      ConcatClean(ss[1..]);
    }
  }

  lemma {:induction false} WholeString(s: cstr)
    ensures CString(s) == s
  {
    hide CString;
    assert forall i :: 0 <= i < |s| ==> s[i] in s;
  }

  /** A record is read exactly if the bytes are one. */
  lemma {:induction false} RecordReadIff(rr: Rr, b: seq<byte>, end: nat, start: nat, pos: nat, q: nat)
    requires end <= |b|
    ensures DecRr(b, end, start, pos) == Success((rr, q)) <==>
            exists typ: u16, h: nat :: RecordAt(rr, typ, b, end, start, pos, h, q)
  {
    hide NameAt, DataAt, DecName, DecRdata, Num16, Num32;
    if DecRr(b, end, start, pos) == Success((rr, q)) {
      var n := DecName(b, end, start, pos).value;
      NameReadIff(b, end, start, pos, n.0, n.1);
      var h := n.1;
      var typ := Get16(b, h);
      HeadRead(b, end, start, h, typ, rr.cls, rr.ttl, rr.rdlen);
      DataReadIff(typ, rr.rdlen, rr.rdata, b, end, start, h + 10, q);
      assert RecordAt(rr, typ, b, end, start, pos, h, q);
    }
    if typ: u16, h: nat :| RecordAt(rr, typ, b, end, start, pos, h, q) {
      NameReadIff(b, end, start, pos, rr.name, h);
      HeadRead(b, end, start, h, typ, rr.cls, rr.ttl, rr.rdlen);
      DataReadIff(typ, rr.rdlen, rr.rdata, b, end, start, h + 10, q);
    }
  }

  lemma {:induction false} HeadRead(b: seq<byte>, end: nat, start: nat, h: nat, typ: u16, cls: u16, ttl: u32, rdlen: u16)
    requires h + 10 <= end <= |b|
    ensures Num16(b, end, h, typ) <==> Get16(b, h) == typ
    ensures Num16(b, end, h + 2, cls) <==> Get16(b, h + 2) == cls
    ensures Num32(b, end, h + 4, ttl) <==> Get32(b, h + 4) == ttl
    ensures Num16(b, end, h + 8, rdlen) <==> Get16(b, h + 8) == rdlen
  {
    hide Num16, Num32, Get16, Get32;
    Num16Iff(b, end, start, h, typ, h + 2);
    Num16Iff(b, end, start, h + 2, cls, h + 4);
    Num32Iff(b, end, start, h + 4, ttl, h + 8);
    Num16Iff(b, end, start, h + 8, rdlen, h + 10);
  }

  /** Whatever is not a record is refused with EINVAL, or with EBADMSG for a string in NAPTR data that is cut off. */
  lemma {:induction false} RecordRefused(b: seq<byte>, end: nat, start: nat, pos: nat)
    requires end <= |b| && DecRr(b, end, start, pos).Failure?
    ensures var e := DecRr(b, end, start, pos).err;
            e == EINVAL || (e == EBADMSG && exists p: nat :: p < end && p + 1 + b[p] > end)
  {
    hide DecName, DecFields, Kinds, Walk;
    NameError(b, end, start, pos);
    if DecName(b, end, start, pos).Success? {
      var h := DecName(b, end, start, pos).value.1;
      if h + 10 <= end && h + 10 + Get16(b, h + 8) <= end {
        DataRefused(Get16(b, h), Get16(b, h + 8), b, end, start, h + 10);
      }
    }
  }

  lemma {:induction false} NameError(b: seq<byte>, end: nat, start: nat, p: nat)
    requires end <= |b|
    ensures DecName(b, end, start, p).Failure? ==> DecName(b, end, start, p).err == EINVAL
  {}

  lemma {:induction false} DataRefused(typ: u16, rdlen: u16, b: seq<byte>, end: nat, start: nat, p: nat)
    requires p + rdlen <= end <= |b| && DecRdata(typ, rdlen, b, end, start, p).Failure?
    ensures var e := DecRdata(typ, rdlen, b, end, start, p).err;
            e == EINVAL || (e == EBADMSG && exists p: nat :: p < end && p + 1 + b[p] > end)
  {
    hide DecFields;
    if Known(typ) && Kinds(typ, rdlen).Success? {
      FieldsRefused(Kinds(typ, rdlen).value, 0, b, end, start, p, []);
    }
  }

  lemma {:induction false} FieldsRefused(ks: seq<Kind>, i: nat, b: seq<byte>, end: nat, start: nat, p: nat, vals: seq<Field>)
    requires i <= |ks| && end <= |b| && DecFields(ks, i, b, end, start, p, vals).Failure?
    requires forall j {:trigger ks[j]} :: i <= j < |ks| && ks[j].KRaw? ==> j == i && p + ks[j].n <= end
    ensures var e := DecFields(ks, i, b, end, start, p, vals).err;
            e == EINVAL || (e == EBADMSG && exists p: nat :: p < end && p + 1 + b[p] > end)
    decreases |ks| - i
  {
    hide DecName, DecTxt;
    if i < |ks| {
      NameError(b, end, start, p);
      TxtError(ks[i], b, end, p);
      var r := DecField(ks[i], b, end, start, p);
      if r.Success? {
        FieldsRefused(ks, i + 1, b, end, start, r.value.1, vals + [r.value.0]);
      }
    }
  }

  lemma {:induction false} TxtError(k: Kind, b: seq<byte>, end: nat, p: nat)
    requires end <= |b|
    ensures k.KTxt? && p + k.n <= end && DecTxt(b, p, k.n, []).Failure? ==> DecTxt(b, p, k.n, []).err == EINVAL
  {
    if k.KTxt? && p + k.n <= end {
      var ss := StringsOf(b, p, k.n);
      if |StringsBytes(ss)| < k.n {
        StringTooLong(ss, b, p, k.n, []);
      } else {
        StringsRead(ss, b, p, k.n, []);
      }
    }
  }
}
