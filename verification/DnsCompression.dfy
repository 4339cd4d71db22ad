/**
 * Correctness of name compression: what the table promises about the bytes written so far,
 * how the encoder keeps that promise, and why the decoder then finds every name again.
 */
module DnsCompression {
  import opened Bytes
  import opened MemoryBuffer
  import opened DnsName

  // ---------------------------------------------------------------- the invariant

  /** A literal label at p, up to case. */
  ghost predicate LabelHere(b: seq<byte>, p: nat, lab: seq<byte>) {
    && 1 <= |lab| <= 191 && p + 1 + |lab| <= |b|
    && b[p] == |lab| && FoldSeq(b[p + 1..p + 1 + |lab|]) == lab
  }

  /** A pointer at q that goes strictly backwards to t. */
  ghost predicate PointerHere(b: seq<byte>, start: nat, q: nat, t: nat) {
    q + 2 <= |b| && b[q] >= 0xc0 && t == start + Target(b, q) && t < q
  }

  /**
   * The bytes below limit spell the given lower-case labels, starting with a literal label
   * (or the root byte) at position p.
   */
  ghost predicate Spells(b: seq<byte>, start: nat, p: nat, limit: nat, labs: Labs)
    requires limit <= |b|
    decreases labs, 0
  {
    match labs
    case Nil => p < limit && b[p] == 0
    case Cons(lab, tail) =>
      var q := p + 1 + |lab|;
      q <= limit && LabelHere(b, p, lab) && Continues(b, start, q, limit, tail)
  }

  /** As Spells, or one pointer that goes strictly backwards to where the labels are spelled. */
  ghost predicate Continues(b: seq<byte>, start: nat, q: nat, limit: nat, labs: Labs)
    requires limit <= |b|
    decreases labs, 2
  {
    Spells(b, start, q, limit, labs) || Jumps(b, start, q, limit, labs)
  }

  ghost predicate Jumps(b: seq<byte>, start: nat, q: nat, limit: nat, labs: Labs)
    requires limit <= |b|
    decreases labs, 1
  {
    q + 2 <= limit && exists t: nat :: PointerHere(b, start, q, t) && Spells(b, start, t, limit, labs)
  }

  /** Number of bytes the labels take at q itself. */
  ghost function Span(b: seq<byte>, q: nat, labs: Labs): nat
    decreases labs
  {
    if q < |b| && b[q] >= 0xc0 then 2
    else match labs
      case Nil => 1
      case Cons(lab, tail) => 1 + |lab| + Span(b, q + 1 + |lab|, tail)
  }

  ghost predicate EntryOk(b: seq<byte>, start: nat, limit: nat, e: Entry)
    requires limit <= |b|
  {
    GoodName(e.name) && Spells(b, start, start + e.pos, limit, Labels(ParseName(e.name)))
  }

  /** Every recorded name can be read back at its offset. */
  ghost predicate TableOk(b: seq<byte>, start: nat, limit: nat, tab: Table)
    requires limit <= |b|
  {
    tab.Snoc? ==> TableOk(b, start, limit, tab.init) && EntryOk(b, start, limit, tab.last)
  }

  lemma {:induction false} LabelHereFrame(b: seq<byte>, b': seq<byte>, limit: nat, p: nat, lab: seq<byte>)
    requires limit <= |b| && limit <= |b'| && b[..limit] == b'[..limit]
    requires LabelHere(b, p, lab) && p + 1 + |lab| <= limit
    ensures LabelHere(b', p, lab)
  {
    hide FoldSeq;
    assert forall i :: 0 <= i < limit ==> b'[i] == b'[..limit][i] == b[..limit][i] == b[i];
    assert b'[p + 1..p + 1 + |lab|] == b[p + 1..p + 1 + |lab|];
  }

  lemma {:induction false} PointerHereFrame(b: seq<byte>, b': seq<byte>, limit: nat, start: nat, q: nat, t: nat)
    requires limit <= |b| && limit <= |b'| && b[..limit] == b'[..limit]
    requires PointerHere(b, start, q, t) && q + 2 <= limit
    ensures PointerHere(b', start, q, t)
  {
    assert b'[q] == b'[..limit][q] == b[..limit][q] == b[q];
    assert b'[q + 1] == b'[..limit][q + 1] == b[..limit][q + 1] == b[q + 1];
  }

  lemma {:induction false} SpellsFrame(b: seq<byte>, b': seq<byte>, start: nat, p: nat,
                                       limit: nat, limit': nat, labs: Labs)
    requires limit <= limit' <= |b'| && limit <= |b| && b[..limit] == b'[..limit]
    requires Spells(b, start, p, limit, labs)
    ensures Spells(b', start, p, limit', labs)
    decreases labs, 0
  {
    hide LabelHere, PointerHere;
    match labs
    case Nil =>
      assert b'[p] == b'[..limit][p] == b[..limit][p] == b[p];
    case Cons(lab, tail) =>
      LabelHereFrame(b, b', limit, p, lab);
      ContinuesFrame(b, b', start, p + 1 + |lab|, limit, limit', tail);
  }

  lemma {:induction false} ContinuesFrame(b: seq<byte>, b': seq<byte>, start: nat, q: nat,
                                          limit: nat, limit': nat, labs: Labs)
    requires limit <= limit' <= |b'| && limit <= |b| && b[..limit] == b'[..limit]
    requires Continues(b, start, q, limit, labs)
    ensures Continues(b', start, q, limit', labs)
    decreases labs, 1
  {
    hide Spells, PointerHere;
    if Spells(b, start, q, limit, labs) {
      SpellsFrame(b, b', start, q, limit, limit', labs);
    } else {
      var t: nat :| PointerHere(b, start, q, t) && Spells(b, start, t, limit, labs);
      PointerHereFrame(b, b', limit, start, q, t);
      SpellsFrame(b, b', start, t, limit, limit', labs);
    }
  }

  /** Writing at or above limit, and raising it, keeps the table right. */
  lemma {:induction false} TableFrame(b: seq<byte>, b': seq<byte>, start: nat, limit: nat, limit': nat, tab: Table)
    requires limit <= limit' <= |b'| && limit <= |b| && b[..limit] == b'[..limit]
    requires TableOk(b, start, limit, tab)
    ensures TableOk(b', start, limit', tab)
    decreases tab
  {
    hide Spells;
    if tab.Snoc? {
      TableFrame(b, b', start, limit, limit', tab.init);
      SpellsFrame(b, b', start, start + tab.last.pos, limit, limit', Labels(ParseName(tab.last.name)));
    }
  }

  // ---------------------------------------------------------------- steps of the decoder

  lemma {:induction false} WalkRoot(b: seq<byte>, end: nat, start: nat, p: nat, text: seq<byte>, loopc: nat, ret: Option<nat>)
    requires p < end <= |b| && loopc <= COMP_LOOP + 1 && |text| < TEXT_SIZE && (ret.Some? ==> ret.value <= end)
    requires b[p] == 0
    ensures Walk(b, end, start, p, text, loopc, ret) == Name(text, if ret.Some? then ret.value else p + 1)
  {}

  lemma {:induction false} WalkPointer(b: seq<byte>, end: nat, start: nat, q: nat, t: nat, text: seq<byte>, loopc: nat, ret: Option<nat>)
    requires q + 2 <= end <= |b| && loopc <= COMP_LOOP && |text| < TEXT_SIZE && (ret.Some? ==> ret.value <= end)
    requires PointerHere(b, start, q, t)
    ensures Walk(b, end, start, q, text, loopc, ret)
         == Walk(b, end, start, t, text, loopc + 1, if ret.Some? then ret else Some(q + 2))
  {}

  lemma {:induction false} FoldAddLabel(text: seq<byte>, lab: seq<byte>)
    ensures FoldSeq(AddLabel(text, lab)) == AddLabel(FoldSeq(text), FoldSeq(lab))
  {}

  lemma {:induction false} WalkLabel(b: seq<byte>, end: nat, start: nat, p: nat, lab: seq<byte>, text: seq<byte>,
                                     loopc: nat, ret: Option<nat>) returns (text': seq<byte>)
    requires LabelHere(b, p, lab) && p + 1 + |lab| <= end <= |b| && |lab| + |text| + 2 <= TEXT_SIZE
    requires loopc <= COMP_LOOP + 1 && (ret.Some? ==> ret.value <= end)
    ensures |text'| < TEXT_SIZE && FoldSeq(text') == AddLabel(FoldSeq(text), lab)
    ensures Walk(b, end, start, p, text, loopc, ret) == Walk(b, end, start, p + 1 + |lab|, text', loopc, ret)
  {
    var raw := b[p + 1..p + 1 + |lab|];
    text' := AddLabel(text, raw);
    FoldAddLabel(text, raw);
  }

  // ---------------------------------------------------------------- decoding what is spelled

  lemma {:induction false} JoinGrows(text: seq<byte>, labs: Labs)
    ensures |Join(text, labs)| >= |text|
    decreases labs
  {
    if labs.Cons? {
      JoinGrows(AddLabel(text, labs.lab), labs.tail);
    }
  }

  /** The decoder's result: the spelled text, up to case, and the position behind the name. */
  ghost predicate Finds(w: Walked, text: seq<byte>, labs: Labs, after: nat) {
    w.Name? && FoldSeq(w.text) == Join(FoldSeq(text), labs) && w.after == after
  }

  /**
   * The decoder finds the spelled text, never trips the loop guard (at most one pointer per
   * label), and stops right behind the bytes it started in.
   */
  lemma {:induction false} WalkSpells(b: seq<byte>, end: nat, start: nat, p: nat, limit: nat,
                                      labs: Labs, text: seq<byte>, loopc: nat, ret: Option<nat>)
    requires limit <= end <= |b| && Spells(b, start, p, limit, labs)
    requires |Join(FoldSeq(text), labs)| < TEXT_SIZE && |text| < TEXT_SIZE
    requires loopc + Count(labs) <= COMP_LOOP + 1 && (ret.Some? ==> ret.value <= end)
    ensures Finds(Walk(b, end, start, p, text, loopc, ret), text, labs,
                  if ret.Some? then ret.value else p + Span(b, p, labs))
    decreases labs, 0
  {
    hide Walk, FoldSeq;
    match labs
    case Nil =>
      WalkRoot(b, end, start, p, text, loopc, ret);
    case Cons(lab, tail) =>
      JoinGrows(AddLabel(FoldSeq(text), lab), tail);
      var text' := WalkLabel(b, end, start, p, lab, text, loopc, ret);
      WalkContinues(b, end, start, p + 1 + |lab|, limit, tail, text', loopc, ret);
  }

  lemma {:induction false} WalkContinues(b: seq<byte>, end: nat, start: nat, q: nat, limit: nat,
                                         labs: Labs, text: seq<byte>, loopc: nat, ret: Option<nat>)
    requires limit <= end <= |b| && Continues(b, start, q, limit, labs)
    requires |Join(FoldSeq(text), labs)| < TEXT_SIZE && |text| < TEXT_SIZE
    requires loopc + Count(labs) <= COMP_LOOP && (ret.Some? ==> ret.value <= end)
    ensures Finds(Walk(b, end, start, q, text, loopc, ret), text, labs,
                  if ret.Some? then ret.value else q + Span(b, q, labs))
    decreases labs, 1
  {
    hide Walk, FoldSeq, Spells, Join, Count;
    if Spells(b, start, q, limit, labs) {
      WalkSpells(b, end, start, q, limit, labs, text, loopc, ret);
    } else {
      var t: nat :| PointerHere(b, start, q, t) && Spells(b, start, t, limit, labs);
      WalkPointer(b, end, start, q, t, text, loopc, ret);
      WalkSpells(b, end, start, t, limit, labs, text, loopc + 1, if ret.Some? then ret else Some(q + 2));
    }
  }

  // ---------------------------------------------------------------- what the encoder writes

  /** A name found in the table is spelled where the table says. */
  lemma {:induction false} FoundSpells(b: seq<byte>, start: nat, limit: nat, tab: Table, name: seq<byte>)
    requires limit <= |b| && TableOk(b, start, limit, tab) && Find(tab, name).Some?
    ensures GoodName(name)
    ensures Spells(b, start, start + Find(tab, name).value, limit, Labels(ParseName(name)))
    decreases tab
  {
    hide Spells, CaseEq, Good, ParseName, Labels;
    if Find(tab.init, name).Some? {
      FoundSpells(b, start, limit, tab.init, name);
    } else {
      CaseEqParse(tab.last.name, name);
    }
  }

  lemma {:induction false} PointerWritten(b: seq<byte>, start: nat, q: nat, v: offset)
    requires HoldsAt(b, q, Pointer(v)) && start + v < q
    ensures PointerHere(b, start, q, start + v)
  {
    Holds16(b, q, v as int + 0xc000);
  }

  lemma {:induction false} SpellsBelow(b: seq<byte>, start: nat, p: nat, limit: nat, labs: Labs)
    requires limit <= |b| && Spells(b, start, p, limit, labs)
    ensures p < limit
  {}

  /** A pointer written behind everything the table knows goes strictly backwards to the name. */
  lemma {:induction false} PointerContinues(b: seq<byte>, start: nat, low: nat, q: nat, limit: nat, tab: Table, name: seq<byte>)
    requires low <= q && q + 2 <= limit <= |b| && TableOk(b, start, low, tab)
    requires Find(tab, name).Some? && HoldsAt(b, q, Pointer(Find(tab, name).value))
    ensures GoodName(name) && Jumps(b, start, q, limit, Labels(ParseName(name))) && b[q] >= 0xc0
  {
    hide Spells, Good, ParseName, Labels, TableOk, Find, HoldsAt;
    var v := Find(tab, name).value;
    var labs := Labels(ParseName(name));
    FoundSpells(b, start, low, tab, name);
    SpellsBelow(b, start, start + v, low, labs);
    SpellsFrame(b, b, start, start + v, low, limit, labs);
    PointerWritten(b, start, q, v);
  }

  /** The literal label at p, as the encoder lays it out. */
  lemma {:induction false} LabelAt(b: seq<byte>, p: nat, lab: seq<byte>, tail: seq<byte>)
    requires 1 <= |lab| <= 191 && HoldsAt(b, p, [|lab| % 0x100] + lab + tail)
    ensures LabelHere(b, p, FoldSeq(lab)) && HoldsAt(b, p + 1 + |lab|, tail) && b[p] < 0xc0
  {
    hide FoldSeq;
    var k := [|lab| % 0x100];
    HoldsAtSplit(b, p, k + lab, tail);
    HoldsAtSplit(b, p, k, lab);
    HoldsAtIndex(b, p, k, 0);
  }

  lemma {:induction false} RootAt(b: seq<byte>, p: nat)
    requires HoldsAt(b, p, [0])
    ensures p < |b| && b[p] == 0
  {
    HoldsAtIndex(b, p, [0], 0);
  }

  /** d was cut from a name, so that its suffixes parse to its rests. */
  ghost predicate Cut(d: Dn) {
    match d
    case End => true
    case Label(lab, last, suffix, rest) =>
      if last then rest == End else ParseName(suffix) == rest && Cut(rest)
  }

  lemma {:induction false} ParseCut(name: seq<byte>)
    requires Good(Parse(name))
    ensures Cut(Parse(name))
    decreases |name|
  {
    var k := LabelLen(name);
    if k < |name| {
      assert name[k + 1..] != ROOT;
      ParseCut(name[k + 1..]);
    }
  }

  /** The bytes written for well-formed labels spell them and nothing more. */
  lemma {:induction false} LabelBytesSpell(d: Dn, tab: Table, comp: bool, b: seq<byte>, start: nat, low: nat, p: nat, limit: nat)
    requires Good(d) && Cut(d) && low <= p && p + |LabelBytes(d, tab, comp)| <= limit <= |b|
    requires TableOk(b, start, low, tab) && HoldsAt(b, p, LabelBytes(d, tab, comp))
    ensures LabelsOk(d, tab, comp)
    ensures Spells(b, start, p, limit, Labels(d))
    ensures Span(b, p, Labels(d)) == |LabelBytes(d, tab, comp)|
    decreases d
  {
    hide HoldsAt, LabelHere, FoldSeq, TableOk, Find, ParseName, Jumps;
    match d
    case End =>
      RootAt(b, p);
    case Label(lab, last, suffix, rest) =>
      var q := p + 1 + |lab|;
      if last {
        LabelAt(b, p, lab, [0]);
        RootAt(b, q);
      } else if Stops(suffix, tab, comp) {
        LabelAt(b, p, lab, Pointer(Find(tab, suffix).value));
        PointerContinues(b, start, low, q, limit, tab, suffix);
      } else {
        LabelAt(b, p, lab, LabelBytes(rest, tab, comp));
        LabelBytesSpell(rest, tab, comp, b, start, low, q, limit);
      }
  }

  lemma {:induction false} RecordOk(suffix: seq<byte>, tab: Table, now: Table, at: nat, comp: bool,
                                    b: seq<byte>, start: nat, low: nat, limit: nat)
    requires GoodName(suffix) && Cut(ParseName(suffix))
    requires low <= start + at && start + at + |LabelBytes(ParseName(suffix), tab, comp)| <= limit <= |b|
    requires TableOk(b, start, low, tab) && HoldsAt(b, start + at, LabelBytes(ParseName(suffix), tab, comp))
    requires TableOk(b, start, limit, now)
    ensures TableOk(b, start, limit, Record(now, suffix, at))
  {
    hide HoldsAt, Spells, LabelBytes, ParseName, Good, Cut, Labels;
    LabelBytesSpell(ParseName(suffix), tab, comp, b, start, low, start + at, limit);
  }

  /** Every suffix recorded on the way is spelled at the offset it was recorded with. */
  lemma {:induction false} LabelTableOk(d: Dn, tab: Table, now: Table, off: nat, comp: bool,
                                        b: seq<byte>, start: nat, low: nat, limit: nat)
    requires Good(d) && Cut(d) && low <= start + off && start + off + |LabelBytes(d, tab, comp)| <= limit <= |b|
    requires TableOk(b, start, low, tab) && HoldsAt(b, start + off, LabelBytes(d, tab, comp))
    requires TableOk(b, start, limit, now)
    ensures TableOk(b, start, limit, LabelTable(d, tab, now, off, comp))
    decreases d
  {
    hide HoldsAt, LabelHere, FoldSeq, TableOk, Find, ParseName, Record;
    match d
    case End =>
    case Label(lab, last, suffix, rest) =>
      if !last && !Stops(suffix, tab, comp) {
        var at := off + 1 + |lab|;
        LabelAt(b, start + off, lab, LabelBytes(rest, tab, comp));
        var now' := if Find(tab, suffix).None? then Record(now, suffix, at) else now;
        RecordOk(suffix, tab, now, at, comp, b, start, low, limit);
        LabelTableOk(rest, tab, now', at, comp, b, start, low, limit);
      }
  }

  lemma {:induction false} NameCut(name: seq<byte>)
    requires GoodName(name)
    ensures Cut(ParseName(name))
  {
    if name != ROOT {
      ParseCut(name);
    }
  }

  /** Writing a well-formed name succeeds, spells the name, and keeps the whole table right. */
  lemma {:induction false} EncNameOk(name: seq<byte>, tab: Table, off: nat, comp: bool, b: seq<byte>, start: nat, limit: nat)
    requires GoodName(name) && limit == start + off + |EncName(name, tab, off, comp).bytes| <= |b|
    requires HoldsAt(b, start + off, EncName(name, tab, off, comp).bytes)
    requires TableOk(b, start, start + off, tab)
    ensures var r := EncName(name, tab, off, comp);
            && r.ok && TableOk(b, start, limit, r.tab)
            && Continues(b, start, start + off, limit, Labels(ParseName(name)))
            && Span(b, start + off, Labels(ParseName(name))) == |r.bytes|
  {
    hide HoldsAt, Spells, LabelBytes, LabelTable, LabelsOk, ParseName, Good, Cut, Labels, TableOk, Jumps, Find, Record;
    var p := start + off;
    TableFrame(b, b, start, p, limit, tab);
    if Find(tab, name).Some? && comp {
      PointerContinues(b, start, p, p, limit, tab, name);
    } else {
      NameCut(name);
      LabelBytesSpell(ParseName(name), tab, comp, b, start, p, p, limit);
      RecordOk(name, tab, tab, off, comp, b, start, p, limit);
      var now := if Find(tab, name).None? then Record(tab, name, off) else tab;
      LabelTableOk(ParseName(name), tab, now, off, comp, b, start, p, limit);
    }
  }

  lemma {:induction false} JoinName(name: seq<byte>)
    requires GoodName(name)
    ensures Join([], Labels(ParseName(name))) == FoldSeq(Canon(name))
    ensures 2 * Count(Labels(ParseName(name))) <= |name| + 1
  {
    if name != ROOT {
      JoinLabels([], name);
      LabelCount(name);
    }
  }

  /** What decoding at the place where the name was written gives back. */
  ghost predicate ReadsBack(name: seq<byte>, r: Encoded, b: seq<byte>, end: nat, start: nat, p: nat)
    requires end <= |b|
  {
    var w := Walk(b, end, start, p, [], 0, None);
    r.ok && w.Name? && CaseEq(w.text, Canon(name)) && w.after == p + |r.bytes|
  }

  /** Round trip of one name against any table that is right so far. */
  lemma {:induction false} NameRoundTrip(name: seq<byte>, tab: Table, off: nat, comp: bool, b: seq<byte>, end: nat, start: nat)
    requires Encodable(name) && start + off + |EncName(name, tab, off, comp).bytes| <= end <= |b|
    requires HoldsAt(b, start + off, EncName(name, tab, off, comp).bytes)
    requires TableOk(b, start, start + off, tab)
    ensures ReadsBack(name, EncName(name, tab, off, comp), b, end, start, start + off)
  {
    hide HoldsAt, EncName, Continues, ParseName, Good, Labels, TableOk, Walk, Join, FoldSeq;
    var limit := start + off + |EncName(name, tab, off, comp).bytes|;
    EncNameOk(name, tab, off, comp, b, start, limit);
    JoinName(name);
    assert FoldSeq([]) == [];
    WalkContinues(b, end, start, start + off, limit, Labels(ParseName(name)), [], 0, None);
  }

  // ---------------------------------------------------------------- names that do not survive

  /** Length of the text that the labels d make behind n characters. */
  ghost function DnLen(n: nat, d: Dn): nat
    decreases d
  {
    match d
    case End => n
    case Label(lab, _, _, rest) => DnLen((if n == 0 then 0 else n + 1) + |lab|, rest)
  }

  lemma {:induction false} DnLenGrows(n: nat, d: Dn)
    ensures DnLen(n, d) >= n + if d.Label? then |d.lab| else 0
    decreases d
  {
    if d.Label? {
      DnLenGrows((if n == 0 then 0 else n + 1) + |d.lab|, d.rest);
    }
  }

  lemma {:induction false} CanonLen(name: seq<byte>)
    ensures var k := LabelLen(name);
            |Canon(name)| == if k == |name| then k
                             else if k + 1 == |name| then k else k + 1 + |Canon(name[k + 1..])|
  {
    var k := LabelLen(name);
    if k < |name| {
      CanonSplit(name);
      assert |FoldSeq(Canon(name))| == |Canon(name)|;
    }
  }

  lemma {:induction false} DnLenCanon(n: nat, name: seq<byte>)
    requires n > 0
    ensures DnLen(n, Parse(name)) == if name == [] then n else n + 1 + |Canon(name)|
    decreases |name|
  {
    hide FoldSeq, Canon, DotAt;
    var k := LabelLen(name);
    if k < |name| {
      DnLenCanon(n + 1 + k, name[k + 1..]);
    }
    CanonLen(name);
  }

  lemma {:induction false} DnLenName(name: seq<byte>)
    requires name != [] && Parse(name).lab != []
    ensures DnLen(0, Parse(name)) == |Canon(name)|
  {
    hide FoldSeq, Canon, DotAt;
    var k := LabelLen(name);
    if k < |name| {
      DnLenCanon(k, name[k + 1..]);
    }
    CanonLen(name);
  }

  /** Every rest is what its suffix parses to. */
  ghost predicate Parsed(d: Dn) {
    d.Label? ==> if d.last then d.rest == End else d.rest == Parse(d.suffix) && Parsed(d.rest)
  }

  lemma {:induction false} ParseParsed(name: seq<byte>)
    ensures Parsed(Parse(name))
    decreases |name|
  {
    var k := LabelLen(name);
    if k < |name| {
      ParseParsed(name[k + 1..]);
    }
  }

  /** The decoder goes wrong: it fails, ends elsewhere than at after, or its text has not n characters. */
  ghost predicate Wrong(w: Walked, after: nat, n: nat) {
    w.Name? && w.after == after ==> |w.text| != n
  }

  /** A label of 192 to 255 bytes is taken for a pointer. */
  lemma {:induction false} WrongLong(b: seq<byte>, end: nat, start: nat, p: nat, text: seq<byte>, lab: seq<byte>, tail: seq<byte>, n: nat)
    requires 192 <= |lab| <= 255 && |text| < TEXT_SIZE && p + 1 + |lab| + |tail| <= end <= |b|
    requires HoldsAt(b, p, [|lab| % 0x100] + lab + tail)
    ensures Wrong(Walk(b, end, start, p, text, 0, None), p + 1 + |lab| + |tail|, n)
  {
    HoldsAtIndex(b, p, [|lab| % 0x100] + lab + tail, 0);
    assert b[p] == |lab|;
  }

  lemma {:induction false} WalkTooLong(b: seq<byte>, end: nat, start: nat, p: nat, text: seq<byte>, lab: seq<byte>)
    requires p < end <= |b| && |text| < TEXT_SIZE && LabelHere(b, p, lab) && |lab| + |text| + 2 > TEXT_SIZE
    ensures Walk(b, end, start, p, text, 0, None).Bad?
  {}

  /** A doubled final dot that hits the recorded root loses a dot. */
  lemma {:induction false} WrongRoot(b: seq<byte>, end: nat, start: nat, low: nat, q: nat, text: seq<byte>, tab: Table, suffix: seq<byte>, after: nat)
    requires !Good(Parse(suffix)) && Find(tab, suffix).Some? && 0 < |text| < TEXT_SIZE
    requires low <= q && q + 2 <= end <= |b| && TableOk(b, start, low, tab)
    requires HoldsAt(b, q, Pointer(Find(tab, suffix).value))
    ensures Wrong(Walk(b, end, start, q, text, 0, None), after, DnLen(|text|, Parse(suffix)))
  {
    hide TableOk, HoldsAt, Find, Walk;
    PointerContinues(b, start, low, q, q + 2, tab, suffix);
    assert suffix == ROOT;
    assert Parse(suffix) == Label([], false, [], End) by {
      assert LabelLen(ROOT) == 0;
    }
    WalkContinues(b, end, start, q, q + 2, Nil, text, 0, None);
    DnLenEmptyLabel(text);
  }

  lemma {:induction false} DnLenEmptyLabel(text: seq<byte>)
    ensures DnLen(|text|, Label([], false, [], End)) == if |text| == 0 then 0 else |text| + 1
  {}

  /**
   * Labels that are not all well-formed are misread: either the position behind the name or the
   * length of the text is wrong.
   */
  lemma {:induction false} Misread(d: Dn, tab: Table, comp: bool, b: seq<byte>, end: nat, start: nat, low: nat, p: nat, text: seq<byte>)
    requires Parsed(d) && LabelsOk(d, tab, comp) && !Good(d) && low <= p && p + |LabelBytes(d, tab, comp)| <= end <= |b|
    requires TableOk(b, start, low, tab) && HoldsAt(b, p, LabelBytes(d, tab, comp))
    requires |text| < TEXT_SIZE && DnLen(|text|, d) < TEXT_SIZE
    ensures Wrong(Walk(b, end, start, p, text, 0, None), p + |LabelBytes(d, tab, comp)|, DnLen(|text|, d))
    decreases d
  {
    hide TableOk, HoldsAt, Find, Walk, Wrong, LabelHere, FoldSeq, Parse;
    DnLenGrows(|text|, d);
    var Label(lab, last, suffix, rest) := d;
    var tail := if last then [0] else if Stops(suffix, tab, comp) then Pointer(Find(tab, suffix).value) else LabelBytes(rest, tab, comp);
    assert LabelBytes(d, tab, comp) == [|lab| % 0x100] + lab + tail;
    if |lab| > 191 {
      WrongLong(b, end, start, p, text, lab, tail, DnLen(|text|, d));
    } else {
      LabelAt(b, p, lab, tail);
      if |lab| + |text| + 2 > TEXT_SIZE {
        WalkTooLong(b, end, start, p, text, FoldSeq(lab));
        WrongBad(p + |LabelBytes(d, tab, comp)|, DnLen(|text|, d));
      } else {
        var text' := WalkLabel(b, end, start, p, FoldSeq(lab), text, 0, None);
        assert |text'| == |FoldSeq(text')| == |AddLabel(FoldSeq(text), FoldSeq(lab))| == |AddLabel(text, lab)|;
        if Stops(suffix, tab, comp) {
          WrongRoot(b, end, start, low, p + 1 + |lab|, text', tab, suffix, p + |LabelBytes(d, tab, comp)|);
        } else {
          Misread(rest, tab, comp, b, end, start, low, p + 1 + |lab|, text');
        }
      }
    }
  }

  lemma {:induction false} WrongBad(after: nat, n: nat)
    ensures Wrong(Bad, after, n)
  {}

  /** Exactly the encodable names come back: anything else is refused, misread or misplaced. */
  lemma {:induction false} NameRoundTripIff(name: seq<byte>, tab: Table, off: nat, comp: bool, b: seq<byte>, end: nat, start: nat)
    requires start + off + |EncName(name, tab, off, comp).bytes| <= end <= |b|
    requires HoldsAt(b, start + off, EncName(name, tab, off, comp).bytes)
    requires TableOk(b, start, start + off, tab)
    ensures ReadsBack(name, EncName(name, tab, off, comp), b, end, start, start + off) <==> Encodable(name)
  {
    hide TableOk, HoldsAt, Find, Walk, FoldSeq, LabelBytes, LabelTable, Parse, Good;
    var p := start + off;
    var r := EncName(name, tab, off, comp);
    if Encodable(name) {
      NameRoundTrip(name, tab, off, comp, b, end, start);
    } else if ReadsBack(name, r, b, end, start, p) {
      var w := Walk(b, end, start, p, [], 0, None);
      assert |w.text| == |FoldSeq(w.text)| == |FoldSeq(Canon(name))| == |Canon(name)|;
      if Find(tab, name).Some? && comp {
        FoundSpells(b, start, p, tab, name);
      } else {
        NotGood(name);
        ParseParsed(name);
        DnLenName(name);
        Misread(Parse(name), tab, comp, b, end, start, p, p, []);
      }
    }
  }

  lemma {:induction false} NotGood(name: seq<byte>)
    requires !GoodName(name)
    ensures name != [] && name != ROOT && Parse(name).Label? && !Good(Parse(name))
  {}
}
