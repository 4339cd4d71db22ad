/**
 * Domain names on the wire: the compressing encoder, the pointer-following decoder,
 * and the invariant that ties the compression table to the bytes already written.
 */
module DnsName {
  import opened Bytes
  import opened MemoryBuffer

  const DOT: byte := 46
  const ROOT: seq<byte> := [46]
  const OFFSET_MASK := 0x3fff
  const COMP_LOOP := 255
  const TEXT_SIZE := 256

  type offset = x: int | 0 <= x <= 0x3fff

  // ---------------------------------------------------------------- text of a name

  function Fold(c: byte): byte {
    if 65 <= c <= 90 then c + 32 else c
  }

  /** Lower-cased copy: two names are the same to strcasecmp exactly when their folds are equal. */
  function FoldSeq(s: seq<byte>): (r: seq<byte>)
    ensures |r| == |s|
    ensures forall i {:trigger r[i]} :: 0 <= i < |s| ==> r[i] == Fold(s[i])
  {
    seq(|s|, i requires 0 <= i < |s| => Fold(s[i]))
  }

  predicate CaseEq(a: seq<byte>, b: seq<byte>) {
    FoldSeq(a) == FoldSeq(b)
  }

  lemma {:induction false} FoldConcat(a: seq<byte>, b: seq<byte>)
    ensures FoldSeq(a + b) == FoldSeq(a) + FoldSeq(b)
  {}

  /** Position of the first dot at or behind i. */
  function DotAt(name: seq<byte>, i: nat): (k: nat)
    requires i <= |name|
    ensures i <= k <= |name| && (k < |name| ==> name[k] == DOT)
    ensures forall j {:trigger name[j]} :: i <= j < k ==> name[j] != DOT
    decreases |name| - i
  {
    if i == |name| || name[i] == DOT then i else DotAt(name, i + 1)
  }

  /** Number of characters before the first dot. */
  function LabelLen(name: seq<byte>): nat {
    DotAt(name, 0)
  }

  lemma {:induction false} LabelLenUnique(name: seq<byte>, k: nat)
    requires k <= |name| && (forall i :: 0 <= i < k ==> name[i] != DOT)
    requires k < |name| ==> name[k] == DOT
    ensures LabelLen(name) == k
  {
    var j := LabelLen(name);
    assert j == k;
  }

  lemma {:induction false} LabelLenFold(name: seq<byte>)
    ensures LabelLen(FoldSeq(name)) == LabelLen(name)
  {
    LabelLenUnique(FoldSeq(name), LabelLen(name));
  }

  /**
   * A name cut at its dots. suffix is the text behind the dot, which is what the table is
   * asked for; a final dot gives a label that is not last but has nothing behind it.
   */
  datatype Dn = End | Label(lab: seq<byte>, last: bool, suffix: seq<byte>, rest: Dn)

  function Parse(name: seq<byte>): Dn {
    var k := LabelLen(name);
    if name == [] then End
    else if k == |name| then Label(name, true, [], End)
    else Label(name[..k], false, name[k + 1..], Parse(name[k + 1..]))
  }

  /** The root name is written as a single dot. */
  function ParseName(name: seq<byte>): Dn {
    if name == ROOT then End else Parse(name)
  }

  datatype Labs = Nil | Cons(lab: seq<byte>, tail: Labs)

  /** The labels of a name in lower case. */
  function Labels(d: Dn): Labs {
    match d
    case End => Nil
    case Label(lab, _, _, rest) => Cons(FoldSeq(lab), Labels(rest))
  }

  function Count(labs: Labs): nat {
    if labs.Nil? then 0 else 1 + Count(labs.tail)
  }

  /** Every label has 1 to 191 bytes, so that its length byte is neither a root nor a pointer. */
  predicate Good(d: Dn) {
    match d
    case End => true
    case Label(lab, _, _, rest) => 1 <= |lab| <= 191 && Good(rest)
  }

  predicate GoodName(name: seq<byte>) {
    Good(ParseName(name))
  }

  /** Labels joined with dots behind a text that is already there. */
  function Join(text: seq<byte>, labs: Labs): seq<byte>
    decreases labs
  {
    match labs
    case Nil => text
    case Cons(lab, tail) => Join(AddLabel(text, lab), tail)
  }

  function AddLabel(text: seq<byte>, lab: seq<byte>): seq<byte> {
    if text == [] then lab else text + [DOT] + lab
  }

  /** A name without its final dot, which is how the decoder gives it back. */
  function Canon(name: seq<byte>): seq<byte> {
    if name != [] && name[|name| - 1] == DOT then name[..|name| - 1] else name
  }

  /** The names that survive a round trip. */
  predicate Encodable(name: seq<byte>) {
    GoodName(name) && |Canon(name)| <= 255
  }

  /** Folding changes neither the shape of a name nor its folded labels. */
  lemma {:induction false} ParseFold(name: seq<byte>)
    ensures Labels(Parse(FoldSeq(name))) == Labels(Parse(name))
    ensures Good(Parse(FoldSeq(name))) == Good(Parse(name))
    decreases |name|
  {
    LabelLenFold(name);
    var k, f := LabelLen(name), FoldSeq(name);
    if k == |name| {
      assert FoldSeq(f) == f;
    } else {
      assert f[..k] == FoldSeq(name[..k]) && FoldSeq(f[..k]) == f[..k];
      assert f[k + 1..] == FoldSeq(name[k + 1..]);
      ParseFold(name[k + 1..]);
    }
  }

  lemma {:induction false} CaseEqParse(a: seq<byte>, b: seq<byte>)
    requires CaseEq(a, b)
    ensures Labels(ParseName(a)) == Labels(ParseName(b)) && GoodName(a) == GoodName(b)
  {
    ParseFold(a);
    ParseFold(b);
    assert a == ROOT <==> b == ROOT by {
      assert |a| == 1 ==> Fold(a[0]) == FoldSeq(a)[0];
      assert |b| == 1 ==> Fold(b[0]) == FoldSeq(b)[0];
    }
  }

  lemma {:induction false} AddTwoLabels(text: seq<byte>, a: seq<byte>, c: seq<byte>)
    requires a != []
    ensures AddLabel(AddLabel(text, a), c) == AddLabel(text, a + [DOT] + c)
  {}

  /** Joining the labels of a well-formed name gives its folded text back. */
  lemma {:induction false} JoinLabels(text: seq<byte>, name: seq<byte>)
    requires Good(Parse(name))
    ensures Join(text, Labels(Parse(name))) == if name == [] then text else AddLabel(text, FoldSeq(Canon(name)))
    decreases |name|
  {
    hide FoldSeq;
    var k := LabelLen(name);
    if k < |name| {
      var rest := name[k + 1..];
      JoinLabels(AddLabel(text, FoldSeq(name[..k])), rest);
      CanonSplit(name);
      if rest != [] {
        AddTwoLabels(text, FoldSeq(name[..k]), FoldSeq(Canon(rest)));
      }
    }
  }

  lemma {:induction false} CanonSplit(name: seq<byte>)
    requires LabelLen(name) < |name|
    ensures var k := LabelLen(name); var rest := name[k + 1..];
            FoldSeq(Canon(name)) == if rest == [] then FoldSeq(name[..k])
                                    else FoldSeq(name[..k]) + [DOT] + FoldSeq(Canon(rest))
  {
    var k := LabelLen(name);
    var rest := name[k + 1..];
    assert name == name[..k] + [DOT] + rest;
    if rest == [] {
      assert Canon(name) == name[..k];
    } else {
      assert Canon(name) == name[..k] + [DOT] + Canon(rest);
      FoldConcat(name[..k] + [DOT], Canon(rest));
      FoldConcat(name[..k], [DOT]);
      assert FoldSeq([DOT]) == [DOT];
    }
  }

  /** Every label but the first costs a dot, so 255 characters hold at most 128 labels. */
  lemma {:induction false} LabelCount(name: seq<byte>)
    requires Good(Parse(name))
    ensures 2 * Count(Labels(Parse(name))) <= |name| + 1
    decreases |name|
  {
    var k := LabelLen(name);
    if k < |name| {
      LabelCount(name[k + 1..]);
    }
  }

  // ---------------------------------------------------------------- compression table

  datatype Entry = Entry(name: seq<byte>, pos: offset)

  /** The hash table argument: absent, or its entries in the order they were appended. */
  datatype Table = NoTable | Empty | Snoc(init: Table, last: Entry)

  /** First entry appended that equals name up to case. */
  function Find(tab: Table, name: seq<byte>): Option<offset> {
    match tab
    case Snoc(init, last) =>
      var r := Find(init, name);
      if r.Some? then r else if CaseEq(last.name, name) then Some(last.pos) else None
    case _ => None
  }

  /** dname_append: offsets that do not fit a pointer and empty names are not recorded. */
  function Record(tab: Table, name: seq<byte>, off: nat): Table {
    if tab.NoTable? || off > OFFSET_MASK || name == [] then tab
    else Snoc(tab, Entry(name, off))
  }

  /** The hash table, as the chain of its entries. */
  class NameTable {
    var chain: Table

    constructor ()
      ensures chain == Empty
    {
      chain := Empty;
    }

    method Lookup(name: seq<byte>) returns (r: Option<offset>)
      ensures r == Find(chain, name)
    {
      var cur := chain;
      r := None;
      while cur.Snoc?
        invariant Find(chain, name) == if Find(cur, name).Some? then Find(cur, name) else r
        decreases cur
      {
        if CaseEq(cur.last.name, name) {
          r := Some(cur.last.pos);
        }
        cur := cur.init;
      }
    }
  }

  ghost function View(ht: NameTable?): Table
    reads ht
  {
    if ht == null then NoTable else ht.chain
  }

  method Append(ht: NameTable?, name: seq<byte>, off: nat)
    modifies ht
    ensures View(ht) == Record(old(View(ht)), name, off)
  {
    if ht == null || ht.chain.NoTable? || off > OFFSET_MASK || name == [] {
      return;
    }
    ht.chain := Snoc(ht.chain, Entry(name, off));
  }

  method LookupIn(ht: NameTable?, name: seq<byte>) returns (r: Option<offset>)
    ensures r == Find(View(ht), name)
  {
    if ht == null {
      return None;
    }
    r := ht.Lookup(name);
  }

  // ---------------------------------------------------------------- encoder

  function Pointer(p: offset): (b: seq<byte>)
    ensures |b| == 2 && b[0] >= 0xc0 && Target(b, 0) == p
  {
    Be16(p + 0xc000)
  }

  /** The offset in a pointer: the 16-bit field without its two marker bits. */
  function Target(b: seq<byte>, q: nat): offset
    requires q + 2 <= |b| && b[q] >= 0xc0
  {
    (b[q] - 0xc0) as int * 0x100 + b[q + 1]
  }

  lemma {:induction false} TargetMask(b: seq<byte>, q: nat)
    requires q + 2 <= |b| && b[q] >= 0xc0
    ensures Target(b, q) == Get16(b, q) % 0x4000
  {
    assert Get16(b, q) == 3 * 0x4000 + Target(b, q);
  }

  /** The encoder stops at this label's rest: it is in the table and compression is on. */
  predicate Stops(suffix: seq<byte>, tab: Table, comp: bool) {
    comp && Find(tab, suffix).Some?
  }

  /**
   * The bytes of the labels d. Suffixes recorded while the name is being written are longer
   * than those still to be looked up, so only the table as it was before can answer.
   */
  function LabelBytes(d: Dn, tab: Table, comp: bool): seq<byte> {
    match d
    case End => [0]
    case Label(lab, last, suffix, rest) =>
      if lab == [] then [0]
      else [|lab| % 0x100] + lab + (
             if last then [0]
             else if Stops(suffix, tab, comp) then Pointer(Find(tab, suffix).value)
             else LabelBytes(rest, tab, comp))
  }

  /** The suffixes recorded while writing d from offset off on, added to now. */
  function LabelTable(d: Dn, tab: Table, now: Table, off: nat, comp: bool): Table {
    match d
    case End => now
    case Label(lab, last, suffix, rest) =>
      if lab == [] || last || Stops(suffix, tab, comp) then now
      else
        var at := off + 1 + |lab|;
        LabelTable(rest, tab, if Find(tab, suffix).None? then Record(now, suffix, at) else now, at, comp)
  }

  /** An empty label is an error once the encoder gets there. */
  predicate LabelsOk(d: Dn, tab: Table, comp: bool) {
    d.Label? ==> d.lab != [] && (d.last || Stops(d.suffix, tab, comp) || LabelsOk(d.rest, tab, comp))
  }

  datatype Encoded = Encoded(bytes: seq<byte>, tab: Table, ok: bool)

  function EncName(name: seq<byte>, tab: Table, off: nat, comp: bool): Encoded {
    var found := Find(tab, name);
    if found.Some? && comp then
      Encoded(Pointer(found.value), tab, true)
    else
      var d := ParseName(name);
      var now := if found.None? then Record(tab, name, off) else tab;
      Encoded(LabelBytes(d, tab, comp), LabelTable(d, tab, now, off, comp), LabelsOk(d, tab, comp))
  }

  // ---------------------------------------------------------------- decoder

  datatype Walked = Bad | Name(text: seq<byte>, after: nat)

  /**
   * The decoder loop from position pos with the text gathered so far, the number of
   * pointers followed, and the position to return to once a pointer was followed.
   */
  function Walk(b: seq<byte>, end: nat, start: nat, pos: nat,
                text: seq<byte>, loopc: nat, ret: Option<nat>): (w: Walked)
    requires end <= |b| && loopc <= COMP_LOOP + 1 && |text| < TEXT_SIZE
    requires ret.Some? ==> ret.value <= end
    ensures w.Name? ==> |w.text| < TEXT_SIZE && w.after <= end
    ensures w.Name? && ret.None? ==> pos < w.after
    ensures w.Name? && ret.Some? ==> w.after == ret.value
    decreases COMP_LOOP + 1 - loopc, if pos < end then end - pos else 0
  {
    if pos >= end then Bad
    else
      var len := b[pos];
      if len == 0 then
        Name(text, if ret.Some? then ret.value else pos + 1)
      else if len >= 0xc0 then
        if loopc > COMP_LOOP || end - pos < 2 then Bad
        else Walk(b, end, start, start + Target(b, pos), text, loopc + 1,
                  if ret.Some? then ret else Some(pos + 2))
      else if len > end - (pos + 1) || len + |text| + 2 > TEXT_SIZE then Bad
      else
        Walk(b, end, start, pos + 1 + len, AddLabel(text, b[pos + 1..pos + 1 + len]), loopc, ret)
  }
}
