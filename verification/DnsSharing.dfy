/** What compression does to the bytes: a name written again, or below another label, is a pointer to the first one. */
module DnsSharing {
  import opened Bytes
  import opened DnsName

  /** Names are compared as strcasecmp does: letter by letter, A to Z like a to z. */
  lemma {:induction false} CaseEqIff(a: seq<byte>, b: seq<byte>)
    ensures CaseEq(a, b) <==>
            && |a| == |b|
            && forall i :: 0 <= i < |a| ==> a[i] == b[i] || (65 <= a[i] <= 90 && b[i] == a[i] + 32) || (65 <= b[i] <= 90 && a[i] == b[i] + 32)
  {
    if CaseEq(a, b) {
      forall i | 0 <= i < |a|
        ensures Fold(a[i]) == Fold(b[i])
      {
        assert FoldSeq(a)[i] == FoldSeq(b)[i];
      }
    }
  }

  lemma {:induction false} FindCase(tab: Table, a: seq<byte>, b: seq<byte>)
    requires CaseEq(a, b)
    ensures Find(tab, a) == Find(tab, b)
    decreases tab
  {
    hide CaseEq;
    if tab.Snoc? {
      FindCase(tab.init, a, b);
      SameCase(tab.last.name, a, b);
    }
  }

  lemma {:induction false} SameCase(x: seq<byte>, a: seq<byte>, b: seq<byte>)
    requires CaseEq(a, b)
    ensures CaseEq(x, a) <==> CaseEq(x, b)
  {}

  /** What is in the table stays there while more names are recorded. */
  lemma {:induction false} FoundLater(d: Dn, tab: Table, now: Table, off: nat, comp: bool, name: seq<byte>)
    requires Find(now, name).Some?
    ensures Find(LabelTable(d, tab, now, off, comp), name) == Find(now, name)
    decreases d
  {
    hide CaseEq, Stops;
    if d.Label? && d.lab != [] && !d.last && !Stops(d.suffix, tab, comp) {
      var at := off + 1 + |d.lab|;
      FoundLater(d.rest, tab, if Find(tab, d.suffix).None? then Record(now, d.suffix, at) else now, at, comp, name);
    }
  }

  /** A name that is written is found from then on, in any case, where it was first. */
  lemma {:induction false} Remembered(name: seq<byte>, tab: Table, off: nat, comp: bool, again: seq<byte>)
    requires !tab.NoTable? && name != [] && off <= 0x3fff && CaseEq(name, again)
    ensures Find(EncName(name, tab, off, comp).tab, again) == if Find(tab, name).Some? then Find(tab, name) else Some(off)
  {
    hide CaseEq;
    FindCase(tab, name, again);
    SameCase(name, name, again);
    assert CaseEq(name, name) by { SelfCase(name); }
    if !(Find(tab, name).Some? && comp) {
      var now := if Find(tab, name).None? then Record(tab, name, off) else tab;
      FoundLater(ParseName(name), tab, now, off, comp, again);
    }
  }

  lemma {:induction false} SelfCase(name: seq<byte>)
    ensures CaseEq(name, name)
  {}

  /**
   * Written again in any case, a name is two bytes: a pointer to where it was first. Written below one
   * more label it is that label and the pointer.
   */
  lemma {:induction false} SharedName(name: seq<byte>, tab: Table, off: nat, comp: bool, again: seq<byte>, off': nat, lab: seq<byte>)
    requires !tab.NoTable? && name != [] && off <= 0x3fff && CaseEq(name, again) && Find(tab, name).None?
    requires lab != [] && |lab| <= 255 && DOT !in lab
    ensures var t, p := EncName(name, tab, off, comp).tab, [0xc0 + off / 0x100, off % 0x100];
            && EncName(again, t, off', true) == Encoded(p, t, true)
            && (Find(t, lab + [DOT] + again).None? ==>
                  EncName(lab + [DOT] + again, t, off', true).bytes == [|lab|] + lab + p && EncName(lab + [DOT] + again, t, off', true).ok)
  {
    hide CaseEq, Find, LabelTable;
    Remembered(name, tab, off, comp, again);
    var t, longer := EncName(name, tab, off, comp).tab, lab + [DOT] + again;
    PointerIs(off);
    Below(lab, again);
  }

  lemma {:induction false} PointerIs(off: offset)
    ensures Pointer(off) == [0xc0 + off / 0x100, off % 0x100]
  {}

  lemma {:induction false} Below(lab: seq<byte>, name: seq<byte>)
    requires lab != [] && DOT !in lab
    ensures var d := ParseName(lab + [DOT] + name); d.Label? && d.lab == lab && !d.last && d.suffix == name
  {
    hide LabelLen;
    var longer := lab + [DOT] + name;
    assert forall i :: 0 <= i < |lab| ==> longer[i] == lab[i] && lab[i] in lab;
    LabelLenUnique(longer, |lab|);
    assert longer[..|lab|] == lab && longer[|lab| + 1..] == name;
  }

  /** The labels one after the other, each behind its length. */
  function Plain(d: Dn): seq<byte> {
    if d.End? || d.lab == [] then [0] else [|d.lab| % 0x100] + d.lab + if d.last then [0] else Plain(d.rest)
  }

  lemma {:induction false} LabelsPlain(d: Dn, tab: Table)
    ensures LabelBytes(d, tab, false) == Plain(d)
    decreases d
  {
    if d.Label? {
      LabelsPlain(d.rest, tab);
    }
  }

  /** Without compression there are no pointers, whatever was written before. */
  lemma {:induction false} Uncompressed(name: seq<byte>, tab: Table, off: nat)
    ensures EncName(name, tab, off, false).bytes == Plain(ParseName(name))
  {
    LabelsPlain(ParseName(name), tab);
  }
}
