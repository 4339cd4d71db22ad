/** Linked lists of items, as sequences of their indices. */
module Lists {
  ghost predicate NoDup(l: seq<nat>) {
    forall i, j :: 0 <= i < j < |l| ==> l[i] != l[j]
  }

  function IndexOf(l: seq<nat>, x: nat): (i: nat)
    requires x in l
    ensures i < |l| && l[i] == x
  {
    if l[0] == x then 0 else 1 + IndexOf(l[1..], x)
  }

  /** list_unlink */
  function Remove(l: seq<nat>, x: nat): (r: seq<nat>)
    requires x in l
  {
    var i := IndexOf(l, x);
    l[..i] + l[i + 1..]
  }

  lemma {:induction false} AddMember(l: seq<nat>, x: nat)
    requires NoDup(l) && x !in l
    ensures NoDup(l + [x]) && forall y :: y in l + [x] <==> y in l || y == x
  {}

  lemma {:induction false} RemoveMember(l: seq<nat>, x: nat)
    requires NoDup(l) && x in l
    ensures NoDup(Remove(l, x)) && forall y :: y in Remove(l, x) <==> y in l && y != x
  {
    var i, r := IndexOf(l, x), Remove(l, x);
    forall y | y in l && y != x
      ensures y in r
    {
      var k :| 0 <= k < |l| && l[k] == y;
      assert r[if k < i then k else k - 1] == y;
    }
  }

  lemma {:induction false} RemoveHead(l: seq<nat>)
    requires |l| > 0
    ensures Remove(l, l[0]) == l[1..]
  {}
}
