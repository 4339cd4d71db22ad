/** Candidate pairs (section 5.7 of RFC 5245): states, and lists sorted by pair priority. */
module IcePairs {
  import opened Bytes
  import opened Lists

  datatype PairState = Frozen | Waiting | InProgress | Succeeded | Failed

  /** A pair of local and remote candidate for a component; busy while a check is pending. */
  datatype Pair = Pair(comp: nat, lcand: nat, rcand: nat, prio: nat, state: PairState, valid: bool,
                       nominated: bool, busy: bool, err: Errno)

  predicate Completed(st: PairState) {
    st == Failed || st == Succeeded
  }

  /** icem_candpair_set_state: a completed pair keeps its state. */
  function NextState(cur: PairState, st: PairState): PairState {
    if Completed(cur) then cur else st
  }

  function Prio(ps: seq<Pair>, x: nat): nat {
    if x < |ps| then ps[x].prio else 0
  }

  /** Highest priority first. */
  ghost predicate Sorted(l: seq<nat>, ps: seq<Pair>) {
    forall i, j {:trigger Prio(ps, l[i]), Prio(ps, l[j])} :: 0 <= i < j < |l| ==> Prio(ps, l[i]) >= Prio(ps, l[j])
  }

  ghost predicate ListOk(l: seq<nat>, ps: seq<Pair>) {
    NoDup(l) && Sorted(l, ps) && forall i {:trigger l[i]} :: 0 <= i < |l| ==> l[i] < |ps|
  }

  // ---------------------------------------------------------------- sorted insertion

  function InsertAt(l: seq<nat>, k: nat, x: nat): seq<nat>
    requires k <= |l|
  {
    l[..k] + [x] + l[k..]
  }

  lemma {:induction false} InsertMember(l: seq<nat>, k: nat, x: nat)
    requires k <= |l| && NoDup(l) && x !in l
    ensures NoDup(InsertAt(l, k, x)) && forall y :: y in InsertAt(l, k, x) <==> y in l || y == x
  {
    var r := InsertAt(l, k, x);
    forall y | y in l
      ensures y in r
    {
      var i :| 0 <= i < |l| && l[i] == y;
      assert r[if i < k then i else i + 1] == y;
    }
    assert r[k] == x;
  }

  /** Behind everything of higher priority and in front of the rest, a list stays sorted. */
  lemma {:induction false} InsertSorted(l: seq<nat>, ps: seq<Pair>, k: nat, x: nat)
    requires k <= |l| && Sorted(l, ps)
    requires k > 0 ==> Prio(ps, l[k - 1]) > Prio(ps, x)
    requires k < |l| ==> Prio(ps, l[k]) <= Prio(ps, x)
    ensures Sorted(InsertAt(l, k, x), ps)
  {
    var r := InsertAt(l, k, x);
    forall i, j | 0 <= i < j < |r|
      ensures Prio(ps, r[i]) >= Prio(ps, r[j])
    {
      var i', j' := if i < k then i else i - 1, if j < k then j else j - 1;
      if i == k {
        assert Prio(ps, l[k]) >= Prio(ps, l[j']);
      } else if j == k {
        assert Prio(ps, l[i']) >= Prio(ps, l[k - 1]);
      } else {
        assert Prio(ps, l[i']) >= Prio(ps, l[j']);
      }
    }
  }

  /** list_add_sorted: from the tail up to the first pair of higher priority. */
  method AddSorted(l: seq<nat>, ps: seq<Pair>, x: nat) returns (r: seq<nat>)
    requires ListOk(l, ps) && x !in l && x < |ps|
    ensures ListOk(r, ps) && (forall y :: y in r <==> y in l || y == x) && |r| == |l| + 1
  {
    hide NoDup, Sorted;
    var k: nat := |l|;
    while k > 0
      invariant k <= |l| && (k < |l| ==> Prio(ps, l[k]) <= Prio(ps, x))
    {
      if Prio(ps, x) < Prio(ps, l[k - 1]) {
        break;
      }
      k := k - 1;
    }
    r := InsertAt(l, k, x);
    InsertMember(l, k, x);
    InsertSorted(l, ps, k, x);
  }

  lemma {:induction false} RemoveSorted(l: seq<nat>, ps: seq<Pair>, x: nat)
    requires ListOk(l, ps) && x in l
    ensures ListOk(Remove(l, x), ps)
  {
    var k, r := IndexOf(l, x), Remove(l, x);
    RemoveMember(l, x);
    forall i, j | 0 <= i < j < |r|
      ensures Prio(ps, r[i]) >= Prio(ps, r[j])
    {
      assert Prio(ps, l[if i < k then i else i + 1]) >= Prio(ps, l[if j < k then j else j + 1]);
    }
  }

  /** Lists stay in order as long as no priority changes. */
  lemma {:induction false} ListFrame(l: seq<nat>, ps: seq<Pair>, qs: seq<Pair>)
    requires ListOk(l, ps) && Evolved(ps, qs)
    ensures ListOk(l, qs)
  {
    forall i, j | 0 <= i < j < |l|
      ensures Prio(qs, l[i]) >= Prio(qs, l[j])
    {
      assert Prio(ps, l[i]) >= Prio(ps, l[j]);
      assert SamePair(ps[l[i]], qs[l[i]]) && SamePair(ps[l[j]], qs[l[j]]);
    }
  }

  // ---------------------------------------------------------------- how pairs evolve

  /** The same pair later on: its candidates and priority stay, and so does a completed state. */
  predicate SamePair(p: Pair, q: Pair) {
    && q.comp == p.comp && q.lcand == p.lcand && q.rcand == p.rcand && q.prio == p.prio
    && (p.state == Succeeded || p.state == Failed ==> q.state == p.state)
  }

  ghost predicate Evolved(ps: seq<Pair>, qs: seq<Pair>) {
    |ps| <= |qs| && forall x {:trigger qs[x]} :: 0 <= x < |ps| ==> SamePair(ps[x], qs[x])
  }

  lemma {:induction false} EvolvedTrans(a: seq<Pair>, b: seq<Pair>, c: seq<Pair>)
    requires Evolved(a, b) && Evolved(b, c)
    ensures Evolved(a, c)
  {
    forall x | 0 <= x < |a|
      ensures SamePair(a[x], c[x])
    {
      assert SamePair(a[x], b[x]) && SamePair(b[x], c[x]);
    }
  }

  lemma {:induction false} EvolvedOne(ps: seq<Pair>, x: nat, p: Pair)
    requires x < |ps| && SamePair(ps[x], p)
    ensures Evolved(ps, ps[x := p])
  {}

  lemma {:induction false} EvolvedSelf(ps: seq<Pair>)
    ensures Evolved(ps, ps)
  {}

  lemma {:induction false} EvolvedMore(ps: seq<Pair>, p: Pair)
    ensures Evolved(ps, ps + [p])
  {}

  // ---------------------------------------------------------------- search

  predicate Matches(ps: seq<Pair>, x: nat, comp: Option<nat>, st: PairState) {
    x < |ps| && (comp.Some? ==> ps[x].comp == comp.value) && ps[x].state == st
  }

  /** icem_candpair_find_st: on a sorted list the first match is the one of highest priority. */
  method FindState(l: seq<nat>, ps: seq<Pair>, comp: Option<nat>, st: PairState) returns (r: Option<nat>)
    requires ListOk(l, ps)
    ensures r.None? ==> forall x :: x in l ==> !Matches(ps, x, comp, st)
    ensures r.Some? ==> r.value in l && Matches(ps, r.value, comp, st)
                        && forall x :: x in l && Matches(ps, x, comp, st) ==> Prio(ps, x) <= Prio(ps, r.value)
  {
    var i := 0;
    while i < |l|
      invariant i <= |l| && forall k :: 0 <= k < i ==> !Matches(ps, l[k], comp, st)
    {
      if Matches(ps, l[i], comp, st) {
        forall x | x in l && Matches(ps, x, comp, st)
          ensures Prio(ps, x) <= Prio(ps, l[i])
        {
          var k :| 0 <= k < |l| && l[k] == x;
          assert k >= i;
        }
        return Some(l[i]);
      }
      i := i + 1;
    }
    return None;
  }

  /** icem_candpair_find_compid */
  method FindComp(l: seq<nat>, ps: seq<Pair>, comp: nat) returns (r: Option<nat>)
    requires forall i {:trigger l[i]} :: 0 <= i < |l| ==> l[i] < |ps|
    ensures r.Some? <==> HasComp(l, ps, comp)
  {
    var i := 0;
    while i < |l|
      invariant i <= |l| && forall k :: 0 <= k < i ==> ps[l[k]].comp != comp
    {
      if ps[l[i]].comp == comp {
        return Some(l[i]);
      }
      i := i + 1;
    }
    return None;
  }

  /** Some pair of the list belongs to the component. */
  ghost predicate HasComp(l: seq<nat>, ps: seq<Pair>, comp: nat) {
    exists i :: 0 <= i < |l| && l[i] < |ps| && ps[l[i]].comp == comp
  }

  lemma {:induction false} HasCompFrame(l: seq<nat>, ps: seq<Pair>, qs: seq<Pair>, comp: nat)
    requires Evolved(ps, qs) && forall i {:trigger l[i]} :: 0 <= i < |l| ==> l[i] < |ps|
    ensures HasComp(l, ps, comp) <==> HasComp(l, qs, comp)
  {
    forall i | 0 <= i < |l|
      ensures qs[l[i]].comp == ps[l[i]].comp
    {
      assert SamePair(ps[l[i]], qs[l[i]]);
    }
  }

  /** icem_candpair_find: first pair of the list with both candidates. */
  method FindCands(l: seq<nat>, ps: seq<Pair>, lcand: nat, rcand: nat) returns (r: Option<nat>)
    requires forall i {:trigger l[i]} :: 0 <= i < |l| ==> l[i] < |ps|
    ensures r.Some? ==> r.value in l && r.value < |ps| && ps[r.value].lcand == lcand && ps[r.value].rcand == rcand
    ensures r.None? ==> forall x :: x in l && x < |ps| ==> !(ps[x].lcand == lcand && ps[x].rcand == rcand)
  {
    var i := 0;
    while i < |l|
      invariant i <= |l| && forall k :: 0 <= k < i ==> !(ps[l[k]].lcand == lcand && ps[l[k]].rcand == rcand)
    {
      if ps[l[i]].lcand == lcand && ps[l[i]].rcand == rcand {
        return Some(l[i]);
      }
      i := i + 1;
    }
    return None;
  }

  // ---------------------------------------------------------------- pairs still open

  /** Number of pairs of the list, from the i-th on, that are neither failed nor succeeded. */
  ghost function Open(l: seq<nat>, ps: seq<Pair>, i: nat): nat
    requires i <= |l|
    decreases |l| - i
  {
    if i == |l| then 0
    else (if l[i] < |ps| && !Completed(ps[l[i]].state) then 1 else 0) + Open(l, ps, i + 1)
  }

  ghost predicate AllDone(l: seq<nat>, ps: seq<Pair>) {
    forall i {:trigger l[i]} :: 0 <= i < |l| && l[i] < |ps| ==> Completed(ps[l[i]].state)
  }

  lemma {:induction false} OpenEvolves(l: seq<nat>, ps: seq<Pair>, qs: seq<Pair>, i: nat)
    requires i <= |l| && Evolved(ps, qs) && forall k {:trigger l[k]} :: 0 <= k < |l| ==> l[k] < |ps|
    ensures Open(l, qs, i) <= Open(l, ps, i)
    decreases |l| - i
  {
    if i < |l| {
      OpenEvolves(l, ps, qs, i + 1);
      assert SamePair(ps[l[i]], qs[l[i]]);
    }
  }

  /** Completing an open pair of the list leaves fewer open. */
  lemma {:induction false} OpenShrinks(l: seq<nat>, ps: seq<Pair>, qs: seq<Pair>, i: nat, k: nat)
    requires i <= k < |l| && Evolved(ps, qs) && forall k {:trigger l[k]} :: 0 <= k < |l| ==> l[k] < |ps|
    requires !Completed(ps[l[k]].state) && Completed(qs[l[k]].state)
    ensures Open(l, qs, i) < Open(l, ps, i)
    decreases |l| - i
  {
    assert SamePair(ps[l[i]], qs[l[i]]);
    if i < k {
      OpenShrinks(l, ps, qs, i + 1, k);
    } else {
      OpenEvolves(l, ps, qs, i + 1);
    }
  }

  lemma {:induction false} OpenZero(l: seq<nat>, ps: seq<Pair>, i: nat)
    requires i <= |l| && AllDone(l, ps)
    ensures Open(l, ps, i) == 0
    decreases |l| - i
  {
    if i < |l| {
      OpenZero(l, ps, i + 1);
    }
  }

  lemma {:induction false} AllDoneFrame(l: seq<nat>, ps: seq<Pair>, qs: seq<Pair>)
    requires AllDone(l, ps) && Evolved(ps, qs) && forall k {:trigger l[k]} :: 0 <= k < |l| ==> l[k] < |ps|
    ensures AllDone(l, qs)
  {
    forall i | 0 <= i < |l| && l[i] < |qs|
      ensures Completed(qs[l[i]].state)
    {
      assert SamePair(ps[l[i]], qs[l[i]]);
    }
  }

  /** iscompleted */
  method IsCompleted(l: seq<nat>, ps: seq<Pair>) returns (done: bool)
    requires forall i {:trigger l[i]} :: 0 <= i < |l| ==> l[i] < |ps|
    ensures done == AllDone(l, ps)
  {
    var i := 0;
    while i < |l|
      invariant i <= |l| && forall k :: 0 <= k < i ==> Completed(ps[l[k]].state)
    {
      if !Completed(ps[l[i]].state) {
        return false;
      }
      i := i + 1;
    }
    return true;
  }

  // ---------------------------------------------------------------- sorting

  /** The last |l| - n elements are in order and no greater than anything in front of them. */
  ghost predicate Settled(l: seq<nat>, ps: seq<Pair>, n: nat) {
    forall i, j {:trigger Prio(ps, l[i]), Prio(ps, l[j])} :: 0 <= i < j < |l| && n <= j ==> Prio(ps, l[i]) >= Prio(ps, l[j])
  }

  /** Exchange of neighbours keeps the elements and what is settled behind them. */
  lemma {:induction false} SwapKeeps(l: seq<nat>, ps: seq<Pair>, n: nat, j: nat)
    requires j + 1 < n <= |l| && Settled(l, ps, n) && NoDup(l)
    ensures var r := l[j := l[j + 1]][j + 1 := l[j]];
            |r| == |l| && Settled(r, ps, n) && NoDup(r) && multiset(r) == multiset(l)
  {
    var r := l[j := l[j + 1]][j + 1 := l[j]];
    forall a, b | 0 <= a < b < |r| && n <= b
      ensures Prio(ps, r[a]) >= Prio(ps, r[b])
    {
      var a' := if a == j then j + 1 else if a == j + 1 then j else a;
      assert Prio(ps, l[a']) >= Prio(ps, l[b]);
    }
  }

  /**
   * list_sort: passes that carry the lowest priority to the end, until a pass changes nothing. Each
   * pass that changes something settles one more element, which is why it ends.
   */
  method Sort(l: seq<nat>, ps: seq<Pair>) returns (r: seq<nat>)
    requires NoDup(l)
    ensures Sorted(r, ps) && NoDup(r) && multiset(r) == multiset(l)
  {
    r := l;
    ghost var n: nat := |r|;
    var again := true;
    while again
      invariant n <= |r| && NoDup(r) && multiset(r) == multiset(l) && Settled(r, ps, n)
      invariant !again ==> Sorted(r, ps)
      decreases again, n
    {
      var swapped;
      r, swapped := Pass(r, ps, n);
      again := swapped;
      if swapped {
        n := n - 1;
      }
    }
  }

  /** Nothing in front of j has a lower priority than j. */
  ghost predicate LowAt(l: seq<nat>, ps: seq<Pair>, j: nat) {
    j < |l| && forall i {:trigger l[i]} :: 0 <= i < j ==> Prio(ps, l[i]) >= Prio(ps, l[j])
  }

  ghost predicate SortedTo(l: seq<nat>, ps: seq<Pair>, n: nat) {
    forall i, j {:trigger Prio(ps, l[i]), Prio(ps, l[j])} :: 0 <= i < j < |l| && j <= n ==> Prio(ps, l[i]) >= Prio(ps, l[j])
  }

  lemma {:induction false} PassStart(l: seq<nat>, ps: seq<Pair>)
    ensures SortedTo(l, ps, 0) && (if |l| == 0 then Sorted(l, ps) else LowAt(l, ps, 0))
  {}

  lemma {:induction false} LowSkip(l: seq<nat>, ps: seq<Pair>, j: nat)
    requires LowAt(l, ps, j) && j + 1 < |l| && Prio(ps, l[j]) >= Prio(ps, l[j + 1])
    ensures LowAt(l, ps, j + 1) && (SortedTo(l, ps, j) ==> SortedTo(l, ps, j + 1))
  {}

  lemma {:induction false} LowSwap(l: seq<nat>, ps: seq<Pair>, j: nat)
    requires LowAt(l, ps, j) && j + 1 < |l| && Prio(ps, l[j]) < Prio(ps, l[j + 1])
    ensures LowAt(l[j := l[j + 1]][j + 1 := l[j]], ps, j + 1)
  {
    var r := l[j := l[j + 1]][j + 1 := l[j]];
    forall i | 0 <= i < j + 1
      ensures Prio(ps, r[i]) >= Prio(ps, r[j + 1])
    {
      if i < j {
        assert Prio(ps, l[i]) >= Prio(ps, l[j]);
      }
    }
  }

  /** Only pairs in front of what is settled are out of order. */
  lemma {:induction false} OutOfOrder(l: seq<nat>, ps: seq<Pair>, n: nat, j: nat)
    requires Settled(l, ps, n) && j + 1 < |l| && Prio(ps, l[j]) < Prio(ps, l[j + 1])
    ensures j + 1 < n
  {}

  lemma {:induction false} SettleOne(l: seq<nat>, ps: seq<Pair>, n: nat)
    requires 0 < n <= |l| && Settled(l, ps, n) && LowAt(l, ps, n - 1)
    ensures Settled(l, ps, n - 1)
  {
    forall i, j | 0 <= i < j < |l| && n - 1 <= j
      ensures Prio(ps, l[i]) >= Prio(ps, l[j])
    {
      if j == n - 1 {
        assert Prio(ps, l[i]) >= Prio(ps, l[n - 1]);
      }
    }
  }

  lemma {:induction false} SortedWhole(l: seq<nat>, ps: seq<Pair>, n: nat)
    requires SortedTo(l, ps, n) && |l| <= n + 1
    ensures Sorted(l, ps)
  {}

  /** One pass from the head; without an exchange the list was sorted. */
  method Pass(l: seq<nat>, ps: seq<Pair>, ghost n: nat) returns (r: seq<nat>, swapped: bool)
    requires n <= |l| && NoDup(l) && Settled(l, ps, n)
    ensures |r| == |l| && NoDup(r) && multiset(r) == multiset(l) && Settled(r, ps, n)
    ensures swapped ==> n > 0 && Settled(r, ps, n - 1)
    ensures !swapped ==> Sorted(r, ps)
  {
    hide NoDup, Settled, LowAt, SortedTo, Sorted;
    r, swapped := l, false;
    PassStart(r, ps);
    if |l| == 0 {
      return;
    }
    var j := 0;
    while j + 1 < |r|
      invariant |r| == |l| && j < |r| && NoDup(r) && multiset(r) == multiset(l) && Settled(r, ps, n)
      invariant LowAt(r, ps, j) && (swapped ==> n > 1) && (!swapped ==> SortedTo(r, ps, j))
      invariant 0 < n <= j + 1 ==> LowAt(r, ps, n - 1)
    {
      if Prio(ps, r[j]) >= Prio(ps, r[j + 1]) {
        LowSkip(r, ps, j);
      } else {
        OutOfOrder(r, ps, n, j);
        SwapKeeps(r, ps, n, j);
        LowSwap(r, ps, j);
        r := r[j := r[j + 1]][j + 1 := r[j]];
        swapped := true;
      }
      j := j + 1;
    }
    if swapped {
      SettleOne(r, ps, n);
    } else {
      SortedWhole(r, ps, j);
    }
  }
}
