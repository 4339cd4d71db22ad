/**
 * The check list of an ICE media stream (sections 5.8, 7.1.3.3 and 8 of RFC 5245): pacing of the
 * connectivity checks by mutually recursive procedures, their termination, and how they conclude.
 */
module Ice {
  import opened Bytes
  import opened Lists
  import opened IcePairs

  datatype ListState = Idle | Running | Completed | Failed

  datatype Comp = Comp(concluded: bool, selected: Option<nat>)

  /** The part of the state that pacing changes. */
  datatype Snap = Snap(pairs: seq<Pair>, state: ListState, chkh: bool, aborted: bool, calls: seq<Errno>)

  /** The completion handler is called if there is one. */
  function Call(chkh: bool, err: Errno): seq<Errno> {
    if chkh then [err] else []
  }

  /** A component without any pair on the valid list. */
  ghost predicate Missing(validl: seq<nat>, ps: seq<Pair>, comps: nat) {
    exists c :: 0 <= c < comps && !HasComp(validl, ps, c)
  }

  /** Everything is checked: the outcome, and the one call of the handler that reports it. */
  ghost predicate Concluded(a: Snap, b: Snap, checkl: seq<nat>, validl: seq<nat>, comps: nat) {
    && AllDone(checkl, b.pairs) && b.chkh == a.chkh && b.aborted == a.aborted
    && if Missing(validl, b.pairs, comps) then b.state.Failed? && b.calls == a.calls + Call(a.chkh, ENOENT)
       else b.state.Completed? && b.calls == a.calls + Call(a.chkh, OK)
  }

  /** A check could not be sent for lack of memory: failed at once, reported, handler dropped. */
  ghost predicate Aborted(a: Snap, b: Snap) {
    b.state.Failed? && b.aborted && !b.chkh && b.calls == a.calls + Call(a.chkh, ENOMEM)
  }

  /** What pacing may do to a running check list. */
  ghost predicate Paced(a: Snap, b: Snap, checkl: seq<nat>, validl: seq<nat>, comps: nat) {
    && Evolved(a.pairs, b.pairs)
    && ( || (b.state.Running? && b.chkh == a.chkh && b.aborted == a.aborted && b.calls == a.calls)
         || Concluded(a, b, checkl, validl, comps)
         || Aborted(a, b))
  }

  lemma {:induction false} PacedLater(a: Snap, b: Snap, c: Snap, checkl: seq<nat>, validl: seq<nat>, comps: nat)
    requires Paced(a, b, checkl, validl, comps) && b.state.Running? && Paced(b, c, checkl, validl, comps)
    ensures Paced(a, c, checkl, validl, comps)
  {
    hide AllDone, Missing, Evolved;
    EvolvedTrans(a.pairs, b.pairs, c.pairs);
  }

  /** A candidate: its number, component and address family. */
  datatype Cand = Cand(id: nat, comp: nat, af: nat)

  /** One of the two lists has a pair of these candidates. */
  ghost predicate Listed(checkl: seq<nat>, validl: seq<nat>, ps: seq<Pair>, l: nat, r: nat) {
    exists x :: (x in checkl || x in validl) && x < |ps| && ps[x].lcand == l && ps[x].rcand == r
  }

  /** Every fitting pair of candidates is on one of the lists. */
  ghost predicate AllListed(checkl: seq<nat>, validl: seq<nat>, ps: seq<Pair>, lcands: seq<Cand>, rcands: seq<Cand>) {
    forall l, r :: l in lcands && r in rcands && l.comp == r.comp && l.af == r.af ==> Listed(checkl, validl, ps, l.id, r.id)
  }

  /** A fitting pair is on no list, and its component is not there. */
  ghost predicate NoComp(checkl: seq<nat>, validl: seq<nat>, ps: seq<Pair>, l: Cand, r: Cand, comps: nat) {
    l.comp == r.comp && l.af == r.af && l.comp >= comps && !Listed(checkl, validl, ps, l.id, r.id)
  }

  /** A new pair of these two candidates. */
  predicate MadeOf(p: Pair, l: Cand, r: Cand) {
    && p.lcand == l.id && p.rcand == r.id && p.comp == l.comp && p.state == Frozen
    && !p.valid && !p.nominated && !p.busy && p.err == OK
  }

  ghost predicate Made(p: Pair, lcands: seq<Cand>, rcands: seq<Cand>) {
    exists l, r :: l in lcands && r in rcands && l.comp == r.comp && l.af == r.af && MadeOf(p, l, r)
  }

  predicate SameCands(p: Pair, q: Pair) {
    p.lcand == q.lcand && p.rcand == q.rcand
  }

  /**
   * From pairs ps with check list cl to pairs qs with check list cl': what was there stays, what is new is
   * made of fitting candidates and on the list, and no two new pairs, nor a new one and one of the old
   * list, have the same candidates.
   */
  ghost predicate Grew(ps: seq<Pair>, cl: seq<nat>, qs: seq<Pair>, cl': seq<nat>, lcands: seq<Cand>, rcands: seq<Cand>) {
    && ps <= qs && (forall x :: x in cl' <==> x in cl || |ps| <= x < |qs|)
    && (forall x {:trigger qs[x]} :: |ps| <= x < |qs| ==> Made(qs[x], lcands, rcands))
    && (forall x, y {:trigger qs[x], qs[y]} :: |ps| <= x < y < |qs| ==> !SameCands(qs[x], qs[y]))
    && (forall x, y {:trigger x in cl, qs[y]} :: x in cl && x < |ps| && |ps| <= y < |qs| ==> !SameCands(ps[x], qs[y]))
  }

  lemma {:induction false} GrewNone(ps: seq<Pair>, cl: seq<nat>, lcands: seq<Cand>, rcands: seq<Cand>)
    requires forall x :: x in cl ==> x < |ps|
    ensures Grew(ps, cl, ps, cl, lcands, rcands)
  {}

  lemma {:induction false} GrewOne(ps: seq<Pair>, cl: seq<nat>, p: Pair, cl': seq<nat>, l: Cand, r: Cand)
    requires l.comp == r.comp && l.af == r.af && MadeOf(p, l, r) && (forall x :: x in cl ==> x < |ps|) && (forall x :: x in cl' <==> x in cl || x == |ps|)
    requires forall x :: x in cl && x < |ps| ==> !(ps[x].lcand == l.id && ps[x].rcand == r.id)
    ensures Grew(ps, cl, ps + [p], cl', [l], [r])
  {
    assert l in [l] && r in [r];
    assert Made(p, [l], [r]);
  }

  lemma {:induction false} GrewThen(a: seq<Pair>, cl: seq<nat>, b: seq<Pair>, cl1: seq<nat>, c: seq<Pair>, cl2: seq<nat>, lcands: seq<Cand>, rcands: seq<Cand>)
    requires Grew(a, cl, b, cl1, lcands, rcands) && Grew(b, cl1, c, cl2, lcands, rcands)
    ensures Grew(a, cl, c, cl2, lcands, rcands)
  {
    hide Made, SameCands;
    assert forall x {:trigger c[x]} :: 0 <= x < |b| ==> c[x] == b[x];
    forall x | |a| <= x < |c|
      ensures Made(c[x], lcands, rcands)
    {
      if x < |b| {
        assert Made(b[x], lcands, rcands);
      }
    }
    forall x, y | |a| <= x < y < |c|
      ensures !SameCands(c[x], c[y])
    {
      if y < |b| {
        assert !SameCands(b[x], b[y]);
      } else if x < |b| {
        assert x in cl1;
        assert !SameCands(b[x], c[y]);
      }
    }
    forall x, y | x in cl && x < |a| && |a| <= y < |c|
      ensures !SameCands(a[x], c[y])
    {
      assert b[x] == a[x] && x in cl1;
      if y < |b| {
        assert !SameCands(a[x], b[y]);
      } else {
        assert !SameCands(b[x], c[y]);
      }
    }
  }

  lemma {:induction false} GrewMore(ps: seq<Pair>, cl: seq<nat>, qs: seq<Pair>, cl': seq<nat>, ls: seq<Cand>, rs: seq<Cand>, lcands: seq<Cand>, rcands: seq<Cand>)
    requires Grew(ps, cl, qs, cl', ls, rs) && (forall l :: l in ls ==> l in lcands) && (forall r :: r in rs ==> r in rcands)
    ensures Grew(ps, cl, qs, cl', lcands, rcands)
  {
    forall x | |ps| <= x < |qs|
      ensures Made(qs[x], lcands, rcands)
    {
      assert Made(qs[x], ls, rs);
    }
  }

  lemma {:induction false} ListedLater(cl: seq<nat>, cl': seq<nat>, validl: seq<nat>, ps: seq<Pair>, qs: seq<Pair>, l: nat, r: nat)
    requires Listed(cl, validl, ps, l, r) && Evolved(ps, qs) && forall x :: x in cl ==> x in cl'
    ensures Listed(cl', validl, qs, l, r)
  {
    var x :| (x in cl || x in validl) && x < |ps| && ps[x].lcand == l && ps[x].rcand == r;
    assert SamePair(ps[x], qs[x]);
  }

  /** The two pairs have the same component, base of the local candidate and remote address. */
  predicate Redundant(p: Pair, q: Pair, base: nat -> nat, addr: nat -> nat) {
    p.comp == q.comp && base(p.lcand) == base(q.lcand) && addr(p.rcand) == addr(q.rcand)
  }

  /** Pairs before the n-th are not redundant with any later one. */
  ghost predicate DistinctTo(l: seq<nat>, ps: seq<Pair>, base: nat -> nat, addr: nat -> nat, n: nat) {
    forall i, j {:trigger l[i], l[j]} :: 0 <= i < n && i < j < |l| && l[i] < |ps| && l[j] < |ps| ==>
      !Redundant(ps[l[i]], ps[l[j]], base, addr)
  }

  /** y of the list is as good as x: redundant with it and of no lower priority. */
  ghost predicate AsGood(l: seq<nat>, ps: seq<Pair>, base: nat -> nat, addr: nat -> nat, x: nat, y: nat) {
    y in l && x < |ps| && y < |ps| && Redundant(ps[x], ps[y], base, addr) && ps[y].prio >= ps[x].prio
  }

  /** y is on the list, and not behind x. */
  ghost predicate NotBehind(all: seq<nat>, y: nat, x: nat) {
    exists i, j :: 0 <= i <= j < |all| && all[i] == y && all[j] == x
  }

  /** As good as x and of higher priority, or not behind it. */
  ghost predicate Above(all: seq<nat>, l: seq<nat>, ps: seq<Pair>, base: nat -> nat, addr: nat -> nat, x: nat, y: nat) {
    AsGood(l, ps, base, addr, x, y) && (ps[y].prio > ps[x].prio || NotBehind(all, y, x))
  }

  /** Every pair of all has one as good on l, higher up unless it is itself. */
  ghost predicate Covered(all: seq<nat>, l: seq<nat>, ps: seq<Pair>, base: nat -> nat, addr: nat -> nat) {
    forall x {:trigger x in all} :: x in all && x < |ps| ==> exists y :: Above(all, l, ps, base, addr, x, y)
  }

  /** What is left of the list has kept its order. */
  ghost predicate InPlace(all: seq<nat>, l: seq<nat>) {
    NoDup(all) && forall i, j {:trigger l[i], l[j]} :: 0 <= i <= j < |l| ==> NotBehind(all, l[i], l[j])
  }

  /** There is a pair of these candidates that is valid or has one as good on the check list. */
  ghost predicate Represented(checkl: seq<nat>, validl: seq<nat>, ps: seq<Pair>, l: nat, r: nat, base: nat -> nat, addr: nat -> nat) {
    exists x: nat :: x < |ps| && ps[x].lcand == l && ps[x].rcand == r
                     && (x in validl || exists y :: AsGood(checkl, ps, base, addr, x, y))
  }

  /**
   * As Grew, after the pairs of the list were given new priorities and some of them were taken off it.
   */
  ghost predicate FormedFrom(ps: seq<Pair>, cl: seq<nat>, qs: seq<Pair>, cl': seq<nat>, lcands: seq<Cand>, rcands: seq<Cand>) {
    && |ps| <= |qs| && (forall x :: x in cl' ==> x in cl || |ps| <= x < |qs|)
    && (forall x {:trigger qs[x]} :: 0 <= x < |ps| ==> qs[x] == ps[x].(prio := qs[x].prio) && (x !in cl ==> qs[x] == ps[x]))
    && (forall x {:trigger qs[x]} :: |ps| <= x < |qs| ==> Made(qs[x], lcands, rcands))
    && (forall x, y {:trigger qs[x], qs[y]} :: |ps| <= x < y < |qs| ==> !SameCands(qs[x], qs[y]))
  }

  /** The pairs of the list have the priority of their candidates. */
  ghost predicate Ranked(l: seq<nat>, ps: seq<Pair>, prio: (nat, nat) -> nat) {
    forall x {:trigger x in l} :: x in l && x < |ps| ==> ps[x].prio == prio(ps[x].lcand, ps[x].rcand)
  }

  lemma {:induction false} FormedSame(ps: seq<Pair>, cl: seq<nat>, qs: seq<Pair>, cl': seq<nat>, lcands: seq<Cand>, rcands: seq<Cand>)
    requires Grew(ps, cl, qs, cl', lcands, rcands)
    ensures FormedFrom(ps, cl, qs, cl', lcands, rcands)
  {
    hide Made, SameCands;
    assert forall x {:trigger qs[x]} :: 0 <= x < |ps| ==> qs[x] == ps[x];
  }

  lemma {:induction false} FormedRanked(ps: seq<Pair>, cl: seq<nat>, qs: seq<Pair>, mid: seq<nat>, rs: seq<Pair>, cl': seq<nat>,
                                        lcands: seq<Cand>, rcands: seq<Cand>, prio: (nat, nat) -> nat)
    requires Grew(ps, cl, qs, mid, lcands, rcands) && |rs| == |qs| && (forall x :: x in cl' ==> x in mid)
    requires forall x {:trigger rs[x]} :: 0 <= x < |rs| ==> rs[x] == if x in mid then qs[x].(prio := prio(qs[x].lcand, qs[x].rcand)) else qs[x]
    ensures FormedFrom(ps, cl, rs, cl', lcands, rcands) && Ranked(cl', rs, prio)
  {
    forall x | |ps| <= x < |rs|
      ensures Made(rs[x], lcands, rcands)
    {
      assert Made(qs[x], lcands, rcands);
      var l, r :| l in lcands && r in rcands && l.comp == r.comp && l.af == r.af && MadeOf(qs[x], l, r);
      assert MadeOf(rs[x], l, r);
    }
    forall x, y | |ps| <= x < y < |rs|
      ensures !SameCands(rs[x], rs[y])
    {
      assert !SameCands(qs[x], qs[y]);
    }
    assert forall x {:trigger qs[x]} :: 0 <= x < |ps| ==> qs[x] == ps[x];
  }

  /** The local candidate for the mapped address of a success response, if it is known or could be added. */
  datatype Mapped = NoAttr | Mapped(lcand: Option<nat>)

  datatype Result = Fails | Succeeds | Switches | Ignored

  /** What a response means for the pair of the check. */
  function Verdict(err: Errno, scode: nat, mapped: Mapped): Result {
    if err != OK then Fails
    else if scode == 0 then if mapped.NoAttr? then Fails else if mapped.lcand.Some? then Succeeds else Ignored
    else if scode == 487 then Switches
    else Fails
  }

  class Icem {
    var pairs: seq<Pair>
    var checkl: seq<nat>
    var validl: seq<nat>
    var comps: seq<Comp>
    var state: ListState
    var chkh: bool
    var controlling: bool
    var haveUfrag: bool
    ghost var aborted: bool
    ghost var calls: seq<Errno>
    ghost var tried: seq<nat>       // pairs whose check was started, in order

    ghost predicate Valid()
      reads this
    {
      && ListOk(checkl, pairs) && ListOk(validl, pairs) && (forall x :: x in checkl ==> x !in validl)
      && (forall x {:trigger pairs[x]} :: 0 <= x < |pairs| ==> pairs[x].comp < |comps|)
    }

    ghost function View(): Snap
      reads this
    {
      Snap(pairs, state, chkh, aborted, calls)
    }

    constructor (comps: nat, controlling: bool)
      ensures Valid() && pairs == [] && checkl == [] && validl == [] && |this.comps| == comps && state == Idle && calls == [] && chkh
    {
      pairs, checkl, validl, state := [], [], [], Idle;
      this.comps := seq(comps, _ => Comp(false, None));
      chkh, haveUfrag, aborted, calls, tried := true, false, false, [], [];
      this.controlling := controlling;
    }

    // -------------------------------------------------------------- pairs

    /** icem_candpair_alloc: a frozen pair on the check list. */
    method Alloc(comp: nat, lcand: nat, rcand: nat, prio: nat) returns (x: nat)
      requires Valid() && comp < |comps|
      modifies `pairs, `checkl
      ensures Valid() && x == |old(pairs)| && Evolved(old(pairs), pairs)
      ensures pairs == old(pairs) + [Pair(comp, lcand, rcand, prio, Frozen, false, false, false, OK)]
      ensures forall y :: y in checkl <==> y in old(checkl) || y == x
    {
      x := AddPair(Pair(comp, lcand, rcand, prio, Frozen, false, false, false, OK));
    }

    /** icem_candpair_clone: another pair with the state and priority of x. */
    method Clone(x: nat, lcand: nat, rcand: nat) returns (y: nat)
      requires Valid() && x < |pairs|
      modifies `pairs, `checkl
      ensures Valid() && y == |old(pairs)| && pairs == old(pairs) + [old(pairs[x]).(lcand := lcand, rcand := rcand, busy := false)]
      ensures forall z :: z in checkl <==> z in old(checkl) || z == y
    {
      assert pairs[x].comp < |comps|;
      y := AddPair(pairs[x].(lcand := lcand, rcand := rcand, busy := false));
    }

    method AddPair(p: Pair) returns (x: nat)
      requires Valid() && p.comp < |comps|
      modifies `pairs, `checkl
      ensures Valid() && x == |old(pairs)| && pairs == old(pairs) + [p] && Evolved(old(pairs), pairs)
      ensures forall y :: y in checkl <==> y in old(checkl) || y == x
    {
      hide Sorted, NoDup;
      x := |pairs|;
      EvolvedMore(pairs, p);
      assert x !in checkl && x !in validl by { InRange(checkl, pairs); InRange(validl, pairs); }
      ListFrame(checkl, pairs, pairs + [p]);
      ListFrame(validl, pairs, pairs + [p]);
      pairs := pairs + [p];
      checkl := AddSorted(checkl, pairs, x);
    }

    /** icem_candpair_set_state */
    method SetState(x: nat, st: PairState)
      requires Valid() && x < |pairs|
      modifies `pairs
      ensures Valid() && pairs == old(pairs)[x := old(pairs[x]).(state := NextState(old(pairs[x].state), st))]
      ensures if old(pairs[x].state) in {Succeeded, PairState.Failed} then pairs == old(pairs) else pairs[x].state == st
      ensures Evolved(old(pairs), pairs)
    {
      if pairs[x].state == st || IcePairs.Completed(pairs[x].state) {
        assert pairs[x := pairs[x].(state := NextState(pairs[x].state, st))] == pairs;
        EvolvedSelf(pairs);
        return;
      }
      Update(x, pairs[x].(state := st));
    }

    /** A field of a pair other than its identity changes. */
    method Update(x: nat, p: Pair)
      requires Valid() && x < |pairs| && SamePair(pairs[x], p)
      modifies `pairs
      ensures Valid() && pairs == old(pairs)[x := p] && Evolved(old(pairs), pairs)
    {
      hide Sorted, NoDup;
      EvolvedOne(pairs, x, p);
      ListFrame(checkl, pairs, pairs[x := p]);
      ListFrame(validl, pairs, pairs[x := p]);
      assert pairs[x].comp < |comps|;
      pairs := pairs[x := p];
    }

    /** icem_candpair_failed */
    method MarkFailed(x: nat, err: Errno)
      requires Valid() && x < |pairs|
      modifies `pairs
      ensures Valid() && Evolved(old(pairs), pairs)
      ensures pairs == old(pairs)[x := old(pairs[x]).(err := err, valid := false, state := NextState(old(pairs[x].state), PairState.Failed))]
    {
      hide Sorted, NoDup;
      ghost var was := pairs;
      Update(x, pairs[x].(err := err, valid := false));
      ghost var mid := pairs;
      SetState(x, PairState.Failed);
      EvolvedTrans(was, mid, pairs);
    }

    /** icem_candpair_make_valid: succeeded, and moved to the valid list. */
    method MakeValid(x: nat)
      requires Valid() && x < |pairs| && (x in checkl || x in validl)
      modifies `pairs, `checkl, `validl
      ensures Valid() && Evolved(old(pairs), pairs)
      ensures pairs == old(pairs)[x := old(pairs[x]).(err := OK, valid := true, state := NextState(old(pairs[x].state), Succeeded))]
      ensures forall y :: y in validl <==> y in old(validl) || y == x
      ensures forall y :: y in checkl <==> y in old(checkl) && y != x
    {
      hide Sorted, NoDup;
      ghost var was := pairs;
      Update(x, pairs[x].(err := OK, valid := true));
      ghost var mid := pairs;
      SetState(x, Succeeded);
      EvolvedTrans(was, mid, pairs);
      if x in checkl {
        RemoveSorted(checkl, pairs, x);
        Unlinked(checkl, pairs, x);
        checkl := Remove(checkl, x);
      } else {
        RemoveSorted(validl, pairs, x);
        Unlinked(validl, pairs, x);
        validl := Remove(validl, x);
      }
      validl := AddSorted(validl, pairs, x);
    }

    /** icem_candpair_prio_order: new priorities for the pairs of the check list, which is sorted again. */
    method PrioOrder(prios: seq<nat>)
      requires Valid() && |prios| == |pairs|
      modifies `pairs, `checkl
      ensures Valid() && multiset(checkl) == multiset(old(checkl)) && |pairs| == |old(pairs)|
      ensures forall x {:trigger pairs[x]} :: 0 <= x < |pairs| ==>
                pairs[x] == if x in checkl then old(pairs[x]).(prio := prios[x]) else old(pairs[x])
    {
      hide Sorted, NoDup;
      var i := 0;
      while i < |checkl|
        invariant i <= |checkl| && |pairs| == |old(pairs)| && checkl == old(checkl)
        invariant forall x {:trigger pairs[x]} :: 0 <= x < |pairs| ==>
                    pairs[x] == if x in checkl[..i] then old(pairs[x]).(prio := prios[x]) else old(pairs[x])
      {
        var x := checkl[i];
        assert checkl[..i + 1] == checkl[..i] + [x];
        pairs := pairs[x := pairs[x].(prio := prios[x])];
        i := i + 1;
      }
      assert checkl[..i] == checkl;
      OtherList(validl, old(pairs), pairs);
      InRange(checkl, old(pairs));
      checkl := Sort(checkl, pairs);
      SameElements(old(checkl), checkl);
      InRangeSet(checkl, pairs);
      assert forall x {:trigger pairs[x]} :: 0 <= x < |pairs| ==> pairs[x].comp == old(pairs[x]).comp;
    }

    /**
     * candpairs_form: a pair for every local and remote candidate of one component and address family.
     * It ends at the first of them that is on no list and has no component.
     */
    method Form(lcands: seq<Cand>, rcands: seq<Cand>) returns (err: Errno)
      requires Valid()
      modifies `pairs, `checkl
      ensures Valid() && Evolved(old(pairs), pairs) && (forall x :: x in old(checkl) ==> x in checkl)
      ensures err == OK || err == ENOENT
      ensures lcands == [] || rcands == [] ==> err == ENOENT && pairs == old(pairs) && checkl == old(checkl)
      ensures Grew(old(pairs), old(checkl), pairs, checkl, lcands, rcands)
      ensures err == OK ==> AllListed(checkl, validl, pairs, lcands, rcands)
      ensures err != OK && lcands != [] && rcands != [] ==>
        exists l, r :: l in lcands && r in rcands && NoComp(checkl, validl, pairs, l, r, |comps|)
    {
      hide ListOk, Evolved, Listed, Grew;
      EvolvedSelf(pairs);
      InRange(checkl, pairs);
      GrewNone(pairs, checkl, lcands, rcands);
      if lcands == [] || rcands == [] {
        return ENOENT;
      }
      var i := 0;
      while i < |lcands|
        invariant Valid() && i <= |lcands| && Evolved(old(pairs), pairs) && (forall x :: x in old(checkl) ==> x in checkl)
        invariant Grew(old(pairs), old(checkl), pairs, checkl, lcands, rcands)
        invariant AllListed(checkl, validl, pairs, lcands[..i], rcands)
      {
        ghost var ps, cl := pairs, checkl;
        err := FormOne(lcands[i], rcands);
        EvolvedTrans(old(pairs), ps, pairs);
        GrewMore(ps, cl, pairs, checkl, [lcands[i]], rcands, lcands, rcands);
        GrewThen(old(pairs), old(checkl), ps, cl, pairs, checkl, lcands, rcands);
        if err != OK {
          assert lcands[i] in lcands;
          return;
        }
        forall l, r | l in lcands[..i] && r in rcands && l.comp == r.comp && l.af == r.af
          ensures Listed(checkl, validl, pairs, l.id, r.id)
        {
          ListedLater(cl, checkl, validl, ps, pairs, l.id, r.id);
        }
        assert lcands[..i + 1] == lcands[..i] + [lcands[i]];
        i := i + 1;
      }
      assert lcands[..i] == lcands;
      return OK;
    }

    /** The inner loop: one local candidate against all remote ones. */
    method FormOne(l: Cand, rcands: seq<Cand>) returns (err: Errno)
      requires Valid()
      modifies `pairs, `checkl
      ensures Valid() && Evolved(old(pairs), pairs) && (forall x :: x in old(checkl) ==> x in checkl)
      ensures err == OK || err == ENOENT
      ensures Grew(old(pairs), old(checkl), pairs, checkl, [l], rcands)
      ensures err == OK ==> forall r :: r in rcands && l.comp == r.comp && l.af == r.af ==> Listed(checkl, validl, pairs, l.id, r.id)
      ensures err != OK ==> exists r :: r in rcands && NoComp(checkl, validl, pairs, l, r, |comps|)
    {
      hide ListOk, Evolved, Listed, Grew;
      EvolvedSelf(pairs);
      InRange(checkl, pairs);
      GrewNone(pairs, checkl, [l], rcands);
      var j := 0;
      while j < |rcands|
        invariant Valid() && j <= |rcands| && Evolved(old(pairs), pairs) && (forall x :: x in old(checkl) ==> x in checkl)
        invariant Grew(old(pairs), old(checkl), pairs, checkl, [l], rcands)
        invariant forall r :: r in rcands[..j] && l.comp == r.comp && l.af == r.af ==> Listed(checkl, validl, pairs, l.id, r.id)
      {
        ghost var ps, cl := pairs, checkl;
        if l.comp == rcands[j].comp && l.af == rcands[j].af {
          err := Ensure(l, rcands[j]);
          assert rcands[j] in rcands;
          GrewMore(ps, cl, pairs, checkl, [l], [rcands[j]], [l], rcands);
          GrewThen(old(pairs), old(checkl), ps, cl, pairs, checkl, [l], rcands);
          if err != OK {
            return;
          }
        } else {
          EvolvedSelf(pairs);
        }
        EvolvedTrans(old(pairs), ps, pairs);
        forall r | r in rcands[..j] && l.comp == r.comp && l.af == r.af
          ensures Listed(checkl, validl, pairs, l.id, r.id)
        {
          ListedLater(cl, checkl, validl, ps, pairs, l.id, r.id);
        }
        assert rcands[..j + 1] == rcands[..j] + [rcands[j]];
        j := j + 1;
      }
      assert rcands[..j] == rcands;
      return OK;
    }

    /** A pair is allocated unless one of the lists has it already, or its component is not there. */
    method Ensure(l: Cand, r: Cand) returns (err: Errno)
      requires Valid() && l.comp == r.comp && l.af == r.af
      modifies `pairs, `checkl
      ensures Valid() && Evolved(old(pairs), pairs) && (forall x :: x in old(checkl) ==> x in checkl)
      ensures err == if l.comp < |comps| || Listed(old(checkl), validl, old(pairs), l.id, r.id) then OK else ENOENT
      ensures err == OK <==> Listed(checkl, validl, pairs, l.id, r.id)
      ensures Grew(old(pairs), old(checkl), pairs, checkl, [l], [r])
      ensures err != OK || Listed(old(checkl), validl, old(pairs), l.id, r.id) ==> pairs == old(pairs) && checkl == old(checkl)
    {
      hide Sorted, NoDup, Evolved, Grew;
      EvolvedSelf(pairs);
      InRange(checkl, pairs);
      GrewNone(pairs, checkl, [l], [r]);
      var found := FindCands(checkl, pairs, l.id, r.id);
      if found.Some? {
        return OK;
      }
      found := FindCands(validl, pairs, l.id, r.id);
      if found.Some? {
        return OK;
      }
      if l.comp >= |comps| {
        return ENOENT;
      }
      var prio: nat := *;
      ghost var ps, cl := pairs, checkl;
      var x := Alloc(l.comp, l.id, r.id, prio);
      assert x in checkl && pairs[x].lcand == l.id;
      GrewOne(ps, cl, pairs[x], checkl, l, r);
      return OK;
    }

    /** candpair_prune: of pairs with the same component, local base and remote address, the one higher up the list stays. */
    method Prune(base: nat -> nat, addr: nat -> nat)
      requires Valid()
      modifies `checkl
      ensures Valid() && (forall x :: x in checkl ==> x in old(checkl))
      ensures DistinctTo(checkl, pairs, base, addr, |checkl|) && Covered(old(checkl), checkl, pairs, base, addr) && InPlace(old(checkl), checkl)
    {
      hide ListOk, DistinctTo, Covered, InPlace;
      var l, i := checkl, 0;
      PlaceSelf(l, pairs);
      NoneDistinct(l, pairs, base, addr);
      CoveredSelf(l, pairs, base, addr);
      while i + 1 < |l|
        invariant i <= |l| && checkl == old(checkl) && ListOk(l, pairs) && (forall x :: x in l ==> x in checkl)
        invariant DistinctTo(l, pairs, base, addr, i) && Covered(checkl, l, pairs, base, addr) && InPlace(checkl, l)
        decreases |l| - i
      {
        var kept;
        l, kept := PruneOne(l, i, base, addr, checkl);
        if kept {
          i := i + 1;
        }
      }
      LastDistinct(l, pairs, base, addr, i);
      checkl := l;
    }

    /** The inner loop: later duplicates of the i-th pair go, or the i-th itself goes if a later one is better. */
    method PruneOne(l0: seq<nat>, i: nat, base: nat -> nat, addr: nat -> nat, ghost all: seq<nat>) returns (l: seq<nat>, kept: bool)
      requires ListOk(l0, pairs) && i < |l0| && (forall x :: x in l0 ==> x in all)
      requires DistinctTo(l0, pairs, base, addr, i) && Covered(all, l0, pairs, base, addr) && InPlace(all, l0)
      ensures ListOk(l, pairs) && (forall x :: x in l ==> x in all) && Covered(all, l, pairs, base, addr) && InPlace(all, l)
      ensures if kept then |l| <= |l0| && i < |l| && DistinctTo(l, pairs, base, addr, i + 1)
              else |l| < |l0| && i <= |l| && DistinctTo(l, pairs, base, addr, i)
    {
      hide ListOk, NoDup, Redundant, Covered, DistinctTo, InPlace, NotBehind;
      l, kept := l0, true;
      var j := i + 1;
      DistinctNext(l, pairs, base, addr, i);
      while j < |l|
        invariant i < j <= |l| <= |l0| && ListOk(l, pairs) && (forall x :: x in l ==> x in all)
        invariant DistinctTo(l, pairs, base, addr, i) && Covered(all, l, pairs, base, addr) && DistinctRow(l, pairs, base, addr, i, j)
        invariant InPlace(all, l)
        decreases |l| - j
      {
        var x, y := l[i], l[j];
        RangeOf(l, pairs);
        if !Redundant(pairs[x], pairs[y], base, addr) {
          DistinctMore(l, pairs, base, addr, i, j);
          j := j + 1;
        } else if pairs[x].prio < pairs[y].prio {
          RemoveAt(l, pairs, i);
          CoveredDrop(all, l, pairs, base, addr, i, j);
          PlaceDrop(all, l, i);
          DistinctDrop(l, pairs, base, addr, i, i);
          l, kept := Drop(l, i), false;
          return;
        } else {
          RemoveAt(l, pairs, j);
          RedundantBack(pairs[x], pairs[y], base, addr);
          CoveredDrop(all, l, pairs, base, addr, j, i);
          PlaceDrop(all, l, j);
          DistinctDrop(l, pairs, base, addr, i, j);
          RowDrop(l, pairs, base, addr, i, j);
          l := Drop(l, j);
        }
      }
      RowDone(l, pairs, base, addr, i);
    }

    /** icem_checklist_form: pairs are formed, ordered by their new priorities, and pruned. */
    method ChecklistForm(lcands: seq<Cand>, rcands: seq<Cand>, prio: (nat, nat) -> nat, base: nat -> nat, addr: nat -> nat)
      returns (err: Errno)
      requires Valid()
      modifies `pairs, `checkl
      ensures Valid() && (err == OK || err == ENOENT)
      ensures lcands == [] || rcands == [] ==> err == ENOENT && pairs == old(pairs) && checkl == old(checkl)
      ensures err != OK && lcands != [] && rcands != [] ==>
        exists l, r :: l in lcands && r in rcands && NoComp(checkl, validl, pairs, l, r, |comps|)
      ensures FormedFrom(old(pairs), old(checkl), pairs, checkl, lcands, rcands)
      ensures err == OK ==> DistinctTo(checkl, pairs, base, addr, |checkl|) && Ranked(checkl, pairs, prio)
      ensures err == OK ==> forall l, r :: l in lcands && r in rcands && l.comp == r.comp && l.af == r.af ==>
                Represented(checkl, validl, pairs, l.id, r.id, base, addr)
    {
      hide ListOk, Evolved, Listed, DistinctTo, Covered, Represented, Grew, FormedFrom, Ranked;
      err := Form(lcands, rcands);
      ghost var cl, ps := checkl, pairs;
      FormedSame(old(pairs), old(checkl), ps, cl, lcands, rcands);
      if err != OK {
        return;
      }
      var now := pairs;
      PrioOrder(seq(|now|, x requires 0 <= x < |now| => prio(now[x].lcand, now[x].rcand)));
      ghost var ordered := checkl;
      SameElements(cl, ordered);
      Prune(base, addr);
      FormedRanked(old(pairs), old(checkl), ps, cl, pairs, checkl, lcands, rcands, prio);
      forall l, r | l in lcands && r in rcands && l.comp == r.comp && l.af == r.af
        ensures Represented(checkl, validl, pairs, l.id, r.id, base, addr)
      {
        ListedKept(cl, ordered, validl, ps, pairs, l.id, r.id);
        ListedCovered(ordered, checkl, validl, pairs, l.id, r.id, base, addr);
      }
    }

    // -------------------------------------------------------------- sending a check

    /** icem_conncheck_send: the transaction may fail to start for reasons of its own. */
    method ConnCheckSend(x: nat, useCand: bool) returns (err: Errno)
      requires Valid() && x < |pairs|
      modifies `pairs
      ensures Valid() && Evolved(old(pairs), pairs)
      ensures |pairs| == |old(pairs)| && forall y {:trigger pairs[y]} :: 0 <= y < |pairs| && y != x ==> pairs[y] == old(pairs)[y]
      ensures if haveUfrag then pairs[x].state == NextState(old(pairs[x].state), InProgress) else err == EPROTO && pairs == old(pairs)
      ensures err == OK ==> pairs[x].busy
    {
      if !haveUfrag {
        EvolvedSelf(pairs);
        return EPROTO;
      }
      ghost var was := pairs;
      SetState(x, InProgress);
      if !controlling && useCand {
        return EINVAL;
      }
      if pairs[x].busy {
        return EBUSY;
      }
      err := *;
      if err == OK {
        ghost var mid := pairs;
        Update(x, pairs[x].(busy := true));
        EvolvedTrans(was, mid, pairs);
      }
    }

    /** abort_ice */
    method Abort(err: Errno)
      requires err == ENOMEM
      modifies `state, `chkh, `aborted, `calls
      ensures Aborted(old(View()), View())
    {
      state := ListState.Failed;
      calls := calls + Call(chkh, err);
      chkh, aborted := false, true;
    }

    // -------------------------------------------------------------- pacing

    /** pace_next */
    method PaceNext()
      requires Valid()
      modifies `pairs, `comps, `state, `chkh, `aborted, `calls, `tried
      ensures Valid() && checkl == old(checkl) && validl == old(validl) && |comps| == |old(comps)|
      ensures old(state) != Running ==> View() == old(View()) && tried == old(tried)
      ensures old(state) == Running ==> Paced(old(View()), View(), checkl, validl, |comps|)
                                        && (state == Running ==> !AllDone(checkl, pairs))
                                        && BestFirst(old(tried), tried, checkl, old(pairs))
      ensures old(tried) <= tried
      decreases Open(checkl, pairs, 0), 5
    {
      hide ListOk, Evolved, AllDone, Missing, Aborted, Open;
      if state != Running {
        return;
      }
      ghost var a := View();
      ScheduleCheck();
      if state != Running {
        return;
      }
      ghost var b := View();
      OpenLess(checkl, a.pairs, pairs);
      ChecklistUpdate();
      PacedThen(a, b, View(), checkl, validl, |comps|);
    }

    /** pace_timeout */
    method PaceTimeout()
      requires Valid()
      modifies `pairs, `comps, `state, `chkh, `aborted, `calls, `tried
      ensures Valid() && TickOk(old(View()), Pace(checkl, validl, |comps|), View())
      ensures old(state) == Running ==> BestFirst(old(tried), tried, checkl, old(pairs)) && (state == Running ==> !AllDone(checkl, pairs))
      ensures old(state) != Running ==> tried == old(tried)
    {
      hide ListOk, Evolved, AllDone, Missing, Aborted;
      EvolvedSelf(pairs);
      PaceNext();
    }

    /** icem_conncheck_schedule_check: the best waiting pair, or else the best frozen one. */
    method ScheduleCheck()
      requires Valid() && (state == Running || AllDone(checkl, pairs))
      modifies `pairs, `comps, `state, `chkh, `aborted, `calls, `tried
      ensures Valid() && checkl == old(checkl) && validl == old(validl) && |comps| == |old(comps)|
      ensures AllDone(old(checkl), old(pairs)) ==> View() == old(View()) && comps == old(comps) && tried == old(tried)
      ensures old(state) == Running ==> Paced(old(View()), View(), checkl, validl, |comps|)
      ensures old(tried) <= tried && BestFirst(old(tried), tried, checkl, old(pairs))
      decreases Open(checkl, pairs, 0), 2
    {
      hide ListOk, Evolved, AllDone, Missing, Concluded, Aborted, Open;
      var x := FindState(checkl, pairs, None, Waiting);
      if x.None? {
        x := FindState(checkl, pairs, None, Frozen);
      }
      if x.Some? {
        NotAllDone(checkl, pairs, x.value);
        ghost var was, ps := tried, pairs;
        DoCheck(x.value);
        assert tried[|was|] == (was + [x.value])[|was|];
      } else {
        EvolvedSelf(pairs);
      }
    }

    /** do_check: a check that cannot be sent fails its pair, and the next one is tried at once. */
    method DoCheck(x: nat)
      requires Valid() && state == Running && x in checkl && x < |pairs| && !IcePairs.Completed(pairs[x].state)
      modifies `pairs, `comps, `state, `chkh, `aborted, `calls, `tried
      ensures Valid() && checkl == old(checkl) && validl == old(validl) && |comps| == |old(comps)|
      ensures Paced(old(View()), View(), checkl, validl, |comps|)
      ensures old(tried) + [x] <= tried
      ensures x < |pairs| && (pairs[x].state == InProgress || IcePairs.Completed(pairs[x].state))
      decreases Open(checkl, pairs, 0), 1
    {
      hide ListOk, Evolved, AllDone, Missing, Concluded, Aborted, Open;
      ghost var a := View();
      tried := tried + [x];
      var err := ConnCheckSend(x, false);
      if err == OK {
        return;
      }
      ghost var mid := pairs;
      EvolvedSize(a.pairs, mid);
      MarkFailed(x, err);
      EvolvedTrans(a.pairs, mid, pairs);
      ghost var b := View();
      if err == ENOMEM {
        Abort(err);
        AbortedLater(a, b, View());
      } else {
        OpenFails(checkl, a.pairs, pairs, x);
        PaceNext();
        PacedLater(a, b, View(), checkl, validl, |comps|);
        StillFailed(b.pairs, pairs, x);
      }
    }

    /** concluding_ice: selects the best succeeded pair of the component and nominates it. */
    method Conclude(c: nat)
      requires Valid() && c < |comps| && AllDone(checkl, pairs)
      modifies `pairs, `comps, `state, `chkh, `aborted, `calls, `tried
      ensures Valid() && checkl == old(checkl) && validl == old(validl) && |comps| == |old(comps)|
      ensures Evolved(old(pairs), pairs) && View() == old(View()).(pairs := pairs) && tried == old(tried)
      ensures forall d {:trigger comps[d]} :: 0 <= d < |comps| && d != c ==> comps[d] == old(comps)[d]
      ensures old(comps)[c].concluded ==> comps == old(comps)
      ensures !old(comps)[c].concluded && comps[c].concluded ==>
        comps[c].selected.Some? && Best(comps[c].selected.value, validl, old(pairs), Some(c), Succeeded)
      ensures comps[c].concluded <==> old(comps)[c].concluded || Any(validl, old(pairs), Some(c), Succeeded)
      decreases Open(checkl, pairs, 0), 3
    {
      hide ListOk, Evolved, AllDone, Open;
      EvolvedSelf(pairs);
      if comps[c].concluded {
        return;
      }
      ghost var was := pairs;
      var x := FindState(validl, pairs, Some(c), Succeeded);
      if x.None? {
        return;
      }
      comps := comps[c := comps[c].(selected := Some(x.value))];
      var useCand := controlling;
      var _ := ConnCheckSend(x.value, useCand);
      DoneLater(checkl, was, pairs);
      ScheduleCheck();
      comps := comps[c := comps[c].(concluded := true)];
    }

    /** icem_checklist_update: once every pair is completed, conclude and report. */
    method ChecklistUpdate()
      requires Valid()
      modifies `pairs, `comps, `state, `chkh, `aborted, `calls, `tried
      ensures Valid() && checkl == old(checkl) && validl == old(validl) && |comps| == |old(comps)|
      ensures Evolved(old(pairs), pairs)
      ensures if AllDone(old(checkl), old(pairs)) then Concluded(old(View()), View(), checkl, validl, |comps|)
              else View() == old(View())
      ensures tried == old(tried)
      decreases Open(checkl, pairs, 0), 4
    {
      hide ListOk, Evolved, AllDone, Open, HasComp, Best, Any;
      EvolvedSelf(pairs);
      RangeOf(checkl, pairs);
      var done := IsCompleted(checkl, pairs);
      if !done {
        return;
      }
      ghost var a := View();
      var err := OK;
      var c := 0;
      while c < |comps| && err == OK
        invariant c <= |comps| == |old(comps)| && Valid() && checkl == old(checkl) && validl == old(validl)
        invariant Evolved(a.pairs, pairs) && View() == a.(pairs := pairs) && AllDone(checkl, pairs) && tried == old(tried)
        invariant Open(checkl, pairs, 0) <= Open(checkl, a.pairs, 0)
        invariant forall d :: 0 <= d < c ==> HasComp(validl, a.pairs, d)
        invariant (err == OK || err == ENOENT) && (err == ENOENT ==> Missing(validl, a.pairs, |comps|))
        decreases |comps| - c, err == OK
      {
        RangeOf(validl, pairs);
        var x := FindComp(validl, pairs, c);
        RangeOf(validl, a.pairs);
        HasCompFrame(validl, a.pairs, pairs, c);
        if x.None? {
          err := ENOENT;
        } else {
          ghost var mid := pairs;
          Conclude(c);
          EvolvedTrans(a.pairs, mid, pairs);
          DoneLater(checkl, mid, pairs);
          OpenLess(checkl, a.pairs, pairs);
          c := c + 1;
        }
      }
      MissingFrame(validl, a.pairs, pairs, |comps|);
      state := if err != OK then ListState.Failed else ListState.Completed;
      calls := calls + Call(chkh, err);
    }

    // -------------------------------------------------------------- events

    /**
     * icem_conncheck_start: waits for remote candidates if there may be more; otherwise the checks run
     * exactly if there are candidates on both sides and components for them, on a list that has every fitting
     * pair once.
     */
    method Start(rcandWait: bool, lcands: seq<Cand>, rcands: seq<Cand>, prio: (nat, nat) -> nat, base: nat -> nat, addr: nat -> nat)
      returns (err: Errno)
      requires Valid()
      modifies `pairs, `checkl, `state
      ensures Valid() && (err == OK || err == ENOENT) && (err != OK ==> state == old(state))
      ensures rcandWait || lcands == [] || rcands == [] ==> pairs == old(pairs) && checkl == old(checkl) && state == old(state)
      ensures rcandWait ==> err == OK
      ensures !rcandWait && (lcands == [] || rcands == []) ==> err == ENOENT
      ensures err != OK && lcands != [] && rcands != [] ==>
        exists l, r :: l in lcands && r in rcands && NoComp(checkl, validl, pairs, l, r, |comps|)
      ensures FormedFrom(old(pairs), old(checkl), pairs, checkl, lcands, rcands)
      ensures !rcandWait && err == OK ==> state == Running && DistinctTo(checkl, pairs, base, addr, |checkl|) && Ranked(checkl, pairs, prio)
      ensures !rcandWait && err == OK ==> forall l, r :: l in lcands && r in rcands && l.comp == r.comp && l.af == r.af ==>
                Represented(checkl, validl, pairs, l.id, r.id, base, addr)
    {
      hide ListOk, DistinctTo, Represented, FormedFrom, Ranked, Grew;
      if rcandWait {
        InRange(checkl, pairs);
        GrewNone(pairs, checkl, lcands, rcands);
        FormedSame(pairs, checkl, pairs, checkl, lcands, rcands);
        return OK;
      }
      err := ChecklistForm(lcands, rcands, prio, base, addr);
      if err == OK {
        state := Running;
      }
    }

    /**
     * construct_valid_pair: the pair for the mapped local and the remote candidate, made valid; nothing
     * happens if one of the candidates is not known.
     */
    method ConstructValid(x: nat, lcand: Option<nat>, rcand: Option<nat>) returns (y: Option<nat>)
      requires Valid() && x < |pairs| && (x in checkl || x in validl)
      modifies `pairs, `checkl, `validl
      ensures Valid() && Evolved(old(pairs), pairs) && x < |pairs|
      ensures y.Some? <==> lcand.Some? && rcand.Some?
      ensures y.None? ==> pairs == old(pairs) && checkl == old(checkl) && validl == old(validl)
      ensures y.Some? ==>
        && y.value < |pairs| && y.value in validl && x in validl
        && pairs[x].state == NextState(old(pairs[x].state), Succeeded)
        && pairs[y.value].lcand == lcand.value && pairs[y.value].rcand == rcand.value
        && (forall z {:trigger pairs[z]} :: 0 <= z < |old(pairs)| && z != x ==> pairs[z] == old(pairs)[z])
        && |pairs| == |old(pairs)| + (if y.value < |old(pairs)| then 0 else 1)
        && (y.value >= |old(pairs)| ==> pairs[y.value] == pairs[x].(lcand := lcand.value, rcand := rcand.value, busy := false))
    {
      hide Sorted, NoDup, Evolved;
      EvolvedSelf(pairs);
      if lcand.None? || rcand.None? {
        return None;
      }
      ghost var was := pairs;
      SameMade(pairs[x]);
      MakeValid(x);
      EvolvedSize(was, pairs);
      if lcand.value == pairs[x].lcand && rcand.value == pairs[x].rcand {
        return Some(x);
      }
      RangeOf(validl, pairs);
      var found := FindCands(validl, pairs, lcand.value, rcand.value);
      if found.Some? {
        return found;
      }
      ghost var mid := pairs;
      var z := Clone(x, lcand.value, rcand.value);
      EvolvedMore(mid, pairs[z]);
      ghost var mid' := pairs;
      MakeValid(z);
      EvolvedTrans(was, mid, mid');
      EvolvedTrans(was, mid', pairs);
      y := Some(z);
    }

    /**
     * handle_success: the valid pair is selected and nominated. Without one nothing happens, and the pair
     * of the check stays as it is.
     */
    method HandleSuccess(x: nat, lcand: Option<nat>, rcand: Option<nat>) returns (y: Option<nat>)
      requires Valid() && x < |pairs| && (x in checkl || x in validl)
      modifies `pairs, `checkl, `validl, `comps
      ensures Valid() && Evolved(old(pairs), pairs) && |comps| == |old(comps)| && x < |pairs|
      ensures y.Some? <==> lcand.Some? && rcand.Some?
      ensures y.None? ==> pairs == old(pairs) && checkl == old(checkl) && validl == old(validl) && comps == old(comps)
      ensures y.Some? ==>
        && y.value in validl && y.value < |pairs| && x in validl && pairs[x].state == NextState(old(pairs[x].state), Succeeded)
        && pairs[y.value].nominated && pairs[y.value].comp < |comps| && comps[pairs[y.value].comp].selected == y
    {
      hide Sorted, NoDup;
      ghost var was := pairs;
      y := ConstructValid(x, lcand, rcand);
      if y.None? {
        return;
      }
      ghost var mid := pairs;
      MakeValid(y.value);
      EvolvedTrans(was, mid, pairs);
      var c := pairs[y.value].comp;
      comps := comps[c := comps[c].(selected := y)];
      ghost var mid' := pairs;
      Update(y.value, pairs[y.value].(nominated := true));
      EvolvedTrans(was, mid', pairs);
    }

    /** stunc_resp_handler: a response to the check of x, then the next check. */
    method Response(x: nat, err: Errno, scode: nat, mapped: Mapped)
      requires Valid() && x < |pairs| && (x in checkl || x in validl)
      modifies this
      ensures Valid() && Evolved(old(pairs), pairs) && x < |pairs|
      ensures TickOk(old(View()), Respond(checkl, validl, |comps|), View())
      ensures err != OK || (scode == 0 && mapped.NoAttr?) || (scode != 0 && scode != 487) ==>
        pairs[x].state == if old(pairs[x].state) == Succeeded then Succeeded else PairState.Failed
      ensures err == OK && scode == 0 && mapped.Mapped? && mapped.lcand.Some? ==>
        x in validl && pairs[x].state == if old(pairs[x].state) == PairState.Failed then PairState.Failed else Succeeded
      ensures controlling == if err == OK && scode == 487 then !old(controlling) else old(controlling)
      ensures old(state) == Running ==> state == Running ==> !AllDone(checkl, pairs)
      ensures old(state) == Running ==> exists ps :: Evolved(old(pairs), ps) && BestFirst(old(tried), tried, checkl, ps)
      ensures old(state) != Running ==> tried == old(tried)
    {
      hide ListOk, Evolved, AllDone, Missing, Open, Paced;
      ghost var was := View();
      Evaluate(x, err, scode, mapped);
      ghost var a := View();
      PaceNext();
      ResponseDone(was, a, View(), checkl, validl, |comps|);
      if Verdict(err, scode, mapped) == Fails || Verdict(err, scode, mapped) == Succeeds {
        KeptState(a.pairs, pairs, x);
      } else {
        EvolvedSize(a.pairs, pairs);
      }
    }

    /** What the response says about the pair of the check. */
    method Evaluate(x: nat, err: Errno, scode: nat, mapped: Mapped)
      requires Valid() && x < |pairs| && (x in checkl || x in validl)
      modifies `pairs, `checkl, `validl, `comps, `controlling
      ensures Valid() && Evolved(old(pairs), pairs) && x < |pairs| && |comps| == |old(comps)|
      ensures Verdict(err, scode, mapped) == Fails ==>
        && pairs[x].state == NextState(old(pairs[x].state), PairState.Failed) && !pairs[x].valid
        && pairs[x].err == (if err == OK && scode == 0 then EBADMSG else err)
      ensures Verdict(err, scode, mapped) == Succeeds ==> x in validl && pairs[x].state == NextState(old(pairs[x].state), Succeeded)
      ensures Verdict(err, scode, mapped) == Switches ==>
        controlling != old(controlling) && pairs[x].state == if haveUfrag then NextState(old(pairs[x].state), InProgress) else old(pairs[x].state)
      ensures Verdict(err, scode, mapped) == Ignored ==> pairs == old(pairs)[x := old(pairs[x]).(busy := false)]
      ensures Verdict(err, scode, mapped) != Switches ==> controlling == old(controlling)
    {
      hide ListOk, Evolved;
      ghost var was := pairs;
      Update(x, pairs[x].(busy := false));
      ghost var mid := pairs;
      if err != OK {
        MarkFailed(x, err);
      } else if scode == 0 {
        if mapped.NoAttr? {
          MarkFailed(x, EBADMSG);
        } else {
          var _ := HandleSuccess(x, mapped.lcand, Some(pairs[x].rcand));
        }
      } else if scode == 487 {
        controlling := !controlling;
        var _ := ConnCheckSend(x, false);
      } else {
        MarkFailed(x, err);
      }
      EvolvedTrans(was, mid, pairs);
    }

    /**
     * triggered_check: an open pair of the check list is checked now. A failed one is tried again but
     * stays failed; one that is in progress or succeeded is left alone.
     */
    method Triggered(lcand: Option<nat>, rcand: Option<nat>) returns (x: Option<nat>)
      requires Valid()
      modifies `pairs
      ensures Valid() && TickOk(old(View()), Other, View())
      ensures x.None? ==> pairs == old(pairs)
      ensures x.None? && lcand.Some? && rcand.Some? ==>
        forall y :: y in checkl && y < |pairs| ==> !(pairs[y].lcand == lcand.value && pairs[y].rcand == rcand.value)
      ensures x.Some? ==>
        && x.value in checkl && x.value < |pairs| == |old(pairs)|
        && Some(pairs[x.value].lcand) == lcand && Some(pairs[x.value].rcand) == rcand
        && (forall y {:trigger pairs[y]} :: 0 <= y < |pairs| && y != x.value ==> pairs[y] == old(pairs)[y])
        && match old(pairs)[x.value].state
           case Failed => pairs[x.value].state == PairState.Failed
           case InProgress => pairs == old(pairs)
           case Succeeded => pairs == old(pairs)
           case _ => pairs[x.value].state == if haveUfrag then InProgress else old(pairs)[x.value].state
    {
      hide Sorted, NoDup, Evolved;
      EvolvedSelf(pairs);
      if lcand.None? || rcand.None? {
        return None;
      }
      RangeOf(checkl, pairs);
      x := FindCands(checkl, pairs, lcand.value, rcand.value);
      if x.None? || pairs[x.value].state == Succeeded || pairs[x.value].state == InProgress {
        return;
      }
      ghost var was := pairs;
      if pairs[x.value].state == PairState.Failed {
        SetState(x.value, Waiting);
        assert pairs == was;
      }
      var _ := ConnCheckSend(x.value, false);
      SameAt(was, pairs, x.value);
    }

    /** icem_conncheck_stop: whatever the error, the outcome reported is that of the valid list. */
    method Stop(err: Errno)
      requires Valid()
      modifies this
      ensures Valid() && checkl == old(checkl) && validl == old(validl) && |comps| == |old(comps)|
      ensures AllDone(checkl, pairs) && calls == old(calls) + Call(chkh, if Missing(validl, pairs, |comps|) then ENOENT else OK)
      ensures state == if Missing(validl, pairs, |comps|) then ListState.Failed else ListState.Completed
      ensures TickOk(old(View()), Halt(checkl, validl, |comps|), View())
    {
      hide ListOk, Evolved, Missing, Open;
      EvolvedSelf(pairs);
      state := if err != OK then ListState.Failed else ListState.Completed;
      RangeOf(checkl, pairs);
      var i := 0;
      while i < |checkl|
        invariant Valid() && i <= |checkl| && checkl == old(checkl) && validl == old(validl) && comps == old(comps) && |pairs| == |old(pairs)|
        invariant calls == old(calls) && chkh == old(chkh) && aborted == old(aborted) && Evolved(old(pairs), pairs)
        invariant forall k {:trigger checkl[k]} :: 0 <= k < |checkl| ==> checkl[k] < |pairs|
        invariant forall k {:trigger checkl[k]} :: 0 <= k < i ==> IcePairs.Completed(pairs[checkl[k]].state)
      {
        if !IcePairs.Completed(pairs[checkl[i]].state) {
          ghost var mid := pairs;
          MarkFailed(checkl[i], EINTR);
          EvolvedTrans(old(pairs), mid, pairs);
        }
        i := i + 1;
      }
      ghost var mid := pairs;
      ChecklistUpdate();
      EvolvedTrans(old(pairs), mid, pairs);
    }
  }

  /** Stopping with an error while every component has a valid pair reports success. */
  method StopReportsOk() returns (m: Icem)
    ensures fresh(m) && m.calls == [OK] && m.state == ListState.Completed
  {
    hide ListOk, Evolved;
    m := new Icem(1, true);
    var x := m.Alloc(0, 1, 2, 5);
    m.MakeValid(x);
    ghost var ps := m.pairs;
    m.Stop(ETIMEDOUT);
    SameAt(ps, m.pairs, x);
    HasOne(m.validl, m.pairs, x);
  }

  // ---------------------------------------------------------------- lemmas for the methods

  lemma {:induction false} ResponseDone(was: Snap, a: Snap, b: Snap, checkl: seq<nat>, validl: seq<nat>, comps: nat)
    requires Evolved(was.pairs, a.pairs) && a == was.(pairs := a.pairs) && (a.state != Running ==> b == a)
    requires a.state == Running ==> Paced(a, b, checkl, validl, comps)
    ensures TickOk(was, Respond(checkl, validl, comps), b) && Evolved(was.pairs, b.pairs) && Evolved(a.pairs, b.pairs)
  {
    hide Evolved, AllDone, Missing;
    EvolvedSelf(a.pairs);
    EvolvedTrans(was.pairs, a.pairs, b.pairs);
    assert TickOk(was, Other, a) && TickOk(a, Pace(checkl, validl, comps), b);
    assert Middle(was, a, checkl, validl, comps, b);
  }

  ghost predicate Any(l: seq<nat>, ps: seq<Pair>, comp: Option<nat>, st: PairState) {
    exists x :: x in l && x < |ps| && ps[x].state == st && (comp.Some? ==> ps[x].comp == comp.value)
  }

  /** x matches and none of the list that matches has a higher priority. */
  ghost predicate Best(x: nat, l: seq<nat>, ps: seq<Pair>, comp: Option<nat>, st: PairState) {
    && x in l && x < |ps| && ps[x].state == st && (comp.Some? ==> ps[x].comp == comp.value)
    && forall y :: y in l && y < |ps| && ps[y].state == st && (comp.Some? ==> ps[y].comp == comp.value) ==> ps[y].prio <= ps[x].prio
  }

  /** The first check tried is that of the best waiting pair, or else of the best frozen pair, if there is one. */
  ghost predicate BestFirst(was: seq<nat>, now: seq<nat>, l: seq<nat>, ps: seq<Pair>) {
    if Any(l, ps, None, Waiting) then |was| < |now| && Best(now[|was|], l, ps, None, Waiting)
    else if Any(l, ps, None, Frozen) then |was| < |now| && Best(now[|was|], l, ps, None, Frozen)
    else now == was
  }

  lemma {:induction false} InRange(l: seq<nat>, ps: seq<Pair>)
    requires ListOk(l, ps)
    ensures forall x :: x in l ==> x < |ps|
  {
    forall x | x in l
      ensures x < |ps|
    {
      var i :| 0 <= i < |l| && l[i] == x;
    }
  }

  lemma {:induction false} RangeOf(l: seq<nat>, ps: seq<Pair>)
    requires ListOk(l, ps)
    ensures forall i {:trigger l[i]} :: 0 <= i < |l| ==> l[i] < |ps|
  {}

  lemma {:induction false} InRangeSet(l: seq<nat>, ps: seq<Pair>)
    requires forall x :: x in l ==> x < |ps|
    ensures forall i {:trigger l[i]} :: 0 <= i < |l| ==> l[i] < |ps|
  {
    forall i | 0 <= i < |l|
      ensures l[i] < |ps|
    {
      assert l[i] in l;
    }
  }

  lemma {:induction false} Unlinked(l: seq<nat>, ps: seq<Pair>, x: nat)
    requires ListOk(l, ps) && x in l
    ensures forall y :: y in Remove(l, x) <==> y in l && y != x
  {
    RemoveMember(l, x);
  }

  lemma {:induction false} SameElements(a: seq<nat>, b: seq<nat>)
    requires multiset(a) == multiset(b)
    ensures forall x :: x in a <==> x in b
  {
    forall x
      ensures x in a <==> x in b
    {
      assert x in multiset(a) <==> x in multiset(b);
    }
  }

  /** A list none of whose pairs changed. */
  lemma {:induction false} OtherList(l: seq<nat>, ps: seq<Pair>, qs: seq<Pair>)
    requires ListOk(l, ps) && |ps| == |qs| && forall i {:trigger l[i]} :: 0 <= i < |l| && l[i] < |ps| ==> qs[l[i]] == ps[l[i]]
    ensures ListOk(l, qs)
  {
    forall i, j | 0 <= i < j < |l|
      ensures Prio(qs, l[i]) >= Prio(qs, l[j])
    {
      assert Prio(ps, l[i]) >= Prio(ps, l[j]);
    }
  }

  /** A completed state is there to stay, also through pacing. */
  lemma {:induction false} KeptState(ps: seq<Pair>, qs: seq<Pair>, x: nat)
    requires Evolved(ps, qs) && x < |ps| && IcePairs.Completed(ps[x].state)
    ensures x < |qs| && qs[x].state == ps[x].state
  {
    StillFailed(ps, qs, x);
  }

  lemma {:induction false} SameMade(p: Pair)
    ensures SamePair(p, p.(err := OK, valid := true, state := NextState(p.state, Succeeded)))
  {}

  lemma {:induction false} SameAt(ps: seq<Pair>, qs: seq<Pair>, x: nat)
    requires Evolved(ps, qs) && x < |ps|
    ensures x < |qs| && SamePair(ps[x], qs[x])
  {}

  lemma {:induction false} HasOne(validl: seq<nat>, ps: seq<Pair>, x: nat)
    requires x in validl && x < |ps| && ps[x].comp == 0
    ensures !Missing(validl, ps, 1)
  {
    var k :| 0 <= k < |validl| && validl[k] == x;
    assert HasComp(validl, ps, 0);
  }

  lemma {:induction false} StillFailed(ps: seq<Pair>, qs: seq<Pair>, x: nat)
    requires Evolved(ps, qs) && x < |ps| && IcePairs.Completed(ps[x].state)
    ensures x < |qs| && qs[x].state == ps[x].state
  {
    assert SamePair(ps[x], qs[x]);
  }

  lemma {:induction false} EvolvedSize(ps: seq<Pair>, qs: seq<Pair>)
    requires Evolved(ps, qs)
    ensures |ps| <= |qs|
  {}

  lemma {:induction false} OpenLess(l: seq<nat>, ps: seq<Pair>, qs: seq<Pair>)
    requires ListOk(l, ps) && Evolved(ps, qs)
    ensures Open(l, qs, 0) <= Open(l, ps, 0)
  {
    OpenEvolves(l, ps, qs, 0);
  }

  lemma {:induction false} OpenFails(l: seq<nat>, ps: seq<Pair>, qs: seq<Pair>, x: nat)
    requires ListOk(l, ps) && Evolved(ps, qs) && x in l && x < |ps| && !IcePairs.Completed(ps[x].state)
    requires x < |qs| && IcePairs.Completed(qs[x].state)
    ensures Open(l, qs, 0) < Open(l, ps, 0)
  {
    var k :| 0 <= k < |l| && l[k] == x;
    OpenShrinks(l, ps, qs, 0, k);
  }

  lemma {:induction false} NotAllDone(l: seq<nat>, ps: seq<Pair>, x: nat)
    requires x in l && x < |ps| && !IcePairs.Completed(ps[x].state)
    ensures !AllDone(l, ps)
  {
    var k :| 0 <= k < |l| && l[k] == x;
  }

  lemma {:induction false} DoneLater(l: seq<nat>, ps: seq<Pair>, qs: seq<Pair>)
    requires ListOk(l, ps) && AllDone(l, ps) && Evolved(ps, qs)
    ensures AllDone(l, qs) && Open(l, qs, 0) == 0
  {
    AllDoneFrame(l, ps, qs);
    OpenZero(l, qs, 0);
  }

  lemma {:induction false} MissingFrame(validl: seq<nat>, ps: seq<Pair>, qs: seq<Pair>, comps: nat)
    requires ListOk(validl, ps) && Evolved(ps, qs)
    ensures Missing(validl, ps, comps) <==> Missing(validl, qs, comps)
  {
    forall c: nat
      ensures HasComp(validl, ps, c) <==> HasComp(validl, qs, c)
    {
      HasCompFrame(validl, ps, qs, c);
    }
  }

  lemma {:induction false} AbortedLater(a: Snap, b: Snap, c: Snap)
    requires Aborted(b, c) && b.chkh == a.chkh && b.calls == a.calls
    ensures Aborted(a, c)
  {}

  lemma {:induction false} PacedThen(a: Snap, b: Snap, c: Snap, checkl: seq<nat>, validl: seq<nat>, comps: nat)
    requires Paced(a, b, checkl, validl, comps) && b.state.Running? && Evolved(b.pairs, c.pairs)
    requires c == b || Concluded(b, c, checkl, validl, comps)
    ensures Paced(a, c, checkl, validl, comps)
  {
    hide AllDone, Missing, Evolved;
    EvolvedTrans(a.pairs, b.pairs, c.pairs);
  }

  // ---------------------------------------------------------------- pruning

  function Drop(l: seq<nat>, k: nat): seq<nat>
    requires k < |l|
  {
    l[..k] + l[k + 1..]
  }

  /** The pairs between the i-th and the j-th are not redundant with the i-th. */
  ghost predicate DistinctRow(l: seq<nat>, ps: seq<Pair>, base: nat -> nat, addr: nat -> nat, i: nat, j: nat) {
    forall k {:trigger l[k]} :: i < k < j && k < |l| && i < |l| && l[i] < |ps| && l[k] < |ps| ==> !Redundant(ps[l[i]], ps[l[k]], base, addr)
  }

  lemma {:induction false} RemoveAt(l: seq<nat>, ps: seq<Pair>, k: nat)
    requires ListOk(l, ps) && k < |l|
    ensures ListOk(Drop(l, k), ps) && forall x :: x in Drop(l, k) ==> x in l
  {
    var r := Drop(l, k);
    forall i, j | 0 <= i < j < |r|
      ensures Prio(ps, r[i]) >= Prio(ps, r[j]) && r[i] != r[j]
    {
      assert Prio(ps, l[if i < k then i else i + 1]) >= Prio(ps, l[if j < k then j else j + 1]);
    }
  }

  lemma {:induction false} PlaceSelf(l: seq<nat>, ps: seq<Pair>)
    requires ListOk(l, ps)
    ensures InPlace(l, l)
  {}

  lemma {:induction false} PlaceDrop(all: seq<nat>, l: seq<nat>, k: nat)
    requires InPlace(all, l) && k < |l|
    ensures InPlace(all, Drop(l, k))
  {
    hide NotBehind, NoDup;
    var r := Drop(l, k);
    forall i, j | 0 <= i <= j < |r|
      ensures NotBehind(all, r[i], r[j])
    {
      assert r[i] == l[if i < k then i else i + 1] && r[j] == l[if j < k then j else j + 1];
    }
  }

  lemma {:induction false} NotBehindTrans(all: seq<nat>, z: nat, y: nat, x: nat)
    requires NoDup(all) && NotBehind(all, z, y) && NotBehind(all, y, x)
    ensures NotBehind(all, z, x)
  {}

  lemma {:induction false} CoveredSelf(l: seq<nat>, ps: seq<Pair>, base: nat -> nat, addr: nat -> nat)
    ensures Covered(l, l, ps, base, addr)
  {
    forall x | x in l && x < |ps|
      ensures exists y :: Above(l, l, ps, base, addr, x, y)
    {
      var i :| 0 <= i < |l| && l[i] == x;
      assert NotBehind(l, x, x);
      assert Above(l, l, ps, base, addr, x, x);
    }
  }

  /** The k-th may go if the m-th is as good, and better unless it is higher up. */
  lemma {:induction false} CoveredDrop(all: seq<nat>, l: seq<nat>, ps: seq<Pair>, base: nat -> nat, addr: nat -> nat, k: nat, m: nat)
    requires Covered(all, l, ps, base, addr) && InPlace(all, l) && k < |l| && m < |l| && k != m && l[k] < |ps| && l[m] < |ps|
    requires Redundant(ps[l[k]], ps[l[m]], base, addr) && ps[l[m]].prio >= ps[l[k]].prio && (m < k || ps[l[m]].prio > ps[l[k]].prio)
    ensures Covered(all, Drop(l, k), ps, base, addr)
  {
    hide NotBehind, NoDup;
    var r := Drop(l, k);
    assert r[if m < k then m else m - 1] == l[m];
    forall x | x in all && x < |ps|
      ensures exists y :: Above(all, r, ps, base, addr, x, y)
    {
      var y :| Above(all, l, ps, base, addr, x, y);
      DropKeeps(l, k, y);
      if y in r {
        assert Above(all, r, ps, base, addr, x, y);
      } else {
        if m < k && NotBehind(all, y, x) {
          NotBehindTrans(all, l[m], y, x);
        }
        assert Above(all, r, ps, base, addr, x, l[m]);
      }
    }
  }

  lemma {:induction false} DropKeeps(l: seq<nat>, k: nat, y: nat)
    requires k < |l| && y in l
    ensures y in Drop(l, k) || y == l[k]
  {
    var i :| 0 <= i < |l| && l[i] == y;
    if i < k {
      assert Drop(l, k)[i] == y;
    } else if i > k {
      assert Drop(l, k)[i - 1] == y;
    }
  }

  lemma {:induction false} RedundantBack(p: Pair, q: Pair, base: nat -> nat, addr: nat -> nat)
    requires Redundant(p, q, base, addr)
    ensures Redundant(q, p, base, addr)
  {}

  lemma {:induction false} DistinctDrop(l: seq<nat>, ps: seq<Pair>, base: nat -> nat, addr: nat -> nat, n: nat, k: nat)
    requires DistinctTo(l, ps, base, addr, n) && n <= k < |l|
    ensures DistinctTo(Drop(l, k), ps, base, addr, n)
  {
    hide Redundant;
    var r := Drop(l, k);
    forall i, j | 0 <= i < n && i < j < |r| && r[i] < |ps| && r[j] < |ps|
      ensures !Redundant(ps[r[i]], ps[r[j]], base, addr)
    {
      assert r[i] == l[i] && r[j] == l[if j < k then j else j + 1];
    }
  }

  lemma {:induction false} NoneDistinct(l: seq<nat>, ps: seq<Pair>, base: nat -> nat, addr: nat -> nat)
    ensures DistinctTo(l, ps, base, addr, 0)
  {}

  lemma {:induction false} DistinctNext(l: seq<nat>, ps: seq<Pair>, base: nat -> nat, addr: nat -> nat, i: nat)
    ensures DistinctRow(l, ps, base, addr, i, i + 1)
  {}

  lemma {:induction false} DistinctMore(l: seq<nat>, ps: seq<Pair>, base: nat -> nat, addr: nat -> nat, i: nat, j: nat)
    requires DistinctRow(l, ps, base, addr, i, j) && i < j < |l| && l[i] < |ps| && l[j] < |ps|
    requires !Redundant(ps[l[i]], ps[l[j]], base, addr)
    ensures DistinctRow(l, ps, base, addr, i, j + 1)
  {}

  lemma {:induction false} RowDrop(l: seq<nat>, ps: seq<Pair>, base: nat -> nat, addr: nat -> nat, i: nat, j: nat)
    requires DistinctRow(l, ps, base, addr, i, j) && i < j < |l|
    ensures DistinctRow(Drop(l, j), ps, base, addr, i, j)
  {
    hide Redundant;
    var r := Drop(l, j);
    forall k | i < k < j && k < |r| && r[i] < |ps| && r[k] < |ps|
      ensures !Redundant(ps[r[i]], ps[r[k]], base, addr)
    {
      assert r[k] == l[k] && r[i] == l[i];
    }
  }

  lemma {:induction false} RowDone(l: seq<nat>, ps: seq<Pair>, base: nat -> nat, addr: nat -> nat, i: nat)
    requires DistinctTo(l, ps, base, addr, i) && DistinctRow(l, ps, base, addr, i, |l|) && i < |l|
    ensures DistinctTo(l, ps, base, addr, i + 1)
  {
    hide Redundant;
  }

  lemma {:induction false} LastDistinct(l: seq<nat>, ps: seq<Pair>, base: nat -> nat, addr: nat -> nat, i: nat)
    requires DistinctTo(l, ps, base, addr, i) && |l| <= i + 1
    ensures DistinctTo(l, ps, base, addr, |l|)
  {
    hide Redundant;
  }

  lemma {:induction false} ListedKept(cl: seq<nat>, cl': seq<nat>, validl: seq<nat>, ps: seq<Pair>, qs: seq<Pair>, l: nat, r: nat)
    requires Listed(cl, validl, ps, l, r) && |ps| == |qs| && forall x :: x in cl <==> x in cl'
    requires forall x {:trigger qs[x]} :: 0 <= x < |qs| ==> qs[x].lcand == ps[x].lcand && qs[x].rcand == ps[x].rcand
    ensures Listed(cl', validl, qs, l, r)
  {
    var x :| (x in cl || x in validl) && x < |ps| && ps[x].lcand == l && ps[x].rcand == r;
    assert qs[x].lcand == l && qs[x].rcand == r;
  }

  lemma {:induction false} ListedCovered(all: seq<nat>, checkl: seq<nat>, validl: seq<nat>, ps: seq<Pair>, l: nat, r: nat,
                                         base: nat -> nat, addr: nat -> nat)
    requires Listed(all, validl, ps, l, r) && Covered(all, checkl, ps, base, addr)
    ensures Represented(checkl, validl, ps, l, r, base, addr)
  {
    hide AsGood, NotBehind;
    var x :| (x in all || x in validl) && x < |ps| && ps[x].lcand == l && ps[x].rcand == r;
  }

  // ---------------------------------------------------------------- whole episodes

  /** What happens to a check list: a pacing call, a response, a stop, or an event that leaves its state and handler alone. */
  datatype Tick =
    | Pace(checkl: seq<nat>, validl: seq<nat>, comps: nat)
    | Respond(checkl: seq<nat>, validl: seq<nat>, comps: nat)
    | Halt(checkl: seq<nat>, validl: seq<nat>, comps: nat)
    | Other

  ghost predicate PaceTick(a: Snap, b: Snap, checkl: seq<nat>, validl: seq<nat>, comps: nat) {
    if a.state.Running? then Paced(a, b, checkl, validl, comps) else b == a
  }

  ghost predicate Middle(a: Snap, mid: Snap, checkl: seq<nat>, validl: seq<nat>, comps: nat, b: Snap) {
    mid == a.(pairs := mid.pairs) && PaceTick(mid, b, checkl, validl, comps)
  }

  ghost predicate TickOk(a: Snap, t: Tick, b: Snap) {
    && Evolved(a.pairs, b.pairs)
    && match t
       case Pace(checkl, validl, comps) => PaceTick(a, b, checkl, validl, comps)
       case Respond(checkl, validl, comps) => exists mid :: Middle(a, mid, checkl, validl, comps, b)
       case Halt(checkl, validl, comps) => Concluded(a, b, checkl, validl, comps)
       case Other => b == a.(pairs := b.pairs)
  }

  ghost predicate Ticks(snaps: seq<Snap>, ticks: seq<Tick>) {
    |snaps| == |ticks| + 1 && forall i :: 0 <= i < |ticks| ==> TickOk(snaps[i], ticks[i], snaps[i + 1])
  }

  /** The report behind the outcome: which one call of the handler was made, and whether it was dropped then. */
  ghost predicate Ended(a: Snap, b: Snap, t: Tick) {
    && !t.Other? && !b.state.Running?
    && ( || (b.chkh == a.chkh && AllDone(t.checkl, b.pairs)
             && if Missing(t.validl, b.pairs, t.comps) then b.state.Failed? && b.calls == a.calls + Call(a.chkh, ENOENT)
                else b.state.Completed? && b.calls == a.calls + Call(a.chkh, OK))
         || (!t.Halt? && b.state.Failed? && !b.chkh && b.calls == a.calls + Call(a.chkh, ENOMEM)))
  }

  /** A tick on a running list leaves it running without a report, or ends it with one. */
  lemma {:induction false} TickEnds(a: Snap, t: Tick, b: Snap)
    requires TickOk(a, t, b) && a.state.Running?
    ensures if b.state.Running? then b.calls == a.calls && b.chkh == a.chkh else Ended(a, b, t)
  {
    hide Evolved, AllDone, Missing;
  }

  /** A tick on a list that is not running reports only if it is a stop. */
  lemma {:induction false} TickIdle(a: Snap, t: Tick, b: Snap)
    requires TickOk(a, t, b) && !a.state.Running?
    ensures !b.state.Running? && b.chkh == a.chkh && |b.calls| == |a.calls| + if t.Halt? && a.chkh then 1 else 0
    ensures !t.Halt? ==> b.calls == a.calls && b.state == a.state
  {
    hide Evolved, AllDone, Missing;
  }

  /** Stops among the ticks from k to n. */
  function Halts(ticks: seq<Tick>, k: nat, n: nat): nat
    requires k <= n <= |ticks|
    decreases n
  {
    if k == n then 0 else Halts(ticks, k, n - 1) + if ticks[n - 1].Halt? then 1 else 0
  }

  /**
   * A whole episode of pacing calls, responses, stops and other events on a running check list: the
   * handler is not called while the list runs, the k-th event that ends it calls it once, and after
   * that every stop calls it once more unless it was dropped. Failed and Succeeded pairs stay what
   * they are throughout.
   */
  lemma {:induction false} EpisodeReports(snaps: seq<Snap>, ticks: seq<Tick>, n: nat) returns (k: nat)
    requires Ticks(snaps, ticks) && n <= |ticks| && snaps[0].state.Running?
    ensures Evolved(snaps[0].pairs, snaps[n].pairs)
    ensures snaps[n].state.Running? ==> snaps[n].calls == snaps[0].calls && snaps[n].chkh == snaps[0].chkh
    ensures !snaps[n].state.Running? ==>
      && k < n && snaps[k].state.Running? && Ended(snaps[k], snaps[k + 1], ticks[k])
      && snaps[k].calls == snaps[0].calls && snaps[k].chkh == snaps[0].chkh && snaps[n].chkh == snaps[k + 1].chkh
      && |snaps[n].calls| == |snaps[k + 1].calls| + (if snaps[k + 1].chkh then Halts(ticks, k + 1, n) else 0)
      && (Halts(ticks, k + 1, n) == 0 ==> snaps[n].calls == snaps[k + 1].calls && snaps[n].state == snaps[k + 1].state)
    decreases n
  {
    hide Evolved, TickOk, Ended;
    k := 0;
    if n == 0 {
      EvolvedSelf(snaps[0].pairs);
    } else {
      var j := EpisodeReports(snaps, ticks, n - 1);
      var a, b, t := snaps[n - 1], snaps[n], ticks[n - 1];
      assert TickOk(a, t, snaps[n - 1 + 1]);
      TickEvolves(a, t, b);
      EvolvedTrans(snaps[0].pairs, a.pairs, b.pairs);
      if a.state.Running? {
        TickEnds(a, t, b);
        k := n - 1;
      } else {
        TickIdle(a, t, b);
        k := j;
      }
    }
  }

  lemma {:induction false} TickEvolves(a: Snap, t: Tick, b: Snap)
    requires TickOk(a, t, b)
    ensures Evolved(a.pairs, b.pairs)
  {}

  /** The handler, if there is one, was called once. */
  ghost predicate Reported(a: seq<Errno>, b: seq<Errno>, chkh: bool) {
    b == a + Call(chkh, OK) || b == a + Call(chkh, ENOENT) || b == a + Call(chkh, ENOMEM)
  }

  /** Without a stop behind the end, the handler is called at most once in a whole episode. */
  lemma {:induction false} EpisodeOnce(snaps: seq<Snap>, ticks: seq<Tick>, n: nat)
    requires Ticks(snaps, ticks) && n <= |ticks| && snaps[0].state.Running?
    requires forall i {:trigger ticks[i]} :: 0 <= i < n && !snaps[i].state.Running? ==> !ticks[i].Halt?
    ensures if snaps[n].state.Running? then snaps[n].calls == snaps[0].calls
            else Reported(snaps[0].calls, snaps[n].calls, snaps[0].chkh)
  {
    hide Evolved, TickOk, AllDone, Missing;
    var k := EpisodeReports(snaps, ticks, n);
    if !snaps[n].state.Running? {
      NoHalts(snaps, ticks, k + 1, n);
    }
  }

  lemma {:induction false} NoHalts(snaps: seq<Snap>, ticks: seq<Tick>, k: nat, n: nat)
    requires Ticks(snaps, ticks) && k <= n <= |ticks| && !snaps[k].state.Running?
    requires forall i {:trigger ticks[i]} :: 0 <= i < n && !snaps[i].state.Running? ==> !ticks[i].Halt?
    ensures Halts(ticks, k, n) == 0 && !snaps[n].state.Running?
    decreases n
  {
    hide TickOk;
    if k < n {
      NoHalts(snaps, ticks, k, n - 1);
      assert TickOk(snaps[n - 1], ticks[n - 1], snaps[n - 1 + 1]);
      TickIdle(snaps[n - 1], ticks[n - 1], snaps[n]);
    }
  }

  /** Stopping twice reports twice. */
  method StopTwice() returns (m: Icem)
    ensures fresh(m) && m.calls == [ENOENT, ENOENT]
  {
    hide ListOk, Evolved;
    m := new Icem(1, true);
    m.Stop(OK);
    NoValid(m.pairs);
    m.Stop(OK);
    NoValid(m.pairs);
  }

  lemma {:induction false} NoValid(ps: seq<Pair>)
    ensures Missing([], ps, 1)
  {
    assert !HasComp([], ps, 0);
  }
}
