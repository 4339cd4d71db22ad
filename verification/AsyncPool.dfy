/** The pool object: each method is one critical section of the source, tied to a step of the model. */
module AsyncPool {
  import opened Bytes
  import opened Lists
  import opened Async
  import opened AsyncSafety

  datatype Taken = Exiting | Waiting | Got(x: nat)

  class Pool {
    var run: bool
    var freel: seq<nat>
    var workl: seq<nat>
    var curl: seq<nat>
    var queue: seq<nat>
    var items: seq<Item>

    /** The model state: the fields above, plus where each thread is and what happened so far. */
    ghost var st: State

    ghost predicate Valid()
      reads this
    {
      && Inv(st) && run == st.run && freel == st.freel && workl == st.workl && curl == st.curl && queue == st.queue
      && items == st.items
    }

    /** re_async_alloc */
    constructor (workers: nat)
      ensures Valid() && st == Init(workers)
    {
      run := true;
      freel, workl, curl, queue := seq(workers, i => i), [], [], [];
      items := seq(workers, _ => NEW_ITEM);
      st := Init(workers);
      InitOk(workers);
    }

    /**
     * re_async, under the pool mutex: reuse the first free item or allocate one. The handler argument
     * arg is what tells submissions apart, so it is taken to be new.
     */
    method Submit(id: int, hasWork: bool, hasCb: bool, arg: nat)
      requires Valid() && !st.phase.Dead? && st.cancel.None? && arg == |st.subs|
      modifies this
      ensures Valid() && Enabled(old(st), Step.Submit(id, hasWork, hasCb)) && st == Apply(old(st), Step.Submit(id, hasWork, hasCb))
    {
      hide Inv, NoDup, Remove, Enabled;
      SubmitReady(st, id, hasWork, hasCb);
      ghost var step := Step.Submit(id, hasWork, hasCb);
      StepKeeps(st, step);
      var x: nat;
      if freel == [] {
        x := |items|;
        items := items + [NEW_ITEM];
        RemoveHead([x]);
        assert [] + [x] == [x] && [x][1..] == [];
      } else {
        x := freel[0];
        RemoveHead(freel);
        freel := freel[1..];
      }
      items := items[x := items[x].(workh := hasWork, cb := hasCb, id := id, sub := arg)];
      workl := workl + [x];
      st := Apply(st, step);
    }

    /** A worker under the pool mutex: leave, wait, or move the head of the work list. */
    method Take(a: nat) returns (r: Taken)
      requires Valid() && !st.phase.Dead? && st.cancel.None? && 0 < a < |st.actors| && st.actors[a].Idle?
      modifies this
      ensures Valid()
      ensures match r
        case Exiting => Enabled(old(st), Exit(a)) && st == Apply(old(st), Exit(a))
        case Waiting => st == old(st)
        case Got(x) => Enabled(old(st), Step.Take(a)) && st == Apply(old(st), Step.Take(a)) && st.actors[a] == Busy(x, Held(a))
    {
      hide Inv, NoDup, Remove;
      InvShape(st);
      if !run {
        StepKeeps(st, Exit(a));
        st := Apply(st, Exit(a));
        return Exiting;
      }
      if workl == [] {
        return Waiting;
      }
      var x := workl[0];
      Listed(st, x);
      StepKeeps(st, Step.Take(a));
      RemoveHead(workl);
      workl, curl := workl[1..], curl + [x];
      st := Apply(st, Step.Take(a));
      return Got(x);
    }

    /** A worker takes the item mutex: if there still is a handler it starts. */
    method Begin(a: nat, x: nat) returns (runs: bool)
      requires Valid() && !st.phase.Dead? && 0 < a < |st.actors| && st.actors[a] == Busy(x, Held(a))
      modifies this
      ensures Valid()
      ensures runs ==> Enabled(old(st), Step.Begin(a)) && st == Apply(old(st), Step.Begin(a))
      ensures !runs ==> Enabled(old(st), Skip(a)) && st == Apply(old(st), Skip(a))
    {
      hide Inv;
      ActorHolds(st, a);
      InUse(st, x);
      runs := items[x].workh;
      ghost var step := if runs then Step.Begin(a) else Skip(a);
      StepKeeps(st, step);
      assert items[x := items[x]] == items;
      st := Apply(st, step);
    }

    /** The handler returned err: store it, drop the handler, release the item mutex. */
    method Finish(a: nat, x: nat, err: int)
      requires Valid() && !st.phase.Dead? && 0 < a < |st.actors| && st.actors[a] == Busy(x, Run(a))
      modifies this
      ensures Valid() && Enabled(old(st), Step.Finish(a, err)) && st == Apply(old(st), Step.Finish(a, err))
    {
      hide Inv;
      ActorHolds(st, a);
      InUse(st, x);
      StepKeeps(st, Step.Finish(a, err));
      items := items[x := items[x].(err := err)];
      items := items[x := items[x].(workh := false)];
      st := Apply(st, Step.Finish(a, err));
    }

    /** mqueue_push under the pool mutex. */
    method Push(a: nat, x: nat)
      requires Valid() && !st.phase.Dead? && st.cancel.None? && 0 < a < |st.actors| && st.actors[a] == Busy(x, Ran(a))
      modifies this
      ensures Valid() && Enabled(old(st), Step.Push(a)) && st == Apply(old(st), Step.Push(a))
    {
      hide Inv;
      ActorHolds(st, a);
      InUse(st, x);
      StepKeeps(st, Step.Push(a));
      assert items[x := items[x]] == items;
      queue := queue + [x];
      st := Apply(st, Step.Push(a));
    }

    /** The main loop takes the next message. */
    method Pop() returns (x: nat)
      requires Valid() && st.phase.Up? && st.actors[0].Idle? && queue != []
      modifies this
      ensures Valid() && Enabled(old(st), Step.Pop) && st == Apply(old(st), Step.Pop) && st.actors[0] == Busy(x, Popped)
    {
      hide Inv, NoDup, Remove;
      InvShape(st);
      x := queue[0];
      Listed(st, x);
      StepKeeps(st, Step.Pop);
      RemoveHead(queue);
      queue := queue[1..];
      st := Apply(st, Step.Pop);
    }

    /** queueh takes the item mutex: if there still is a callback it is called with the stored error. */
    method CallBegin(x: nat) returns (call: Option<int>)
      requires Valid() && !st.phase.Dead? && |st.actors| > 0 && st.actors[0] == Busy(x, Popped)
      modifies this
      ensures Valid()
      ensures call.Some? ==> Enabled(old(st), Step.CallBegin) && st == Apply(old(st), Step.CallBegin)
                             && st.items[x].sub < |st.subs| && st.subs[st.items[x].sub].outcome == Called(call.value)
      ensures call.None? ==> Enabled(old(st), CallSkip) && st == Apply(old(st), CallSkip)
    {
      hide Inv;
      ActorHolds(st, 0);
      InUse(st, x);
      call := if items[x].cb then Some(items[x].err) else None;
      ghost var step := if items[x].cb then Step.CallBegin else CallSkip;
      StepKeeps(st, step);
      assert items[x := items[x]] == items;
      st := Apply(st, step);
    }

    /** The callback returned. */
    method CallEnd(x: nat)
      requires Valid() && !st.phase.Dead? && |st.actors| > 0 && st.actors[0] == Busy(x, Calling)
      modifies this
      ensures Valid() && Enabled(old(st), Step.CallEnd) && st == Apply(old(st), Step.CallEnd)
    {
      hide Inv;
      ActorHolds(st, 0);
      InUse(st, x);
      StepKeeps(st, Step.CallEnd);
      items := items[x := items[x].(cb := false)];
      st := Apply(st, Step.CallEnd);
    }

    /** queueh under the pool mutex: the item goes back to the free list. */
    method Release(x: nat)
      requires Valid() && !st.phase.Dead? && st.cancel.None? && |st.actors| > 0 && st.actors[0] == Busy(x, Delivered)
      modifies this
      ensures Valid() && Enabled(old(st), Step.Release) && st == Apply(old(st), Step.Release)
    {
      hide Inv, NoDup;
      ActorHolds(st, 0);
      InUse(st, x);
      Unlisted(st, x, Free);
      StepKeeps(st, Step.Release);
      assert items[x := items[x]] == items;
      curl, freel := Remove(curl, x), freel + [x];
      st := Apply(st, Step.Release);
    }

    /** re_async_cancel takes the pool mutex and sweeps the work list. */
    method CancelBegin(id: int)
      requires Valid() && !st.phase.Dead? && st.cancel.None?
      modifies this
      ensures Valid() && Enabled(old(st), Step.CancelBegin(id)) && st == Apply(old(st), Step.CancelBegin(id))
    {
      hide Inv, NoDup, Enabled, Apply, Sweep, Sweeping, Cleared;
      CancelReady(st, id);
      StepKeeps(st, Step.CancelBegin(id));
      var l := workl;
      var i, kept := 0, [];
      SweepingStart(st, id);
      while i < |l|
        invariant i <= |l| && st == old(st) && unchanged(`run, `curl, `queue)
        invariant Sweeping(st, id, i, freel, kept, workl, items)
      {
        var x := l[i];
        SweepingNext(st, id, i, freel, kept, workl, items);
        if items[x].id != id {
          kept := kept + [x];
        } else {
          items := items[x := Cleared(items[x])];
          freel, workl := freel + [x], kept + l[i + 1..];
        }
        i := i + 1;
      }
      SweepingEnd(st, id, freel, kept, workl, items);
      st := Apply(st, Step.CancelBegin(id));
    }

    /** re_async_cancel visits the next item of the current list, whose mutex it takes if the id matches. */
    method CancelVisit(id: int, x: nat)
      requires Valid() && !st.phase.Dead? && st.cancel.Some? && st.cancel.value.todo != [] && x == st.cancel.value.todo[0] && id == st.cancel.value.id
      requires x < |st.items| == |st.places| && (st.items[x].id == id ==> !Locked(st.places[x]))
      modifies this
      ensures Valid() && Enabled(old(st), CancelItem) && st == Apply(old(st), CancelItem)
    {
      hide Inv, NoDup;
      InvShape(st);
      InvSubs(st);
      assert st.cancel.value.todo[0] in st.curl;
      Listed(st, x);
      InUse(st, x);
      StepKeeps(st, CancelItem);
      if items[x].id == id {
        items := items[x := Cleared(items[x])];
      }
      st := Apply(st, CancelItem);
    }

    /** re_async_cancel unlocks and returns. */
    method CancelEnd()
      requires Valid() && !st.phase.Dead? && st.cancel.Some? && st.cancel.value.todo == []
      modifies this
      ensures Valid() && Enabled(old(st), Step.CancelEnd) && st == Apply(old(st), Step.CancelEnd)
    {
      hide Inv;
      InvShape(st);
      StepKeeps(st, Step.CancelEnd);
      st := Apply(st, Step.CancelEnd);
    }

    /** The destructor tells the workers to leave. */
    method Stop()
      requires Valid() && st.phase.Up? && st.cancel.None? && |st.actors| > 0 && st.actors[0].Idle?
      modifies this
      ensures Valid() && Enabled(old(st), Step.Stop) && st == Apply(old(st), Step.Stop)
    {
      hide Inv;
      InvShape(st);
      StepKeeps(st, Step.Stop);
      run := false;
      st := Apply(st, Step.Stop);
    }

    /** The destructor's loop over one list: callbacks still there are called with ECANCELED. */
    method Notify(l: seq<nat>, called: seq<nat>, ghost seen: seq<nat>) returns (called': seq<nat>)
      requires Inv(st) && !st.phase.Dead? && Notified(st, seen, items, called)
      requires NoDup(seen + l) && forall x :: x in l ==> x < |st.places| && !st.places[x].Free?
      modifies `items
      ensures Notified(st, seen + l, items, called')
    {
      hide Inv, NoDup, Notified;
      called' := called;
      var i := 0;
      assert seen + l[..0] == seen;
      while i < |l|
        invariant i <= |l| && Notified(st, seen + l[..i], items, called')
      {
        var x := l[i];
        assert x in l;
        NotifyOne(st, seen, l, i, items, called');
        if items[x].cb {
          called' := called' + [items[x].sub];
          items := items[x := items[x].(cb := false)];
        }
        i := i + 1;
      }
      assert seen + l[..|l|] == seen + l;
    }

    /** The destructor once the workers are joined: notify both lists, then empty all three. */
    method Destroy() returns (called: seq<nat>)
      requires Valid() && !st.phase.Dead? && Enabled(st, Flush)
      modifies this
      ensures Valid() && st == Apply(old(st), Flush)
      ensures NoDup(called)
      ensures forall t: nat :: t in called <==> t < |old(st).subs| && st.subs[t].calls == old(st).subs[t].calls + 1
    {
      hide Inv, NoDup, Notified, ListOk;
      StepKeeps(st, Flush);
      InvShape(st);
      FlushLists(st);
      assert [] + workl == workl;
      called := Notify(workl, [], []);
      called := Notify(curl, called, workl);
      FlushDone(st, items, called);
      workl, curl, freel := [], [], [];
      st := Apply(st, Flush);
    }
  }

  // ---------------------------------------------------------------- lemmas for the methods

  lemma {:induction false} InvShape(s: State)
    requires Inv(s) && !s.phase.Dead?
    ensures |s.places| == |s.items| && |s.actors| > 0
  {
    hide ListsOk, ActorsOk, CancelOk;
  }

  lemma {:induction false} SubmitReady(s: State, id: int, hasWork: bool, hasCb: bool)
    requires Inv(s) && !s.phase.Dead? && s.cancel.None?
    ensures Enabled(s, Submit(id, hasWork, hasCb)) && (s.freel != [] ==> s.freel[0] < |s.items|)
  {
    hide Inv;
    InvShape(s);
    if s.freel != [] {
      Listed(s, s.freel[0]);
    }
  }

  lemma {:induction false} CancelReady(s: State, id: int)
    requires Inv(s) && !s.phase.Dead? && s.cancel.None?
    ensures Enabled(s, CancelBegin(id)) && |s.places| == |s.items| && Apply(s, CancelBegin(id)) == Sweep(s, id)
  {
    hide Inv;
    InvShape(s);
  }

  lemma {:induction false} NothingSwept(s: State, id: int, l: seq<nat>)
    requires |s.items| == |s.places|
    ensures SweptSoFar(s, id, l, 0, s.items)
  {}

  lemma {:induction false} PickNothing(s: State, id: int, l: seq<nat>)
    requires l == []
    ensures Pick(s, id, l, true) == [] && Pick(s, id, l, false) == []
  {}

  lemma {:induction false} PickNext(s: State, id: int, l: seq<nat>, i: nat, f: seq<nat>, k: seq<nat>)
    requires i < |l|
    ensures var m := Matches(s, id, l[i]);
            && f + Pick(s, id, l[i..], true) == (if m then f + [l[i]] else f) + Pick(s, id, l[i + 1..], true)
            && k + Pick(s, id, l[i..], false) == (if m then k else k + [l[i]]) + Pick(s, id, l[i + 1..], false)
  {
    hide Matches;
    assert l[i..][0] == l[i] && l[i..][1..] == l[i + 1..];
  }

  /** Items on the first i entries of the work list are cleared if they match; nothing else changed. */
  ghost predicate SweptSoFar(s: State, id: int, l: seq<nat>, i: nat, items: seq<Item>)
    requires i <= |l|
  {
    && |items| == |s.items| == |s.places|
    && forall x: nat {:trigger items[x]} :: x < |items| ==>
         items[x] == if x in l[..i] && s.items[x].id == id then Cleared(s.items[x]) else s.items[x]
  }

  lemma {:induction false} NotYetSwept(s: State, id: int, l: seq<nat>, i: nat, items: seq<Item>)
    requires i < |l| && l[i] < |s.items| && SweptSoFar(s, id, l, i, items) && l == s.workl && Inv(s) && !s.phase.Dead?
    ensures |items| == |s.items| && items[l[i]] == s.items[l[i]]
  {
    assert ListOk(s.workl, s.places, InWork);
    assert l[i] !in l[..i];
  }

  lemma {:induction false} SweepOne(s: State, id: int, l: seq<nat>, i: nat, items: seq<Item>)
    requires i < |l| && SweptSoFar(s, id, l, i, items) && l[i] < |items| && items[l[i]] == s.items[l[i]]
    ensures Matches(s, id, l[i]) == (s.items[l[i]].id == id)
    ensures SweptSoFar(s, id, l, i + 1, if s.items[l[i]].id == id then items[l[i] := Cleared(items[l[i]])] else items)
  {
    assert l[..i + 1] == l[..i] + [l[i]];
  }

  lemma {:induction false} SweptAll(s: State, id: int, items: seq<Item>)
    requires Inv(s) && !s.phase.Dead? && SweptSoFar(s, id, s.workl, |s.workl|, items)
    ensures |s.places| == |s.items| && items == Sweep(s, id).items
    ensures var s' := Sweep(s, id);
            s'.freel == s.freel + Pick(s, id, s.workl, true) && s'.workl == Pick(s, id, s.workl, false)
            && s'.curl == s.curl && s'.queue == s.queue && s'.run == s.run
  {
    hide Pick, NoDup;
    assert s.workl[..|s.workl|] == s.workl;
    assert ListOk(s.workl, s.places, InWork);
    forall x | 0 <= x < |items|
      ensures items[x] == Sweep(s, id).items[x]
    {
      assert x in s.workl <==> Lives(s.places[x], InWork);
    }
  }

  /** The sweep of the work list before its i-th item: what is freed, kept, still listed, and cleared. */
  ghost predicate Sweeping(s: State, id: int, i: nat, f: seq<nat>, kept: seq<nat>, w: seq<nat>, items: seq<Item>) {
    && i <= |s.workl| && w == kept + s.workl[i..]
    && f + Pick(s, id, s.workl[i..], true) == s.freel + Pick(s, id, s.workl, true)
    && kept + Pick(s, id, s.workl[i..], false) == Pick(s, id, s.workl, false)
    && SweptSoFar(s, id, s.workl, i, items)
  }

  lemma {:induction false} SweepingStart(s: State, id: int)
    requires |s.items| == |s.places|
    ensures Sweeping(s, id, 0, s.freel, [], s.workl, s.items)
  {
    hide Pick;
    assert s.workl[0..] == s.workl;
    NothingSwept(s, id, s.workl);
  }

  lemma {:induction false} SweepingNext(s: State, id: int, i: nat, f: seq<nat>, kept: seq<nat>, w: seq<nat>, items: seq<Item>)
    requires Inv(s) && !s.phase.Dead? && i < |s.workl| && Sweeping(s, id, i, f, kept, w, items)
    ensures var x := s.workl[i];
            && x < |items| && w == kept + [x] + s.workl[i + 1..]
            && if items[x].id != id then Sweeping(s, id, i + 1, f, kept + [x], w, items)
               else Sweeping(s, id, i + 1, f + [x], kept, kept + s.workl[i + 1..], items[x := Cleared(items[x])])
  {
    hide Inv, Pick, Cleared, SweptSoFar;
    var l := s.workl;
    Listed(s, l[i]);
    NotYetSwept(s, id, l, i, items);
    PickNext(s, id, l, i, f, kept);
    SweepOne(s, id, l, i, items);
    assert kept + l[i..] == kept + [l[i]] + l[i + 1..];
  }

  lemma {:induction false} SweepingEnd(s: State, id: int, f: seq<nat>, kept: seq<nat>, w: seq<nat>, items: seq<Item>)
    requires Inv(s) && !s.phase.Dead? && Sweeping(s, id, |s.workl|, f, kept, w, items)
    ensures |s.places| == |s.items|
    ensures var s' := Sweep(s, id);
            s'.freel == f && s'.workl == w && s'.items == items && s'.curl == s.curl && s'.queue == s.queue && s'.run == s.run
  {
    hide Inv, Pick, Cleared;
    PickNothing(s, id, s.workl[|s.workl|..]);
    SweptAll(s, id, items);
  }

  /** Submission t has a callback on one of the items seen. */
  ghost predicate CalledFrom(s: State, seen: seq<nat>, t: nat) {
    t < |s.subs| && s.subs[t].live && s.subs[t].item in seen && s.subs[t].item < |s.items| && s.items[s.subs[t].item].cb
  }

  /** The items seen have lost their callbacks, and called names their submissions, each once. */
  ghost predicate Notified(s: State, seen: seq<nat>, items: seq<Item>, called: seq<nat>) {
    && |items| == |s.items| && NoDup(called)
    && (forall x: nat {:trigger items[x]} :: x < |items| ==> items[x] == if x in seen then s.items[x].(cb := false) else s.items[x])
    && (forall t: nat {:trigger t in called} :: t in called <==> CalledFrom(s, seen, t))
  }

  lemma {:induction false} NotifyOne(s: State, seen: seq<nat>, l: seq<nat>, i: nat, items: seq<Item>, called: seq<nat>)
    requires Inv(s) && !s.phase.Dead? && i < |l| && NoDup(seen + l) && Notified(s, seen + l[..i], items, called)
    requires l[i] < |s.places| && !s.places[l[i]].Free?
    ensures l[i] < |items|
    ensures var x := l[i];
            if items[x].cb then Notified(s, seen + l[..i + 1], items[x := items[x].(cb := false)], called + [items[x].sub])
            else Notified(s, seen + l[..i + 1], items, called)
  {
    hide Inv;
    var x, before := l[i], seen + l[..i];
    InvShape(s);
    InUse(s, x);
    var after := seen + l[..i + 1];
    assert after == before + [x];
    assert x !in before by { NotBefore(seen, l, i); }
    NotifyFrom(s, before, x);
    if items[x].cb {
      AddMember(called, items[x].sub);
    }
  }

  lemma {:induction false} NotBefore(seen: seq<nat>, l: seq<nat>, i: nat)
    requires i < |l| && NoDup(seen + l)
    ensures l[i] !in seen + l[..i]
  {
    var all := seen + l;
    assert seen + l[..i] == all[..|seen| + i] && l[i] == all[|seen| + i];
  }

  lemma {:induction false} NotifyFrom(s: State, seen: seq<nat>, x: nat)
    requires Inv(s) && !s.phase.Dead? && x < |s.items| == |s.places| && !s.places[x].Free? && x !in seen
    ensures forall t: nat {:trigger CalledFrom(s, seen + [x], t)} ::
              CalledFrom(s, seen + [x], t) <==> CalledFrom(s, seen, t) || (t == s.items[x].sub && s.items[x].cb)
    ensures !CalledFrom(s, seen, s.items[x].sub)
  {
    hide Inv;
    InUse(s, x);
    InvSubs(s);
    forall t: nat | t < |s.subs| && s.subs[t].live && s.subs[t].item == x
      ensures t == s.items[x].sub
    {
      assert TicketOk(s, t);
    }
  }

  lemma {:induction false} FlushLists(s: State)
    requires Inv(s) && !s.phase.Dead?
    ensures NoDup(s.workl) && NoDup(s.workl + s.curl) && Notified(s, [], s.items, [])
    ensures forall x :: x in s.workl || x in s.curl ==> x < |s.places| && !s.places[x].Free?
  {
    hide ActorsOk, SubsOk, CancelOk;
    NoDupJoin(s.workl, s.curl);
  }

  lemma {:induction false} FlushDone(s: State, items: seq<Item>, called: seq<nat>)
    requires Inv(s) && Enabled(s, Flush) && Notified(s, s.workl + s.curl, items, called)
    ensures items == Apply(s, Flush).items && NoDup(called)
    ensures forall t: nat :: t in called <==> t < |s.subs| && Apply(s, Flush).subs[t].calls == s.subs[t].calls + 1
  {
    hide Inv, NoDup;
    var s', seen := Apply(s, Flush), s.workl + s.curl;
    InvSubs(s);
    forall x | 0 <= x < |items|
      ensures items[x] == s'.items[x]
    {
      OnListOrFree(s, x);
    }
    forall t: nat
      ensures t in called <==> t < |s.subs| && s'.subs[t].calls == s.subs[t].calls + 1
    {
      assert t in called <==> CalledFrom(s, seen, t);
      if t < |s.subs| && s.subs[t].live {
        assert TicketOk(s, t);
        OnListOrFree(s, s.subs[t].item);
      }
    }
  }

  lemma {:induction false} OnListOrFree(s: State, x: nat)
    requires Inv(s) && !s.phase.Dead? && x < |s.items|
    ensures |s.items| == |s.places|
    ensures if s.places[x].Free? then !s.items[x].cb else x in s.workl + s.curl
  {
    hide ActorsOk, CancelOk, NoDup;
    assert ItemOk(s, x);
    OnList(s, x);
  }
}
