/** What every run of the worker pool keeps, and what follows for submissions and cancellations. */
module AsyncSafety {
  import opened Bytes
  import opened Lists
  import opened Async

  // ---------------------------------------------------------------- one item moves

  /** s' is s with actor a, item x and its submission moved on, and the lists adjusted to the new place. */
  ghost predicate Moved(s: State, s': State, a: nat, actor: Actor, x: nat, item: Item, p: Place, sub: Sub)
    requires a < |s.actors| && x < |s.items| == |s.places| && item.sub < |s.subs|
    requires x in s.freel || !Lives(s.places[x], InFree) || Lives(p, InFree)
    requires x in s.workl || !Lives(s.places[x], InWork) || Lives(p, InWork)
    requires x in s.curl || !Lives(s.places[x], InCur) || Lives(p, InCur)
    requires x in s.queue || !Lives(s.places[x], InQueue) || Lives(p, InQueue)
  {
    && s'.freel == Relist(s.freel, s.places[x], p, InFree, x)
    && s'.workl == Relist(s.workl, s.places[x], p, InWork, x)
    && s'.curl == Relist(s.curl, s.places[x], p, InCur, x)
    && s'.queue == Relist(s.queue, s.places[x], p, InQueue, x)
    && s'.items == s.items[x := item] && s'.places == s.places[x := p] && s'.subs == s.subs[item.sub := sub]
    && s'.actors == s.actors[a := actor] && s'.phase == s.phase && s'.run == s.run && s'.cancel == s.cancel
  }

  /** Every listed item is on the list its place names. */
  lemma {:induction false} OnList(s: State, x: nat)
    requires ListsOk(s) && x < |s.places|
    ensures Lives(s.places[x], InFree) ==> x in s.freel
    ensures Lives(s.places[x], InWork) ==> x in s.workl
    ensures Lives(s.places[x], InCur) ==> x in s.curl
    ensures Lives(s.places[x], InQueue) ==> x in s.queue
  {
    hide NoDup;
  }

  /** A pending cancellation survives a move that does not wake up a quiet submission. */
  lemma {:induction false} CancelMoved(s: State, s': State, x: nat, item: Item, p: Place, sub: Sub)
    requires SubsOk(s) && CancelOk(s) && x < |s.items| && !s.places[x].Free?
    requires item.sub == s.items[x].sub < |s.subs|
    requires s'.items == s.items[x := item] && s'.places == s.places[x := p] && s'.subs == s.subs[item.sub := sub]
    requires s'.cancel == s.cancel && (s.cancel.Some? ==> s'.curl == s.curl)
    requires sub.item == x && sub.id == s.subs[item.sub].id && sub.live
    requires Quiet(s, item.sub) ==> !item.workh && !item.cb && !Locked(p)
    ensures CancelOk(s')
  {
    hide SubAt, Settled, Locked;
    assert ItemOk(s, x);
    if s.cancel.Some? {
      forall t | 0 <= t < |s'.subs| && s'.subs[t].id == s'.cancel.value.id
        ensures Quiet(s', t) || s'.subs[t].item in s'.cancel.value.todo
      {
        assert s.subs[t].id == s.cancel.value.id;
        assert TicketOk(s, t);
      }
    }
  }

  /** The place p of a submission that is not over. */
  ghost predicate LocalOk(s: State, x: nat, item: Item, p: Place, sub: Sub) {
    if p.Free? then !item.workh && !item.cb && !sub.live && Settled(sub) && s.cancel.None?
    else sub.live && sub.item == x && SubAt(sub, item, p)
  }

  ghost predicate ActorFits(s: State, a: nat, actor: Actor, x: nat, p: Place) {
    && a < |s.actors| && x < |s.places|
    && (s.actors[a] == Busy(x, s.places[x]) || (!s.actors[a].Busy? && Owner(s.places[x]).None?))
    && ((actor == Busy(x, p) && Owner(p) == Some(a)) || (!actor.Busy? && Owner(p).None?))
  }

  lemma {:induction false} MoveKeeps(s: State, s': State, a: nat, actor: Actor, x: nat, item: Item, p: Place, sub: Sub)
    requires Inv(s) && !s.phase.Dead? && x < |s.items| && !s.places[x].Free?
    requires item.sub == s.items[x].sub < |s.subs| && ActorFits(s, a, actor, x, p) && LocalOk(s, x, item, p, sub)
    requires a == 0 ==> s.phase.Up?
    requires sub.id == s.subs[item.sub].id
    requires Quiet(s, item.sub) ==> !item.workh && !item.cb && !Locked(p)
    requires s.cancel.Some? ==> Lives(s.places[x], InCur) && Lives(p, InCur)
    requires x in s.freel || !Lives(s.places[x], InFree) || Lives(p, InFree)
    requires x in s.workl || !Lives(s.places[x], InWork) || Lives(p, InWork)
    requires x in s.curl || !Lives(s.places[x], InCur) || Lives(p, InCur)
    requires x in s.queue || !Lives(s.places[x], InQueue) || Lives(p, InQueue)
    requires Moved(s, s', a, actor, x, item, p, sub)
    ensures Inv(s')
  {
    hide ListsOk, ActorsOk, SubsOk, SubAt, Settled, CancelOk, Lives, Quiet, Remove;
    SizesAgree(s);
    ListsMoved(s, s', x, p);
    ActorMoved(s.actors, s.places, a, actor, x, p);
    SubsMoved(s, s', x, item, p, sub);
    if p.Free? {
      NoCancel(s');
    } else {
      CancelMoved(s, s', x, item, p, sub);
    }
  }

  lemma {:induction false} SizesAgree(s: State)
    requires SubsOk(s)
    ensures |s.places| == |s.items|
  {}

  lemma {:induction false} NoCancel(s: State)
    requires s.cancel.None?
    ensures CancelOk(s)
  {}

  // ---------------------------------------------------------------- the steps

  /** What the invariant says about an item that is in use. */
  lemma {:induction false} InUse(s: State, x: nat)
    requires Inv(s) && !s.phase.Dead? && x < |s.items| && !s.places[x].Free?
    ensures |s.places| == |s.items| && s.items[x].sub < |s.subs|
    ensures var sub := s.subs[s.items[x].sub]; sub.live && sub.item == x && SubAt(sub, s.items[x], s.places[x])
  {
    hide SubAt, Settled, ListOk, ActorsOk, CancelOk;
    assert ItemOk(s, x);
  }

  lemma {:induction false} Unlisted(s: State, x: nat, p: Place)
    requires Inv(s) && !s.phase.Dead? && x < |s.places|
    ensures x in s.freel || !Lives(s.places[x], InFree) || Lives(p, InFree)
    ensures x in s.workl || !Lives(s.places[x], InWork) || Lives(p, InWork)
    ensures x in s.curl || !Lives(s.places[x], InCur) || Lives(p, InCur)
    ensures x in s.queue || !Lives(s.places[x], InQueue) || Lives(p, InQueue)
  {
    hide ListOk, SubsOk, CancelOk, ActorsOk;
    OnList(s, x);
  }

  /** The steps of a worker with the item it holds. */
  lemma {:induction false} WorkerKeeps(s: State, st: Step)
    requires Inv(s) && Enabled(s, st) && (st.Begin? || st.Skip? || st.Finish?)
    ensures Inv(Apply(s, st))
  {
    hide Inv, Relist;
    var s', a := Apply(s, st), st.a;
    var x := s.actors[a].x;
    var item, p, sub := s'.items[x], s'.places[x], s'.subs[s.items[x].sub];
    InUse(s, x);
    ActorHolds(s, a);
    Unlisted(s, x, p);
    SameSubs(s, s.items[x].sub);
    RelistSame(s, x, p);
    MoveKeeps(s, s', a, s'.actors[a], x, item, p, sub);
  }

  /** The steps of the main loop with the message it took. */
  lemma {:induction false} MainKeeps(s: State, st: Step)
    requires Inv(s) && Enabled(s, st) && (st.CallBegin? || st.CallSkip? || st.CallEnd?)
    ensures Inv(Apply(s, st))
  {
    hide Inv, Relist;
    var s' := Apply(s, st);
    var x := s.actors[0].x;
    var item, p, sub := s'.items[x], s'.places[x], s'.subs[s.items[x].sub];
    InUse(s, x);
    ActorHolds(s, 0);
    Unlisted(s, x, p);
    RelistSame(s, x, p);
    MoveKeeps(s, s', 0, s'.actors[0], x, item, p, sub);
  }

  lemma {:induction false} SameSubs(s: State, t: nat)
    requires t < |s.subs|
    ensures s.subs[t := s.subs[t]] == s.subs
  {}

  lemma {:induction false} RelistSame(s: State, x: nat, p: Place)
    requires x < |s.places|
    requires x in s.freel || !Lives(s.places[x], InFree) || Lives(p, InFree)
    requires x in s.workl || !Lives(s.places[x], InWork) || Lives(p, InWork)
    requires x in s.curl || !Lives(s.places[x], InCur) || Lives(p, InCur)
    requires x in s.queue || !Lives(s.places[x], InQueue) || Lives(p, InQueue)
    ensures var q := s.places[x];
      && Relist(s.freel, q, p, InFree, x) == (if q.Free? == p.Free? then s.freel else if p.Free? then s.freel + [x] else Remove(s.freel, x))
      && Relist(s.workl, q, p, InWork, x) == (if q.Work? == p.Work? then s.workl else if p.Work? then s.workl + [x] else Remove(s.workl, x))
      && Relist(s.queue, q, p, InQueue, x) == (if q.Queued? == p.Queued? then s.queue else if p.Queued? then s.queue + [x] else Remove(s.queue, x))
      && Relist(s.curl, q, p, InCur, x) == (if (q.Free? || q.Work?) == (p.Free? || p.Work?) then s.curl
                                            else if p.Free? || p.Work? then Remove(s.curl, x) else s.curl + [x])
  {
    hide Remove;
  }

  lemma {:induction false} ActorHolds(s: State, a: nat)
    requires Inv(s) && !s.phase.Dead? && a < |s.actors| && s.actors[a].Busy?
    ensures s.actors[a].x < |s.places| == |s.items| && s.places[s.actors[a].x] == s.actors[a].at
    ensures Owner(s.actors[a].at) == Some(a) && (a == 0 ==> s.phase.Up?)
  {
    hide ListOk, SubAt, Settled, CancelOk;
  }

  lemma {:induction false} PushKeeps(s: State, a: nat)
    requires Inv(s) && Enabled(s, Push(a))
    ensures Inv(Apply(s, Push(a)))
  {
    hide Inv, Relist;
    var s', x := Apply(s, Push(a)), s.actors[a].x;
    InUse(s, x);
    ActorHolds(s, a);
    Unlisted(s, x, Queued);
    SameSubs(s, s.items[x].sub);
    RelistSame(s, x, Queued);
    MoveKeeps(s, s', a, Idle, x, s.items[x], Queued, s.subs[s.items[x].sub]);
  }

  lemma {:induction false} ReleaseKeeps(s: State)
    requires Inv(s) && Enabled(s, Release)
    ensures Inv(Apply(s, Release))
  {
    hide Inv, Relist;
    var s' := Apply(s, Release);
    var x := s.actors[0].x;
    InUse(s, x);
    ActorHolds(s, 0);
    Unlisted(s, x, Free);
    RelistSame(s, x, Free);
    MoveKeeps(s, s', 0, Idle, x, s.items[x], Free, s'.subs[s.items[x].sub]);
  }

  lemma {:induction false} TakeKeeps(s: State, a: nat)
    requires Inv(s) && Enabled(s, Take(a))
    ensures Inv(Apply(s, Take(a)))
  {
    hide Inv, Relist, Remove;
    var s', x := Apply(s, Take(a)), s.workl[0];
    Listed(s, x);
    InUse(s, x);
    Unlisted(s, x, Held(a));
    SameSubs(s, s.items[x].sub);
    RelistSame(s, x, Held(a));
    MoveKeeps(s, s', a, s'.actors[a], x, s.items[x], Held(a), s.subs[s.items[x].sub]);
  }

  lemma {:induction false} PopKeeps(s: State)
    requires Inv(s) && Enabled(s, Pop)
    ensures Inv(Apply(s, Pop))
  {
    hide Inv, Relist, Remove;
    var s', x := Apply(s, Pop), s.queue[0];
    Listed(s, x);
    InUse(s, x);
    Unlisted(s, x, Popped);
    SameSubs(s, s.items[x].sub);
    RelistSame(s, x, Popped);
    MoveKeeps(s, s', 0, s'.actors[0], x, s.items[x], Popped, s.subs[s.items[x].sub]);
  }

  lemma {:induction false} Listed(s: State, x: nat)
    requires Inv(s) && !s.phase.Dead?
    ensures x in s.freel ==> x < |s.places| == |s.items| && s.places[x].Free?
    ensures x in s.workl ==> x < |s.places| == |s.items| && s.places[x].Work?
    ensures x in s.curl ==> x < |s.places| == |s.items| && !s.places[x].Free? && !s.places[x].Work?
    ensures x in s.queue ==> x < |s.places| == |s.items| && s.places[x].Queued?
  {
    hide SubAt, Settled, CancelOk, ActorsOk, NoDup;
  }

  // ---------------------------------------------------------------- submission

  lemma {:induction false} ListGrown(l: seq<nat>, places: seq<Place>, h: Which)
    requires ListOk(l, places, h)
    ensures ListOk(if h == InFree then l + [|places|] else l, places + [Free], h)
  {
    hide NoDup;
    var n := |places|;
    assert n !in l;
    if h == InFree {
      AddMember(l, n);
    }
  }

  lemma {:induction false} GrowKeeps(s: State)
    requires Inv(s) && !s.phase.Dead? && s.cancel.None?
    ensures Inv(Grow(s))
  {
    hide ListOk, SubAt, Settled;
    var s' := Grow(s);
    ListGrown(s.freel, s.places, InFree);
    ListGrown(s.workl, s.places, InWork);
    ListGrown(s.curl, s.places, InCur);
    ListGrown(s.queue, s.places, InQueue);
    forall y | 0 <= y < |s'.items|
      ensures ItemOk(s', y)
    {
      if y < |s.items| {
        assert ItemOk(s, y);
      }
    }
    forall t | 0 <= t < |s'.subs|
      ensures TicketOk(s', t)
    {
      assert TicketOk(s, t);
    }
  }

  lemma {:induction false} SubmitSubs(s: State, id: int, hasWork: bool, hasCb: bool)
    requires SubsOk(s) && s.freel != [] && s.freel[0] < |s.items| && s.places[s.freel[0]].Free?
    ensures SubsOk(SubmitHead(s, id, hasWork, hasCb))
  {
    hide Remove, Settled;
    var s', x := SubmitHead(s, id, hasWork, hasCb), s.freel[0];
    forall y | 0 <= y < |s'.items|
      ensures ItemOk(s', y)
    {
      if y != x {
        assert ItemOk(s, y);
      }
    }
    forall t | 0 <= t < |s'.subs|
      ensures TicketOk(s', t)
    {
      if t < |s.subs| {
        assert TicketOk(s, t);
      }
    }
  }

  lemma {:induction false} SubmitHeadKeeps(s: State, id: int, hasWork: bool, hasCb: bool)
    requires Inv(s) && !s.phase.Dead? && s.cancel.None? && s.freel != []
    ensures s.freel[0] < |s.items| == |s.places|
    ensures Inv(SubmitHead(s, id, hasWork, hasCb))
  {
    hide ListsOk, ActorsOk, SubsOk, Relist, Remove, CancelOk;
    var x := s.freel[0];
    Listed(s, x);
    var s' := SubmitHead(s, id, hasWork, hasCb);
    Unlisted(s, x, Work);
    RelistSame(s, x, Work);
    ListsMoved(s, s', x, Work);
    UnownedMoved(s.actors, s.places, x, Work);
    SubmitSubs(s, id, hasWork, hasCb);
    NoCancel(s');
  }

  lemma {:induction false} SubmitKeeps(s: State, id: int, hasWork: bool, hasCb: bool)
    requires Inv(s) && Enabled(s, Submit(id, hasWork, hasCb))
    ensures Inv(Apply(s, Submit(id, hasWork, hasCb)))
  {
    hide Inv, SubmitHead;
    if s.freel == [] {
      GrowKeeps(s);
      SubmitHeadKeeps(Grow(s), id, hasWork, hasCb);
    } else {
      SubmitHeadKeeps(s, id, hasWork, hasCb);
    }
  }

  // ---------------------------------------------------------------- cancellation

  lemma {:induction false} PickMember(s: State, id: int, l: seq<nat>, m: bool, y: nat)
    ensures y in Pick(s, id, l, m) <==> y in l && Matches(s, id, y) == m
  {
    hide Matches;
    if l != [] {
      PickMember(s, id, l[1..], m, y);
      assert l == [l[0]] + l[1..];
    }
  }

  lemma {:induction false} PickNoDup(s: State, id: int, l: seq<nat>, m: bool)
    requires NoDup(l)
    ensures NoDup(Pick(s, id, l, m))
  {
    hide Matches;
    if l != [] {
      PickNoDup(s, id, l[1..], m);
      PickMember(s, id, l[1..], m, l[0]);
      NoDupCons(l[0], Pick(s, id, l[1..], m));
    }
  }

  lemma {:induction false} NoDupCons(x: nat, l: seq<nat>)
    requires NoDup(l) && x !in l
    ensures NoDup([x] + l)
  {}

  lemma {:induction false} NoDupJoin(a: seq<nat>, b: seq<nat>)
    requires NoDup(a) && NoDup(b) && forall y :: y in a ==> y !in b
    ensures NoDup(a + b)
  {
    forall i, j | 0 <= i < j < |a + b|
      ensures (a + b)[i] != (a + b)[j]
    {
      if i < |a| <= j {
        assert a[i] in a && b[j - |a|] in b;
      }
    }
  }

  lemma {:induction false} SweepWork(s: State, id: int)
    requires ListOk(s.workl, s.places, InWork) && |s.places| == |s.items|
    ensures ListOk(Sweep(s, id).workl, Sweep(s, id).places, InWork)
  {
    hide NoDup, Pick;
    var s' := Sweep(s, id);
    PickNoDup(s, id, s.workl, false);
    forall y: nat
      ensures y in s'.workl <==> y < |s'.places| && Lives(s'.places[y], InWork)
    {
      PickMember(s, id, s.workl, false, y);
      assert y in s.workl <==> y < |s.places| && Lives(s.places[y], InWork);
    }
  }

  lemma {:induction false} SweepFree(s: State, id: int)
    requires ListOk(s.workl, s.places, InWork) && ListOk(s.freel, s.places, InFree) && |s.places| == |s.items|
    ensures ListOk(Sweep(s, id).freel, Sweep(s, id).places, InFree)
  {
    hide NoDup, Pick;
    var s', hits := Sweep(s, id), Pick(s, id, s.workl, true);
    PickNoDup(s, id, s.workl, true);
    forall y: nat
      ensures y in s'.freel <==> y < |s'.places| && Lives(s'.places[y], InFree)
      ensures y in s.freel ==> y !in hits
    {
      PickMember(s, id, s.workl, true, y);
      assert y in s.workl <==> y < |s.places| && Lives(s.places[y], InWork);
      assert y in s.freel <==> y < |s.places| && Lives(s.places[y], InFree);
    }
    NoDupJoin(s.freel, hits);
  }

  lemma {:induction false} SweepOther(s: State, id: int, l: seq<nat>, h: Which)
    requires ListOk(l, s.places, h) && (h == InCur || h == InQueue) && |s.places| == |s.items|
    ensures ListOk(l, Sweep(s, id).places, h)
  {
    hide NoDup, Pick;
  }

  lemma {:induction false} SweepActors(s: State, id: int)
    requires ActorsOk(s.actors, s.places) && |s.places| == |s.items|
    ensures ActorsOk(s.actors, Sweep(s, id).places)
  {
    hide Pick;
    var places' := Sweep(s, id).places;
    forall b | 0 <= b < |s.actors| && s.actors[b].Busy?
      ensures s.actors[b].x < |places'| && places'[s.actors[b].x] == s.actors[b].at && Owner(s.actors[b].at) == Some(b)
    {}
    forall y | 0 <= y < |places'| && Owner(places'[y]).Some?
      ensures Owner(places'[y]).value < |s.actors| && s.actors[Owner(places'[y]).value] == Busy(y, places'[y])
    {
      assert places'[y] == s.places[y];
    }
  }

  lemma {:induction false} SweepSubs(s: State, id: int)
    requires SubsOk(s)
    ensures SubsOk(Sweep(s, id))
  {
    hide Pick;
    var s' := Sweep(s, id);
    forall y | 0 <= y < |s'.items|
      ensures ItemOk(s', y)
    {
      assert ItemOk(s, y);
    }
    forall t | 0 <= t < |s'.subs|
      ensures TicketOk(s', t)
    {
      assert TicketOk(s, t);
      if s.subs[t].live {
        assert ItemOk(s, s.subs[t].item);
      }
    }
  }

  /** Behind the sweep, whatever still carries the id is on the current list. */
  lemma {:induction false} SweepCancel(s: State, id: int)
    requires SubsOk(s) && ListOk(s.curl, s.places, InCur)
    ensures CancelOk(Sweep(s, id))
  {
    hide Pick, NoDup;
    var s' := Sweep(s, id);
    forall t | 0 <= t < |s'.subs| && s'.subs[t].id == id
      ensures Quiet(s', t) || s'.subs[t].item in s.curl
    {
      assert TicketOk(s, t);
      if s.subs[t].live {
        assert ItemOk(s, s.subs[t].item);
      }
    }
    forall i | 0 <= i < |s.curl|
      ensures s'.cancel.value.todo[i] in s'.curl
    {}
  }

  lemma {:induction false} SweepKeeps(s: State, id: int)
    requires Inv(s) && Enabled(s, CancelBegin(id))
    ensures Inv(Apply(s, CancelBegin(id)))
  {
    hide ListOk, ActorsOk, SubsOk, CancelOk, Sweep;
    SweepFrame(s, id);
    SweepWork(s, id);
    SweepFree(s, id);
    SweepOther(s, id, s.curl, InCur);
    SweepOther(s, id, s.queue, InQueue);
    SweepActors(s, id);
    SweepSubs(s, id);
    SweepCancel(s, id);
  }

  lemma {:induction false} SweepFrame(s: State, id: int)
    requires |s.places| == |s.items|
    ensures var s' := Sweep(s, id);
            s'.curl == s.curl && s'.queue == s.queue && s'.actors == s.actors && s'.phase == s.phase && s'.run == s.run
            && |s'.subs| == |s.subs| && forall t {:trigger s'.subs[t]} :: 0 <= t < |s.subs| ==>
                 s'.subs[t].starts == s.subs[t].starts && s'.subs[t].calls == s.subs[t].calls && s'.subs[t].id == s.subs[t].id
  {
    hide Pick;
  }

  lemma {:induction false} SubsFrame(s: State, s': State)
    requires SubsOk(s) && s'.items == s.items && s'.places == s.places && s'.subs == s.subs
    ensures SubsOk(s')
  {
    hide SubAt, Settled;
    forall y | 0 <= y < |s'.items|
      ensures ItemOk(s', y)
    {
      assert ItemOk(s, y);
    }
    forall t | 0 <= t < |s'.subs|
      ensures TicketOk(s', t)
    {
      assert TicketOk(s, t);
    }
  }

  lemma {:induction false} SubsMovedCancel(s: State, s': State, x: nat)
    requires SubsOk(s) && x < |s.items| && !s.places[x].Free? && !s.places[x].Work? && !Locked(s.places[x])
    requires s.items[x].sub < |s.subs|
    requires s'.items == s.items[x := Cleared(s.items[x])] && s'.places == s.places
    requires s'.subs == s.subs[s.items[x].sub := s.subs[s.items[x].sub].(cancelled := true)]
    ensures SubsOk(s')
  {
    assert ItemOk(s, x);
    assert s.places[x := s.places[x]] == s.places;
    ClearedOk(s.subs[s.items[x].sub], s.items[x], s.places[x]);
    SubsMoved(s, s', x, Cleared(s.items[x]), s.places[x], s.subs[s.items[x].sub].(cancelled := true));
  }

  lemma {:induction false} ClearedOk(sub: Sub, item: Item, p: Place)
    requires SubAt(sub, item, p) && !p.Free? && !p.Work? && !Locked(p)
    ensures SubAt(sub.(cancelled := true), Cleared(item), p)
  {}

  /** A visited item is quiet; the others are quiet already or still to be visited. */
  lemma {:induction false} CancelItemCancel(s: State, s': State, x: nat)
    requires SubsOk(s) && CancelOk(s) && s.cancel.Some? && s.cancel.value.todo != []
    requires x == s.cancel.value.todo[0] < |s.items| && !s.places[x].Free? && s.items[x].sub < |s.subs|
    requires s'.curl == s.curl && s'.places == s.places && s'.cancel == Some(Cancel(s.cancel.value.id, s.cancel.value.todo[1..]))
    requires if Matches(s, s.cancel.value.id, x) then
               && !Locked(s.places[x]) && s'.items == s.items[x := Cleared(s.items[x])]
               && s'.subs == s.subs[s.items[x].sub := s.subs[s.items[x].sub].(cancelled := true)]
             else s'.items == s.items && s'.subs == s.subs
    ensures CancelOk(s')
  {
    hide Settled;
    var c := s.cancel.value;
    assert ItemOk(s, x);
    forall t | 0 <= t < |s'.subs| && s'.subs[t].id == c.id
      ensures Quiet(s', t) || s'.subs[t].item in s'.cancel.value.todo
    {
      assert s.subs[t].id == c.id;
      assert TicketOk(s, t);
      if s.subs[t].live && s.subs[t].item == x {
        MatchOrQuiet(s, t);
      }
    }
    forall i | 0 <= i < |s'.cancel.value.todo|
      ensures s'.cancel.value.todo[i] in s'.curl
    {
      assert c.todo[i + 1] in s.curl;
    }
  }

  /** An unlocked live item either still carries the id it was submitted with, or is quiet. */
  lemma {:induction false} MatchOrQuiet(s: State, t: nat)
    requires SubsOk(s) && t < |s.subs| && s.subs[t].live
    ensures var x := s.subs[t].item; x < |s.items| == |s.places| && (Matches(s, s.subs[t].id, x) || Quiet(s, t))
  {
    hide Settled;
    assert TicketOk(s, t);
    assert ItemOk(s, s.subs[t].item);
  }

  lemma {:induction false} CancelItemKeeps(s: State)
    requires Inv(s) && Enabled(s, CancelItem)
    ensures Inv(Apply(s, CancelItem))
  {
    hide ListsOk, ActorsOk, SubsOk, SubAt, Settled, Cleared;
    var s', x := Apply(s, CancelItem), s.cancel.value.todo[0];
    Listed(s, x);
    if Matches(s, s.cancel.value.id, x) {
      SubsMovedCancel(s, s', x);
    } else {
      SubsFrame(s, s');
    }
    CancelItemCancel(s, s', x);
    ListsFrame(s, s');
  }

  lemma {:induction false} ListsFrame(s: State, s': State)
    requires ListsOk(s) && s'.freel == s.freel && s'.workl == s.workl && s'.curl == s.curl && s'.queue == s.queue && s'.places == s.places
    ensures ListsOk(s')
  {
    hide ListOk;
  }

  // ---------------------------------------------------------------- the rest, and all of them

  lemma {:induction false} QuietStepsKeep(s: State, st: Step)
    requires Inv(s) && Enabled(s, st) && (st.Exit? || st.CancelEnd? || st.Stop?)
    ensures Inv(Apply(s, st))
  {
    hide ListsOk, SubsOk;
    var s' := Apply(s, st);
    SubsFrame(s, s');
    ListsFrame(s, s');
    if st.Exit? {
      assert ActorsOk(s'.actors, s'.places) by { ActorLeaves(s.actors, s.places, st.a); }
    }
  }

  lemma {:induction false} ActorLeaves(actors: seq<Actor>, places: seq<Place>, a: nat)
    requires ActorsOk(actors, places) && a < |actors| && actors[a].Idle?
    ensures ActorsOk(actors[a := Gone], places)
  {
    forall y | 0 <= y < |places| && Owner(places[y]).Some?
      ensures Owner(places[y]).value < |actors| && actors[a := Gone][Owner(places[y]).value] == Busy(y, places[y])
    {}
  }

  /** With the workers gone and the main loop idle, every live item is waiting or queued. */
  lemma {:induction false} NobodyHolds(s: State, x: nat)
    requires Inv(s) && Enabled(s, Flush) && x < |s.places|
    ensures Owner(s.places[x]).None?
  {
    hide ListsOk, SubsOk, CancelOk;
  }

  lemma {:induction false} FlushKeeps(s: State)
    requires Inv(s) && Enabled(s, Flush)
    ensures Inv(Apply(s, Flush))
  {
    hide ListsOk, CancelOk, ActorsOk;
    var s' := Apply(s, Flush);
    forall t | 0 <= t < |s'.subs|
      ensures !s'.subs[t].live && Settled(s'.subs[t])
    {
      assert TicketOk(s, t);
      if s.subs[t].live {
        NobodyHolds(s, s.subs[t].item);
        assert ItemOk(s, s.subs[t].item);
      }
    }
  }

  /** Every step of every thread keeps the invariant. */
  lemma {:induction false} StepKeeps(s: State, st: Step)
    requires Inv(s) && Enabled(s, st)
    ensures Inv(Apply(s, st))
  {
    hide Inv, Apply;
    match st
    case Submit(id, hasWork, hasCb) => SubmitKeeps(s, id, hasWork, hasCb);
    case Take(a) => TakeKeeps(s, a);
    case Push(a) => PushKeeps(s, a);
    case Pop => PopKeeps(s);
    case CallBegin => MainKeeps(s, st);
    case CallSkip => MainKeeps(s, st);
    case CallEnd => MainKeeps(s, st);
    case Release => ReleaseKeeps(s);
    case CancelBegin(id) => SweepKeeps(s, id);
    case CancelItem => CancelItemKeeps(s);
    case Exit(_) => QuietStepsKeep(s, st);
    case CancelEnd => QuietStepsKeep(s, st);
    case Stop => QuietStepsKeep(s, st);
    case Flush => FlushKeeps(s);
    case _ => WorkerKeeps(s, st);
  }

  lemma {:induction false} InitOk(workers: nat)
    ensures Inv(Init(workers))
  {
    var s := Init(workers);
    forall x: nat
      ensures x in s.freel <==> x < |s.places|
    {
      if x < |s.places| {
        assert s.freel[x] == x;
      }
    }
    assert ListOk(s.freel, s.places, InFree);
    assert ListOk(s.workl, s.places, InWork) && ListOk(s.curl, s.places, InCur) && ListOk(s.queue, s.places, InQueue);
    assert forall x :: 0 <= x < |s.items| ==> ItemOk(s, x);
  }

  // ---------------------------------------------------------------- runs

  /** The states a run of enabled steps goes through. */
  ghost predicate Runs(s: State, steps: seq<Step>, i: nat, s': State)
    requires i <= |steps|
    decreases |steps| - i
  {
    if i == |steps| then s == s' else Enabled(s, steps[i]) && Runs(Apply(s, steps[i]), steps, i + 1, s')
  }

  lemma {:induction false} RunKeeps(s: State, steps: seq<Step>, i: nat, s': State)
    requires i <= |steps| && Inv(s) && Runs(s, steps, i, s')
    ensures Inv(s')
    decreases |steps| - i
  {
    hide Inv, Enabled, Apply;
    if i < |steps| {
      StepKeeps(s, steps[i]);
      RunKeeps(Apply(s, steps[i]), steps, i + 1, s');
    }
  }

  ghost predicate Holds(s: State, a: nat, x: nat) {
    a < |s.actors| && s.actors[a].Busy? && s.actors[a].x == x
  }

  /**
   * In every interleaving the three lists are disjoint and hold every item once, and the current
   * list is exactly what a thread holds or the message queue carries, never both and never twice.
   */
  lemma {:induction false} ListsInEveryRun(workers: nat, steps: seq<Step>, s: State)
    requires Runs(Init(workers), steps, 0, s) && !s.phase.Dead?
    ensures NoDup(s.freel) && NoDup(s.workl) && NoDup(s.curl) && NoDup(s.queue)
    ensures forall x: nat :: x < |s.items| <==> x in s.freel || x in s.workl || x in s.curl
    ensures forall x: nat :: !(x in s.freel && x in s.workl) && !(x in s.freel && x in s.curl) && !(x in s.workl && x in s.curl)
    ensures forall x: nat :: x in s.curl <==> x in s.queue || exists a: nat :: Holds(s, a, x)
    ensures forall x: nat, a: nat :: Holds(s, a, x) ==> x !in s.queue
    ensures forall x: nat, a: nat, b: nat :: Holds(s, a, x) && Holds(s, b, x) ==> a == b
  {
    hide NoDup, SubAt, Settled, CancelOk;
    InitOk(workers);
    RunKeeps(Init(workers), steps, 0, s);
    forall x: nat | x in s.curl
      ensures x in s.queue || exists a: nat :: Holds(s, a, x)
    {
      if x !in s.queue {
        assert Owner(s.places[x]).Some?;
        assert Holds(s, Owner(s.places[x]).value, x);
      }
    }
  }

  /**
   * In every run a submission's handler and callback run at most once, the callback only behind the
   * handler and with its result, or as cancelled at destruction; without a handler, it is called with
   * the error its item held when it was submitted. Once the pool is gone every submission that was not
   * cancelled and has a callback was called back.
   */
  lemma {:induction false} CallbackOnce(workers: nat, steps: seq<Step>, s: State, t: nat)
    requires Runs(Init(workers), steps, 0, s) && t < |s.subs|
    ensures var sub := s.subs[t];
            && sub.ends <= sub.starts <= 1 && sub.calls <= 1 && (sub.calls == 1 ==> sub.hasCb)
            && (sub.calls == 1 && sub.outcome != Canceled ==>
                 sub.starts == sub.ends == One(sub.hasWork)
                 && sub.outcome == Called(if sub.hasWork then sub.result else sub.before))
            && (s.phase.Dead? || !sub.live ==> (sub.hasCb && !sub.cancelled ==> sub.calls == 1))
  {
    hide ListOk, ActorsOk, CancelOk;
    InitOk(workers);
    RunKeeps(Init(workers), steps, 0, s);
    if !s.phase.Dead? {
      assert TicketOk(s, t);
      if s.subs[t].live {
        assert ItemOk(s, s.subs[t].item);
      }
    }
  }

  /** t is quiet in both states and nothing of it started in between. */
  ghost predicate StillQuiet(s: State, s': State, t: nat)
    requires t < |s.subs|
  {
    t < |s'.subs| && Quiet(s', t) && s'.subs[t].starts == s.subs[t].starts && s'.subs[t].calls == s.subs[t].calls
  }

  /** A move of item x leaves submission t quiet. */
  lemma {:induction false} QuietMoved(s: State, s': State, x: nat, item: Item, p: Place, sub: Sub, t: nat)
    requires SubsOk(s) && t < |s.subs| && Quiet(s, t) && x < |s.items| && !s.places[x].Free?
    requires item.sub == s.items[x].sub < |s.subs|
    requires s'.items == s.items[x := item] && s'.places == s.places[x := p] && s'.subs == s.subs[item.sub := sub]
    requires Quiet(s, item.sub) ==> !item.workh && !item.cb && !Locked(p)
    requires Quiet(s, item.sub) ==> sub.starts == s.subs[item.sub].starts && sub.calls == s.subs[item.sub].calls
    requires sub.live ==> sub.item == x
    ensures StillQuiet(s, s', t)
  {
    hide SubAt, Settled;
    assert TicketOk(s, t) && ItemOk(s, x);
  }

  lemma {:induction false} QuietHeld(s: State, st: Step, t: nat)
    requires Inv(s) && Enabled(s, st) && t < |s.subs| && Quiet(s, t)
    requires st.Begin? || st.Skip? || st.Finish? || st.Push? || st.CallBegin? || st.CallSkip? || st.CallEnd? || st.Release?
    ensures StillQuiet(s, Apply(s, st), t)
  {
    hide Inv, StillQuiet, SubAt, Settled;
    var s', a := Apply(s, st), if st.Begin? || st.Skip? || st.Finish? || st.Push? then st.a else 0;
    var x := s.actors[a].x;
    InUse(s, x);
    InvSubs(s);
    QuietMoved(s, s', x, s'.items[x], s'.places[x], s'.subs[s.items[x].sub], t);
  }

  lemma {:induction false} InvSubs(s: State)
    requires Inv(s) && !s.phase.Dead?
    ensures SubsOk(s) && CancelOk(s)
  {
    hide ListsOk, ActorsOk, SubsOk, CancelOk;
  }

  lemma {:induction false} QuietListed(s: State, st: Step, t: nat)
    requires Inv(s) && Enabled(s, st) && t < |s.subs| && Quiet(s, t) && (st.Take? || st.Pop?)
    ensures StillQuiet(s, Apply(s, st), t)
  {
    hide Inv, StillQuiet, SubAt, Settled, Remove;
    var s', x := Apply(s, st), if st.Take? then s.workl[0] else s.queue[0];
    Listed(s, x);
    InUse(s, x);
    InvSubs(s);
    SameSubs(s, s.items[x].sub);
    QuietMoved(s, s', x, s'.items[x], s'.places[x], s'.subs[s.items[x].sub], t);
  }

  lemma {:induction false} QuietSubmit(s: State, st: Step, t: nat)
    requires Inv(s) && Enabled(s, st) && t < |s.subs| && Quiet(s, t) && st.Submit?
    ensures StillQuiet(s, Apply(s, st), t)
  {
    hide ListOk, ActorsOk, CancelOk, SubAt, Settled, Remove, Inv;
    if s.freel != [] {
      Listed(s, s.freel[0]);
    }
    InvSubs(s);
    assert TicketOk(s, t);
  }

  lemma {:induction false} QuietCancel(s: State, st: Step, t: nat)
    requires Inv(s) && Enabled(s, st) && t < |s.subs| && Quiet(s, t) && (st.CancelBegin? || st.CancelItem?)
    ensures StillQuiet(s, Apply(s, st), t)
  {
    hide ListOk, ActorsOk, CancelOk, SubAt, Settled, Pick, Inv;
    InvSubs(s);
    assert TicketOk(s, t);
  }

  lemma {:induction false} QuietRest(s: State, st: Step, t: nat)
    requires Inv(s) && Enabled(s, st) && t < |s.subs| && Quiet(s, t)
    requires st.Exit? || st.CancelEnd? || st.Stop? || st.Flush?
    ensures StillQuiet(s, Apply(s, st), t)
  {
    hide Inv;
  }

  /** A quiet submission stays quiet: neither its handler nor its callback starts. */
  lemma {:induction false} QuietStays(s: State, st: Step, t: nat)
    requires Inv(s) && Enabled(s, st) && t < |s.subs| && Quiet(s, t)
    ensures StillQuiet(s, Apply(s, st), t)
  {
    hide Inv, Apply, StillQuiet, Quiet;
    match st
    case Submit(_, _, _) => QuietSubmit(s, st, t);
    case Take(_) => QuietListed(s, st, t);
    case Pop => QuietListed(s, st, t);
    case CancelBegin(_) => QuietCancel(s, st, t);
    case CancelItem => QuietCancel(s, st, t);
    case Exit(_) => QuietRest(s, st, t);
    case CancelEnd => QuietRest(s, st, t);
    case Stop => QuietRest(s, st, t);
    case Flush => QuietRest(s, st, t);
    case _ => QuietHeld(s, st, t);
  }

  lemma {:induction false} QuietRun(s: State, steps: seq<Step>, i: nat, s': State, t: nat)
    requires i <= |steps| && Inv(s) && Runs(s, steps, i, s') && t < |s.subs| && Quiet(s, t)
    ensures StillQuiet(s, s', t)
    decreases |steps| - i
  {
    hide Inv, Enabled, Apply, Quiet;
    if i < |steps| {
      StepKeeps(s, steps[i]);
      QuietStays(s, steps[i], t);
      QuietRun(Apply(s, steps[i]), steps, i + 1, s', t);
    }
  }

  /**
   * When re_async_cancel(id) is about to return, no handler or callback of an earlier submission with
   * that id starts in any continuation, whatever the other threads do.
   */
  lemma {:induction false} CancelIsFinal(workers: nat, steps: seq<Step>, s: State, id: int, more: seq<Step>, s': State, t: nat)
    requires Runs(Init(workers), steps, 0, s) && Enabled(s, CancelEnd) && s.cancel.value.id == id
    requires t < |s.subs| && s.subs[t].id == id
    requires Runs(Apply(s, CancelEnd), more, 0, s')
    ensures t < |s'.subs| && s'.subs[t].starts == s.subs[t].starts && s'.subs[t].calls == s.subs[t].calls
  {
    hide Inv;
    InitOk(workers);
    RunKeeps(Init(workers), steps, 0, s);
    InvSubs(s);
    StepKeeps(s, CancelEnd);
    assert Quiet(s, t);
    QuietStays(s, CancelEnd, t);
    QuietRun(Apply(s, CancelEnd), more, 0, s', t);
  }

  /** The item at the head of the free list carries the error err of its last use. */
  ghost predicate Idling(s: State, err: int) {
    && Inv(s) && s.phase.Up? && s.run && s.cancel.None? && |s.actors| > 1 && s.actors[0].Idle? && s.actors[1].Idle?
    && s.workl == [] && s.queue == [] && s.freel != [] && s.freel[0] < |s.items| && s.items[s.freel[0]].err == err
  }

  /** The last submission t has a callback but no handler; its item x is at place p and holds err. */
  ghost predicate Stale(s: State, x: nat, p: Place, err: int, t: nat) {
    && s.phase.Up? && s.run && s.cancel.None? && |s.actors| > 1 && x < |s.items| == |s.places| && s.places[x] == p
    && s.items[x] == Item(false, true, 1, err, t) && |s.subs| == t + 1
    && !s.subs[t].hasWork && !s.subs[t].cancelled && s.subs[t].calls == 0
    && s.workl == (if p.Work? then [x] else []) && s.queue == (if p.Queued? then [x] else [])
    && s.actors[0] == (if Owner(p) == Some(0) then Busy(x, p) else Idle)
    && s.actors[1] == (if Owner(p) == Some(1) then Busy(x, p) else Idle)
  }

  ghost predicate CalledStale(s: State, t: nat, err: int) {
    && t < |s.subs| && !s.subs[t].hasWork && !s.subs[t].cancelled
    && s.subs[t].calls == 1 && s.subs[t].outcome == Called(err)
  }

  lemma {:induction false} StaleSubmit(s: State, err: int)
    requires Idling(s, err)
    ensures Enabled(s, Submit(1, false, true)) && Stale(Apply(s, Submit(1, false, true)), s.freel[0], Work, err, |s.subs|)
  {
    hide Inv, Remove;
    Listed(s, s.freel[0]);
  }

  lemma {:induction false} StaleNext(s: State, st: Step, x: nat, p: Place, p': Place, err: int, t: nat)
    requires Stale(s, x, p, err, t)
    requires (st == Take(1) && p == Work && p' == Held(1)) || (st == Skip(1) && p == Held(1) && p' == Ran(1))
             || (st == Push(1) && p == Ran(1) && p' == Queued) || (st == Pop && p == Queued && p' == Popped)
    ensures Enabled(s, st) && Stale(Apply(s, st), x, p', err, t)
  {
    hide Remove;
    if st == Take(1) {
      RemoveHead(s.workl);
    } else if st == Pop {
      RemoveHead(s.queue);
    }
  }

  /** From there, a submission without a handler is called back with that error. */
  lemma {:induction false} StaleFromIdle(s: State, err: int) returns (steps: seq<Step>, s6: State)
    requires Idling(s, err)
    ensures Runs(s, steps, 0, s6) && CalledStale(s6, |s.subs|, err)
  {
    hide Inv, Apply, Enabled, Stale;
    var x, t := s.freel[0], |s.subs|;
    steps := [Submit(1, false, true), Take(1), Skip(1), Push(1), Pop, CallBegin];
    StaleSubmit(s, err);
    var s1 := Apply(s, steps[0]);
    StaleNext(s1, steps[1], x, Work, Held(1), err, t);
    var s2 := Apply(s1, steps[1]);
    StaleNext(s2, steps[2], x, Held(1), Ran(1), err, t);
    var s3 := Apply(s2, steps[2]);
    StaleNext(s3, steps[3], x, Ran(1), Queued, err, t);
    var s4 := Apply(s3, steps[3]);
    StaleNext(s4, steps[4], x, Queued, Popped, err, t);
    var s5 := Apply(s4, steps[4]);
    StaleCall(s5, x, err, t);
    s6 := Apply(s5, steps[5]);
    assert Runs(s6, steps, 6, s6);
    assert Runs(s5, steps, 5, s6);
    assert Runs(s4, steps, 4, s6);
    assert Runs(s3, steps, 3, s6);
    assert Runs(s2, steps, 2, s6);
    assert Runs(s1, steps, 1, s6);
    assert Runs(s, steps, 0, s6);
  }

  lemma {:induction false} StaleCall(s: State, x: nat, err: int, t: nat)
    requires Stale(s, x, Popped, err, t)
    ensures Enabled(s, CallBegin)
    ensures CalledStale(Apply(s, CallBegin), t, err)
  {}

  // ---------------------------------------------------------------- where a stale error comes from

  /** Submission u of item x had a handler, which returned err. */
  ghost predicate Returned(s: State, u: nat, x: nat, err: int) {
    u < |s.subs| && s.subs[u].item == x && s.subs[u].hasWork && s.subs[u].ends >= 1 && s.subs[u].result == err
  }

  /** err is zero or what the handler of one of the first n submissions returned on item x. */
  ghost predicate From(s: State, x: nat, err: int, n: nat) {
    err == 0 || exists u: nat :: u < n && Returned(s, u, x, err)
  }

  ghost predicate Traced(s: State) {
    && (forall x {:trigger s.items[x]} :: 0 <= x < |s.items| ==> From(s, x, s.items[x].err, |s.subs|))
    && (forall t {:trigger s.subs[t]} :: 0 <= t < |s.subs| ==> From(s, s.subs[t].item, s.subs[t].before, t))
  }

  /** What a handler returned stays so. */
  lemma {:induction false} ReturnedStays(s: State, st: Step, u: nat, x: nat, err: int)
    requires Inv(s) && Enabled(s, st) && Returned(s, u, x, err)
    ensures Returned(Apply(s, st), u, x, err)
  {
    hide Inv, Pick, Remove, SubAt;
    if st.Finish? {
      HandlerReturns(s, st);
    }
  }

  lemma {:induction false} HandlerReturns(s: State, st: Step)
    requires Inv(s) && Enabled(s, st) && st.Finish?
    ensures var sub := s.subs[s.items[s.actors[st.a].x].sub];
            sub.item == s.actors[st.a].x && sub.hasWork && sub.ends == 0
  {
    hide Inv;
    InUse(s, s.actors[st.a].x);
  }

  lemma {:induction false} FromStays(s: State, st: Step, x: nat, err: int, n: nat)
    requires Inv(s) && Enabled(s, st) && From(s, x, err, n)
    ensures From(Apply(s, st), x, err, n)
  {
    hide Inv, Apply, Enabled, Returned;
    if err != 0 {
      var u: nat :| u < n && Returned(s, u, x, err);
      ReturnedStays(s, st, u, x, err);
    }
  }

  /** A step leaves the errors of items and of earlier submissions alone, or a handler returned, or an item is new. */
  lemma {:induction false} ErrorsOf(s: State, st: Step, x: nat)
    requires Inv(s) && Enabled(s, st) && x < |Apply(s, st).items|
    ensures var s' := Apply(s, st);
            || (x < |s.items| && s'.items[x].err == s.items[x].err) || (x >= |s.items| && s'.items[x].err == 0)
            || (exists u: nat :: u < |s'.subs| && Returned(s', u, x, s'.items[x].err))
  {
    hide Inv, Pick, Remove, SubAt;
    if st.Finish? {
      HandlerReturns(s, st);
      var u := s.items[s.actors[st.a].x].sub;
      assert Returned(Apply(s, st), u, s.actors[st.a].x, st.err);
    }
  }

  lemma {:induction false} BeforeOf(s: State, st: Step, t: nat)
    requires Inv(s) && Enabled(s, st) && t < |Apply(s, st).subs|
    ensures var s' := Apply(s, st);
            && |s.subs| <= |s'.subs| <= |s.subs| + 1
            && (t < |s.subs| ==> s'.subs[t].item == s.subs[t].item && s'.subs[t].before == s.subs[t].before)
            && (t == |s.subs| ==> s'.subs[t].before == if s'.subs[t].item < |s.items| then s.items[s'.subs[t].item].err else 0)
  {
    hide Inv, Pick, Remove;
  }

  lemma {:induction false} TracedStep(s: State, st: Step)
    requires Inv(s) && Enabled(s, st) && Traced(s)
    ensures Traced(Apply(s, st))
  {
    hide Inv, Apply, Enabled, Returned;
    var s' := Apply(s, st);
    forall x | 0 <= x < |s'.items|
      ensures From(s', x, s'.items[x].err, |s'.subs|)
    {
      ErrorsOf(s, st, x);
      SubsGrow(s, st);
      if x < |s.items| {
        FromStays(s, st, x, s.items[x].err, |s.subs|);
      }
    }
    forall t | 0 <= t < |s'.subs|
      ensures From(s', s'.subs[t].item, s'.subs[t].before, t)
    {
      BeforeOf(s, st, t);
      if t < |s.subs| {
        FromStays(s, st, s.subs[t].item, s.subs[t].before, t);
      } else if s'.subs[t].item < |s.items| {
        FromStays(s, st, s'.subs[t].item, s'.subs[t].before, t);
      }
    }
  }

  lemma {:induction false} SubsGrow(s: State, st: Step)
    requires Inv(s) && Enabled(s, st)
    ensures |s.subs| <= |Apply(s, st).subs|
  {
    hide Inv, Pick, Remove;
  }

  lemma {:induction false} TracedRun(s: State, steps: seq<Step>, i: nat, s': State)
    requires i <= |steps| && Inv(s) && Traced(s) && Runs(s, steps, i, s')
    ensures Traced(s')
    decreases |steps| - i
  {
    hide Inv, Traced, Enabled, Apply;
    if i < |steps| {
      StepKeeps(s, steps[i]);
      TracedStep(s, steps[i]);
      TracedRun(Apply(s, steps[i]), steps, i + 1, s');
    }
  }

  /**
   * In every run, a callback without a handler gets zero, or the error that the handler of an earlier
   * submission returned on the same item: never its own.
   */
  lemma {:induction false} StaleOrigin(workers: nat, steps: seq<Step>, s: State, t: nat)
    requires Runs(Init(workers), steps, 0, s) && t < |s.subs|
    requires !s.subs[t].hasWork && s.subs[t].calls == 1 && s.subs[t].outcome != Canceled
    ensures s.subs[t].outcome == Called(s.subs[t].before)
    ensures s.subs[t].before != 0 ==> exists u: nat :: u < t && Returned(s, u, s.subs[t].item, s.subs[t].before)
  {
    hide Runs, Inv, Returned;
    CallbackOnce(workers, steps, s, t);
    InitOk(workers);
    assert Traced(Init(workers));
    TracedRun(Init(workers), steps, 0, s);
  }

  // ---------------------------------------------------------------- a run that reports a stale error

  /** A pool of one worker whose only item, at place p, served one submission. */
  function Solo(p: Place, item: Item, sub: Sub): State {
    State(true, Up, if p.Free? then [0] else [], if p.Work? then [0] else [],
          if p.Free? || p.Work? then [] else [0], if p.Queued? then [0] else [], [item], [p],
          [if Owner(p) == Some(0) then Busy(0, p) else Idle, if Owner(p) == Some(1) then Busy(0, p) else Idle], [sub], None)
  }

  lemma {:induction false} SoloTake(item: Item, sub: Sub)
    requires item.sub == 0
    ensures Enabled(Solo(Work, item, sub), Take(1)) && Apply(Solo(Work, item, sub), Take(1)) == Solo(Held(1), item, sub)
    ensures Enabled(Solo(Queued, item, sub), Pop) && Apply(Solo(Queued, item, sub), Pop) == Solo(Popped, item, sub)
  {
    RemoveHead([0]);
  }

  lemma {:induction false} SoloWork(item: Item, sub: Sub, err: int)
    requires item.sub == 0
    ensures var s, s' := Solo(Held(1), item, sub), Solo(Run(1), item, sub.(starts := sub.starts + 1));
            item.workh ==> Enabled(s, Begin(1)) && Apply(s, Begin(1)) == s'
    ensures var s, s' := Solo(Run(1), item, sub),
                         Solo(Ran(1), item.(err := err, workh := false), sub.(ends := sub.ends + 1, result := err));
            Enabled(s, Finish(1, err)) && Apply(s, Finish(1, err)) == s'
    ensures var s, s' := Solo(Ran(1), item, sub), Solo(Queued, item, sub);
            Enabled(s, Push(1)) && Apply(s, Push(1)) == s'
  {}

  lemma {:induction false} SoloCall(item: Item, sub: Sub)
    requires item.sub == 0
    ensures var s, s' := Solo(Popped, item, sub), Solo(Calling, item, sub.(calls := sub.calls + 1, outcome := Called(item.err)));
            item.cb ==> Enabled(s, CallBegin) && Apply(s, CallBegin) == s'
    ensures var s, s' := Solo(Calling, item, sub), Solo(Delivered, item.(cb := false), sub);
            Enabled(s, CallEnd) && Apply(s, CallEnd) == s'
  {}

  lemma {:induction false} SoloRelease(item: Item, sub: Sub)
    requires item.sub == 0
    ensures var s, s' := Solo(Delivered, item, sub), Solo(Free, item, sub.(live := false));
            Enabled(s, Release) && Apply(s, Release) == s'
  {
    RemoveHead([0]);
  }

  lemma {:induction false} SoloSubmit(id: int)
    ensures Enabled(Init(1), Submit(id, true, true))
    ensures Apply(Init(1), Submit(id, true, true)) ==
            Solo(Work, Item(true, true, id, 0, 0), Sub(id, true, true, 0, 0, true, false, 0, 0, 0, 0, NotCalled))
  {
    RemoveHead([0]);
    assert Init(1).freel == [0] && Init(1).items == [NEW_ITEM] && Init(1).actors == [Idle, Idle];
  }

  const FIRST_ITEM := Item(true, true, 1, 0, 0)
  const FIRST_SUB := Sub(1, true, true, 0, 0, true, false, 0, 0, 0, 0, NotCalled)

  function FirstItem(err: int): Item {
    FIRST_ITEM.(err := err, workh := false)
  }

  function FirstSub(err: int): Sub {
    FIRST_SUB.(starts := 1, ends := 1, result := err)
  }

  lemma {:induction false} FirstWork(err: int) returns (steps: seq<Step>)
    ensures Runs(Init(1), steps, 0, Solo(Queued, FirstItem(err), FirstSub(err)))
  {
    hide Apply, Enabled, Solo, Init;
    steps := [Submit(1, true, true), Take(1), Begin(1), Finish(1, err), Push(1)];
    SoloSubmit(1);
    SoloTake(FIRST_ITEM, FIRST_SUB);
    SoloWork(FIRST_ITEM, FIRST_SUB, err);
    SoloWork(FIRST_ITEM, FIRST_SUB.(starts := 1), err);
    SoloWork(FirstItem(err), FirstSub(err), err);
    var s := Solo(Queued, FirstItem(err), FirstSub(err));
    assert Runs(s, steps, 5, s);
    assert Runs(Solo(Ran(1), FirstItem(err), FirstSub(err)), steps, 4, s);
    assert Runs(Solo(Run(1), FIRST_ITEM, FIRST_SUB.(starts := 1)), steps, 3, s);
    assert Runs(Solo(Held(1), FIRST_ITEM, FIRST_SUB), steps, 2, s);
    assert Runs(Solo(Work, FIRST_ITEM, FIRST_SUB), steps, 1, s);
  }

  lemma {:induction false} FirstCall(item: Item, sub: Sub) returns (steps: seq<Step>, sub': Sub)
    requires item.sub == 0 && item.cb
    ensures Runs(Solo(Queued, item, sub), steps, 0, Solo(Free, item.(cb := false), sub'))
  {
    hide Apply, Enabled, Solo;
    steps := [Pop, CallBegin, CallEnd, Release];
    var called := sub.(calls := sub.calls + 1, outcome := Called(item.err));
    sub' := called.(live := false);
    SoloTake(item, sub);
    SoloCall(item, sub);
    SoloCall(item, called);
    SoloRelease(item.(cb := false), called);
    var s := Solo(Free, item.(cb := false), sub');
    assert Runs(s, steps, 4, s);
    assert Runs(Solo(Delivered, item.(cb := false), called), steps, 3, s);
    assert Runs(Solo(Calling, item, called), steps, 2, s);
    assert Runs(Solo(Popped, item, sub), steps, 1, s);
  }

  /** A first submission whose handler returns err leaves the pool idle, with that error in its item. */
  lemma {:induction false} FirstUse(err: int) returns (steps: seq<Step>, s: State)
    ensures Runs(Init(1), steps, 0, s) && Idling(s, err) && |s.subs| == 1
  {
    hide Runs, Inv, Solo, Idling;
    var work := FirstWork(err);
    var call, sub := FirstCall(FirstItem(err), FirstSub(err));
    var item := FirstItem(err).(cb := false);
    steps, s := work + call, Solo(Free, item, sub);
    RunsJoin(Init(1), work, call, 0, Solo(Queued, FirstItem(err), FirstSub(err)), s);
    InitOk(1);
    RunKeeps(Init(1), steps, 0, s);
    SoloIdle(item, sub);
  }

  lemma {:induction false} SoloIdle(item: Item, sub: Sub)
    requires Inv(Solo(Free, item, sub))
    ensures Idling(Solo(Free, item, sub), item.err) && |Solo(Free, item, sub).subs| == 1
  {}

  lemma {:induction false} RunsJoin(s: State, a: seq<Step>, b: seq<Step>, i: nat, s1: State, s2: State)
    requires i <= |a| && Runs(s, a, i, s1) && Runs(s1, b, 0, s2)
    ensures Runs(s, a + b, i, s2)
    decreases |a| - i
  {
    hide Apply, Enabled;
    if i < |a| {
      RunsJoin(Apply(s, a[i]), a, b, i + 1, s1, s2);
    } else {
      RunsShift(s1, a, b, 0, s2);
    }
  }

  lemma {:induction false} RunsShift(s: State, a: seq<Step>, b: seq<Step>, i: nat, s': State)
    requires i <= |b| && Runs(s, b, i, s')
    ensures Runs(s, a + b, |a| + i, s')
    decreases |b| - i
  {
    hide Apply, Enabled;
    if i < |b| {
      RunsShift(Apply(s, b[i]), a, b, i + 1, s');
    }
  }

  /**
   * The error of a callback is the handler's own result only if there was a handler: for every error
   * there is a run from the start in which a submission without one is called back with it.
   */
  lemma {:induction false} StaleError(err: int) returns (steps: seq<Step>, s: State)
    ensures Runs(Init(1), steps, 0, s) && CalledStale(s, 1, err)
  {
    hide Runs, Idling, CalledStale;
    var first, s1 := FirstUse(err);
    var then', s2 := StaleFromIdle(s1, err);
    RunsJoin(Init(1), first, then', 0, s1, s2);
    steps, s := first + then', s2;
  }
}
