/**
 * The asynchronous worker pool as interleaved steps. Each step is one critical section of the
 * pool mutex or of a work item's mutex; handlers and callbacks run between two steps.
 */
module Async {
  import opened Bytes
  import opened Lists

  // ---------------------------------------------------------------- state

  /** Where an item is. Actor 0 is the main loop; the others are the worker threads. */
  datatype Place =
    | Free                  // on the free list
    | Work                  // on the work list
    | Held(a: nat)          // moved to the current list by a worker, its mutex not yet taken
    | Run(a: nat)           // work handler running, item mutex held
    | Ran(a: nat)           // item mutex released, message not yet pushed
    | Queued                // its message is in the message queue
    | Popped                // message taken by the main loop
    | Calling               // callback running, item mutex held
    | Delivered             // item mutex released, item not yet moved to the free list

  function Owner(p: Place): Option<nat> {
    match p
    case Held(a) => Some(a)
    case Run(a) => Some(a)
    case Ran(a) => Some(a)
    case Popped => Some(0)
    case Calling => Some(0)
    case Delivered => Some(0)
    case _ => None
  }

  /** A work item; sub names the submission whose handlers and argument it carries. */
  datatype Item = Item(workh: bool, cb: bool, id: int, err: int, sub: nat)

  datatype Actor = Idle | Busy(x: nat, at: Place) | Gone

  datatype Outcome = NotCalled | Called(err: int) | Canceled

  /** A submission and what happened to it so far; before is the error its item held when it was submitted. */
  datatype Sub = Sub(id: int, hasWork: bool, hasCb: bool, item: nat, before: int, live: bool, cancelled: bool,
                     starts: nat, ends: nat, result: int, calls: nat, outcome: Outcome)

  datatype Phase = Up | Joining | Dead

  /** A cancellation under way: it holds the pool mutex and has these current items still to visit. */
  datatype Cancel = Cancel(id: int, todo: seq<nat>)

  datatype State = State(run: bool, phase: Phase, freel: seq<nat>, workl: seq<nat>, curl: seq<nat>,
                         queue: seq<nat>, items: seq<Item>, places: seq<Place>, actors: seq<Actor>,
                         subs: seq<Sub>, cancel: Option<Cancel>)

  const NEW_ITEM := Item(false, false, 0, 0, 0)

  /** re_async_alloc with the given number of workers: one preallocated item each. */
  function Init(workers: nat): State {
    State(true, Up, seq(workers, i => i), [], [], [], seq(workers, _ => NEW_ITEM), seq(workers, _ => Free),
          seq(workers + 1, _ => Idle), [], None)
  }

  // ---------------------------------------------------------------- steps

  datatype Step =
    | Submit(id: int, hasWork: bool, hasCb: bool)   // re_async
    | Take(a: nat)                                  // a worker moves the head of the work list
    | Begin(a: nat)                                 // work handler starts
    | Skip(a: nat)                                  // no work handler any more
    | Finish(a: nat, err: int)                      // work handler returns
    | Push(a: nat)                                  // mqueue_push
    | Exit(a: nat)                                  // worker thread ends
    | Pop                                           // the main loop takes a message
    | CallBegin                                     // callback starts
    | CallSkip                                      // no callback any more
    | CallEnd                                       // callback returns
    | Release                                       // item back to the free list
    | CancelBegin(cid: int)                         // re_async_cancel: lock and sweep the work list
    | CancelItem                                    // visit one current item
    | CancelEnd                                     // unlock and return
    | Stop                                          // destructor: run = false
    | Flush                                         // destructor: workers joined, notify the rest

  predicate Matches(s: State, id: int, x: nat) {
    x < |s.items| && s.items[x].id == id
  }

  /** The items of l on the pool's work list whose id matches, or those whose id does not. */
  function Pick(s: State, id: int, l: seq<nat>, match': bool): seq<nat> {
    if l == [] then []
    else (if Matches(s, id, l[0]) == match' then [l[0]] else []) + Pick(s, id, l[1..], match')
  }

  predicate ActorIs(s: State, a: nat, p: Place) {
    a < |s.actors| && s.actors[a].Busy? && s.actors[a].at == p && s.actors[a].x < |s.items|
    && |s.places| == |s.items| && s.places[s.actors[a].x] == p && s.items[s.actors[a].x].sub < |s.subs|
  }

  predicate Locked(p: Place) {
    p.Run? || p.Calling?
  }

  predicate Enabled(s: State, st: Step) {
    && |s.places| == |s.items| && s.phase != Dead && |s.actors| > 0
    && match st
       case Submit(_, _, _) => s.cancel.None? && (s.freel != [] ==> s.freel[0] < |s.items|)
       case Take(a) => s.cancel.None? && 0 < a < |s.actors| && s.actors[a].Idle? && s.run && s.workl != []
                       && s.workl[0] < |s.items|
       case Begin(a) => 0 < a && ActorIs(s, a, Held(a)) && s.items[s.actors[a].x].workh
       case Skip(a) => 0 < a && ActorIs(s, a, Held(a)) && !s.items[s.actors[a].x].workh
       case Finish(a, _) => 0 < a && ActorIs(s, a, Run(a))
       case Push(a) => s.cancel.None? && 0 < a && ActorIs(s, a, Ran(a))
       case Exit(a) => s.cancel.None? && 0 < a < |s.actors| && s.actors[a].Idle? && !s.run
       case Pop => s.phase.Up? && s.actors[0].Idle? && s.queue != [] && s.queue[0] < |s.items|
       case CallBegin => ActorIs(s, 0, Popped) && s.items[s.actors[0].x].cb
       case CallSkip => ActorIs(s, 0, Popped) && !s.items[s.actors[0].x].cb
       case CallEnd => ActorIs(s, 0, Calling)
       case Release => s.cancel.None? && ActorIs(s, 0, Delivered) && s.actors[0].x in s.curl
       case CancelBegin(_) => s.cancel.None?
       case CancelItem =>
         && s.cancel.Some? && s.cancel.value.todo != []
         && var x := s.cancel.value.todo[0];
            x < |s.items| && s.items[x].sub < |s.subs| && (Matches(s, s.cancel.value.id, x) ==> !Locked(s.places[x]))
       case CancelEnd => s.cancel.Some? && s.cancel.value.todo == []
       case Stop => s.cancel.None? && s.phase.Up? && s.actors[0].Idle?
       case Flush => s.cancel.None? && s.phase.Joining? && forall a :: 0 < a < |s.actors| ==> s.actors[a].Gone?
  }

  /** Actor a and the item x move on together. */
  function Move(s: State, a: nat, actor: Actor, x: nat, item: Item, p: Place, sub: Sub): State
    requires a < |s.actors| && x < |s.items| == |s.places| && item.sub < |s.subs|
  {
    s.(actors := s.actors[a := actor], items := s.items[x := item], places := s.places[x := p],
       subs := s.subs[item.sub := sub])
  }

  /** A freshly allocated item, as if it had been on the free list. */
  function Grow(s: State): State {
    s.(freel := s.freel + [|s.items|], items := s.items + [NEW_ITEM], places := s.places + [Free])
  }

  function SubmitHead(s: State, id: int, hasWork: bool, hasCb: bool): State
    requires s.freel != [] && s.freel[0] < |s.items| == |s.places|
  {
    var x := s.freel[0];
    s.(freel := Remove(s.freel, x), workl := s.workl + [x],
       items := s.items[x := s.items[x].(workh := hasWork, cb := hasCb, id := id, sub := |s.subs|)],
       places := s.places[x := Work],
       subs := s.subs + [Sub(id, hasWork, hasCb, x, s.items[x].err, true, false, 0, 0, 0, 0, NotCalled)])
  }

  function Cleared(item: Item): Item {
    item.(workh := false, cb := false, id := 0)
  }

  /** The sweep of the work list meets item x. */
  predicate Swept(s: State, id: int, x: nat)
    requires |s.places| == |s.items|
  {
    x < |s.items| && s.places[x].Work? && s.items[x].id == id
  }

  /** The sweep of the work list: matching items are cleared and freed. */
  function Sweep(s: State, id: int): State
    requires |s.places| == |s.items|
  {
    s.(freel := s.freel + Pick(s, id, s.workl, true), workl := Pick(s, id, s.workl, false),
       items := seq(|s.items|, x requires 0 <= x < |s.items| => if Swept(s, id, x) then Cleared(s.items[x]) else s.items[x]),
       places := seq(|s.places|, x requires 0 <= x < |s.places| => if Swept(s, id, x) then Free else s.places[x]),
       subs := seq(|s.subs|, t requires 0 <= t < |s.subs| =>
         if s.subs[t].live && Swept(s, id, s.subs[t].item) then s.subs[t].(live := false, cancelled := true) else s.subs[t]),
       cancel := Some(Cancel(id, s.curl)))
  }

  /** The destructor's notifications: everything still on the work or current list is called back. */
  function FlushSub(s: State, sub: Sub): Sub {
    if sub.live then
      if sub.item < |s.items| && s.items[sub.item].cb
      then sub.(live := false, calls := sub.calls + 1, outcome := Canceled) else sub.(live := false)
    else sub
  }

  function Apply(s: State, st: Step): State
    requires Enabled(s, st)
  {
    match st
    case Submit(id, hasWork, hasCb) => SubmitHead(if s.freel == [] then Grow(s) else s, id, hasWork, hasCb)
    case Take(a) =>
      var x := s.workl[0];
      s.(workl := Remove(s.workl, x), curl := s.curl + [x], places := s.places[x := Held(a)],
         actors := s.actors[a := Busy(x, Held(a))])
    case Begin(a) =>
      var x := s.actors[a].x;
      var sub := s.subs[s.items[x].sub];
      Move(s, a, Busy(x, Run(a)), x, s.items[x], Run(a), sub.(starts := sub.starts + 1))
    case Skip(a) =>
      var x := s.actors[a].x;
      Move(s, a, Busy(x, Ran(a)), x, s.items[x], Ran(a), s.subs[s.items[x].sub])
    case Finish(a, err) =>
      var x := s.actors[a].x;
      var sub := s.subs[s.items[x].sub];
      Move(s, a, Busy(x, Ran(a)), x, s.items[x].(err := err, workh := false), Ran(a),
           sub.(ends := sub.ends + 1, result := err))
    case Push(a) =>
      var x := s.actors[a].x;
      Move(s, a, Idle, x, s.items[x], Queued, s.subs[s.items[x].sub]).(queue := s.queue + [x])
    case Exit(a) => s.(actors := s.actors[a := Gone])
    case Pop =>
      var x := s.queue[0];
      s.(queue := Remove(s.queue, x), places := s.places[x := Popped], actors := s.actors[0 := Busy(x, Popped)])
    case CallBegin =>
      var x := s.actors[0].x;
      var sub := s.subs[s.items[x].sub];
      Move(s, 0, Busy(x, Calling), x, s.items[x], Calling,
           sub.(calls := sub.calls + 1, outcome := Called(s.items[x].err)))
    case CallSkip =>
      var x := s.actors[0].x;
      Move(s, 0, Busy(x, Delivered), x, s.items[x], Delivered, s.subs[s.items[x].sub])
    case CallEnd =>
      var x := s.actors[0].x;
      Move(s, 0, Busy(x, Delivered), x, s.items[x].(cb := false), Delivered, s.subs[s.items[x].sub])
    case Release =>
      var x := s.actors[0].x;
      Move(s, 0, Idle, x, s.items[x], Free, s.subs[s.items[x].sub].(live := false))
        .(curl := Remove(s.curl, x), freel := s.freel + [x])
    case CancelBegin(id) => Sweep(s, id)
    case CancelItem =>
      var c := s.cancel.value;
      var x := c.todo[0];
      var rest := Some(Cancel(c.id, c.todo[1..]));
      if Matches(s, c.id, x) then
        s.(items := s.items[x := Cleared(s.items[x])],
           subs := s.subs[s.items[x].sub := s.subs[s.items[x].sub].(cancelled := true)], cancel := rest)
      else s.(cancel := rest)
    case CancelEnd => s.(cancel := None)
    case Stop => s.(run := false, phase := Joining)
    case Flush =>
      s.(phase := Dead, freel := [], workl := [], curl := [],
         items := seq(|s.items|, x requires 0 <= x < |s.items| => s.items[x].(cb := false)),
         subs := seq(|s.subs|, t requires 0 <= t < |s.subs| => FlushSub(s, s.subs[t])))
  }

  // ---------------------------------------------------------------- invariant: lists

  datatype Which = InFree | InWork | InCur | InQueue

  predicate Lives(p: Place, h: Which) {
    match h
    case InFree => p.Free?
    case InWork => p.Work?
    case InCur => !p.Free? && !p.Work?
    case InQueue => p.Queued?
  }

  /** l holds exactly the items whose place says so, each once. */
  ghost predicate ListOk(l: seq<nat>, places: seq<Place>, h: Which) {
    && NoDup(l)
    && forall x: nat {:trigger x in l} :: x in l <==> x < |places| && Lives(places[x], h)
  }

  lemma {:induction false} ListSame(l: seq<nat>, places: seq<Place>, h: Which, x: nat, p: Place)
    requires ListOk(l, places, h) && x < |places| && Lives(places[x], h) == Lives(p, h)
    ensures ListOk(l, places[x := p], h)
  {
    hide NoDup, Lives;
  }

  lemma {:induction false} ListAdd(l: seq<nat>, places: seq<Place>, h: Which, x: nat, p: Place)
    requires ListOk(l, places, h) && x < |places| && !Lives(places[x], h) && Lives(p, h)
    ensures ListOk(l + [x], places[x := p], h)
  {
    hide NoDup, Lives;
    AddMember(l, x);
  }

  lemma {:induction false} ListDrop(l: seq<nat>, places: seq<Place>, h: Which, x: nat, p: Place)
    requires ListOk(l, places, h) && x < |places| && Lives(places[x], h) && !Lives(p, h)
    ensures x in l && ListOk(Remove(l, x), places[x := p], h)
  {
    hide NoDup, Lives, Remove;
    assert x in l;
    RemoveMember(l, x);
  }

  ghost predicate ListsOk(s: State) {
    && ListOk(s.freel, s.places, InFree) && ListOk(s.workl, s.places, InWork)
    && ListOk(s.curl, s.places, InCur) && ListOk(s.queue, s.places, InQueue)
  }

  /** The lists after item x moved to place p: each list loses it, gains it at its end, or stays. */
  function Relist(l: seq<nat>, from: Place, to: Place, h: Which, x: nat): seq<nat>
    requires Lives(from, h) && !Lives(to, h) ==> x in l
  {
    if Lives(from, h) == Lives(to, h) then l else if Lives(to, h) then l + [x] else Remove(l, x)
  }

  lemma {:induction false} ListMoved(l: seq<nat>, places: seq<Place>, h: Which, x: nat, p: Place)
    requires ListOk(l, places, h) && x < |places|
    ensures Lives(places[x], h) && !Lives(p, h) ==> x in l
    ensures ListOk(Relist(l, places[x], p, h, x), places[x := p], h)
  {
    hide ListOk, Lives, Remove;
    if Lives(places[x], h) == Lives(p, h) {
      ListSame(l, places, h, x, p);
    } else if Lives(p, h) {
      ListAdd(l, places, h, x, p);
    } else {
      ListDrop(l, places, h, x, p);
    }
  }

  lemma {:induction false} ListsMoved(s: State, s': State, x: nat, p: Place)
    requires ListsOk(s) && x < |s.places| && s'.places == s.places[x := p]
    requires x in s.freel || !Lives(s.places[x], InFree) || Lives(p, InFree)
    requires x in s.workl || !Lives(s.places[x], InWork) || Lives(p, InWork)
    requires x in s.curl || !Lives(s.places[x], InCur) || Lives(p, InCur)
    requires x in s.queue || !Lives(s.places[x], InQueue) || Lives(p, InQueue)
    requires s'.freel == Relist(s.freel, s.places[x], p, InFree, x)
    requires s'.workl == Relist(s.workl, s.places[x], p, InWork, x)
    requires s'.curl == Relist(s.curl, s.places[x], p, InCur, x)
    requires s'.queue == Relist(s.queue, s.places[x], p, InQueue, x)
    ensures ListsOk(s')
  {
    hide ListOk, Lives, Remove, Relist;
    ListMoved(s.freel, s.places, InFree, x, p);
    ListMoved(s.workl, s.places, InWork, x, p);
    ListMoved(s.curl, s.places, InCur, x, p);
    ListMoved(s.queue, s.places, InQueue, x, p);
  }

  // ---------------------------------------------------------------- invariant: actors

  /** An actor at work holds exactly the item whose place names it. */
  ghost predicate ActorsOk(actors: seq<Actor>, places: seq<Place>) {
    && (forall a {:trigger actors[a]} :: 0 <= a < |actors| && actors[a].Busy? ==>
          actors[a].x < |places| && places[actors[a].x] == actors[a].at && Owner(actors[a].at) == Some(a))
    && (forall x {:trigger places[x]} :: 0 <= x < |places| && Owner(places[x]).Some? ==>
          Owner(places[x]).value < |actors| && actors[Owner(places[x]).value] == Busy(x, places[x]))
  }

  /** Actor a takes, keeps or lets go of item x. */
  lemma {:induction false} ActorMoved(actors: seq<Actor>, places: seq<Place>, a: nat, actor: Actor, x: nat, p: Place)
    requires ActorsOk(actors, places) && a < |actors| && x < |places|
    requires actors[a] == Busy(x, places[x]) || (!actors[a].Busy? && Owner(places[x]).None?)
    requires (actor == Busy(x, p) && Owner(p) == Some(a)) || (!actor.Busy? && Owner(p).None?)
    ensures ActorsOk(actors[a := actor], places[x := p])
  {
    var actors', places' := actors[a := actor], places[x := p];
    forall b | 0 <= b < |actors'| && actors'[b].Busy?
      ensures actors'[b].x < |places'| && places'[actors'[b].x] == actors'[b].at && Owner(actors'[b].at) == Some(b)
    {
      if b != a {
        assert actors[b].Busy?;
      }
    }
    forall y | 0 <= y < |places'| && Owner(places'[y]).Some?
      ensures Owner(places'[y]).value < |actors'| && actors'[Owner(places'[y]).value] == Busy(y, places'[y])
    {
      if y != x {
        assert Owner(places[y]).Some?;
      }
    }
  }

  /** An item moves between two places that belong to nobody. */
  lemma {:induction false} UnownedMoved(actors: seq<Actor>, places: seq<Place>, x: nat, p: Place)
    requires ActorsOk(actors, places) && x < |places| && Owner(places[x]).None? && Owner(p).None?
    ensures ActorsOk(actors, places[x := p])
  {
    var places' := places[x := p];
    forall b | 0 <= b < |actors| && actors[b].Busy?
      ensures actors[b].x < |places'| && places'[actors[b].x] == actors[b].at && Owner(actors[b].at) == Some(b)
    {}
    forall y | 0 <= y < |places'| && Owner(places'[y]).Some?
      ensures Owner(places'[y]).value < |actors| && actors[Owner(places'[y]).value] == Busy(y, places'[y])
    {
      if y != x {
        assert Owner(places[y]).Some?;
      }
    }
  }

  // ---------------------------------------------------------------- invariant: submissions

  function One(b: bool): nat {
    if b then 1 else 0
  }

  /** The handler ran if there was one, and its result is in the item; otherwise the item kept its error. */
  predicate WorkDone(sub: Sub, err: int) {
    sub.starts == sub.ends == One(sub.hasWork) && err == if sub.hasWork then sub.result else sub.before
  }

  /** What is known of a submission whose item is at place p. */
  predicate SubAt(sub: Sub, item: Item, p: Place) {
    match p
    case Free => true
    case Work => !sub.cancelled && sub.calls == sub.starts == sub.ends == 0 && item.err == sub.before
                 && item.workh == sub.hasWork && item.cb == sub.hasCb && item.id == sub.id
    case Held(_) => sub.calls == sub.starts == sub.ends == 0 && item.err == sub.before
                 && if sub.cancelled then !item.workh && !item.cb && item.id == 0
                    else item.workh == sub.hasWork && item.cb == sub.hasCb && item.id == sub.id
    case Run(_) => !sub.cancelled && sub.hasWork && sub.starts == 1 && sub.ends == sub.calls == 0
                 && item.cb == sub.hasCb && item.id == sub.id
    case Calling => !sub.cancelled && sub.hasCb && sub.calls == 1 && !item.workh && item.id == sub.id
                 && sub.outcome == Called(item.err) && WorkDone(sub, item.err)
    case Delivered => Settled(sub) && !item.workh && !item.cb && item.id == if sub.cancelled then 0 else sub.id
    case _ => sub.calls == 0 && sub.starts == sub.ends <= 1 && !item.workh
                 && if sub.cancelled then !item.cb && item.id == 0
                    else item.cb == sub.hasCb && item.id == sub.id && WorkDone(sub, item.err)
  }

  /** The end of every submission: one callback unless cancelled, behind the handler or at destruction. */
  predicate Settled(sub: Sub) {
    && sub.starts == sub.ends <= 1 && sub.calls <= 1
    && (!sub.cancelled ==> sub.calls == One(sub.hasCb))
    && (sub.calls == 1 ==> sub.hasCb && (sub.outcome == Canceled || (sub.outcome.Called? && WorkDone(sub, sub.outcome.err))))
  }

  ghost predicate SubsOk(s: State) {
    && |s.places| == |s.items|
    && (forall x {:trigger s.items[x]} :: 0 <= x < |s.items| ==> ItemOk(s, x))
    && (forall t {:trigger s.subs[t]} :: 0 <= t < |s.subs| ==> TicketOk(s, t))
  }

  ghost predicate ItemOk(s: State, x: nat)
    requires x < |s.items| == |s.places|
  {
    if s.places[x].Free? then !s.items[x].workh && !s.items[x].cb
    else
      && s.items[x].sub < |s.subs|
      && var sub := s.subs[s.items[x].sub];
         sub.live && sub.item == x && SubAt(sub, s.items[x], s.places[x])
  }

  ghost predicate TicketOk(s: State, t: nat)
    requires t < |s.subs| && |s.items| == |s.places|
  {
    var sub := s.subs[t];
    if sub.live then sub.item < |s.items| && !s.places[sub.item].Free? && s.items[sub.item].sub == t
    else Settled(sub)
  }

  /** One live item and its submission change; the rest stays. */
  lemma {:induction false} SubsMoved(s: State, s': State, x: nat, item: Item, p: Place, sub: Sub)
    requires SubsOk(s) && x < |s.items| && !s.places[x].Free?
    requires item.sub == s.items[x].sub < |s.subs|
    requires s'.items == s.items[x := item] && s'.places == s.places[x := p] && s'.subs == s.subs[item.sub := sub]
    requires if p.Free? then !item.workh && !item.cb && !sub.live && Settled(sub)
             else sub.live && sub.item == x && SubAt(sub, item, p)
    ensures SubsOk(s')
  {
    hide SubAt, Settled;
    var t := item.sub;
    assert ItemOk(s, x);
    forall y | 0 <= y < |s'.items|
      ensures ItemOk(s', y)
    {
      if y != x {
        assert ItemOk(s, y);
      }
    }
    forall u | 0 <= u < |s'.subs|
      ensures TicketOk(s', u)
    {
      if u != t {
        assert TicketOk(s, u);
      }
    }
  }

  // ---------------------------------------------------------------- invariant: cancellation

  /** Nothing of submission t can start any more. */
  predicate Quiet(s: State, t: nat)
    requires t < |s.subs|
  {
    var sub := s.subs[t];
    sub.live ==> sub.item < |s.items| == |s.places| && !s.items[sub.item].workh && !s.items[sub.item].cb
                 && !Locked(s.places[sub.item])
  }

  /** While a cancellation walks the current list, what it has not visited is still to come. */
  ghost predicate CancelOk(s: State) {
    s.cancel.Some? ==>
      && (forall i {:trigger s.cancel.value.todo[i]} :: 0 <= i < |s.cancel.value.todo| ==> s.cancel.value.todo[i] in s.curl)
      && (forall t {:trigger s.subs[t]} :: 0 <= t < |s.subs| && s.subs[t].id == s.cancel.value.id ==>
            Quiet(s, t) || s.subs[t].item in s.cancel.value.todo)
  }

  ghost predicate Inv(s: State) {
    if s.phase.Dead? then forall t {:trigger s.subs[t]} :: 0 <= t < |s.subs| ==> !s.subs[t].live && Settled(s.subs[t])
    else
      && |s.actors| > 0 && ListsOk(s) && ActorsOk(s.actors, s.places) && SubsOk(s) && CancelOk(s)
      && (s.phase.Joining? ==> s.actors[0].Idle?)
  }
}
