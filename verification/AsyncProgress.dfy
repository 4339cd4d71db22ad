/** When a cancellation of the worker pool can be finished, and when it waits for ever. */
module AsyncProgress {
  import opened Bytes
  import opened Lists
  import opened Async
  import opened AsyncSafety

  /** The actor that takes a step; submissions and cancellations may come from any thread. */
  function ActorOf(st: Step): Option<nat> {
    match st
    case Take(a) => Some(a)
    case Begin(a) => Some(a)
    case Skip(a) => Some(a)
    case Finish(a, _) => Some(a)
    case Push(a) => Some(a)
    case Exit(a) => Some(a)
    case Submit(_, _, _) => None
    case CancelBegin(_) => None
    case CancelItem => None
    case CancelEnd => None
    case _ => Some(0)
  }

  predicate Spared(st: Step, waiting: set<nat>) {
    ActorOf(st).Some? ==> ActorOf(st).value !in waiting
  }

  /** No step is one of the waiting actors. */
  ghost predicate Spares(steps: seq<Step>, i: nat, waiting: set<nat>) {
    forall k {:trigger steps[k]} :: i <= k < |steps| ==> Spared(steps[k], waiting)
  }

  /** Item x is still to be visited, and its mutex is held by a waiting actor. */
  ghost predicate HeldByWaiting(s: State, waiting: set<nat>, x: nat) {
    && s.cancel.Some? && x in s.cancel.value.todo && Matches(s, s.cancel.value.id, x) && x < |s.places|
    && Locked(s.places[x]) && Owner(s.places[x]).value in waiting
  }

  ghost predicate WaitsForEver(s: State, waiting: set<nat>) {
    exists x :: HeldByWaiting(s, waiting, x)
  }

  /** Steps of the cancellation and of the actors that do not wait finish it. */
  ghost predicate CanFinish(s: State, waiting: set<nat>) {
    exists steps, s' :: Runs(s, steps, 0, s') && Spares(steps, 0, waiting) && s'.cancel.None?
  }

  /** Only workers are inside a work handler, and a pool that is gone has no cancellation under way. */
  ghost predicate Shape(s: State) {
    && (forall x {:trigger s.places[x]} :: 0 <= x < |s.places| && s.places[x].Run? ==> s.places[x].a > 0)
    && (s.phase.Dead? ==> s.cancel.None?)
  }

  lemma {:induction false} ShapeStep(s: State, st: Step)
    requires Enabled(s, st) && Shape(s)
    ensures Shape(Apply(s, st))
  {
    hide Remove, Pick;
  }

  lemma {:induction false} ShapeRun(s: State, steps: seq<Step>, i: nat, s': State)
    requires i <= |steps| && Shape(s) && Runs(s, steps, i, s')
    ensures Shape(s')
    decreases |steps| - i
  {
    hide Shape, Enabled, Apply;
    if i < |steps| {
      ShapeStep(s, steps[i]);
      ShapeRun(Apply(s, steps[i]), steps, i + 1, s');
    }
  }

  // ---------------------------------------------------------------- blocked

  lemma {:induction false} HeldOwner(s: State, waiting: set<nat>, x: nat)
    requires Inv(s) && !s.phase.Dead? && HeldByWaiting(s, waiting, x)
    ensures var a := Owner(s.places[x]).value; a < |s.actors| && s.actors[a] == Busy(x, s.places[x]) && |s.places| == |s.items|
  {
    hide ListOk, SubAt, Settled, CancelOk;
    assert Owner(s.places[x]).Some?;
  }

  /** No step of another actor moves the item or lets the cancellation pass it. */
  lemma {:induction false} BlockedStep(s: State, st: Step, waiting: set<nat>, x: nat)
    requires Inv(s) && Enabled(s, st) && HeldByWaiting(s, waiting, x) && Spared(st, waiting)
    ensures HeldByWaiting(Apply(s, st), waiting, x)
  {
    hide Inv, Remove, Pick;
    HeldOwner(s, waiting, x);
    match st
    case Begin(a) => ActorHolds(s, a);
    case Skip(a) => ActorHolds(s, a);
    case Finish(a, _) => ActorHolds(s, a);
    case CallBegin => ActorHolds(s, 0);
    case CallSkip => ActorHolds(s, 0);
    case CallEnd => ActorHolds(s, 0);
    case Pop => Listed(s, s.queue[0]);
    case _ =>
  }

  lemma {:induction false} BlockedRun(s: State, steps: seq<Step>, i: nat, s': State, waiting: set<nat>, x: nat)
    requires i <= |steps| && Inv(s) && Runs(s, steps, i, s') && HeldByWaiting(s, waiting, x) && Spares(steps, i, waiting)
    ensures s'.cancel.Some?
    decreases |steps| - i
  {
    hide Inv, Enabled, Apply;
    if i < |steps| {
      StepKeeps(s, steps[i]);
      BlockedStep(s, steps[i], waiting, x);
      BlockedRun(Apply(s, steps[i]), steps, i + 1, s', waiting, x);
    }
  }

  // ---------------------------------------------------------------- not blocked

  /** A handler or callback that holds the mutex of item x returns. */
  function Return(s: State, x: nat): Step
    requires x < |s.places| && Locked(s.places[x])
  {
    if s.places[x].Run? then Finish(s.places[x].a, 0) else CallEnd
  }

  lemma {:induction false} Returns(s: State, waiting: set<nat>, x: nat)
    requires Inv(s) && Shape(s) && s.cancel.Some? && x < |s.places| && Locked(s.places[x])
    requires !WaitsForEver(s, waiting) && x in s.cancel.value.todo && Matches(s, s.cancel.value.id, x)
    ensures var st := Return(s, x);
            Enabled(s, st) && Spared(st, waiting)
            && var s' := Apply(s, st);
            && s'.cancel == s.cancel && !s'.phase.Dead? && |s'.places| == |s.places| && !Locked(s'.places[x])
            && !WaitsForEver(s', waiting)
  {
    hide Inv;
    var a := Owner(s.places[x]).value;
    assert !HeldByWaiting(s, waiting, x);
    OwnerHolds(s, x);
    InUse(s, x);
    var s' := Apply(s, Return(s, x));
    forall y
      ensures !HeldByWaiting(s', waiting, y)
    {
      assert !HeldByWaiting(s, waiting, y);
    }
  }

  lemma {:induction false} OwnerHolds(s: State, x: nat)
    requires Inv(s) && Shape(s) && !s.phase.Dead? && x < |s.places| && Owner(s.places[x]).Some?
    ensures var a := Owner(s.places[x]).value;
            a < |s.actors| && s.actors[a] == Busy(x, s.places[x]) && |s.places| == |s.items|
            && (s.places[x].Run? ==> a > 0) && !s.places[x].Free?
  {
    hide ListOk, Settled, CancelOk;
  }

  lemma {:induction false} Visits(s: State, waiting: set<nat>)
    requires Inv(s) && !s.phase.Dead? && s.cancel.Some? && s.cancel.value.todo != [] && !WaitsForEver(s, waiting)
    requires var x := s.cancel.value.todo[0]; x < |s.places| && (Matches(s, s.cancel.value.id, x) ==> !Locked(s.places[x]))
    ensures Enabled(s, CancelItem)
    ensures var s' := Apply(s, CancelItem);
            && !s'.phase.Dead? && s'.cancel.Some? && s'.cancel.value.todo == s.cancel.value.todo[1..] && !WaitsForEver(s', waiting)
  {
    hide Inv;
    var x := s.cancel.value.todo[0];
    Current(s, x);
    InUse(s, x);
    var s' := Apply(s, CancelItem);
    forall y
      ensures !HeldByWaiting(s', waiting, y)
    {
      assert !HeldByWaiting(s, waiting, y);
    }
  }

  /** What is to be visited is on the current list. */
  lemma {:induction false} Current(s: State, x: nat)
    requires Inv(s) && !s.phase.Dead? && s.cancel.Some? && x in s.cancel.value.todo
    ensures x < |s.places| == |s.items| && !s.places[x].Free? && |s.actors| > 0
  {
    hide ListOk, ActorsOk, SubAt, Settled;
    var i :| 0 <= i < |s.cancel.value.todo| && s.cancel.value.todo[i] == x;
    Listed(s, x);
  }

  lemma {:induction false} Prepend(s: State, st: Step, steps: seq<Step>, s': State, waiting: set<nat>)
    requires Enabled(s, st) && Runs(Apply(s, st), steps, 0, s') && Spared(st, waiting) && Spares(steps, 0, waiting)
    ensures Runs(s, [st] + steps, 0, s') && Spares([st] + steps, 0, waiting)
  {
    hide Enabled, Apply, Spared;
    RunsShift(Apply(s, st), [st], steps, 0, s');
  }

  lemma {:induction false} CancelFinishes(s: State, waiting: set<nat>) returns (steps: seq<Step>, s': State)
    requires Inv(s) && Shape(s) && s.cancel.Some? && !WaitsForEver(s, waiting)
    ensures Runs(s, steps, 0, s') && Spares(steps, 0, waiting) && s'.cancel.None?
    decreases |s.cancel.value.todo|
  {
    hide Inv, Apply, Enabled, WaitsForEver, Matches;
    if s.cancel.value.todo == [] {
      CancelEnds(s);
      steps, s' := [CancelEnd], Apply(s, CancelEnd);
      assert Runs(s', steps, 1, s');
    } else {
      var x := s.cancel.value.todo[0];
      Current(s, x);
      if Matches(s, s.cancel.value.id, x) && Locked(s.places[x]) {
        var st := Return(s, x);
        Returns(s, waiting, x);
        StepKeeps(s, st);
        ShapeStep(s, st);
        var s1 := Apply(s, st);
        steps, s' := VisitRest(s1, waiting);
        Prepend(s, st, steps, s', waiting);
        steps := [st] + steps;
      } else {
        steps, s' := VisitRest(s, waiting);
      }
    }
  }

  /** The first item to visit is free: it is visited, then the rest. */
  lemma {:induction false} VisitRest(s: State, waiting: set<nat>) returns (steps: seq<Step>, s': State)
    requires Inv(s) && Shape(s) && s.cancel.Some? && s.cancel.value.todo != [] && !WaitsForEver(s, waiting)
    requires var x := s.cancel.value.todo[0]; x < |s.places| && (Matches(s, s.cancel.value.id, x) ==> !Locked(s.places[x]))
    ensures Runs(s, steps, 0, s') && Spares(steps, 0, waiting) && s'.cancel.None?
    decreases |s.cancel.value.todo|, 0
  {
    hide Inv, Apply, Enabled, WaitsForEver, Matches, Runs;
    Visits(s, waiting);
    StepKeeps(s, CancelItem);
    ShapeStep(s, CancelItem);
    steps, s' := CancelFinishes(Apply(s, CancelItem), waiting);
    Prepend(s, CancelItem, steps, s', waiting);
    steps := [CancelItem] + steps;
  }

  lemma {:induction false} CancelEnds(s: State)
    requires Inv(s) && !s.phase.Dead? && s.cancel.Some? && s.cancel.value.todo == []
    ensures Enabled(s, CancelEnd) && Apply(s, CancelEnd).cancel.None?
  {
    hide ListsOk, ActorsOk, CancelOk, Settled, SubAt;
  }

  // ---------------------------------------------------------------- exactly when

  /**
   * In every run, a cancellation under way can be finished without a step of the waiting actors exactly
   * if none of them holds the mutex of an item with its id that it has still to visit. An actor waits if
   * its handler or callback has called re_async_cancel itself, or waits for the pool mutex otherwise.
   */
  lemma {:induction false} CancelFinishesIff(workers: nat, before: seq<Step>, s: State, waiting: set<nat>)
    requires Runs(Init(workers), before, 0, s) && s.cancel.Some?
    ensures CanFinish(s, waiting) <==> !WaitsForEver(s, waiting)
  {
    hide Inv, Runs, Shape, HeldByWaiting;
    InitOk(workers);
    RunKeeps(Init(workers), before, 0, s);
    InitShape(workers);
    ShapeRun(Init(workers), before, 0, s);
    if WaitsForEver(s, waiting) {
      var x :| HeldByWaiting(s, waiting, x);
      forall steps, s' | Runs(s, steps, 0, s') && Spares(steps, 0, waiting)
        ensures s'.cancel.Some?
      {
        BlockedRun(s, steps, 0, s', waiting, x);
      }
    } else {
      var steps, s' := CancelFinishes(s, waiting);
    }
  }

  lemma {:induction false} InitShape(workers: nat)
    ensures Shape(Init(workers))
  {}

  /** With nobody waiting, as when a thread outside the pool cancels, it can always be finished. */
  lemma {:induction false} CancelFromOutside(workers: nat, before: seq<Step>, s: State)
    requires Runs(Init(workers), before, 0, s) && s.cancel.Some?
    ensures CanFinish(s, {})
  {
    hide Runs, CanFinish;
    CancelFinishesIff(workers, before, s, {});
  }

  /** A work handler that cancels its own id waits for ever, whatever the others do. */
  lemma {:induction false} CancelOwnId() returns (steps: seq<Step>, s: State)
    ensures Runs(Init(1), steps, 0, s) && s.cancel.Some? && !CanFinish(s, {1})
  {
    hide Apply, Enabled, Solo, Init, CanFinish;
    steps := [Submit(1, true, true), Take(1), Begin(1), CancelBegin(1)];
    SoloSubmit(1);
    SoloTake(FIRST_ITEM, FIRST_SUB);
    SoloWork(FIRST_ITEM, FIRST_SUB, 0);
    var running := Solo(Run(1), FIRST_ITEM, FIRST_SUB.(starts := 1));
    SoloCancel(FIRST_SUB.(starts := 1));
    s := Apply(running, CancelBegin(1));
    assert Runs(s, steps, 4, s);
    assert Runs(running, steps, 3, s);
    assert Runs(Solo(Held(1), FIRST_ITEM, FIRST_SUB), steps, 2, s);
    assert Runs(Solo(Work, FIRST_ITEM, FIRST_SUB), steps, 1, s);
    CancelFinishesIff(1, steps, s, {1});
  }

  lemma {:induction false} SoloCancel(sub: Sub)
    ensures var s := Solo(Run(1), FIRST_ITEM, sub);
            Enabled(s, CancelBegin(1)) && Apply(s, CancelBegin(1)).cancel.Some? && WaitsForEver(Apply(s, CancelBegin(1)), {1})
  {
    assert HeldByWaiting(Apply(Solo(Run(1), FIRST_ITEM, sub), CancelBegin(1)), {1}, 0);
  }
}
