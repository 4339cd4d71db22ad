/** In which order the worker pool serves submissions: first come, first taken, and messages first in, first out. */
module AsyncOrder {
  import opened Bytes
  import opened Lists
  import opened Async
  import opened AsyncSafety

  // ---------------------------------------------------------------- the work list

  /** The submission whose handlers item x carries. */
  function SubOf(s: State, x: nat): nat {
    if x < |s.items| then s.items[x].sub else 0
  }

  /** Along the list, submissions were made one after the other. */
  ghost predicate InOrder(s: State, l: seq<nat>) {
    forall i, j {:trigger SubOf(s, l[i]), SubOf(s, l[j])} :: 0 <= i < j < |l| ==> SubOf(s, l[i]) < SubOf(s, l[j])
  }

  /** Everything on the list was submitted later than t. */
  ghost predicate Above(s: State, l: seq<nat>, t: nat) {
    forall i {:trigger l[i]} :: 0 <= i < |l| ==> t < SubOf(s, l[i])
  }

  /** Everything on the list was submitted. */
  ghost predicate Below(s: State, l: seq<nat>) {
    forall i {:trigger l[i]} :: 0 <= i < |l| ==> SubOf(s, l[i]) < |s.subs|
  }

  lemma {:induction false} WorkBelow(s: State)
    requires Inv(s) && !s.phase.Dead?
    ensures Below(s, s.workl)
  {
    hide SubAt, Settled, CancelOk, ActorsOk, NoDup;
    forall i | 0 <= i < |s.workl|
      ensures SubOf(s, s.workl[i]) < |s.subs|
    {
      assert s.workl[i] in s.workl;
      assert ItemOk(s, s.workl[i]);
    }
  }

  lemma {:induction false} PickSub(s: State, id: int, l: seq<nat>, match': bool, t: nat)
    ensures Above(s, l, t) ==> Above(s, Pick(s, id, l, match'), t)
    ensures InOrder(s, l) ==> InOrder(s, Pick(s, id, l, match'))
    decreases |l|
  {
    if l != [] {
      var rest := Pick(s, id, l[1..], match');
      PickSub(s, id, l[1..], match', t);
      if InOrder(s, l) {
        forall i, j | 0 <= i < j < |l[1..]|
          ensures SubOf(s, l[1..][i]) < SubOf(s, l[1..][j])
        {
          assert SubOf(s, l[i + 1]) < SubOf(s, l[j + 1]);
        }
        forall i | 0 <= i < |l[1..]|
          ensures SubOf(s, l[0]) < SubOf(s, l[1..][i])
        {
          assert SubOf(s, l[0]) < SubOf(s, l[i + 1]);
        }
        PickSub(s, id, l[1..], match', SubOf(s, l[0]));
      }
    }
  }

  /** The lists before and after, if the items that stay carry what they carried. */
  lemma {:induction false} SameOrder(s: State, s': State, l: seq<nat>, t: nat)
    requires forall i {:trigger l[i]} :: 0 <= i < |l| ==> SubOf(s', l[i]) == SubOf(s, l[i])
    ensures InOrder(s, l) ==> InOrder(s', l)
    ensures Above(s, l, t) ==> Above(s', l, t)
  {}

  /** No step but a submission changes which submission an item carries, and that only for a free item. */
  lemma {:induction false} SubsStay(s: State, st: Step, x: nat)
    requires Inv(s) && Enabled(s, st) && x < |s.items| == |s.places| && !s.places[x].Free?
    ensures SubOf(Apply(s, st), x) == SubOf(s, x)
  {
    hide Inv, Pick, Remove;
    if st.Submit? && s.freel != [] {
      Listed(s, s.freel[0]);
    }
  }

  lemma {:induction false} WorkSame(s: State, st: Step)
    requires Inv(s) && Enabled(s, st)
    ensures forall i {:trigger s.workl[i]} :: 0 <= i < |s.workl| ==> SubOf(Apply(s, st), s.workl[i]) == SubOf(s, s.workl[i])
  {
    hide Inv, Apply, Enabled;
    forall i | 0 <= i < |s.workl|
      ensures SubOf(Apply(s, st), s.workl[i]) == SubOf(s, s.workl[i])
    {
      assert s.workl[i] in s.workl;
      AliveStep(s, st);
      Listed(s, s.workl[i]);
      SubsStay(s, st, s.workl[i]);
    }
  }

  lemma {:induction false} AliveStep(s: State, st: Step)
    requires Enabled(s, st)
    ensures !s.phase.Dead? && |s.places| == |s.items|
  {}

  /** What a step does to the work list. */
  ghost predicate WorkMoves(s: State, st: Step, s': State) {
    match st
    case Submit(_, _, _) => |s'.workl| == |s.workl| + 1 && s'.workl[..|s.workl|] == s.workl && SubOf(s', s'.workl[|s.workl|]) == |s.subs|
    case Take(_) => s.workl != [] && s'.workl == s.workl[1..]
    case CancelBegin(id) => s'.workl == Pick(s, id, s.workl, false)
    case Flush => s'.workl == []
    case _ => s'.workl == s.workl
  }

  lemma {:induction false} WorkMoved(s: State, st: Step)
    requires Inv(s) && Enabled(s, st)
    ensures WorkMoves(s, st, Apply(s, st)) && |s.subs| <= |Apply(s, st).subs|
    ensures st.Submit? ==> |Apply(s, st).subs| == |s.subs| + 1
  {
    hide Inv, Pick;
    if st.Take? {
      RemoveHead(s.workl);
    } else if st.Submit? && s.freel != [] {
      Listed(s, s.freel[0]);
    }
  }

  /** The order of the work list, and that nothing on it is older than t, survive every step. */
  lemma {:induction false} OrderStep(s: State, st: Step, t: nat)
    requires Inv(s) && Enabled(s, st) && InOrder(s, s.workl)
    ensures InOrder(Apply(s, st), Apply(s, st).workl)
    ensures Above(s, s.workl, t) && t < |s.subs| ==> Above(Apply(s, st), Apply(s, st).workl, t)
  {
    hide Inv, Apply, Enabled, Pick;
    var s' := Apply(s, st);
    AliveStep(s, st);
    WorkSame(s, st);
    WorkMoved(s, st);
    WorkBelow(s);
    match st
    case Submit(_, _, _) =>
      SubmitOrder(s, s', t);
    case Take(_) =>
      forall i, j | 0 <= i < j < |s'.workl|
        ensures SubOf(s', s'.workl[i]) < SubOf(s', s'.workl[j])
      {
        assert SubOf(s, s.workl[i + 1]) < SubOf(s, s.workl[j + 1]);
      }
    case CancelBegin(id) =>
      PickSub(s, id, s.workl, false, t);
      PickedSame(s, st, id);
      SameOrder(s, s', s'.workl, t);
    case _ =>
      SameOrder(s, s', s.workl, t);
  }

  lemma {:induction false} SubmitOrder(s: State, s': State, t: nat)
    requires |s'.workl| == |s.workl| + 1 && s'.workl[..|s.workl|] == s.workl && SubOf(s', s'.workl[|s.workl|]) == |s.subs|
    requires forall i {:trigger s.workl[i]} :: 0 <= i < |s.workl| ==> SubOf(s', s.workl[i]) == SubOf(s, s.workl[i])
    requires InOrder(s, s.workl) && Below(s, s.workl)
    ensures InOrder(s', s'.workl) && (Above(s, s.workl, t) && t < |s.subs| ==> Above(s', s'.workl, t))
  {
    forall i | 0 <= i < |s.workl|
      ensures SubOf(s', s'.workl[i]) == SubOf(s, s.workl[i]) < |s.subs|
    {
      assert s'.workl[i] == s'.workl[..|s.workl|][i];
    }
    forall i, j | 0 <= i < j < |s'.workl|
      ensures SubOf(s', s'.workl[i]) < SubOf(s', s'.workl[j])
    {
      if j < |s.workl| {
        assert SubOf(s, s.workl[i]) < SubOf(s, s.workl[j]);
      }
    }
  }

  lemma {:induction false} PickedSame(s: State, st: Step, id: int)
    requires Inv(s) && Enabled(s, st)
    ensures forall i {:trigger Pick(s, id, s.workl, false)[i]} :: 0 <= i < |Pick(s, id, s.workl, false)| ==>
              SubOf(Apply(s, st), Pick(s, id, s.workl, false)[i]) == SubOf(s, Pick(s, id, s.workl, false)[i])
  {
    hide Inv, Apply, Enabled;
    AliveStep(s, st);
    forall i | 0 <= i < |Pick(s, id, s.workl, false)|
      ensures SubOf(Apply(s, st), Pick(s, id, s.workl, false)[i]) == SubOf(s, Pick(s, id, s.workl, false)[i])
    {
      var x := Pick(s, id, s.workl, false)[i];
      PickIn(s, id, s.workl, x);
      Listed(s, x);
      SubsStay(s, st, x);
    }
  }

  lemma {:induction false} PickIn(s: State, id: int, l: seq<nat>, x: nat)
    requires x in Pick(s, id, l, false)
    ensures x in l
    decreases |l|
  {
    if !(Matches(s, id, l[0]) == false && x == l[0]) {
      PickIn(s, id, l[1..], x);
    }
  }

  /** The submission that worker a holds. */
  function HeldBy(s: State, a: nat): nat {
    if a < |s.actors| && s.actors[a].Busy? then SubOf(s, s.actors[a].x) else 0
  }

  lemma {:induction false} OrderRun(s: State, steps: seq<Step>, i: nat, s': State, t: nat)
    requires i <= |steps| && Inv(s) && Runs(s, steps, i, s') && InOrder(s, s.workl)
    ensures InOrder(s', s'.workl) && |s.subs| <= |s'.subs|
    ensures Above(s, s.workl, t) && t < |s.subs| ==> Above(s', s'.workl, t)
    decreases |steps| - i
  {
    hide Inv, Apply, Enabled, InOrder, Above;
    if i < |steps| {
      StepKeeps(s, steps[i]);
      OrderStep(s, steps[i], t);
      WorkMoved(s, steps[i]);
      OrderRun(Apply(s, steps[i]), steps, i + 1, s', t);
    }
  }

  /**
   * In every run the submissions along the work list were made one after the other, and the one that a
   * worker takes was made before every one that stays on the list.
   */
  lemma {:induction false} OldestTaken(workers: nat, steps: seq<Step>, s: State, a: nat)
    requires Runs(Init(workers), steps, 0, s)
    ensures InOrder(s, s.workl)
    ensures Enabled(s, Take(a)) ==>
              var s' := Apply(s, Take(a)); Above(s', s'.workl, HeldBy(s', a)) && HeldBy(s', a) < |s'.subs|
  {
    hide Inv, Runs;
    InitOk(workers);
    RunKeeps(Init(workers), steps, 0, s);
    OrderRun(Init(workers), steps, 0, s, 0);
    if Enabled(s, Take(a)) {
      TakeOldest(s, a);
    }
  }

  lemma {:induction false} TakeOldest(s: State, a: nat)
    requires Inv(s) && Enabled(s, Take(a)) && InOrder(s, s.workl)
    ensures var s' := Apply(s, Take(a)); Above(s', s'.workl, HeldBy(s', a)) && HeldBy(s', a) < |s'.subs|
  {
    hide Inv, Apply, Enabled;
    AliveStep(s, Take(a));
    WorkMoved(s, Take(a));
    WorkSame(s, Take(a));
    WorkBelow(s);
    HeldIsHead(s, a);
    var s' := Apply(s, Take(a));
    forall i | 0 <= i < |s'.workl|
      ensures HeldBy(s', a) < SubOf(s', s'.workl[i])
    {
      assert SubOf(s, s.workl[0]) < SubOf(s, s.workl[i + 1]);
    }
  }

  lemma {:induction false} HeldIsHead(s: State, a: nat)
    requires Enabled(s, Take(a))
    ensures s.workl != [] && HeldBy(Apply(s, Take(a)), a) == SubOf(s, s.workl[0])
  {
    hide Remove;
  }

  /** Submissions are taken in the order they were made: of two takings in a run, the later takes the later one. */
  lemma {:induction false} TakenInOrder(workers: nat, before: seq<Step>, s: State, a: nat, between: seq<Step>, s': State, b: nat)
    requires Runs(Init(workers), before, 0, s) && Enabled(s, Take(a))
    requires Runs(Apply(s, Take(a)), between, 0, s') && Enabled(s', Take(b))
    ensures HeldBy(Apply(s, Take(a)), a) < HeldBy(Apply(s', Take(b)), b)
  {
    hide Inv, Runs, Apply, Enabled;
    InitOk(workers);
    RunKeeps(Init(workers), before, 0, s);
    OrderRun(Init(workers), before, 0, s, 0);
    TakeOldest(s, a);
    StepKeeps(s, Take(a));
    OrderStep(s, Take(a), 0);
    var s1 := Apply(s, Take(a));
    RunKeeps(s1, between, 0, s');
    OrderRun(s1, between, 0, s', HeldBy(s1, a));
    HeldWasListed(s', b);
  }

  /** What a worker takes was on the work list. */
  lemma {:induction false} HeldWasListed(s: State, a: nat)
    requires Enabled(s, Take(a))
    ensures exists i :: 0 <= i < |s.workl| && HeldBy(Apply(s, Take(a)), a) == SubOf(s, s.workl[i])
  {
    hide Apply, Enabled;
    HeldIsHead(s, a);
  }

  // ---------------------------------------------------------------- the message queue

  /** The submissions whose messages are queued, in the order of the queue. */
  function Messages(s: State, l: seq<nat>): seq<nat> {
    seq(|l|, i requires 0 <= i < |l| => SubOf(s, l[i]))
  }

  /** The message that a step puts into the queue: that of the submission the worker holds. */
  function Pushed(s: State, st: Step): seq<nat> {
    if st.Push? then [HeldBy(s, st.a)] else []
  }

  /** The message that a step takes out: that of the submission the main loop holds afterwards. */
  function Popped(s': State, st: Step): seq<nat> {
    if st.Pop? then [HeldBy(s', 0)] else []
  }

  function AllPushed(s: State, steps: seq<Step>, i: nat): seq<nat>
    requires i <= |steps|
    decreases |steps| - i
  {
    if i == |steps| || !Enabled(s, steps[i]) then []
    else Pushed(s, steps[i]) + AllPushed(Apply(s, steps[i]), steps, i + 1)
  }

  function AllPopped(s: State, steps: seq<Step>, i: nat): seq<nat>
    requires i <= |steps|
    decreases |steps| - i
  {
    if i == |steps| || !Enabled(s, steps[i]) then []
    else Popped(Apply(s, steps[i]), steps[i]) + AllPopped(Apply(s, steps[i]), steps, i + 1)
  }

  lemma {:induction false} QueueStep(s: State, st: Step)
    requires Inv(s) && Enabled(s, st)
    ensures var s' := Apply(s, st); Messages(s, s.queue) + Pushed(s, st) == Popped(s', st) + Messages(s', s'.queue)
  {
    hide Inv, Enabled, Apply, SubOf;
    var s' := Apply(s, st);
    AliveStep(s, st);
    forall i | 0 <= i < |s.queue|
      ensures SubOf(s', s.queue[i]) == SubOf(s, s.queue[i])
    {
      assert s.queue[i] in s.queue;
      Listed(s, s.queue[i]);
      SubsStay(s, st, s.queue[i]);
    }
    QueueMoved(s, st);
    if st.Pop? {
      assert Messages(s, s.queue) == [SubOf(s, s.queue[0])] + Messages(s', s.queue[1..]);
    } else if st.Push? {
      assert Messages(s', s'.queue) == Messages(s, s.queue) + [HeldBy(s, st.a)];
    } else {
      assert Messages(s', s'.queue) == Messages(s, s.queue);
    }
  }

  lemma {:induction false} QueueMoved(s: State, st: Step)
    requires Inv(s) && Enabled(s, st)
    ensures var s' := Apply(s, st);
            && (st.Pop? ==> s.queue != [] && s'.queue == s.queue[1..] && HeldBy(s', 0) == SubOf(s, s.queue[0]))
            && (st.Push? ==> exists x: nat :: s'.queue == s.queue + [x] && SubOf(s', x) == HeldBy(s, st.a))
            && (!st.Pop? && !st.Push? ==> s'.queue == s.queue)
  {
    hide Inv;
    if st.Pop? {
      RemoveHead(s.queue);
    } else if st.Push? {
      var x := s.actors[st.a].x;
      assert Apply(s, st).queue == s.queue + [x];
    }
  }

  lemma {:induction false} QueueRun(s: State, steps: seq<Step>, i: nat, s': State)
    requires i <= |steps| && Inv(s) && Runs(s, steps, i, s')
    ensures Messages(s, s.queue) + AllPushed(s, steps, i) == AllPopped(s, steps, i) + Messages(s', s'.queue)
    decreases |steps| - i
  {
    hide Inv, Enabled, Apply, Messages, Pushed, Popped;
    if i < |steps| {
      var st, s1 := steps[i], Apply(s, steps[i]);
      StepKeeps(s, st);
      QueueStep(s, st);
      QueueRun(s1, steps, i + 1, s');
      Shuffle(Messages(s, s.queue), Pushed(s, st), AllPushed(s1, steps, i + 1), Popped(s1, st), Messages(s1, s1.queue),
              AllPopped(s1, steps, i + 1), Messages(s', s'.queue));
    }
  }

  lemma {:induction false} Shuffle(q: seq<nat>, p: seq<nat>, ps: seq<nat>, o: seq<nat>, q1: seq<nat>, os: seq<nat>, q2: seq<nat>)
    requires q + p == o + q1 && q1 + ps == os + q2
    ensures q + (p + ps) == o + os + q2
  {
    assert q + (p + ps) == q + p + ps;
    assert o + q1 + ps == o + (q1 + ps);
    assert o + (os + q2) == o + os + q2;
  }

  /** In every run, the messages taken out are the first of those put in, in that order, and the others are queued. */
  lemma {:induction false} MessagesInOrder(workers: nat, steps: seq<Step>, s: State)
    requires Runs(Init(workers), steps, 0, s)
    ensures AllPushed(Init(workers), steps, 0) == AllPopped(Init(workers), steps, 0) + Messages(s, s.queue)
  {
    hide Inv, Runs, AllPushed, AllPopped;
    InitOk(workers);
    QueueRun(Init(workers), steps, 0, s);
    assert Messages(Init(workers), []) == [];
    assert [] + AllPushed(Init(workers), steps, 0) == AllPushed(Init(workers), steps, 0);
  }
}
