/** The BFCP client transactions (section 8.3.1 of RFC 8855): one request in flight, the others queued. */
module BfcpClient {
  import opened Bytes

  const T1 := 500
  const TXC := 4

  /** A queued request; arg stands for its handler: the number of the request among all that were made. */
  datatype Trans = Trans(arg: nat, tid: u16, confid: u32, userid: u16)

  /** A request that a response handler makes, and whether its message can be encoded. */
  datatype New = New(confid: u32, userid: u16, encode: Errno)

  /** How many of the requests can be encoded. */
  function Encodable(more: seq<New>): (n: nat)
    ensures n <= |more|
  {
    if more == [] then 0 else Encodable(more[..|more| - 1]) + if more[|more| - 1].encode == OK then 1 else 0
  }

  /** The transaction id that a request gets, and the counter behind it: zero is left out. */
  function FirstTid(tid: u16): (t: u16)
    ensures t >= 1
  {
    if tid == 0 then 1 else tid
  }

  function TidAfter(n: nat, tid: u16): u16 {
    if n == 0 then tid else (FirstTid(TidAfter(n - 1, tid)) as int + 1) % 0x1_0000
  }

  lemma {:induction false} TidAgain(a: nat, b: nat, tid: u16)
    ensures TidAfter(a + b, tid) == TidAfter(b, TidAfter(a, tid))
    decreases b
  {
    if b > 0 {
      TidAgain(a, b - 1, tid);
    }
  }

  /** The ids run from the counter up to 65535 and go on at 1: no two of 65535 requests in a row have the same. */
  lemma {:induction false} TidIs(i: nat, tid: u16)
    ensures FirstTid(TidAfter(i, tid)) as int == (if tid == 0 then i else tid as int - 1 + i) % 0xffff + 1
  {
    if i > 0 {
      TidIs(i - 1, tid);
      TurnsOver(if tid == 0 then i - 1 else tid as int - 2 + i);
    }
  }

  lemma {:induction false} TurnsOver(k: nat)
    ensures (k + 1) % 0xffff == if k % 0xffff == 0xfffe then 0 else k % 0xffff + 1
  {
    var q, r := k / 0xffff, k % 0xffff;
    assert k + 1 == if r == 0xfffe then (q + 1) * 0xffff else q * 0xffff + (r + 1);
  }

  /** What a handler's requests become if the first has number n: those that can be encoded. */
  function Requested(more: seq<New>, n: nat, tid: u16): (r: seq<Trans>)
    ensures |r| == Encodable(more)
  {
    if more == [] then []
    else
      var k := |more| - 1;
      Requested(more[..k], n, tid)
      + if more[k].encode == OK then [Trans(n + k, FirstTid(TidAfter(k, tid)), more[k].confid, more[k].userid)] else []
  }

  /** Each of them is queued once, in order, with its own number and ids. */
  lemma {:induction false} RequestedAt(more: seq<New>, n: nat, tid: u16, i: nat)
    requires i < |more|
    ensures var ct := Trans(n + i, FirstTid(TidAfter(i, tid)), more[i].confid, more[i].userid); var k := Encodable(more[..i]);
            if more[i].encode == OK then k < Encodable(more) && Requested(more, n, tid)[k] == ct else ct !in Requested(more, n, tid)
    decreases |more|
  {
    var last := |more| - 1;
    if i < last {
      RequestedAt(more[..last], n, tid, i);
      assert more[..last][..i] == more[..i];
    } else {
      RequestedBelow(more[..last], n, tid);
    }
  }

  lemma {:induction false} RequestedBelow(more: seq<New>, n: nat, tid: u16)
    ensures forall ct :: ct in Requested(more, n, tid) ==> n <= ct.arg < n + |more|
    decreases |more|
  {
    if more != [] {
      RequestedBelow(more[..|more| - 1], n, tid);
    }
  }

  /** One sending by dispatch: what the transport says, and what the handler requests if that is an error. */
  datatype Try = Try(err: Errno, more: seq<New>)

  /** A response handler call: for which request, with what error, and when. */
  datatype Done = Done(ct: Trans, err: Errno, at: nat)

  /** Milliseconds between the first sending and the timer behind the n-th. */
  function Wait(n: nat): nat {
    if n == 0 then 0 else 2 * Wait(n - 1) + T1
  }

  /** The timer behind the fourth sending runs out 7500 ms after the first. */
  lemma {:induction false} WaitTimes()
    ensures Wait(1) == 500 && Wait(2) == 1500 && Wait(3) == 3500 && Wait(4) == 7500
  {
    assert Wait(1) == 500;
    assert Wait(2) == 1500;
    assert Wait(3) == 3500;
  }

  /** T1 shifted left by txc, the time until the next timer. */
  function Shifted(txc: nat): nat {
    if txc == 0 then T1 else 2 * Shifted(txc - 1)
  }

  lemma {:induction false} WaitGrows(txc: nat)
    ensures Wait(txc + 1) == Wait(txc) + Shifted(txc)
    decreases txc
  {
    if txc > 0 {
      WaitGrows(txc - 1);
    }
  }

  function Requests(done: seq<Done>): (r: seq<Trans>)
    ensures |r| == |done|
  {
    seq(|done|, i requires 0 <= i < |done| => done[i].ct)
  }

  lemma {:induction false} RequestsMore(done: seq<Done>, d: Done)
    ensures Requests(done + [d]) == Requests(done) + [d.ct]
  {}

  /** The client: the queue, the retransmit timer and its counter, and what happened so far. */
  datatype State = State(
    queue: seq<Trans>, txc: nat, tid: u16,
    timer: Option<nat>,        // when the retransmit timer fires, if it runs
    now: nat,
    accepted: seq<Trans>,      // requests that were queued, in order
    done: seq<Done>,           // handler calls, in order
    sends: seq<nat>,           // how often each request was sent
    first: seq<nat>)           // when each request was first sent

  /** Requests are numbered by their arguments. */
  ghost predicate Numbered(accepted: seq<Trans>, n: nat) {
    && (forall i {:trigger accepted[i]} :: 0 <= i < |accepted| ==> accepted[i].arg < n && 1 <= accepted[i].tid)
    && (forall i, j {:trigger accepted[i], accepted[j]} :: 0 <= i < j < |accepted| ==> accepted[i].arg < accepted[j].arg)
  }

  ghost predicate SendsOk(sends: seq<nat>) {
    forall i {:trigger sends[i]} :: 0 <= i < |sends| ==> sends[i] <= TXC
  }

  /** A request that timed out was sent four times and given up 7500 ms after the first. */
  ghost predicate TimedOut(d: Done, sends: seq<nat>, first: seq<nat>) {
    d.ct.arg < |sends| == |first| && sends[d.ct.arg] == TXC && d.at == first[d.ct.arg] + 7500
  }

  ghost predicate TimeoutsOk(done: seq<Done>, sends: seq<nat>, first: seq<nat>) {
    forall i {:trigger done[i]} :: 0 <= i < |done| && done[i].err == ETIMEDOUT ==> TimedOut(done[i], sends, first)
  }

  /** Handler calls from the k-th on are for requests that could not be sent. */
  ghost predicate Failures(done: seq<Done>, k: nat) {
    forall i {:trigger done[i]} :: k <= i < |done| ==> done[i].err != OK && done[i].err != ETIMEDOUT
  }

  /** Of the queue, nothing from the k-th on was sent. */
  ghost predicate Unsent(queue: seq<Trans>, sends: seq<nat>, k: nat) {
    forall i {:trigger queue[i]} :: k <= i < |queue| && queue[i].arg < |sends| ==> sends[queue[i].arg] == 0
  }

  /** Every accepted request is done, once and in order, or queued. */
  ghost predicate Books(queue: seq<Trans>, accepted: seq<Trans>, done: seq<Done>, sends: seq<nat>, first: seq<nat>) {
    && accepted == Requests(done) + queue && |first| == |sends|
    && Numbered(accepted, |sends|) && SendsOk(sends) && TimeoutsOk(done, sends, first)
  }

  /** The head was sent txc times, and the timer is the one behind its last sending. */
  ghost predicate InFlight(s: State) {
    && s.queue != [] && 1 <= s.txc <= TXC && s.queue[0].arg < |s.sends| == |s.first| && s.sends[s.queue[0].arg] == s.txc
    && s.timer == Some(s.first[s.queue[0].arg] + Wait(s.txc)) && s.now <= s.timer.value
  }

  /** The books are in order, and nothing of the queue from the k-th on was sent. */
  ghost predicate Kept(s: State, k: nat) {
    Books(s.queue, s.accepted, s.done, s.sends, s.first) && Unsent(s.queue, s.sends, k)
  }

  /** The timer runs exactly when the queue is not empty, and only its head is in flight. */
  ghost predicate Inv(s: State) {
    Kept(s, 1) && if s.queue == [] then s.timer.None? else InFlight(s)
  }

  /** Between two requests: nothing in flight, nothing of the queue sent. */
  ghost predicate Between(s: State) {
    Kept(s, 0) && s.timer.None?
  }

  /** Requests are queued, but none of them was sent and no timer will send them. */
  ghost predicate Stalled(s: State) {
    Between(s) && s.queue != []
  }

  /** The states a client can be in. */
  ghost predicate Sound(s: State) {
    Inv(s) || Stalled(s)
  }

  /**
   * Whether dispatch leaves a queue of n requests stalled: the one that was last when its sending
   * failed has a handler that makes a request which can be encoded. The successor is looked up before the handler is called.
   * Sendings behind the listed ones succeed.
   */
  predicate Stalls(n: nat, tries: seq<Try>)
    decreases |tries|
  {
    n > 0 && tries != [] && tries[0].err != OK
    && if n == 1 then Encodable(tries[0].more) > 0 else Stalls(n - 1 + Encodable(tries[0].more), tries[1..])
  }

  /** Timeouts are the client's own errors, not the transport's. */
  ghost predicate Plain(tries: seq<Try>) {
    forall i {:trigger tries[i]} :: 0 <= i < |tries| ==> tries[i].err != ETIMEDOUT
  }

  /** How many failed sendings dispatch uses up on a queue of n requests. */
  function Used(n: nat, tries: seq<Try>): (k: nat)
    ensures k <= |tries|
    decreases |tries|
  {
    if n == 0 || tries == [] || tries[0].err == OK then 0
    else if n == 1 then 1 else 1 + Used(n - 1 + Encodable(tries[0].more), tries[1..])
  }

  /** Requests made by the handlers of the first k failures. */
  function MadeBy(tries: seq<Try>, k: nat): nat
    requires k <= |tries|
  {
    if k == 0 then 0 else MadeBy(tries, k - 1) + |tries[k - 1].more|
  }

  /** What they become, if the first has number n. */
  function AllRequested(tries: seq<Try>, k: nat, n: nat, tid: u16): seq<Trans>
    requires k <= |tries|
  {
    if k == 0 then []
    else
      var m := MadeBy(tries, k - 1);
      AllRequested(tries, k - 1, n, tid) + Requested(tries[k - 1].more, n + m, TidAfter(m, tid))
  }

  /** The first k sendings failed, each on a queue that was not empty, and the next one does not happen or succeeds. */
  lemma {:induction false} UsedIs(n: nat, tries: seq<Try>)
    ensures var k := Used(n, tries);
            && (forall i {:trigger tries[i]} :: 0 <= i < k ==> tries[i].err != OK)
            && (forall i {:trigger Length(n, tries, i)} :: 0 <= i < k ==> Length(n, tries, i) >= 1)
            && (k == |tries| || tries[k].err == OK || Length(n, tries, k) == 0 || (k > 0 && Length(n, tries, k - 1) == 1))
    decreases |tries|
  {
    hide Encodable;
    if n > 1 && tries != [] && tries[0].err != OK {
      var n', rest := n - 1 + Encodable(tries[0].more), tries[1..];
      UsedIs(n', rest);
      UsedLater(n, tries);
    }
  }

  lemma {:induction false} UsedLater(n: nat, tries: seq<Try>)
    requires n > 1 && tries != [] && tries[0].err != OK
    requires var n', rest := n - 1 + Encodable(tries[0].more), tries[1..]; var k := Used(n', rest);
             && (forall i {:trigger rest[i]} :: 0 <= i < k ==> rest[i].err != OK)
             && (forall i {:trigger Length(n', rest, i)} :: 0 <= i < k ==> Length(n', rest, i) >= 1)
             && (k == |rest| || rest[k].err == OK || Length(n', rest, k) == 0 || (k > 0 && Length(n', rest, k - 1) == 1))
    ensures var k := Used(n, tries);
            && (forall i {:trigger tries[i]} :: 0 <= i < k ==> tries[i].err != OK)
            && (forall i {:trigger Length(n, tries, i)} :: 0 <= i < k ==> Length(n, tries, i) >= 1)
            && (k == |tries| || tries[k].err == OK || Length(n, tries, k) == 0 || (k > 0 && Length(n, tries, k - 1) == 1))
  {
    hide Encodable, Length;
    var n', rest := n - 1 + Encodable(tries[0].more), tries[1..];
    var k := Used(n', rest);
    assert Used(n, tries) == k + 1;
    LengthZero(n, tries);
    forall i | 0 <= i <= k
      ensures tries[i].err != OK && Length(n, tries, i) >= 1
    {
      if i > 0 {
        LengthLater(n, tries, i - 1);
        assert tries[i] == rest[i - 1];
        assert Length(n', rest, i - 1) >= 1;
      }
    }
    LengthLater(n, tries, k);
    if k > 0 {
      LengthLater(n, tries, k - 1);
    }
  }

  lemma {:induction false} LengthZero(n: int, tries: seq<Try>)
    ensures Length(n, tries, 0) == n
  {}

  /** Handlers that make no requests never stall the client. */
  lemma {:induction false} QuietNeverStalls(n: nat, tries: seq<Try>)
    requires forall i {:trigger tries[i]} :: 0 <= i < |tries| && tries[i].err != OK ==> tries[i].more == []
    ensures !Stalls(n, tries)
    decreases |tries|
  {
    if n > 1 && tries != [] && tries[0].err != OK {
      assert tries[0].more == [];
      QuietNeverStalls(n - 1, tries[1..]);
    }
  }

  /** Queue length after the first k sendings failed. */
  function Length(n: int, tries: seq<Try>, k: nat): int
    requires k <= |tries|
  {
    if k == 0 then n else Length(n, tries, k - 1) - 1 + Encodable(tries[k - 1].more)
  }

  /** Sendings 0 to k all failed, the k-th and no earlier one on the last request, whose handler made others. */
  ghost predicate StallsAt(n: int, tries: seq<Try>, k: nat) {
    && k < |tries| && Length(n, tries, k) == 1 && Encodable(tries[k].more) > 0
    && (forall i {:trigger tries[i]} :: 0 <= i <= k ==> tries[i].err != OK)
    && (forall i {:trigger Length(n, tries, i)} :: 0 <= i < k ==> Length(n, tries, i) > 1)
  }

  lemma {:induction false} LengthLater(n: int, tries: seq<Try>, k: nat)
    requires k < |tries|
    ensures Length(n, tries, k + 1) == Length(n - 1 + Encodable(tries[0].more), tries[1..], k)
  {
    if k > 0 {
      LengthLater(n, tries, k - 1);
    }
  }

  lemma {:induction false} StallsLater(n: nat, tries: seq<Try>, k: nat)
    requires tries != []
    ensures StallsAt(n, tries, k + 1) <==> tries[0].err != OK && n > 1 && StallsAt(n - 1 + Encodable(tries[0].more), tries[1..], k)
  {
    hide Length, Encodable;
    LengthZero(n, tries);
    var n', rest := n - 1 + Encodable(tries[0].more), tries[1..];
    forall i: nat | i < |rest|
      ensures tries[i + 1] == rest[i] && Length(n, tries, i + 1) == Length(n', rest, i)
    {
      LengthLater(n, tries, i);
    }
    if StallsAt(n, tries, k + 1) {
      forall i | 0 <= i <= k
        ensures rest[i].err != OK
      {
        assert rest[i] == tries[i + 1];
      }
      forall i | 0 <= i < k
        ensures Length(n', rest, i) > 1
      {
        LengthLater(n, tries, i);
        assert Length(n, tries, i + 1) > 1;
      }
    }
    if tries[0].err != OK && n > 1 && StallsAt(n', rest, k) {
      forall i | 0 <= i <= k + 1
        ensures tries[i].err != OK
      {
        if i > 0 {
          assert tries[i] == rest[i - 1];
        }
      }
      forall i | 0 <= i < k + 1
        ensures Length(n, tries, i) > 1
      {
        if i > 0 {
          LengthLater(n, tries, i - 1);
        }
      }
    }
  }

  /** The client stalls exactly if every sending failed until one request was left, and its handler made others. */
  lemma {:induction false} StallsIff(n: nat, tries: seq<Try>)
    ensures Stalls(n, tries) <==> exists k: nat :: StallsAt(n, tries, k)
    decreases |tries|
  {
    if tries != [] {
      var n', rest := n - 1 + Encodable(tries[0].more), tries[1..];
      if n > 1 {
        StallsIff(n', rest);
      }
      if Stalls(n, tries) {
        if n == 1 {
          assert StallsAt(n, tries, 0);
        } else {
          var k: nat :| StallsAt(n', rest, k);
          StallsLater(n, tries, k);
        }
      }
      if k: nat :| StallsAt(n, tries, k) {
        if k > 0 {
          StallsLater(n, tries, k - 1);
        }
      }
    }
  }

  /**
   * From a queue none of which was sent to what dispatch leaves: the i-th handler call is for the i-th
   * request, those made on the way included, with the i-th error; the next one, if any, is in flight,
   * sent once, unless the client stalls.
   */
  ghost predicate Dispatched(s: State, s': State, tries: seq<Try>) {
    var k := Used(|s.queue|, tries);
    && SoFar(s, s', tries, k)
    && (s'.queue != [] && !Stalls(|s.queue|, tries) ==> InFlight(s') && s'.txc == 1 && s'.timer == Some(s.now + T1))
    && (s'.timer.Some? <==> s'.queue != [] && !Stalls(|s.queue|, tries))
  }

  /** The same after k failures. */
  ghost predicate SoFar(s: State, s': State, tries: seq<Try>, k: nat) {
    && k <= |tries| && s'.now == s.now && s'.accepted == s.accepted + AllRequested(tries, k, |s.sends|, s.tid)
    && |s'.sends| == |s.sends| + MadeBy(tries, k) && s'.tid == TidAfter(MadeBy(tries, k), s.tid)
    && |s'.done| == |s.done| + k <= |s'.accepted| && s'.queue == s'.accepted[|s'.done|..] && s.done <= s'.done
    && (forall i {:trigger tries[i]} :: 0 <= i < k ==>
          s'.done[|s.done| + i] == Done(s'.accepted[|s.done| + i], tries[i].err, s.now))
  }

  /** The head is reported, its handler's requests are queued, and the rest is dispatched. */
  ghost predicate Finished(s: State, s': State, err: Errno, more: seq<New>, tries: seq<Try>) {
    && s.queue != []
    && exists mid :: Concluded(s, mid, err, more) && Dispatched(mid, s', tries)
  }

  ghost predicate Concluded(s: State, s': State, err: Errno, more: seq<New>) {
    && s.queue != [] && s'.now == s.now && s'.timer.None? && s'.done == s.done + [Done(s.queue[0], err, s.now)]
    && s'.queue == s.queue[1..] + Requested(more, |s.sends|, s.tid)
    && s'.accepted == s.accepted + Requested(more, |s.sends|, s.tid)
    && |s'.sends| == |s.sends| + |more| && s'.tid == TidAfter(|more|, s.tid)
  }

  lemma {:induction false} SoFarNone(s: State, s': State, tries: seq<Try>)
    requires Kept(s, 0) && s' == s
    ensures SoFar(s, s', tries, 0)
  {
    assert s.accepted + [] == s.accepted;
    assert s.accepted[|s.done|..] == s.queue;
  }

  /** One failure more. */
  lemma {:induction false} SoFarMore(s: State, mid: State, s': State, tries: seq<Try>, k: nat)
    requires SoFar(s, mid, tries, k) && k < |tries| && Concluded(mid, s', tries[k].err, tries[k].more)
    ensures SoFar(s, s', tries, k + 1)
  {
    hide Requested, TidAfter, FirstTid, Encodable;
    var m := MadeBy(tries, k);
    var r := Requested(tries[k].more, |s.sends| + m, TidAfter(m, s.tid));
    TidAgain(m, |tries[k].more|, s.tid);
    Assoc(s.accepted, AllRequested(tries, k, |s.sends|, s.tid), r);
    RestOf(mid.accepted, r, |mid.done|);
    forall i | 0 <= i < k + 1
      ensures s'.done[|s.done| + i] == Done(s'.accepted[|s.done| + i], tries[i].err, s.now)
    {
      if i < k {
        assert s'.done[|s.done| + i] == mid.done[|s.done| + i];
      }
    }
  }

  lemma {:induction false} Assoc(a: seq<Trans>, b: seq<Trans>, c: seq<Trans>)
    ensures a + b + c == a + (b + c)
  {}

  lemma {:induction false} RestOf(all: seq<Trans>, r: seq<Trans>, d: nat)
    requires d <= |all|
    ensures all[d..] != [] ==> d < |all| && all[d..][0] == all[d] && (all + r)[d + 1..] == all[d..][1..] + r
  {
    if d < |all| {
      assert all[d..][1..] == all[d + 1..];
    }
  }

  // ---------------------------------------------------------------- steps

  /** One more sending of the head. */
  function SendHead(s: State): State
    requires s.queue != [] && s.queue[0].arg < |s.sends| == |s.first|
  {
    var x := s.queue[0].arg;
    s.(sends := s.sends[x := s.sends[x] + 1], first := if s.sends[x] == 0 then s.first[x := s.now] else s.first)
  }

  lemma {:induction false} SendHeadOf(s: State, txc: nat)
    requires s.queue != [] && s.queue[0].arg < |s.sends| == |s.first|
    ensures SendHead(s.(timer := None, txc := txc)) == SendHead(s).(timer := None, txc := txc)
    ensures SendHead(s).now == s.now && SendHead(s).queue == s.queue && SendHead(s).accepted == s.accepted && SendHead(s).done == s.done
  {}

  /** The timer has fired: one more sending unless there were four. */
  function Fired(s: State): State
    requires s.queue != [] && s.queue[0].arg < |s.sends| == |s.first|
  {
    (if s.txc < TXC then SendHead(s) else s).(timer := None, txc := s.txc + 1)
  }

  /** The head is reported and leaves the queue. */
  function PopHead(s: State, err: Errno): State
    requires s.queue != []
  {
    s.(done := s.done + [Done(s.queue[0], err, s.now)], queue := s.queue[1..])
  }

  /** A request at the end of the queue. */
  function PushTail(s: State, ct: Trans): State {
    s.(queue := s.queue + [ct], accepted := s.accepted + [ct], sends := s.sends + [0], first := s.first + [0])
  }

  /** The number of accepted requests in front of the queue. */
  lemma {:induction false} QueueAt(s: State, k: nat, i: nat)
    requires Kept(s, k) && i < |s.queue|
    ensures |s.done| + i < |s.accepted| && s.accepted[|s.done| + i] == s.queue[i]
    ensures s.queue[i].arg < |s.sends| == |s.first|
  {
    hide SendsOk, TimeoutsOk, Unsent;
  }

  lemma {:induction false} DoneAt(s: State, k: nat, i: nat)
    requires Kept(s, k) && i < |s.done|
    ensures i < |s.accepted| && s.accepted[i] == s.done[i].ct
  {
    hide SendsOk, TimeoutsOk, Numbered, Unsent;
  }

  lemma {:induction false} SendKeeps(s: State)
    requires Kept(s, 1) && s.queue != [] && s.queue[0].arg < |s.sends| == |s.first| && s.sends[s.queue[0].arg] < TXC
    ensures Kept(SendHead(s), 1)
  {
    QueueAt(s, 1, 0);
    var s' := SendHead(s);
    forall i | 0 <= i < |s'.done| && s'.done[i].err == ETIMEDOUT
      ensures TimedOut(s'.done[i], s'.sends, s'.first)
    {
      DoneAt(s, 1, i);
    }
    forall i | 1 <= i < |s'.queue| && s'.queue[i].arg < |s'.sends|
      ensures s'.sends[s'.queue[i].arg] == 0
    {
      QueueAt(s, 1, i);
    }
  }

  lemma {:induction false} PopKeeps(s: State, err: Errno)
    requires Kept(s, 1) && s.queue != []
    requires err == ETIMEDOUT ==> TimedOut(Done(s.queue[0], err, s.now), s.sends, s.first)
    ensures Kept(PopHead(s, err), 0)
  {
    hide SendsOk, Numbered;
    var s' := PopHead(s, err);
    RequestsMore(s.done, Done(s.queue[0], err, s.now));
    assert Requests(s.done) + s.queue == Requests(s.done) + [s.queue[0]] + s.queue[1..];
    forall i | 0 <= i < |s'.done| && s'.done[i].err == ETIMEDOUT
      ensures TimedOut(s'.done[i], s'.sends, s'.first)
    {
      if i < |s.done| {
        assert s'.done[i] == s.done[i];
        assert TimedOut(s.done[i], s.sends, s.first);
      }
    }
    forall i | 0 <= i < |s'.queue| && s'.queue[i].arg < |s'.sends|
      ensures s'.sends[s'.queue[i].arg] == 0
    {
      assert s'.queue[i] == s.queue[i + 1];
    }
  }

  lemma {:induction false} PushKeeps(s: State, ct: Trans, k: nat)
    requires Kept(s, k) && ct.arg == |s.sends| && ct.tid >= 1
    ensures Kept(PushTail(s, ct), k)
  {
    var s' := PushTail(s, ct);
    assert Requests(s.done) + (s.queue + [ct]) == Requests(s.done) + s.queue + [ct];
    forall i | 0 <= i < |s'.done| && s'.done[i].err == ETIMEDOUT
      ensures TimedOut(s'.done[i], s'.sends, s'.first)
    {
      assert TimedOut(s.done[i], s.sends, s.first);
    }
    forall i | k <= i < |s'.queue| && s'.queue[i].arg < |s'.sends|
      ensures s'.sends[s'.queue[i].arg] == 0
    {
      if i < |s.queue| {
        QueueAt(s, k, i);
      }
    }
  }

  /**
   * In every state the client can be in: the i-th handler call is for the i-th accepted request, no
   * request is reported twice, a queued one not yet, and none was sent more than four times.
   */
  lemma {:induction false} ReportedOnce(s: State, i: nat, j: nat)
    requires Sound(s) && i < j < |s.accepted|
    ensures |s.done| + |s.queue| == |s.accepted|
    ensures if i < |s.done| then s.done[i].ct == s.accepted[i] else s.queue[i - |s.done|] == s.accepted[i]
    ensures s.accepted[i].arg < s.accepted[j].arg < |s.sends| && s.sends[s.accepted[i].arg] <= TXC && s.sends[s.accepted[j].arg] <= TXC
    ensures j > |s.done| ==> s.sends[s.accepted[j].arg] == 0
  {
    assert Kept(s, 1);
    if i < |s.done| {
      DoneAt(s, 1, i);
    }
    if j > |s.done| {
      QueueAt(s, 1, j - |s.done|);
    }
  }

  // ---------------------------------------------------------------- the client object

  class Client {
    var queue: seq<Trans>
    var txc: nat
    var tid: u16
    var timer: Option<nat>
    var now: nat
    ghost var accepted: seq<Trans>
    ghost var done: seq<Done>
    var sends: seq<nat>
    ghost var first: seq<nat>

    ghost function View(): State
      reads this
    {
      State(queue, txc, tid, timer, now, accepted, done, sends, first)
    }

    constructor ()
      ensures Inv(View()) && queue == [] && tid == 0 && accepted == [] && done == []
    {
      queue, txc, tid, timer, now := [], 0, 0, None, 0;
      accepted, done, sends, first := [], [], [], [];
    }

    /** Time passes, but not past the timer. */
    method Advance(t: nat)
      requires Sound(View()) && now <= t && (timer.Some? ==> t <= timer.value)
      modifies `now
      ensures Sound(View()) && View() == old(View()).(now := t)
    {
      now := t;
    }

    /** bfcp_send. */
    method Send()
      requires queue != [] && queue[0].arg < |sends| == |first|
      modifies `sends, `first
      ensures View() == SendHead(old(View()))
    {
      var x := queue[0].arg;
      first := if sends[x] == 0 then first[x := now] else first;
      sends := sends[x := sends[x] + 1];
    }

    /** The response handler of the head is called, and the head leaves the queue. */
    method Report(err: Errno)
      requires queue != []
      modifies `queue, `done
      ensures View() == PopHead(old(View()), err)
    {
      done := done + [Done(queue[0], err, now)];
      queue := queue[1..];
    }

    /** The next transaction id, which is never zero. */
    method NextTrans(confid: u32, userid: u16) returns (ct: Trans)
      modifies `tid
      ensures ct == Trans(|sends|, if old(tid) == 0 then 1 else old(tid), confid, userid)
      ensures tid == TidAfter(1, old(tid))
    {
      assert TidAfter(0, tid) == tid;
      if tid == 0 {
        tid := 1;
      }
      ct := Trans(|sends|, tid, confid, userid);
      tid := (tid as int + 1) % 0x1_0000;
    }

    /**
     * A response handler makes requests while its own is still at the head: they are queued, but for those
     * that cannot be encoded, which only use up a transaction id.
     */
    method Handler(more: seq<New>)
      requires Kept(View(), 1) && queue != []
      modifies `queue, `accepted, `sends, `first, `tid
      ensures Kept(View(), 1) && queue == old(queue) + Requested(more, |old(sends)|, old(tid))
      ensures accepted == old(accepted) + Requested(more, |old(sends)|, old(tid)) && tid == TidAfter(|more|, old(tid))
      ensures old(sends) <= sends && old(first) <= first
      ensures |sends| == |old(sends)| + |more| && |first| == |old(first)| + |more|
    {
      hide Books, Unsent, Requested;
      var i := 0;
      NoneRequested(|sends|, tid);
      assert more[..0] == [] && queue + [] == queue && accepted + [] == accepted;
      while i < |more|
        invariant i <= |more| && Kept(View(), 1) && queue == old(queue) + Requested(more[..i], |old(sends)|, old(tid))
        invariant accepted == old(accepted) + Requested(more[..i], |old(sends)|, old(tid)) && tid == TidAfter(i, old(tid))
        invariant old(sends) <= sends && old(first) <= first
        invariant |sends| == |old(sends)| + i && |first| == |old(first)| + i
      {
        OneRequested(more, i, |old(sends)|, old(tid));
        ghost var r := Requested(more[..i], |old(sends)|, old(tid));
        ghost var one := OneOf(more[i], |old(sends)| + i, TidAfter(i, old(tid)));
        TidAgain(i, 1, old(tid));
        HandlerRequest(more[i]);
        assert old(queue) + r + one == old(queue) + (r + one) && old(accepted) + r + one == old(accepted) + (r + one);
        i := i + 1;
      }
      assert more[..i] == more;
    }

    /** One of them. */
    method HandlerRequest(m: New)
      requires Kept(View(), 1)
      modifies `queue, `accepted, `sends, `first, `tid
      ensures Kept(View(), 1) && tid == TidAfter(1, old(tid))
      ensures queue == old(queue) + OneOf(m, |old(sends)|, old(tid)) && accepted == old(accepted) + OneOf(m, |old(sends)|, old(tid))
      ensures old(sends) <= sends && old(first) <= first && |sends| == |old(sends)| + 1 && |first| == |old(first)| + 1
    {
      hide Books, Unsent;
      var ct := NextTrans(m.confid, m.userid);
      if m.encode == OK {
        PushKeeps(View(), ct, 1);
        queue, accepted := queue + [ct], accepted + [ct];
        sends, first := sends + [0], first + [0];
      } else {
        RefusedKept(View(), 0, 1);
        assert queue + [] == queue && accepted + [] == accepted;
        sends, first := sends + [0], first + [now];
      }
    }

    /** The head's response handler is called, with what it requests, and the head leaves the queue. */
    method Conclude(err: Errno, more: seq<New>)
      requires Kept(View(), 1) && queue != [] && timer.None?
      requires err == ETIMEDOUT ==> TimedOut(Done(queue[0], err, now), sends, first)
      modifies `queue, `accepted, `sends, `first, `tid, `done
      ensures Between(View()) && |queue| == |old(queue)| - 1 + Encodable(more) && Concluded(old(View()), View(), err, more)
    {
      hide Books, Unsent, Requested, Encodable;
      Handler(more);
      PopKeeps(View(), err);
      Report(err);
      assert queue == old(queue)[1..] + Requested(more, |old(sends)|, old(tid));
    }

    /** The first sending of the head. */
    method SendQueued()
      requires Between(View()) && queue != []
      modifies `sends, `first
      ensures Kept(View(), 1) && queue[0].arg < |sends| == |first| && |sends| == |old(sends)|
      ensures sends[queue[0].arg] == 1 && first[queue[0].arg] == now
    {
      hide Books, Unsent;
      HeadUnsent(View());
      SendKeeps(View());
      Send();
    }

    /** One turn of dispatch: the head goes out, or it is reported. */
    method Attempt(t: Try)
      requires Between(View()) && queue != [] && t.err != ETIMEDOUT
      modifies this
      ensures t.err == OK ==>
        && Inv(View()) && InFlight(View()) && txc == 1 && timer == Some(now + T1)
        && View() == old(View()).(timer := timer, txc := txc, sends := sends, first := first) && |sends| == |old(sends)|
      ensures t.err != OK ==>
        Between(View()) && |queue| == |old(queue)| - 1 + Encodable(t.more) && Concluded(old(View()), View(), t.err, t.more)
    {
      hide Books, Unsent, Requested, Encodable;
      SendQueued();
      if t.err == OK {
        timer, txc := Some(now + T1), 1;
        StartsFlight(View());
      } else {
        Conclude(t.err, t.more);
      }
    }

    /**
     * dispatch: the first request of the queue that can be sent goes out; those before it are reported,
     * each with the error of its own sending. It leaves the client stalled exactly if Stalls says so.
     */
    method Dispatch(tries: seq<Try>)
      requires Between(View()) && Plain(tries)
      modifies this
      ensures Sound(View()) && Dispatched(old(View()), View(), tries)
      ensures Stalled(View()) <==> Stalls(|old(queue)|, tries)
    {
      hide Kept, InFlight, Stalls, Used, SoFar, Encodable, Concluded;
      var n, le := 0, queue != [];
      assert tries[0..] == tries;
      SoFarNone(View(), View(), tries);
      while le
        invariant n <= |tries| && Between(View()) && (le <==> queue != []) && SoFar(old(View()), View(), tries, n)
        invariant Stalls(|queue|, tries[n..]) == Stalls(|old(queue)|, tries) && n + Used(|queue|, tries[n..]) == Used(|old(queue)|, tries)
        decreases |tries| - n, le
      {
        le := |queue| > 1;
        StallsStep(|queue|, tries, n);
        UsedStep(|queue|, tries, n);
        ghost var mid := View();
        if n == |tries| || tries[n].err == OK {
          Attempt(Try(OK, []));
          SoFarSent(old(View()), mid, View(), tries, n);
          return;
        }
        Attempt(tries[n]);
        SoFarMore(old(View()), mid, View(), tries, n);
        n := n + 1;
        if !le && queue != [] {
          return;
        }
      }
      StallsStep(1, tries, n);
      UsedStep(1, tries, n);
      NothingQueued(View());
    }

    /** The end of tmr_handler and bfcp_handle_response: report the head, then the next ones. */
    method Finish(err: Errno, more: seq<New>, tries: seq<Try>)
      requires Kept(View(), 1) && queue != [] && timer.None? && Plain(tries)
      requires err == ETIMEDOUT ==> TimedOut(Done(queue[0], err, now), sends, first)
      modifies this
      ensures Sound(View()) && Finished(old(View()), View(), err, more, tries)
      ensures Stalled(View()) <==> Stalls(|old(queue)| - 1 + Encodable(more), tries)
    {
      hide Books, Unsent, Stalls, Encodable, Concluded, Dispatched;
      Conclude(err, more);
      ghost var mid := View();
      Dispatch(tries);
      assert Concluded(old(View()), mid, err, more) && Dispatched(mid, View(), tries);
    }

    /** tmr_handler, when the timer fires; resend is what the transport says to one more sending. */
    method TimerFires(resend: Errno, more: seq<New>, tries: seq<Try>)
      requires Sound(View()) && timer == Some(now) && resend != ETIMEDOUT && Plain(tries)
      modifies this
      ensures Sound(View()) && old(queue) != [] && old(queue)[0].arg < |old(sends)| == |old(first)|
      ensures now == old(now) && old(accepted) <= accepted && old(done) <= done
      ensures old(txc) < TXC && resend == OK ==>
        && Inv(View()) && View() == SendHead(old(View())).(txc := old(txc) + 1, timer := Some(now + Shifted(old(txc))))
      ensures old(txc) == TXC || resend != OK ==>
        && (Stalled(View()) <==> Stalls(|old(queue)| - 1 + Encodable(more), tries))
        && Finished(Fired(old(View())), View(), if old(txc) == TXC then ETIMEDOUT else resend, more, tries)
    {
      hide Books, Unsent, Stalls, Encodable, TimedOut, Wait, Shifted, Plain, Finished, Stalled, SendHead;
      Fires(View());
      SendHeadOf(View(), txc + 1);
      var timeout := Shifted(txc);
      timer := None;
      txc := txc + 1;
      var err := if txc > TXC then ETIMEDOUT else resend;
      if txc <= TXC {
        SendAgain();
        if resend == OK {
          timer := Some(now + timeout);
          return;
        }
      }
      Finish(err, more, tries);
      FinishedGrows(Fired(old(View())), View(), err, more, tries);
    }

    /** One more sending of the head, after which the timer is due later by T1 shifted. */
    method SendAgain()
      requires Kept(View(), 1) && queue != [] && queue[0].arg < |sends| == |first| && 2 <= txc <= TXC
      requires sends[queue[0].arg] == txc - 1 && now == first[queue[0].arg] + Wait(txc - 1)
      modifies `sends, `first
      ensures Kept(View(), 1) && InFlight(View().(timer := Some(now + Shifted(txc - 1)))) && View() == SendHead(old(View()))
    {
      hide Books, Unsent;
      SendKeeps(View());
      Send();
      WaitGrows(txc - 1);
    }

    /** bfcp_handle_response: only an answer to the request in flight is accepted. */
    method Response(mtid: u16, confid: u32, userid: u16, more: seq<New>, tries: seq<Try>) returns (handled: bool)
      requires Sound(View()) && Plain(tries)
      modifies this
      ensures Sound(View()) && now == old(now) && old(accepted) <= accepted
      ensures handled <==> old(queue) != [] && mtid == old(queue)[0].tid && confid == old(queue)[0].confid
                           && userid == old(queue)[0].userid
      ensures handled ==>
        && (Stalled(View()) <==> Stalls(|old(queue)| - 1 + Encodable(more), tries))
        && Finished(old(View()).(timer := None), View(), OK, more, tries)
      ensures !handled ==> View() == old(View())
    {
      hide Books, Unsent, Stalls, Encodable, Finished;
      if queue == [] {
        return false;
      }
      var ct := queue[0];
      if mtid != ct.tid || confid != ct.confid || userid != ct.userid {
        return false;
      }
      SoundKept(View());
      timer := None;
      Finish(OK, more, tries);
      FinishedGrows(old(View()).(timer := None), View(), OK, more, tries);
      return true;
    }

    /**
     * bfcp_vrequest: sent at once if nothing is queued, queued otherwise. A request whose message cannot
     * be encoded or sent is refused and never reported. A stalled client stays so.
     */
    method Request(confid: u32, userid: u16, encode: Errno, send: Errno) returns (err: Errno)
      requires Sound(View())
      modifies this
      ensures Sound(View()) && (Stalled(View()) <==> Stalled(old(View()))) && done == old(done) && now == old(now)
      ensures err == if encode != OK then encode else if old(queue) == [] then send else OK
      ensures tid == TidAfter(1, old(tid))
      ensures err != OK ==> accepted == old(accepted) && queue == old(queue)
      ensures err == OK ==>
                var ct := Trans(|old(sends)|, if old(tid) == 0 then 1 else old(tid), confid, userid);
                queue == old(queue) + [ct] && accepted == old(accepted) + [ct]
      ensures sends == old(sends) + [if encode == OK && old(queue) == [] then 1 else 0]
      ensures first == old(first) + [if encode == OK && old(queue) != [] then 0 else now]
      ensures if err == OK && old(queue) == [] then timer == Some(now + T1) && txc == 1 else timer == old(timer) && txc == old(txc)
    {
      hide Books, Unsent;
      var ct := NextTrans(confid, userid);
      if encode != OK {
        Refuse(0);
        return encode;
      }
      if queue == [] {
        SendFirstRequest(ct, send);
        err := send;
      } else {
        Enqueue(ct);
        err := OK;
      }
    }

    /** Nothing is queued: the request goes out at once or is refused. */
    method SendFirstRequest(ct: Trans, err: Errno)
      requires Inv(View()) && queue == [] && ct.arg == |sends| && ct.tid >= 1
      modifies this
      ensures Inv(View()) && done == old(done) && now == old(now) && tid == old(tid)
      ensures err != OK ==> accepted == old(accepted) && queue == []
      ensures err == OK ==> queue == [ct] && accepted == old(accepted) + [ct]
      ensures sends == old(sends) + [1] && first == old(first) + [now]
      ensures if err == OK then timer == Some(now + T1) && txc == 1 else timer == old(timer) && txc == old(txc)
    {
      hide Books, Unsent;
      if err != OK {
        Refuse(1);
        return;
      }
      FirstRequest(View(), ct);
      timer, txc := Some(now + T1), 1;
      queue, accepted := queue + [ct], accepted + [ct];
      sends, first := sends + [1], first + [now];
    }

    /** Something is queued: the request waits for its turn. */
    method Enqueue(ct: Trans)
      requires Sound(View()) && queue != [] && ct.arg == |sends| && ct.tid >= 1
      modifies `queue, `accepted, `sends, `first
      ensures Sound(View()) && (Stalled(View()) <==> Stalled(old(View())))
      ensures queue == old(queue) + [ct] && accepted == old(accepted) + [ct] && sends == old(sends) + [0] && first == old(first) + [0]
    {
      hide Books, Unsent;
      EnqueueKeeps(View(), ct);
      queue, accepted := queue + [ct], accepted + [ct];
      sends, first := sends + [0], first + [0];
    }

    /** A refused request keeps its number. */
    method Refuse(n: nat)
      requires Sound(View()) && n <= 1
      modifies `sends, `first
      ensures Sound(View()) && View() == old(View()).(sends := old(sends) + [n], first := old(first) + [now])
      ensures Stalled(View()) <==> Stalled(old(View()))
    {
      hide Books, Unsent;
      RefuseKeeps(View(), n);
      sends, first := sends + [n], first + [now];
    }
  }

  /**
   * The timer does not always run while requests are queued: two requests, the first is answered, the
   * second cannot be sent, and its handler makes a third, which nothing will ever send.
   */
  method StallingRun() returns (c: Client)
    ensures fresh(c) && Stalled(c.View())
  {
    hide Kept, InFlight;
    assert Encodable([New(1, 1, OK)]) == 1;
    c := new Client();
    var first := c.Request(1, 1, OK, OK);
    var second := c.Request(1, 1, OK, OK);
    var handled := c.Response(1, 1, 1, [], [Try(EINVAL, [New(1, 1, OK)])]);
  }

  // ---------------------------------------------------------------- lemmas for the methods

  lemma {:induction false} HeadUnsent(s: State)
    requires Between(s) && s.queue != []
    ensures s.queue[0].arg < |s.sends| == |s.first| && s.sends[s.queue[0].arg] == 0 && Kept(s, 1)
  {
    QueueAt(s, 0, 0);
  }

  lemma {:induction false} StartsFlight(s: State)
    requires s.queue != [] && s.timer == Some(s.now + T1) && s.txc == 1 && s.queue[0].arg < |s.sends| == |s.first|
    requires s.sends[s.queue[0].arg] == 1 && s.first[s.queue[0].arg] == s.now
    ensures InFlight(s)
  {
    WaitTimes();
  }

  /** What one request becomes. */
  function OneOf(m: New, n: nat, tid: u16): seq<Trans> {
    if m.encode == OK then [Trans(n, FirstTid(tid), m.confid, m.userid)] else []
  }

  lemma {:induction false} NoneRequested(n: nat, tid: u16)
    ensures Requested([], n, tid) == []
  {}

  lemma {:induction false} OneRequested(more: seq<New>, i: nat, n: nat, tid: u16)
    requires i < |more|
    ensures Requested(more[..i + 1], n, tid) == Requested(more[..i], n, tid) + OneOf(more[i], n + i, TidAfter(i, tid))
  {
    assert more[..i + 1][..i] == more[..i];
  }

  lemma {:induction false} UsedStep(n: nat, tries: seq<Try>, k: nat)
    requires k <= |tries| && n > 0
    ensures k == |tries| || tries[k].err == OK ==> Used(n, tries[k..]) == 0
    ensures k < |tries| && tries[k].err != OK ==>
              Used(n, tries[k..]) == if n == 1 then 1 else 1 + Used(n - 1 + Encodable(tries[k].more), tries[k + 1..])
    ensures Used(0, tries[k..]) == 0 && (k < |tries| ==> Used(0, tries[k + 1..]) == 0)
  {
    if k < |tries| {
      assert tries[k..][1..] == tries[k + 1..];
    }
  }

  /** A sending that succeeds changes nothing that was counted. */
  lemma {:induction false} SoFarSent(s: State, mid: State, s': State, tries: seq<Try>, k: nat)
    requires SoFar(s, mid, tries, k) && |s'.sends| == |mid.sends|
    requires s' == mid.(timer := s'.timer, txc := s'.txc, sends := s'.sends, first := s'.first)
    ensures SoFar(s, s', tries, k)
  {}

  lemma {:induction false} FinishedGrows(s: State, s': State, err: Errno, more: seq<New>, tries: seq<Try>)
    requires Finished(s, s', err, more, tries)
    ensures s'.now == s.now && s.accepted <= s'.accepted && s.done + [Done(s.queue[0], err, s.now)] <= s'.done
  {
    var mid :| Concluded(s, mid, err, more) && Dispatched(mid, s', tries);
  }

  lemma {:induction false} StallsStep(n: nat, tries: seq<Try>, k: nat)
    requires k <= |tries| && n > 0
    ensures k == |tries| || tries[k].err == OK ==> !Stalls(n, tries[k..])
    ensures k < |tries| && tries[k].err != OK ==>
              Stalls(n, tries[k..]) == if n == 1 then Encodable(tries[k].more) > 0
                                       else Stalls(n - 1 + Encodable(tries[k].more), tries[k + 1..])
    ensures !Stalls(0, tries[k..]) && (k < |tries| ==> !Stalls(0, tries[k + 1..]))
  {
    if k < |tries| {
      assert tries[k..][1..] == tries[k + 1..];
    }
  }

  lemma {:induction false} NothingQueued(s: State)
    requires Between(s) && s.queue == []
    ensures Inv(s)
  {}

  lemma {:induction false} Fires(s: State)
    requires Sound(s) && s.timer == Some(s.now)
    ensures s.queue != [] && Kept(s, 1) && InFlight(s) && s.now == s.first[s.queue[0].arg] + Wait(s.txc)
    ensures s.txc == TXC ==> TimedOut(Done(s.queue[0], ETIMEDOUT, s.now), s.sends, s.first)
  {
    hide Books, Unsent;
    WaitTimes();
  }

  lemma {:induction false} SoundKept(s: State)
    requires Sound(s)
    ensures Kept(s, 1)
  {
    hide Books;
  }

  lemma {:induction false} EnqueueKeeps(s: State, ct: Trans)
    requires Sound(s) && s.queue != [] && ct.arg == |s.sends| && ct.tid >= 1
    ensures Sound(PushTail(s, ct)) && (Stalled(PushTail(s, ct)) <==> Stalled(s))
  {
    hide Books, Unsent;
    if s.timer.None? {
      PushKeeps(s, ct, 0);
    } else {
      PushKeeps(s, ct, 1);
      QueueAt(s, 1, 0);
    }
  }

  lemma {:induction false} RefusedKept(s: State, n: nat, k: nat)
    requires Kept(s, k) && n <= 1
    ensures Kept(s.(sends := s.sends + [n], first := s.first + [s.now]), k)
  {
    var s' := s.(sends := s.sends + [n], first := s.first + [s.now]);
    forall i | 0 <= i < |s'.done| && s'.done[i].err == ETIMEDOUT
      ensures TimedOut(s'.done[i], s'.sends, s'.first)
    {
      assert TimedOut(s.done[i], s.sends, s.first);
    }
    forall i | k <= i < |s'.queue| && s'.queue[i].arg < |s'.sends|
      ensures s'.sends[s'.queue[i].arg] == 0
    {
      QueueAt(s, k, i);
    }
  }

  lemma {:induction false} RefuseKeeps(s: State, n: nat)
    requires Sound(s) && n <= 1
    ensures var s' := s.(sends := s.sends + [n], first := s.first + [s.now]);
            Sound(s') && (Stalled(s') <==> Stalled(s))
  {
    hide Books, Unsent;
    if Stalled(s) {
      RefusedKept(s, n, 0);
    } else {
      RefusedKept(s, n, 1);
    }
  }

  lemma {:induction false} FirstRequest(s: State, ct: Trans)
    requires Inv(s) && s.queue == [] && ct.arg == |s.sends| && ct.tid >= 1
    ensures Inv(s.(timer := Some(s.now + T1), txc := 1, queue := s.queue + [ct], accepted := s.accepted + [ct],
                   sends := s.sends + [1], first := s.first + [s.now]))
  {
    hide Books, Unsent;
    NoneQueued(s);
    PushKeeps(s, ct, 0);
    QueueAt(PushTail(s, ct), 0, 0);
    SendFirst(PushTail(s, ct));
    WaitTimes();
  }

  lemma {:induction false} NoneQueued(s: State)
    requires s.queue == []
    ensures Unsent(s.queue, s.sends, 0)
  {}

  lemma {:induction false} SendFirst(s: State)
    requires Kept(s, 0) && |s.queue| == 1 && s.queue[0].arg == |s.sends| - 1 && |s.sends| == |s.first|
    ensures var x := s.queue[0].arg;
            s.sends[x] == 0 && Kept(SendHead(s), 1)
            && SendHead(s).sends == s.sends[..x] + [1] && SendHead(s).first == s.first[..x] + [s.now]
  {
    SendKeeps(s);
  }
}
