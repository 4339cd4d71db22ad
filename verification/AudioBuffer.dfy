/** The audio buffer: a queue of frames read as one stream of bytes, with every byte accounted for. */
module AudioBuffer {
  import opened Bytes

  /** A queued frame: its timestamp and the bytes not yet read. */
  datatype Frame = Frame(ts: nat, data: seq<byte>)

  /** The stream: what is left of all frames, in order. */
  function Stream(fs: seq<Frame>): seq<byte> {
    if fs == [] then [] else fs[0].data + Stream(fs[1..])
  }

  lemma {:induction false} StreamConcat(a: seq<Frame>, b: seq<Frame>)
    ensures Stream(a + b) == Stream(a) + Stream(b)
    decreases |a|
  {
    if a == [] {
      assert a + b == b;
    } else {
      StreamConcat(a[1..], b);
      assert (a + b)[1..] == a[1..] + b;
    }
  }

  lemma {:induction false} StreamInsert(fs: seq<Frame>, k: nat, f: Frame)
    requires k <= |fs|
    ensures Stream(fs[..k] + [f] + fs[k..]) == Stream(fs[..k]) + f.data + Stream(fs[k..])
    ensures |Stream(fs[..k] + [f] + fs[k..])| == |Stream(fs)| + |f.data|
  {
    StreamConcat(fs[..k] + [f], fs[k..]);
    StreamConcat(fs[..k], [f]);
    assert Stream([f]) == f.data + Stream([]) by { assert [f][1..] == []; }
    assert fs == fs[..k] + fs[k..];
    StreamConcat(fs[..k], fs[k..]);
  }

  ghost predicate InOrder(fs: seq<Frame>) {
    forall i, j {:trigger fs[i], fs[j]} :: 0 <= i < j < |fs| ==> fs[i].ts <= fs[j].ts
  }

  lemma {:induction false} InsertInOrder(fs: seq<Frame>, k: nat, f: Frame)
    requires k <= |fs| && InOrder(fs) && (k > 0 ==> fs[k - 1].ts <= f.ts) && (k < |fs| ==> fs[k].ts > f.ts)
    ensures InOrder(fs[..k] + [f] + fs[k..])
  {
    var r := fs[..k] + [f] + fs[k..];
    forall i, j | 0 <= i < j < |r|
      ensures r[i].ts <= r[j].ts
    {
      var i', j' := if i < k then i else i - 1, if j < k then j else j - 1;
      if i == k {
        assert fs[k].ts <= fs[j'].ts;
      } else if j == k {
        assert fs[i'].ts <= fs[k - 1].ts;
      } else {
        assert fs[i'].ts <= fs[j'].ts;
      }
    }
  }

  lemma {:induction false} InsertElements(fs: seq<Frame>, k: nat, f: Frame)
    requires k <= |fs|
    ensures multiset(fs[..k] + [f] + fs[k..]) == multiset(fs) + multiset{f} && |fs[..k] + [f] + fs[k..]| == |fs| + 1
  {
    assert fs == fs[..k] + fs[k..];
  }

  /** Where a frame with timestamp ts goes among the first k: behind every one that is not later. */
  function Position(fs: seq<Frame>, ts: nat, k: nat): (p: nat)
    requires k <= |fs|
    ensures p <= k
  {
    if k > 0 && fs[k - 1].ts > ts then Position(fs, ts, k - 1) else k
  }

  function Inserted(fs: seq<Frame>, f: Frame): seq<Frame> {
    var k := Position(fs, f.ts, |fs|);
    fs[..k] + [f] + fs[k..]
  }

  lemma {:induction false} PositionOk(fs: seq<Frame>, ts: nat, k: nat)
    requires k <= |fs| && (k < |fs| ==> fs[k].ts > ts)
    ensures var p := Position(fs, ts, k); (p > 0 ==> fs[p - 1].ts <= ts) && (p < |fs| ==> fs[p].ts > ts)
    decreases k
  {
    if k > 0 && fs[k - 1].ts > ts {
      PositionOk(fs, ts, k - 1);
    }
  }

  /** An insertion adds the frame and its bytes and keeps the order. */
  lemma {:induction false} InsertedOk(fs: seq<Frame>, f: Frame)
    ensures var r := Inserted(fs, f);
            && |Stream(r)| == |Stream(fs)| + |f.data| && multiset(r) == multiset(fs) + multiset{f} && |r| == |fs| + 1
            && (InOrder(fs) ==> InOrder(r))
  {
    hide Stream, InOrder, Position;
    var k := Position(fs, f.ts, |fs|);
    PositionOk(fs, f.ts, |fs|);
    StreamInsert(fs, k, f);
    InsertElements(fs, k, f);
    if InOrder(fs) {
      InsertInOrder(fs, k, f);
    }
  }

  /** list_insert_sorted from the tail. */
  method InsertSorted(fs: seq<Frame>, f: Frame) returns (r: seq<Frame>)
    ensures r == Inserted(fs, f)
    ensures |Stream(r)| == |Stream(fs)| + |f.data| && multiset(r) == multiset(fs) + multiset{f} && |r| == |fs| + 1
    ensures InOrder(fs) ==> InOrder(r)
  {
    hide Stream, InOrder;
    var k: nat := |fs|;
    while k > 0 && fs[k - 1].ts > f.ts
      invariant k <= |fs| && Position(fs, f.ts, |fs|) == Position(fs, f.ts, k)
    {
      k := k - 1;
    }
    InsertedOk(fs, f);
    r := fs[..k] + [f] + fs[k..];
  }

  datatype Jitter = Good | Low | High

  function Min(a: nat, b: nat): nat {
    if a < b then a else b
  }

  /** A filling goal below one packet shrinks with every read. */
  function WorkedOff(goal: nat, pkt: nat, sz: nat): nat {
    if 0 < goal < pkt then (if goal >= sz then goal - sz else 0) else goal
  }

  /** The filling goal after n reads of sz bytes without anything appended. */
  function GoalAfter(goal: nat, pkt: nat, sz: nat, n: nat): nat {
    if n == 0 then goal else WorkedOff(GoalAfter(goal, pkt, sz, n - 1), pkt, sz)
  }

  lemma {:induction false} GoalAfterIs(goal: nat, pkt: nat, sz: nat, n: nat)
    ensures GoalAfter(goal, pkt, sz, n) == if goal >= pkt then goal else if goal >= n * sz then goal - n * sz else 0
  {
    if n > 0 {
      GoalAfterIs(goal, pkt, sz, n - 1);
      assert n * sz == (n - 1) * sz + sz;
    }
  }

  /**
   * Reads alone end the filling exactly if less than a packet is missing: then after as many reads as
   * cover it, otherwise never.
   */
  lemma {:induction false} FillingEndsIff(goal: nat, pkt: nat, sz: nat)
    requires sz > 0 && goal > 0
    ensures (exists n :: GoalAfter(goal, pkt, sz, n) == 0) <==> goal < pkt
    ensures goal < pkt ==> forall n: nat :: GoalAfter(goal, pkt, sz, n) == 0 <==> n * sz >= goal
  {
    forall n: nat
      ensures GoalAfter(goal, pkt, sz, n) == if goal >= pkt then goal else if goal >= n * sz then goal - n * sz else 0
    {
      GoalAfterIs(goal, pkt, sz, n);
    }
    if goal < pkt {
      AtLeast(goal, sz);
      assert GoalAfter(goal, pkt, sz, goal) == 0;
    }
  }

  lemma {:induction false} AtLeast(n: nat, sz: nat)
    requires sz > 0
    ensures n * sz >= n
  {
    assert n * sz == n * (sz - 1) + n;
    assert n * (sz - 1) >= 0;
  }

  // ---------------------------------------------------------------- what a read gives out

  /** The frames that the startup loop keeps: the first suffix that is no longer than wished. */
  function Kept(fs: seq<Frame>, wish: nat): seq<Frame> {
    if fs != [] && |Stream(fs)| > wish then Kept(fs[1..], wish) else fs
  }

  /** The kept frames are a suffix within the wish, and one frame more would not be. */
  lemma {:induction false} KeptIs(fs: seq<Frame>, wish: nat) returns (k: nat)
    ensures k <= |fs| && Kept(fs, wish) == fs[k..] && |Stream(Kept(fs, wish))| <= wish
    ensures k > 0 ==> |Stream(fs[k - 1..])| > wish
    ensures |Stream(Kept(fs, wish))| <= |Stream(fs)|
    ensures Stream(Kept(fs, wish)) == Stream(fs)[|Stream(fs)| - |Stream(Kept(fs, wish))|..]
    decreases |fs|
  {
    hide Stream;
    k := 0;
    if fs == [] {
      StreamNil(fs);
    }
    if fs != [] && |Stream(fs)| > wish {
      k := KeptIs(fs[1..], wish);
      HeadOff(fs);
      assert fs[1..][k..] == fs[k + 1..];
      if k == 0 {
        assert fs[0..] == fs;
      } else {
        assert fs[1..][k - 1..] == fs[k..];
      }
      k := k + 1;
    }
  }

  lemma {:induction false} HeadOff(fs: seq<Frame>)
    requires fs != []
    ensures |fs[0].data| <= |Stream(fs)| && Stream(fs[1..]) == Stream(fs)[|fs[0].data|..]
  {}

  /** The frames a read works on; only the first one drops, and only if there is a wish. */
  function Started(fs: seq<Frame>, wish: nat, first: bool): seq<Frame> {
    if first && wish > 0 then Kept(fs, wish) else fs
  }

  function Silent(was: seq<byte>, sz: nat): (r: seq<byte>)
    requires sz <= |was|
    ensures |r| == |was|
  {
    seq(sz, _ => 0) + was[sz..]
  }

  /** The bytes of all over the front of was. */
  function Over(all: seq<byte>, was: seq<byte>): (r: seq<byte>)
    requires |all| <= |was|
    ensures |r| == |was|
  {
    all + was[|all|..]
  }

  /** The whole output after a read of sz bytes into what held was. */
  function Output(was: seq<byte>, fs: seq<Frame>, filling: bool, wish: nat, first: bool, sz: nat, jitter: Jitter): (r: seq<byte>)
    requires sz <= |was|
    ensures |r| == |was|
  {
    if jitter == Low then was
    else if filling then Silent(was, sz)
    else
      var all := Stream(Started(fs, wish, first));
      var k := Min(sz, |all|);
      var one := Over(all[..k], if |Stream(fs)| < sz then Silent(was, sz) else was);
      if jitter == High then Over(all[k..k + Min(sz, |all| - k)], one) else one
  }

  /**
   * The output byte by byte, for a read that is not skipped: the next bytes of the stream, or with a high
   * latency the ones behind those as far as they go; silence while filling or behind too short a stream.
   */
  lemma {:induction false} OutputAt(was: seq<byte>, fs: seq<Frame>, filling: bool, wish: nat, first: bool, sz: nat, jitter: Jitter, i: nat)
    requires sz <= |was| && i < |was|
    ensures var all, r := Stream(Started(fs, wish, first)), Output(was, fs, filling, wish, first, sz, jitter)[i];
            && (jitter == Low || i >= sz ==> r == was[i])
            && (jitter != Low && i < sz && filling ==> r == 0)
            && (jitter != Low && i < sz && !filling ==>
                  && (jitter == High && sz + i < |all| ==> r == all[sz + i])
                  && (i < |all| && (jitter == Good || |all| <= sz + i) ==> r == all[i])
                  && (|all| <= i ==> r == if |Stream(fs)| < sz then 0 else was[i]))
  {
    hide Stream, Started, Silent, Over;
    SilentAt(was, sz, i);
    if jitter != Low && !filling {
      var all := Stream(Started(fs, wish, first));
      var k := Min(sz, |all|);
      var base := if |Stream(fs)| < sz then Silent(was, sz) else was;
      OverAt(all[..k], base, i);
      OverAt(all[k..k + Min(sz, |all| - k)], Over(all[..k], base), i);
    }
  }

  lemma {:induction false} SilentAt(was: seq<byte>, sz: nat, i: nat)
    requires sz <= |was| && i < |was|
    ensures Silent(was, sz)[i] == if i < sz then 0 else was[i]
  {}

  lemma {:induction false} OverAt(all: seq<byte>, was: seq<byte>, i: nat)
    requires |all| <= |was| && i < |was|
    ensures Over(all, was)[i] == if i < |all| then all[i] else was[i]
  {}

  /** Some of the sz bytes given out are what was there before. */
  ghost predicate Unwritten(fs: seq<Frame>, filling: bool, wish: nat, first: bool, sz: nat, jitter: Jitter) {
    exists was, was' :: sz <= |was| == |was'|
      && Output(was, fs, filling, wish, first, sz, jitter)[..sz] != Output(was', fs, filling, wish, first, sz, jitter)[..sz]
  }

  /** The startup drop leaves less than was asked for, although there was enough. */
  predicate DroppedTooMuch(fs: seq<Frame>, wish: nat, first: bool, sz: nat) {
    first && 0 < wish < |Stream(fs)| && |Stream(Kept(fs, wish))| < sz <= |Stream(fs)|
  }

  lemma {:induction false} StartedIs(fs: seq<Frame>, wish: nat, first: bool, sz: nat)
    ensures |Stream(Started(fs, wish, first))| <= |Stream(fs)|
    ensures Stream(Started(fs, wish, first)) == Stream(fs)[|Stream(fs)| - |Stream(Started(fs, wish, first))|..]
    ensures DroppedTooMuch(fs, wish, first, sz) <==> |Stream(Started(fs, wish, first))| < sz <= |Stream(fs)|
  {
    hide Stream;
    var k := KeptIs(fs, wish);
    assert Stream(fs)[0..] == Stream(fs);
  }

  /** After a drop of too much, the position behind what is delivered is as it was. */
  lemma {:induction false} FrontKept(was: seq<byte>, fs: seq<Frame>, wish: nat, first: bool, sz: nat, jitter: Jitter)
    requires sz <= |was| && jitter != Low && DroppedTooMuch(fs, wish, first, sz)
    ensures var k := |Stream(Started(fs, wish, first))|; k < sz && Output(was, fs, false, wish, first, sz, jitter)[k] == was[k]
  {
    hide Stream, Started, DroppedTooMuch;
    StartedIs(fs, wish, first, sz);
    var all := Stream(Started(fs, wish, first));
    assert all[..|all|] == all && all[|all|..|all|] == [];
  }

  /** Otherwise what was there before does not matter. */
  lemma {:induction false} FrontSame(was: seq<byte>, was': seq<byte>, fs: seq<Frame>, wish: nat, first: bool, sz: nat, jitter: Jitter)
    requires sz <= |was| == |was'| && jitter != Low && !DroppedTooMuch(fs, wish, first, sz)
    ensures Output(was, fs, false, wish, first, sz, jitter)[..sz] == Output(was', fs, false, wish, first, sz, jitter)[..sz]
  {
    hide Stream, Started, DroppedTooMuch, Over, Silent;
    StartedIs(fs, wish, first, sz);
    var all := Stream(Started(fs, wish, first));
    var k := Min(sz, |all|);
    var base, base' := if |Stream(fs)| < sz then Silent(was, sz) else was, if |Stream(fs)| < sz then Silent(was', sz) else was';
    SilentSame(was, was', sz);
    SameFront(all[..k], base, base', sz);
    SameFront(all[k..k + Min(sz, |all| - k)], Over(all[..k], base), Over(all[..k], base'), sz);
  }

  lemma {:induction false} SilentSame(was: seq<byte>, was': seq<byte>, sz: nat)
    requires sz <= |was| == |was'|
    ensures Silent(was, sz)[..sz] == Silent(was', sz)[..sz]
  {
    assert Silent(was, sz)[..sz] == seq(sz, _ => 0) == Silent(was', sz)[..sz];
  }

  lemma {:induction false} SameFront(all: seq<byte>, was: seq<byte>, was': seq<byte>, sz: nat)
    requires |all| <= sz <= |was| == |was'| && (|all| == sz || was[..sz] == was'[..sz])
    ensures Over(all, was)[..sz] == Over(all, was')[..sz]
  {
    forall i | 0 <= i < sz
      ensures Over(all, was)[i] == Over(all, was')[i]
    {
      if i >= |all| {
        assert was[..sz][i] == was'[..sz][i];
      }
    }
  }

  /**
   * Part of the output is neither delivered nor silenced exactly if the latency is low, or the buffer is
   * not filling and the startup drop leaves less than was asked for, although there was enough.
   */
  lemma {:induction false} UnwrittenIff(fs: seq<Frame>, filling: bool, wish: nat, first: bool, sz: nat, jitter: Jitter)
    ensures Unwritten(fs, filling, wish, first, sz, jitter) <==>
            if jitter == Low then sz > 0 else !filling && DroppedTooMuch(fs, wish, first, sz)
  {
    hide Output, DroppedTooMuch, Started;
    var was: seq<byte>, was': seq<byte> := seq(sz, _ => 0), seq(sz, _ => 1);
    if jitter == Low || filling {
      Simple(fs, filling, wish, first, sz, jitter);
      if jitter == Low && sz > 0 {
        assert was[..sz][0] != was'[..sz][0];
      }
    } else if DroppedTooMuch(fs, wish, first, sz) {
      FrontKept(was, fs, wish, first, sz, jitter);
      FrontKept(was', fs, wish, first, sz, jitter);
      var k := |Stream(Started(fs, wish, first))|;
      assert Output(was, fs, false, wish, first, sz, jitter)[..sz][k] != Output(was', fs, false, wish, first, sz, jitter)[..sz][k];
    } else {
      forall a, b | sz <= |a| == |b|
        ensures Output(a, fs, false, wish, first, sz, jitter)[..sz] == Output(b, fs, false, wish, first, sz, jitter)[..sz]
      {
        FrontSame(a, b, fs, wish, first, sz, jitter);
      }
    }
  }

  lemma {:induction false} Simple(fs: seq<Frame>, filling: bool, wish: nat, first: bool, sz: nat, jitter: Jitter)
    requires jitter == Low || filling
    ensures forall was :: sz <= |was| ==>
              Output(was, fs, filling, wish, first, sz, jitter) == if jitter == Low then was else Silent(was, sz)
    ensures forall was, was' :: sz <= |was| == |was'| ==> Silent(was, sz)[..sz] == Silent(was', sz)[..sz]
  {
    forall was, was' | sz <= |was| == |was'|
      ensures Silent(was, sz)[..sz] == Silent(was', sz)[..sz]
    {
      SilentSame(was, was', sz);
    }
  }

  class Buffer {
    var frames: seq<Frame>
    var wishSz: nat
    var curSz: nat
    var maxSz: nat
    var fillSz: nat
    var pktSz: nat
    var wrSz: nat
    var started: bool
    var live: bool
    ghost var appended: nat          // bytes since the last flush that were appended,
    ghost var taken: nat             // read,
    ghost var dropped: nat           // or dropped

    /** The size counter is right, and no byte is lost or counted twice. */
    ghost predicate Valid()
      reads this
    {
      curSz == |Stream(frames)| && appended == taken + dropped + curSz
    }

    constructor (minSz: nat, maxSz: nat)
      ensures Valid() && frames == [] && fillSz == wishSz == minSz && this.maxSz == maxSz && live && !started && appended == 0
    {
      frames, curSz, pktSz, wrSz := [], 0, 0, 0;
      wishSz, this.maxSz, fillSz := minSz, maxSz, minSz;
      started, live := false, true;
      appended, taken, dropped := 0, 0, 0;
    }

    /** The oldest frame goes, whatever is left of it. */
    method DropHead()
      requires Valid() && frames != []
      modifies `frames, `curSz, `dropped
      ensures Valid() && frames == old(frames)[1..] && dropped == old(dropped) + |old(frames)[0].data|
      ensures Stream(frames) == Stream(old(frames))[|old(frames)[0].data|..]
    {
      curSz := curSz - |frames[0].data|;
      dropped := dropped + |frames[0].data|;
      frames := frames[1..];
    }

    /** aubuf_append_auframe: a frame without a timestamp gets the one given by what was written before. */
    method Append(data: seq<byte>, ts: nat)
      requires Valid()
      modifies this
      ensures Valid() && appended == old(appended) + |data| && taken == old(taken) && wrSz == old(wrSz) + |data| && pktSz == |data|
      ensures fillSz == if old(fillSz) >= |data| then old(fillSz) - |data| else old(fillSz)
      ensures InOrder(old(frames)) ==> InOrder(frames)
      ensures maxSz == 0 || old(curSz) + |data| <= maxSz ==>
        dropped == old(dropped) && frames == Inserted(old(frames), Frame(ts, data))
      ensures maxSz != 0 && old(curSz) + |data| > maxSz ==>
        var all := Inserted(old(frames), Frame(ts, data));
        all != [] && frames == all[1..] && dropped == old(dropped) + |all[0].data|
      ensures maxSz != 0 ==>
        var all := Inserted(old(frames), Frame(ts, data));
        all != [] && (curSz <= maxSz <==> old(curSz) + |data| <= maxSz + |all[0].data|)
      ensures wishSz == old(wishSz) && maxSz == old(maxSz) && started == old(started) && live == old(live)
    {
      hide Stream, Inserted;
      pktSz := |data|;
      if fillSz >= pktSz {
        fillSz := fillSz - pktSz;
      }
      frames := InsertSorted(frames, Frame(ts, data));
      curSz, wrSz, appended := curSz + |data|, wrSz + |data|, appended + |data|;
      if maxSz != 0 && curSz > maxSz {
        DropHead();
      }
    }

    /** k bytes of the first frame go to position n of out; an empty frame leaves the list. */
    method TakeHead(out: array<byte>, n: nat, k: nat)
      requires Valid() && frames != [] && k <= |frames[0].data| && n + k <= out.Length
      modifies `frames, `curSz, `taken, out
      ensures Valid() && curSz == old(curSz) - k && taken == old(taken) + k && Stream(frames) == Stream(old(frames))[k..]
      ensures k <= |Stream(old(frames))| && out[..n + k] == old(out[..n]) + Stream(old(frames))[..k]
      ensures forall i :: n + k <= i < out.Length ==> out[i] == old(out[i])
      ensures |frames| <= |old(frames)| && (k == |old(frames)[0].data| ==> |frames| < |old(frames)|)
    {
      hide Stream;
      var f := frames[0];
      var ts: nat := *;
      StreamTaken(frames, k, ts);
      CopyTo(out, n, f.data[..k]);
      curSz, taken := curSz - k, taken + k;
      if k == |f.data| {
        frames := frames[1..];
      } else {
        frames := [Frame(ts, f.data[k..])] + frames[1..];
      }
    }

    /** read_auframe: up to sz bytes from the front of the stream into out. */
    method ReadFrames(out: array<byte>, sz: nat) returns (n: nat)
      requires Valid() && sz <= out.Length
      modifies `frames, `curSz, `taken, out
      ensures Valid() && n == Min(sz, old(curSz)) && taken == old(taken) + n && curSz == old(curSz) - n
      ensures n <= |Stream(old(frames))| && Stream(frames) == Stream(old(frames))[n..]
      ensures out[..] == Over(Stream(old(frames))[..n], old(out[..]))
    {
      hide Stream;
      n := 0;
      ghost var all := Stream(frames);
      assert all[0..] == all && out[..0] == all[..0];
      while frames != []
        invariant n <= sz && Valid() && curSz == old(curSz) - n && taken == old(taken) + n
        invariant Stream(frames) == all[n..] && out[..n] == all[..n]
        invariant forall i :: n <= i < out.Length ==> out[i] == old(out[i])
        decreases |frames|
      {
        var k := Min(|frames[0].data|, sz - n);
        TakeHead(out, n, k);
        Cut(all, n, k);
        n := n + k;
        if n == sz {
          IsOver(out[..], old(out[..]), all[..n]);
          return;
        }
      }
      StreamNil(frames);
      IsOver(out[..], old(out[..]), all[..n]);
    }

    /** The startup loop: old frames are dropped until the latency is as wished, and no longer. */
    method DropOld()
      requires Valid()
      modifies `frames, `curSz, `dropped
      ensures Valid() && frames == Kept(old(frames), wishSz) && dropped == old(dropped) + (old(curSz) - curSz)
    {
      hide Stream;
      while curSz > wishSz
        invariant Valid() && Kept(frames, wishSz) == Kept(old(frames), wishSz)
        invariant dropped == old(dropped) + (old(curSz) - curSz)
        decreases |frames|
      {
        if frames == [] {
          StreamNil(frames);
        }
        DropHead();
      }
    }

    /** The first read drops what exceeds the wished latency, if the stream is live. */
    method DropAtStart()
      requires Valid()
      modifies `frames, `curSz, `dropped, `started
      ensures Valid() && started && frames == Started(old(frames), wishSz, live && !old(started))
      ensures dropped == old(dropped) + (old(curSz) - curSz)
    {
      hide Stream;
      if live && !started && wishSz > 0 {
        DropOld();
      }
      started := true;
    }

    /**
     * aubuf_read_auframe: silence while filling; otherwise the next sz bytes of the stream. Behind them
     * there is silence if the buffer held fewer than sz bytes; if it is the drop at the start that leaves
     * fewer, nothing is written. A high latency skips one reading more, and where the second is shorter,
     * the end of the first stays in the output. On low latency nothing is written at all.
     */
    method Read(out: array<byte>, sz: nat, jitter: Jitter) returns (n: nat)
      requires Valid() && sz <= out.Length
      modifies this, out
      ensures Valid() && appended == old(appended) && wishSz == old(wishSz) && maxSz == old(maxSz) && live == old(live)
      ensures out[..] == Output(old(out[..]), old(frames), old(fillSz) > 0, wishSz, live && !old(started), sz, jitter)
      ensures jitter == Low || old(fillSz) > 0 ==>
        n == 0 && frames == old(frames) && taken == old(taken) && dropped == old(dropped) && started == old(started)
      ensures jitter != Low && old(fillSz) == 0 ==>
        var all := Stream(Started(old(frames), wishSz, live && !old(started)));
        var k := if jitter == High then Min(sz, |all|) else 0;
        && started && dropped == old(dropped) + (old(curSz) - |all|)
        && n == Min(sz, |all| - k) && taken == old(taken) + k + n && Stream(frames) == all[k + n..]
      ensures var goal := if jitter != Low && old(fillSz) == 0 && old(curSz) < sz then wishSz else old(fillSz);
              fillSz == GoalAfter(goal, pktSz, sz, 1)
    {
      hide Stream, Started, Over;
      n := 0;
      if jitter == Low {
        LowerFill(sz);
        return;
      }
      if fillSz > 0 || curSz < sz {
        var filling := fillSz > 0;
        Silence(out, sz);
        if filling {
          LowerFill(sz);
          return;
        }
        fillSz := wishSz;
      }
      n := Deliver(out, sz, jitter);
      LowerFill(sz);
    }

    /** The part of a read that does take bytes off the stream. */
    method Deliver(out: array<byte>, sz: nat, jitter: Jitter) returns (n: nat)
      requires Valid() && sz <= out.Length
      modifies `frames, `curSz, `taken, `dropped, `started, out
      ensures Valid() && started
      ensures var all := Stream(Started(old(frames), wishSz, live && !old(started)));
              var k := Min(sz, |all|); var one := Over(all[..k], old(out[..]));
              && dropped == old(dropped) + (old(curSz) - |all|)
              && if jitter == High
                 then n == Min(sz, |all| - k) && taken == old(taken) + k + n && Stream(frames) == all[k + n..]
                      && out[..] == Over(all[k..k + n], one)
                 else n == k && taken == old(taken) + n && Stream(frames) == all[n..] && out[..] == one
    {
      hide Stream, Started, Over;
      DropAtStart();
      ghost var all := Stream(frames);
      n := ReadFrames(out, sz);
      ghost var k := n;
      if jitter == High {
        n := ReadFrames(out, sz);
        Later(all, k, n);
      }
    }

    method Silence(out: array<byte>, sz: nat)
      requires sz <= out.Length
      modifies out
      ensures out[..] == Silent(old(out[..]), sz)
    {
      forall i | 0 <= i < sz {
        out[i] := 0;
      }
      assert out[..] == Silent(old(out[..]), sz);
    }

    /** The end of a read: a rest of the filling goal below a packet is worked off. */
    method LowerFill(sz: nat)
      modifies `fillSz
      ensures fillSz == GoalAfter(old(fillSz), pktSz, sz, 1) && fillSz <= old(fillSz)
    {
      assert GoalAfter(fillSz, pktSz, sz, 0) == fillSz;
      if 0 < fillSz < pktSz {
        if fillSz >= sz {
          fillSz := fillSz - sz;
        } else {
          fillSz := 0;
        }
      }
    }

    /** aubuf_flush */
    method Flush()
      modifies this
      ensures Valid() && frames == [] && fillSz == wishSz && wrSz == 0 && appended == 0
      ensures wishSz == old(wishSz) && maxSz == old(maxSz) && live == old(live) && started == old(started)
    {
      frames, fillSz, curSz, wrSz := [], wishSz, 0, 0;
      appended, taken, dropped := 0, 0, 0;
    }
  }

  method CopyTo(out: array<byte>, n: nat, d: seq<byte>)
    requires n + |d| <= out.Length
    modifies out
    ensures out[..n + |d|] == old(out[..n]) + d
    ensures forall i :: n + |d| <= i < out.Length ==> out[i] == old(out[i])
  {
    forall i | 0 <= i < |d| {
      out[n + i] := d[i];
    }
  }

  /** Taking k bytes off the first frame takes them off the stream. */
  lemma {:induction false} StreamTaken(fs: seq<Frame>, k: nat, ts: nat)
    requires fs != [] && k <= |fs[0].data|
    ensures k <= |Stream(fs)| && Stream(fs)[..k] == fs[0].data[..k]
    ensures k == |fs[0].data| ==> Stream(fs[1..]) == Stream(fs)[k..]
    ensures Stream([Frame(ts, fs[0].data[k..])] + fs[1..]) == Stream(fs)[k..]
  {
    var r := [Frame(ts, fs[0].data[k..])] + fs[1..];
    assert r[1..] == fs[1..];
  }

  lemma {:induction false} StreamNil(fs: seq<Frame>)
    requires fs == []
    ensures Stream(fs) == []
  {}

  lemma {:induction false} Cut(all: seq<byte>, n: nat, k: nat)
    requires n + k <= |all|
    ensures all[..n + k] == all[..n] + all[n..][..k] && all[n + k..] == all[n..][k..]
  {}

  lemma {:induction false} IsOver(out: seq<byte>, was: seq<byte>, all: seq<byte>)
    requires |all| <= |out| == |was| && out[..|all|] == all && forall i {:trigger out[i]} :: |all| <= i < |out| ==> out[i] == was[i]
    ensures out == Over(all, was)
  {
    assert out == out[..|all|] + out[|all|..];
  }

  lemma {:induction false} Later(all: seq<byte>, k: nat, n: nat)
    requires k + n <= |all|
    ensures all[k..][..n] == all[k..k + n] && all[k..][n..] == all[k + n..]
  {}

  /** Ten bytes and four, with ten wished and ten read: the first frame goes, four bytes come, six are as they were. */
  method UnwrittenRun() returns (out: array<byte>, n: nat)
    ensures fresh(out) && out.Length == 10 && n == 4
    ensures forall i :: 0 <= i < 10 ==> out[i] == if i < 4 then 2 else 7
  {
    hide Stream, Output, Kept;
    var b := new Buffer(10, 0);
    b.Append(seq(10, _ => 1), 1);
    b.Append(seq(4, _ => 2), 2);
    RunFrames();
    out := new byte[10](_ => 7);
    ghost var was := out[..];
    n := b.Read(out, 10, Good);
    RunOutput(was);
  }

  const TEN := Frame(1, seq(10, _ => 1))
  const FOUR := Frame(2, seq(4, _ => 2))

  lemma {:induction false} RunFrames()
    ensures Inserted([], TEN) == [TEN] && Inserted([TEN], FOUR) == [TEN, FOUR]
    ensures Stream([FOUR]) == FOUR.data && |Stream([TEN, FOUR])| == 14 && Kept([TEN, FOUR], 10) == [FOUR]
  {
    assert [FOUR][1..] == [] && [TEN, FOUR][1..] == [FOUR];
    assert Stream([FOUR]) == FOUR.data + Stream([]);
    assert Kept([FOUR], 10) == [FOUR];
  }

  lemma {:induction false} RunOutput(was: seq<byte>)
    requires |was| == 10 && forall i :: 0 <= i < 10 ==> was[i] == 7
    ensures var r := Output(was, [TEN, FOUR], false, 10, true, 10, Good);
            forall i :: 0 <= i < 10 ==> r[i] == if i < 4 then 2 else 7
  {
    hide Stream, Kept;
    RunFrames();
    assert FOUR.data[..4] == FOUR.data;
  }
}
