/** The chunked receiver as it runs on whole buffers, against the byte automaton. */
module HttpReceiver {
  import opened Bytes
  import opened MemoryBuffer
  import opened HttpChunk

  // ---------------------------------------------------------------- whole pieces instead of bytes

  /** n more bytes of body would be too many; without a limit never. */
  predicate Over(limit: Option<nat>, n: nat) {
    limit.Some? && n > limit.value
  }

  function Min(a: nat, b: nat): nat {
    if a < b then a else b
  }

  /** As Run, but body bytes are taken in one piece, which is refused if it exceeds the limit. */
  function Bulk(rx: Rx, s: seq<byte>, i: nat, limit: Option<nat>): Rx
    requires i <= |s|
    decreases |s| - i
  {
    if i == |s| || !rx.status.Going? then rx
    else if rx.left > 0 then
      var n := Min(|s| - i, rx.left);
      if Over(limit, |rx.body| + n) then rx.(status := Broken(EOVERFLOW))
      else Bulk(Took(rx, s, i, n), s, i + n, limit)
    else Bulk(Step(rx, s[i]), s, i + 1, limit)
  }

  function Took(rx: Rx, s: seq<byte>, i: nat, n: nat): Rx
    requires i + n <= |s| && n <= rx.left
  {
    rx.(left := rx.left - n, body := rx.body + s[i..i + n])
  }

  /** A piece at once is the same as its bytes one by one. */
  lemma {:induction false} RunPiece(rx: Rx, s: seq<byte>, i: nat, n: nat)
    requires i + n <= |s| && rx.status.Going? && n <= rx.left
    ensures Run(rx, s, i) == Run(Took(rx, s, i, n), s, i + n)
    decreases n
  {
    if n > 0 {
      var rx1 := Step(rx, s[i]);
      RunPiece(rx1, s, i + 1, n - 1);
      assert rx.body + [s[i]] + s[i + 1..i + n] == rx.body + s[i..i + n];
    } else {
      assert rx.body + s[i..i] == rx.body;
    }
  }

  /** What was delivered stays delivered. */
  lemma {:induction false} BodyGrows(rx: Rx, s: seq<byte>, i: nat)
    requires i <= |s|
    ensures rx.body <= Run(rx, s, i).body
    decreases |s| - i
  {
    if i < |s| {
      BodyGrows(Step(rx, s[i]), s, i + 1);
    }
  }

  lemma {:induction false} RunStopped(rx: Rx, s: seq<byte>, i: nat)
    requires i <= |s| && !rx.status.Going?
    ensures Run(rx, s, i) == rx
    decreases |s| - i
  {
    if i < |s| {
      RunStopped(rx, s, i + 1);
    }
  }

  /**
   * As long as the body stays within the limit, pieces and bytes agree; beyond it the receiver fails
   * with EOVERFLOW, with some of the body delivered.
   */
  lemma {:induction false} BulkIsRun(rx: Rx, s: seq<byte>, i: nat, limit: Option<nat>)
    requires i <= |s| && !Over(limit, |rx.body|) && rx.status != Broken(EOVERFLOW)
    ensures var r, b := Run(rx, s, i), Bulk(rx, s, i, limit);
            if Over(limit, |r.body|) then b.status == Broken(EOVERFLOW) && b.body <= r.body && !Over(limit, |b.body|)
            else b == r
    decreases |s| - i
  {
    hide Run, Step;
    if i == |s| {
      RunEnd(rx, s);
    } else if !rx.status.Going? {
      RunStopped(rx, s, i);
    } else if rx.left > 0 {
      var n := Min(|s| - i, rx.left);
      RunPiece(rx, s, i, n);
      BodyGrows(rx, s, i);
      BodyGrows(Took(rx, s, i, n), s, i + n);
      if !Over(limit, |rx.body| + n) {
        BulkIsRun(Took(rx, s, i, n), s, i + n, limit);
      }
    } else {
      StepNoBody(rx, s[i]);
      RunNext(rx, s, i);
      BulkIsRun(Step(rx, s[i]), s, i + 1, limit);
    }
  }

  lemma {:induction false} RunEnd(rx: Rx, s: seq<byte>)
    ensures Run(rx, s, |s|) == rx
  {}

  lemma {:induction false} RunNext(rx: Rx, s: seq<byte>, i: nat)
    requires i < |s|
    ensures Run(rx, s, i) == Run(Step(rx, s[i]), s, i + 1)
  {}

  lemma {:induction false} StepNoBody(rx: Rx, c: byte)
    requires rx.left == 0 && rx.status != Broken(EOVERFLOW)
    ensures Step(rx, c).body == rx.body && Step(rx, c).status != Broken(EOVERFLOW)
  {}

  // ---------------------------------------------------------------- segments

  /** Each segment is received in turn. */
  function FeedBulk(rx: Rx, segs: Segments, limit: Option<nat>): Rx
    decreases segs
  {
    match segs
    case NoMore => rx
    case Segment(s, rest) => FeedBulk(Bulk(rx, s, 0, limit), rest, limit)
  }

  /** A state from which a stream can be received: within the limit, and not refused before. */
  predicate Within(rx: Rx, limit: Option<nat>) {
    !Over(limit, |rx.body|) && rx.status != Broken(EOVERFLOW)
  }

  lemma {:induction false} RunWithin(rx: Rx, s: seq<byte>, i: nat)
    requires i <= |s| && rx.status != Broken(EOVERFLOW)
    ensures Run(rx, s, i).status != Broken(EOVERFLOW)
    decreases |s| - i
  {
    if i < |s| {
      RunWithin(Step(rx, s[i]), s, i + 1);
    }
  }

  lemma {:induction false} FeedStopped(rx: Rx, segs: Segments, limit: Option<nat>)
    requires !rx.status.Going?
    ensures FeedBulk(rx, segs, limit) == rx
    decreases segs
  {
    if segs.Segment? {
      BulkStopped(rx, segs.s, 0, limit);
      FeedStopped(rx, segs.rest, limit);
    }
  }

  /** However the stream is cut, the receiver ends as the byte automaton, or with EOVERFLOW if the body is too long. */
  lemma {:induction false} FeedIsRun(rx: Rx, segs: Segments, limit: Option<nat>)
    requires Within(rx, limit)
    ensures var r, b := Run(rx, Joined(segs), 0), FeedBulk(rx, segs, limit);
            if Over(limit, |r.body|) then b.status == Broken(EOVERFLOW) && b.body <= r.body && !Over(limit, |b.body|)
            else b == r
    decreases segs
  {
    hide Run, Bulk;
    match segs
    case NoMore =>
      RunEnd(rx, []);
    case Segment(s, rest) =>
      RunJoin(rx, s, Joined(rest), 0);
      BulkIsRun(rx, s, 0, limit);
      RunWithin(rx, s, 0);
      var r1, b1 := Run(rx, s, 0), Bulk(rx, s, 0, limit);
      BodyGrows(r1, Joined(rest), 0);
      if Over(limit, |r1.body|) {
        FeedStopped(b1, rest, limit);
      } else {
        FeedIsRun(r1, rest, limit);
      }
  }

  /** Two ways of cutting the same stream: the same end within the limit, the same failure beyond it. */
  lemma {:induction false} CutsDoNotMatter(rx: Rx, one: Segments, other: Segments, limit: Option<nat>)
    requires Within(rx, limit) && Joined(one) == Joined(other)
    ensures FeedBulk(rx, one, limit).status == FeedBulk(rx, other, limit).status
    ensures !Over(limit, |Run(rx, Joined(one), 0).body|) ==> FeedBulk(rx, one, limit) == FeedBulk(rx, other, limit)
  {
    hide Run, FeedBulk;
    FeedIsRun(rx, one, limit);
    FeedIsRun(rx, other, limit);
  }

  /** A well-formed body, however cut, is delivered whole or refused as too long. */
  lemma {:induction false} BodyReceived(b: Body, segs: Segments, limit: Option<nat>)
    requires BodyOk(b) && Joined(segs) == BodyBytes(b) + [LF]
    ensures var r := FeedBulk(START, segs, limit);
            if Over(limit, |Data(b)|) then r.status == Broken(EOVERFLOW) && r.body <= Data(b)
            else r.status == Last && r.body == Data(b)
  {
    hide Run, FeedBulk, BodyOk;
    ChunksDelivered(b);
    FeedIsRun(START, segs, limit);
  }

  // ---------------------------------------------------------------- what is kept beyond the limit

  /**
   * The length of the body when the chunk began that takes it beyond the limit l; base is that length
   * for the chunk under way.
   */
  function Base(rx: Rx, s: seq<byte>, i: nat, base: nat, l: nat): nat
    requires i <= |s|
    decreases |s| - i
  {
    if i == |s| then base
    else if |Step(rx, s[i]).body| > l then base
    else Base(Step(rx, s[i]), s, i + 1, if rx.left == 0 then |rx.body| else base, l)
  }

  lemma {:induction false} BaseGrows(rx: Rx, s: seq<byte>, i: nat, base: nat, more: nat, l: nat)
    requires i <= |s| && base <= more
    ensures Base(rx, s, i, base, l) <= Base(rx, s, i, more, l)
    decreases |s| - i
  {
    hide Step;
    if i < |s| {
      BaseGrows(Step(rx, s[i]), s, i + 1, if rx.left == 0 then |rx.body| else base, if rx.left == 0 then |rx.body| else more, l);
    }
  }

  lemma {:induction false} BaseBelow(rx: Rx, s: seq<byte>, i: nat, base: nat, l: nat)
    requires i <= |s| && base <= |rx.body| <= l
    ensures Base(rx, s, i, base, l) <= l
    decreases |s| - i
  {
    if i < |s| && |Step(rx, s[i]).body| <= l {
      BaseBelow(Step(rx, s[i]), s, i + 1, if rx.left == 0 then |rx.body| else base, l);
    }
  }

  lemma {:induction false} BaseShift(rx: Rx, a: seq<byte>, b: seq<byte>, i: nat, base: nat, l: nat)
    requires i <= |b|
    ensures Base(rx, a + b, |a| + i, base, l) == Base(rx, b, i, base, l)
    decreases |b| - i
  {
    hide Step;
    if i < |b| {
      BaseShift(Step(rx, b[i]), a, b, i + 1, if rx.left == 0 then |rx.body| else base, l);
    }
  }

  /** n bytes of a chunk within the limit leave the base alone. */
  lemma {:induction false} BaseTook(rx: Rx, s: seq<byte>, i: nat, n: nat, base: nat, l: nat)
    requires i + n <= |s| && rx.status.Going? && n <= rx.left && |rx.body| + n <= l
    ensures Base(rx, s, i, base, l) == Base(Took(rx, s, i, n), s, i + n, base, l)
    decreases n
  {
    if n > 0 {
      var rx1 := Step(rx, s[i]);
      BaseTook(rx1, s, i + 1, n - 1, base, l);
      assert rx.body + [s[i]] + s[i + 1..i + n] == rx.body + s[i..i + n];
    } else {
      assert rx.body + s[i..i] == rx.body;
    }
  }

  /** The chunk under way crosses the limit within n bytes. */
  lemma {:induction false} BaseCrossed(rx: Rx, s: seq<byte>, i: nat, n: nat, base: nat, l: nat)
    requires i + n <= |s| && rx.status.Going? && n <= rx.left && |rx.body| <= l < |rx.body| + n
    ensures Base(rx, s, i, base, l) == base
    decreases n
  {
    if |rx.body| < l {
      BaseCrossed(Step(rx, s[i]), s, i + 1, n - 1, base, l);
    }
  }

  /** Received in one piece, a body that is too long is kept up to the chunk that crosses the limit. */
  lemma {:induction false} WholeKeeps(rx: Rx, s: seq<byte>, i: nat, base: nat, l: nat)
    requires i <= |s| && Within(rx, Some(l)) && |Run(rx, s, i).body| > l && (rx.left > 0 ==> base == |rx.body|)
    ensures |Bulk(rx, s, i, Some(l)).body| == Base(rx, s, i, base, l)
    decreases |s| - i
  {
    hide Run, Step;
    if i == |s| {
      RunEnd(rx, s);
    } else if !rx.status.Going? {
      RunStopped(rx, s, i);
    } else if rx.left > 0 {
      var n := Min(|s| - i, rx.left);
      if |rx.body| + n > l {
        BaseCrossed(rx, s, i, n, base, l);
      } else {
        RunPiece(rx, s, i, n);
        BaseTook(rx, s, i, n, base, l);
        if i + n == |s| {
          RunEnd(Took(rx, s, i, n), s);
        }
        WholeKeeps(Took(rx, s, i, n), s, i + n, base, l);
      }
    } else {
      StepNoBody(rx, s[i]);
      RunNext(rx, s, i);
      WholeKeeps(Step(rx, s[i]), s, i + 1, |rx.body|, l);
    }
  }

  /** What one segment keeps when it is refused, and what is left of the base when it is not. */
  lemma {:induction false} SegmentKeeps(rx: Rx, a: seq<byte>, b: seq<byte>, i: nat, base: nat, l: nat)
    requires i <= |a| && Within(rx, Some(l)) && base <= |rx.body|
    ensures var r := Bulk(rx, a, i, Some(l));
            if r.status == Broken(EOVERFLOW) then Base(rx, a + b, i, base, l) <= |r.body|
            else Base(rx, a + b, i, base, l) <= Base(r, b, 0, |r.body|, l)
    decreases |a| - i
  {
    hide Step, Base;
    if i == |a| {
      BaseShift(rx, a, b, 0, base, l);
      BaseGrows(rx, b, 0, base, |rx.body|, l);
    } else if !rx.status.Going? {
      StoppedBase(rx, a + b, i, base, l);
      StoppedBase(rx, b, 0, |rx.body|, l);
    } else if rx.left > 0 {
      var n := Min(|a| - i, rx.left);
      if |rx.body| + n > l {
        BaseCrossed(rx, a + b, i, n, base, l);
      } else {
        BaseTook(rx, a + b, i, n, base, l);
        assert (a + b)[i..i + n] == a[i..i + n];
        SegmentKeeps(Took(rx, a, i, n), a, b, i + n, base, l);
      }
    } else {
      StepNoBody(rx, a[i]);
      BaseNext(rx, a + b, i, base, l);
      SegmentKeeps(Step(rx, a[i]), a, b, i + 1, |rx.body|, l);
    }
  }

  lemma {:induction false} BaseNext(rx: Rx, s: seq<byte>, i: nat, base: nat, l: nat)
    requires i < |s| && rx.left == 0 && |rx.body| <= l
    ensures Base(rx, s, i, base, l) == Base(Step(rx, s[i]), s, i + 1, |rx.body|, l)
  {}

  lemma {:induction false} StoppedBase(rx: Rx, s: seq<byte>, i: nat, base: nat, l: nat)
    requires i <= |s| && !rx.status.Going? && base <= |rx.body| <= l
    ensures Base(rx, s, i, base, l) <= |rx.body| && (base == |rx.body| ==> Base(rx, s, i, base, l) == base)
    decreases |s| - i
  {
    if i < |s| {
      StoppedBase(rx, s, i + 1, if rx.left == 0 then |rx.body| else base, l);
    }
  }

  /** However a body that is too long is cut, the bytes before the crossing chunk are kept. */
  lemma {:induction false} CutKeeps(rx: Rx, segs: Segments, base: nat, l: nat)
    requires Within(rx, Some(l)) && base <= |rx.body| && |Run(rx, Joined(segs), 0).body| > l
    ensures Base(rx, Joined(segs), 0, base, l) <= |FeedBulk(rx, segs, Some(l)).body|
    decreases segs
  {
    hide Run, Bulk, Base;
    match segs
    case NoMore =>
      RunEnd(rx, []);
    case Segment(s, rest) =>
      RunJoin(rx, s, Joined(rest), 0);
      BulkIsRun(rx, s, 0, Some(l));
      RunWithin(rx, s, 0);
      SegmentKeeps(rx, s, Joined(rest), 0, base, l);
      var r := Bulk(rx, s, 0, Some(l));
      if r.status == Broken(EOVERFLOW) {
        FeedStopped(r, rest, Some(l));
      } else {
        CutKeeps(r, rest, |r.body|, l);
      }
  }

  /** The stream from i on, one byte per segment. */
  function Bytewise(s: seq<byte>, i: nat): Segments
    requires i <= |s|
    decreases |s| - i
  {
    if i == |s| then NoMore else Segment([s[i]], Bytewise(s, i + 1))
  }

  lemma {:induction false} BytewiseJoined(s: seq<byte>, i: nat)
    requires i <= |s|
    ensures Joined(Bytewise(s, i)) == s[i..]
    decreases |s| - i
  {
    if i < |s| {
      BytewiseJoined(s, i + 1);
    }
  }

  lemma {:induction false} BulkByte(rx: Rx, c: byte, limit: Option<nat>)
    ensures Bulk(rx, [c], 0, limit) ==
            if rx.status.Going? && rx.left > 0 && Over(limit, |rx.body| + 1) then rx.(status := Broken(EOVERFLOW)) else Step(rx, c)
  {
    if rx.status.Going? {
      if rx.left > 0 {
        assert [c][0..1] == [c];
        BulkEnd(Took(rx, [c], 0, 1), [c], limit);
      } else {
        BulkEnd(Step(rx, c), [c], limit);
      }
    }
  }

  /** Received byte by byte, a body that is too long is kept up to the limit. */
  lemma {:induction false} BytewiseKeeps(rx: Rx, s: seq<byte>, i: nat, l: nat)
    requires i <= |s| && Within(rx, Some(l)) && |Run(rx, s, i).body| > l
    ensures |FeedBulk(rx, Bytewise(s, i), Some(l)).body| == l
    decreases |s| - i
  {
    hide Bulk;
    if i < |s| {
      BulkByte(rx, s[i], Some(l));
      if rx.status.Going? && rx.left > 0 && |rx.body| + 1 > l {
        FeedStopped(rx.(status := Broken(EOVERFLOW)), Bytewise(s, i + 1), Some(l));
      } else {
        BytewiseKeeps(Step(rx, s[i]), s, i + 1, l);
      }
    }
  }

  /** Two ways of cutting the stream keep different bodies. */
  ghost predicate CutsMatter(rx: Rx, s: seq<byte>, limit: Option<nat>) {
    exists one, other :: Joined(one) == s == Joined(other) && FeedBulk(rx, one, limit).body != FeedBulk(rx, other, limit).body
  }

  /**
   * Beyond the limit l, every cut keeps a prefix of the body, as long as the body before the crossing
   * chunk at least and l at most; both bounds are met.
   */
  lemma {:induction false} LimitKeeps(rx: Rx, segs: Segments, l: nat)
    requires Within(rx, Some(l)) && |Run(rx, Joined(segs), 0).body| > l
    ensures var s, r := Joined(segs), FeedBulk(rx, segs, Some(l)).body;
            && r <= Run(rx, s, 0).body && Base(rx, s, 0, |rx.body|, l) <= |r| <= l
            && |FeedBulk(rx, Segment(s, NoMore), Some(l)).body| == Base(rx, s, 0, |rx.body|, l)
            && |FeedBulk(rx, Bytewise(s, 0), Some(l)).body| == l
  {
    hide Run, Base, Bulk;
    FeedIsRun(rx, segs, Some(l));
    CutKeeps(rx, segs, |rx.body|, l);
    WholeKeeps(rx, Joined(segs), 0, |rx.body|, l);
    BytewiseKeeps(rx, Joined(segs), 0, l);
  }

  /** What is kept depends on the cut exactly if the body is too long and the crossing chunk begins before the limit. */
  lemma {:induction false} CutsMatterIff(rx: Rx, s: seq<byte>, limit: Option<nat>)
    requires Within(rx, limit)
    ensures CutsMatter(rx, s, limit) <==>
            limit.Some? && |Run(rx, s, 0).body| > limit.value && Base(rx, s, 0, |rx.body|, limit.value) < limit.value
  {
    hide Run, Base, FeedBulk;
    var whole, bytes := Segment(s, NoMore), Bytewise(s, 0);
    assert Joined(whole) == s;
    BytewiseJoined(s, 0);
    assert Joined(bytes) == s;
    if limit.Some? && |Run(rx, s, 0).body| > limit.value {
      LimitKeeps(rx, whole, limit.value);
      forall one, other | Joined(one) == s == Joined(other) && Base(rx, s, 0, |rx.body|, limit.value) >= limit.value
        ensures FeedBulk(rx, one, limit).body == FeedBulk(rx, other, limit).body
      {
        LimitKeeps(rx, one, limit.value);
        LimitKeeps(rx, other, limit.value);
      }
    } else {
      forall one, other | Joined(one) == s == Joined(other)
        ensures FeedBulk(rx, one, limit).body == FeedBulk(rx, other, limit).body
      {
        CutsDoNotMatter(rx, one, other, limit);
      }
    }
  }

  /** A chunk of three bytes with a limit of two: the stream as received from the beginning. */
  lemma {:induction false} LimitDependsOnCuts()
    ensures CutsMatter(START, [51, CR, LF, 1, 2, 3], Some(2))
  {
    var s: seq<byte> := [51, CR, LF, 1, 2, 3];
    var rx1 := Step(START, 51);
    var rx2 := Step(rx1, CR);
    var rx := Step(rx2, LF);
    assert rx == START.(left := 3);
    RunNext(START, s, 0);
    RunNext(rx1, s, 1);
    RunNext(rx2, s, 2);
    BaseNext(START, s, 0, 0, 2);
    BaseNext(rx1, s, 1, 0, 2);
    BaseNext(rx2, s, 2, 0, 2);
    RunPiece(rx, s, 3, 3);
    BaseCrossed(rx, s, 3, 3, 0, 2);
    RunEnd(Took(rx, s, 3, 3), s);
    CutsMatterIff(START, s, Some(2));
  }

  // ---------------------------------------------------------------- the receiver object

  class Receiver {
    var size: nat
    var lf: nat
    var trailer: bool
    var digit: bool
    var param: bool
    var rxLen: nat
    var body: seq<byte>
    const limit: Option<nat>

    constructor (limit: Option<nat>)
      ensures View() == START && this.limit == limit
    {
      size, lf, trailer, digit, param, rxLen, body := 0, 0, false, false, false, 0, [];
      this.limit := limit;
    }

    /** The receiver between two calls. */
    ghost function View(): Rx
      reads this
    {
      Rx(Chunk(size, lf, trailer, digit, param), rxLen, body, Going)
    }

    /** decode_chunk_size, seen as steps of the automaton up to the end of the size line. */
    method DecodeSize(mb: Mbuf, ghost s: seq<byte>) returns (err: Errno)
      requires mb.Valid() && mb.pos <= mb.end && s == mb.buf[..mb.end] && rxLen == 0 && !trailer
      modifies this, mb`pos
      ensures old(mb.pos) <= mb.pos <= mb.end && rxLen == 0 && !trailer && body == old(body)
      ensures err == ENODATA ==> mb.pos == mb.end && Bulk(old(View()), s, old(mb.pos), limit) == View()
      ensures err == EPROTO ==> Bulk(old(View()), s, old(mb.pos), limit) == View().(status := Broken(EPROTO))
      ensures err == OK ==> old(mb.pos) < mb.pos && !digit && !param
                            && Bulk(old(View()), s, old(mb.pos), limit) == Bulk(SizeRead(View()), s, mb.pos, limit)
      ensures err == OK || err == ENODATA || err == EPROTO
    {
      hide Bulk, Step;
      while mb.Left() > 0
        invariant old(mb.pos) <= mb.pos <= mb.end && rxLen == 0 && !trailer && body == old(body)
        invariant Bulk(old(View()), s, old(mb.pos), limit) == Bulk(View(), s, mb.pos, limit)
        decreases mb.end - mb.pos
      {
        ghost var before := View();
        BulkNext(before, s, mb.pos, limit);
        var ch := mb.ReadU8();
        SizeBytes(before, ch);
        if ch == LF {
          if digit {
            digit, param := false, false;
            return OK;
          }
          continue;
        }
        if param {
          continue;
        }
        var c := Hex(ch);
        if c.None? {
          if ch == CR || ch == SP || ch == TAB {
            continue;
          } else if ch == SEMICOLON && digit {
            param := true;
            continue;
          }
          BulkStopped(Step(before, ch), s, mb.pos, limit);
          return EPROTO;
        }
        digit := true;
        size := (size * 16 + c.value) % SIZE_T;
      }
      BulkEnd(View(), s, limit);
      return ENODATA;
    }

    /** decode_trailer */
    method DecodeTrailer(mb: Mbuf, ghost s: seq<byte>) returns (err: Errno)
      requires mb.Valid() && mb.pos <= mb.end && s == mb.buf[..mb.end] && rxLen == 0 && trailer
      modifies this`lf, mb`pos
      ensures old(mb.pos) <= mb.pos <= mb.end
      ensures err == ENODATA ==> mb.pos == mb.end && Bulk(old(View()), s, old(mb.pos), limit) == View()
      ensures err == OK ==> Bulk(old(View()), s, old(mb.pos), limit) == View().(status := Last)
      ensures err == OK || err == ENODATA
    {
      hide Bulk, Step;
      while mb.Left() > 0
        invariant old(mb.pos) <= mb.pos <= mb.end && Bulk(old(View()), s, old(mb.pos), limit) == Bulk(View(), s, mb.pos, limit)
        decreases mb.end - mb.pos
      {
        ghost var before := View();
        BulkNext(before, s, mb.pos, limit);
        var ch := mb.ReadU8();
        TrailerBytes(before, ch);
        if ch == LF {
          lf := lf + 1;
          if lf >= 2 {
            BulkStopped(Step(before, ch), s, mb.pos, limit);
            return OK;
          }
        } else if ch != CR {
          lf := 0;
        }
      }
      BulkEnd(View(), s, limit);
      return ENODATA;
    }

    /** http_chunk_decode: the size of the next chunk, zero once the trailer is read. */
    method ChunkDecode(mb: Mbuf, ghost s: seq<byte>) returns (err: Errno, n: nat)
      requires mb.Valid() && mb.pos <= mb.end && s == mb.buf[..mb.end] && rxLen == 0
      modifies this, mb`pos
      ensures old(mb.pos) <= mb.pos <= mb.end && rxLen == 0 && body == old(body)
      ensures err == ENODATA ==> mb.pos == mb.end && Bulk(old(View()), s, old(mb.pos), limit) == View()
      ensures err == EPROTO ==> Bulk(old(View()), s, old(mb.pos), limit) == View().(status := Broken(EPROTO))
      ensures err == OK && n == 0 ==> Bulk(old(View()), s, old(mb.pos), limit) == View().(status := Last)
      ensures err == OK && n > 0 ==> old(mb.pos) < mb.pos && Bulk(old(View()), s, old(mb.pos), limit) == Bulk(View().(left := n), s, mb.pos, limit)
      ensures err == OK || err == ENODATA || err == EPROTO
    {
      hide Bulk, Step;
      n := 0;
      if trailer {
        err := DecodeTrailer(mb, s);
        return;
      }
      err := DecodeSize(mb, s);
      if err != OK {
        return;
      }
      if size == 0 {
        trailer, lf := true, 1;
        err := DecodeTrailer(mb, s);
        return;
      }
      n := size;
      size := 0;
    }

    /** write_body: as much as is there of what is still expected, unless that exceeds the limit. */
    method WriteBody(mb: Mbuf, ghost s: seq<byte>) returns (err: Errno)
      requires mb.Valid() && mb.pos < mb.end && s == mb.buf[..mb.end] && rxLen > 0
      modifies this`rxLen, this`body, mb`pos
      ensures old(mb.pos) <= mb.pos <= mb.end && (err == OK || err == EOVERFLOW)
      ensures err == OK ==> old(mb.pos) < mb.pos && !Over(limit, |body|)
                            && Bulk(old(View()), s, old(mb.pos), limit) == Bulk(View(), s, mb.pos, limit)
      ensures err == EOVERFLOW ==> Bulk(old(View()), s, old(mb.pos), limit) == View().(status := Broken(EOVERFLOW))
    {
      hide Bulk;
      var n := Min(mb.Left(), rxLen);
      BulkPiece(View(), s, mb.pos, limit);
      if limit.Some? && |body| + n > limit.value {
        return EOVERFLOW;
      }
      assert s[mb.pos..mb.pos + n] == mb.buf[mb.pos..mb.pos + n];
      body := body + mb.buf[mb.pos..mb.pos + n];
      rxLen := rxLen - n;
      mb.pos := mb.pos + n;
      return OK;
    }

    /**
     * req_recv for a chunked body: state and result after a buffer are those of the automaton in
     * pieces, hence of the plain automaton as long as the body limit is not hit.
     */
    method Recv(mb: Mbuf) returns (err: Errno, last: bool)
      requires mb.Valid() && mb.pos <= mb.end && !Over(limit, |body|)
      modifies this, mb`pos
      ensures var r := Bulk(old(View()), mb.buf[..mb.end], old(mb.pos), limit);
              && View() == r.(status := Going) && last == r.status.Last?
              && err == (if r.status.Broken? then r.status.err else OK)
              && (r.status.Going? ==> mb.pos == mb.end)
    {
      hide Step, Bulk, Over;
      ghost var s := mb.buf[..mb.end];
      last := false;
      while mb.Left() > 0
        invariant mb.Valid() && mb.pos <= mb.end && !last && !Over(limit, |body|)
        invariant Bulk(View(), s, mb.pos, limit) == Bulk(old(View()), s, old(mb.pos), limit)
        decreases mb.end - mb.pos
      {
        if rxLen == 0 {
          var n;
          err, n := ChunkDecode(mb, s);
          if err == ENODATA {
            return OK, false;
          } else if err != OK {
            return err, false;
          } else if n == 0 {
            return OK, true;
          }
          rxLen := n;
        }
        if mb.Left() > 0 {
          err := WriteBody(mb, s);
          if err != OK {
            return;
          }
        }
      }
      BulkEnd(View(), s, limit);
      return OK, false;
    }
  }

  /** The line feed that ends a size line: a chunk, or the trailer after a chunk of size zero. */
  ghost function SizeRead(rx: Rx): Rx {
    if rx.chunk.size == 0 then rx.(chunk := Chunk(0, 1, true, false, false))
    else rx.(chunk := rx.chunk.(size := 0), left := rx.chunk.size)
  }

  lemma {:induction false} SizeBytes(rx: Rx, c: byte)
    requires rx.status.Going? && rx.left == 0 && !rx.chunk.trailer
    ensures Step(rx, c) == SizeStep(rx, c)
    ensures c == LF && rx.chunk.digit ==> Step(rx, c) == SizeRead(rx.(chunk := rx.chunk.(digit := false, param := false)))
  {}

  lemma {:induction false} TrailerBytes(rx: Rx, c: byte)
    requires rx.status.Going? && rx.left == 0 && rx.chunk.trailer
    ensures Step(rx, c) == TrailerStep(rx, c)
  {}

  lemma {:induction false} BulkNext(rx: Rx, s: seq<byte>, i: nat, limit: Option<nat>)
    requires i < |s| && rx.status.Going? && rx.left == 0
    ensures Bulk(rx, s, i, limit) == Bulk(Step(rx, s[i]), s, i + 1, limit)
  {}

  lemma {:induction false} BulkStopped(rx: Rx, s: seq<byte>, i: nat, limit: Option<nat>)
    requires i <= |s| && !rx.status.Going?
    ensures Bulk(rx, s, i, limit) == rx
  {}

  lemma {:induction false} BulkEnd(rx: Rx, s: seq<byte>, limit: Option<nat>)
    ensures Bulk(rx, s, |s|, limit) == rx
  {}

  lemma {:induction false} BulkPiece(rx: Rx, s: seq<byte>, i: nat, limit: Option<nat>)
    requires i < |s| && rx.status.Going? && rx.left > 0
    ensures var n := Min(|s| - i, rx.left);
            Bulk(rx, s, i, limit) == if Over(limit, |rx.body| + n) then rx.(status := Broken(EOVERFLOW))
                                     else Bulk(Took(rx, s, i, n), s, i + n, limit)
  {}
}
