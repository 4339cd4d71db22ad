/** The ring-buffer FIR filter computes the clamped convolution over all samples since its reset. */
module Fir {

  type i16 = x: int | -0x8000 <= x < 0x8000

  const WORD: int := 0x1_0000_0000
  const HISTORY := 256

  // ---------------------------------------------------------------- remainders

  lemma {:induction false} MulAtLeast(x: int, n: int)
    requires x >= 1 && n >= 0
    ensures x * n >= n
  {
    if x > 1 {
      MulAtLeast(x - 1, n);
      assert x * n == (x - 1) * n + n;
    }
  }

  lemma {:induction false} MulMinus(p: int, q: int, n: int)
    ensures (p - q) * n == p * n - q * n
  {}

  lemma {:induction false} ModUnique(a: int, q: int, r: int, n: int)
    requires n > 0 && a == q * n + r && 0 <= r < n
    ensures a % n == r
  {
    var q', r' := a / n, a % n;
    assert a == q' * n + r';
    if q > q' {
      MulMinus(q, q', n);
      MulAtLeast(q - q', n);
    } else if q < q' {
      MulMinus(q', q, n);
      MulAtLeast(q' - q, n);
    }
  }

  lemma {:induction false} ModAdd(a: int, k: int, n: int)
    requires n > 0
    ensures (a + k * n) % n == a % n
  {
    ModUnique(a + k * n, a / n + k, a % n, n);
  }

  /** Positions less than n apart have different slots in a ring of n. */
  lemma {:induction false} ModDiffers(a: int, d: int, n: int)
    requires 0 < d < n
    ensures (a - d) % n != a % n
  {
    var q, r := a / n, a % n;
    if d <= r {
      ModUnique(a - d, q, r - d, n);
    } else {
      ModUnique(a - d, q - 1, r - d + n, n);
    }
  }

  /** Masking after a 32-bit wrap is masking without it, because the ring divides the word. */
  lemma {:induction false} MaskWraps(v: int, n: int, c: int)
    requires n > 0 && n * c == WORD
    ensures v % WORD % n == v % n
  {
    var q := v / WORD;
    assert v == v % WORD + q * (n * c);
    assert q * (n * c) == (q * c) * n;
    ModAdd(v % WORD, q * c, n);
  }

  lemma {:induction false} WrapSub(v: int, d: int)
    ensures (v % WORD - d) % WORD == (v - d) % WORD
  {
    ModAdd(v % WORD - d, v / WORD, WORD);
  }

  // ---------------------------------------------------------------- the mask

  predicate RingSize(n: int) {
    n == 1 || n == 2 || n == 4 || n == 8 || n == 16 || n == 32 || n == 64 || n == 128 || n == 256
  }

  /** The bits that a and b have in common. */
  function And(a: nat, b: nat): nat
    decreases a
  {
    if a == 0 then 0 else 2 * And(a / 2, b / 2) + if a % 2 == 1 && b % 2 == 1 then 1 else 0
  }

  predicate PowerOfTwo(n: nat) {
    n == 1 || (n > 0 && n % 2 == 0 && PowerOfTwo(n / 2))
  }

  lemma {:induction false} AndSelf(a: nat)
    ensures And(a, a) == a
    decreases a
  {
    if a > 0 {
      AndSelf(a / 2);
    }
  }

  /** The test that accepts a mask: it has no bit in common with its successor exactly if that is a power of two. */
  lemma {:induction false} MaskTest(h: nat)
    ensures And(h, h + 1) == 0 <==> PowerOfTwo(h + 1)
    decreases h
  {
    if h % 2 == 1 {
      assert (h + 1) / 2 == h / 2 + 1;
      MaskTest(h / 2);
    } else if h > 0 {
      assert (h + 1) / 2 == h / 2;
      AndSelf(h / 2);
    }
  }

  lemma {:induction false} SmallPowers(n: nat)
    requires 1 <= n <= HISTORY
    ensures PowerOfTwo(n) <==> RingSize(n)
    decreases n
  {
    if n % 2 == 0 {
      SmallPowers(n / 2);
    }
  }

  /** The guard of the filter: the mask is below the size of the history and passes the test. */
  method Accepts(n: nat) returns (ok: bool)
    ensures ok <==> RingSize(n)
  {
    if n == 0 || n - 1 >= HISTORY {
      return false;
    }
    MaskTest(n - 1);
    SmallPowers(n);
    return And(n - 1, n) == 0;
  }

  lemma {:induction false} RingDivides(n: int) returns (c: int)
    requires RingSize(n)
    ensures n > 0 && n * c == WORD
  {
    c := WORD / n;
  }

  // ---------------------------------------------------------------- the convolution

  /** Sample m since the reset; silence before it. */
  function Sample(s: seq<i16>, m: int): i16 {
    if 0 <= m < |s| then s[m] else 0
  }

  /** Taps from the i-th on, applied to the samples of the same channel up to position k. */
  function Conv(s: seq<i16>, k: int, taps: seq<i16>, ch: nat, i: nat): int
    requires i <= |taps|
    decreases |taps| - i
  {
    if i == |taps| then 0 else Sample(s, k - i * ch) as int * taps[i] + Conv(s, k, taps, ch, i + 1)
  }

  /** Saturation to 30 bits and scaling by 2^-15. */
  function Scaled(acc: int): (r: i16)
    ensures -0x4000_0000 <= acc < 0x4000_0000 ==> 0x8000 * r as int <= acc < 0x8000 * (r as int + 1)
    ensures acc >= 0x4000_0000 ==> r == 0x7fff
    ensures acc < -0x4000_0000 ==> r == -0x8000
  {
    if acc > 0x3fff_ffff then 0x3fff_ffff / 0x8000
    else if acc < -0x4000_0000 then -0x4000_0000 / 0x8000
    else acc / 0x8000
  }

  /** Later samples do not matter. */
  lemma {:induction false} ConvPast(s: seq<i16>, t: seq<i16>, k: int, taps: seq<i16>, ch: nat, i: nat)
    requires i <= |taps| && k < |s|
    ensures Conv(s + t, k, taps, ch, i) == Conv(s, k, taps, ch, i)
    decreases |taps| - i
  {
    if i < |taps| {
      ConvPast(s, t, k, taps, ch, i + 1);
      assert i * ch >= 0;
    }
  }

  /** A single sample among silence comes out as the taps, one after the other, in its own channel only. */
  lemma {:induction false} ImpulseResponse(s: seq<i16>, p: nat, k: int, taps: seq<i16>, ch: nat, i: nat)
    requires i <= |taps| && ch > 0 && p < |s| && forall m :: 0 <= m < |s| && m != p ==> s[m] == 0
    ensures forall j :: i <= j < |taps| && k - p == j * ch ==> Conv(s, k, taps, ch, i) == s[p] as int * taps[j]
    ensures (forall j :: i <= j < |taps| ==> k - p != j * ch) ==> Conv(s, k, taps, ch, i) == 0
    decreases |taps| - i
  {
    if i < |taps| {
      ImpulseResponse(s, p, k, taps, ch, i + 1);
      forall j | i < j < |taps|
        ensures j * ch != i * ch
      {
        MulMinus(j, i, ch);
        MulAtLeast(j - i, ch);
      }
    }
  }

  /** The response to a sum of two inputs is the sum of the responses. */
  lemma {:induction false} Superposition(s: seq<i16>, t: seq<i16>, u: seq<i16>, k: int, taps: seq<i16>, ch: nat, i: nat)
    requires i <= |taps| && |s| == |t| == |u| && forall m :: 0 <= m < |u| ==> u[m] as int == s[m] as int + t[m]
    ensures Conv(u, k, taps, ch, i) == Conv(s, k, taps, ch, i) + Conv(t, k, taps, ch, i)
    decreases |taps| - i
  {
    if i < |taps| {
      Superposition(s, t, u, k, taps, ch, i + 1);
      var m := k - i * ch;
      assert Sample(u, m) as int == Sample(s, m) as int + Sample(t, m);
    }
  }

  // ---------------------------------------------------------------- the filter

  /** The ring of n slots holds the last n samples. */
  ghost predicate Remembers(history: seq<i16>, s: seq<i16>, n: int) {
    0 < n <= |history| && forall d :: 0 < d <= n ==> Slot(history, s, n, d)
  }

  /** The sample d steps back from the end is in its slot. */
  ghost predicate Slot(history: seq<i16>, s: seq<i16>, n: int, d: int)
    requires 0 < n <= |history|
  {
    history[(|s| - d) % n] == Sample(s, |s| - d)
  }

  lemma {:induction false} RemembersSilence(history: seq<i16>, n: int)
    requires 0 < n <= |history| && forall i :: 0 <= i < |history| ==> history[i] == 0
    ensures Remembers(history, [], n)
  {}

  lemma {:induction false} RemembersNext(history: seq<i16>, s: seq<i16>, n: int, x: i16)
    requires Remembers(history, s, n)
    ensures Remembers(history[|s| % n := x], s + [x], n)
  {
    var s', h' := s + [x], history[|s| % n := x];
    forall d | 0 < d <= n
      ensures Slot(h', s', n, d)
    {
      if d > 1 {
        ModDiffers(|s|, d - 1, n);
        assert |s'| - d == |s| - (d - 1);
        assert Slot(history, s, n, d - 1);
      }
    }
  }

  class Filter {
    var history: array<i16>
    var index: nat
    ghost var input: seq<i16>       // every sample since the reset

    /** The filter serves a ring of n slots. */
    ghost predicate Valid(n: int)
      reads this, history
    {
      history.Length == HISTORY && index == |input| % WORD && Remembers(history[..], input, n)
    }

    /** fir_reset */
    constructor ()
      ensures fresh(history) && input == [] && forall n :: 0 < n <= HISTORY ==> Valid(n)
    {
      history := new i16[HISTORY](_ => 0);
      index, input := 0, [];
      new;
      forall n | 0 < n <= HISTORY
        ensures Remembers(history[..], [], n)
      {
        RemembersSilence(history[..], n);
      }
    }

    /** The sum over the taps for the sample just stored. */
    method Accumulate(ch: nat, taps: seq<i16>, n: int, ghost s: seq<i16>, ghost k: nat) returns (acc: int)
      requires history.Length == HISTORY && RingSize(n) && n == ch * |taps|
      requires |s| == k + 1 && Remembers(history[..], s, n) && index == k % WORD
      ensures acc == Conv(s, k, taps, ch, 0)
    {
      hide Remembers;
      acc := 0;
      var i, j := 0, index;
      while i < |taps|
        invariant i <= |taps| && j == (k - i * ch) % WORD && acc + Conv(s, k, taps, ch, i) == Conv(s, k, taps, ch, 0)
      {
        Recall(history[..], s, n, k, i, ch, |taps|);
        acc := acc + history[j % n] as int * taps[i];
        WrapSub(k - i * ch, ch);
        assert k - i * ch - ch == k - (i + 1) * ch;
        i, j := i + 1, (j - ch) % WORD;
      }
    }

    /**
     * fir_filter, also in place: out may be the same array as samples. Nothing happens unless the
     * channels times the taps are a power of two up to the size of the history.
     */
    method Process(out: array<i16>, samples: array<i16>, inc: nat, ch: nat, taps: seq<i16>)
      requires history != out && history != samples && inc <= out.Length && inc <= samples.Length
      requires RingSize(ch * |taps|) ==> Valid(ch * |taps|)
      modifies this, history, out
      ensures history == old(history)
      ensures !RingSize(ch * |taps|) ==> input == old(input) && index == old(index) && history[..] == old(history[..]) && out[..] == old(out[..])
      ensures RingSize(ch * |taps|) ==> Valid(ch * |taps|) && input == old(input) + old(samples[..inc])
      ensures RingSize(ch * |taps|) ==>
        forall m {:trigger out[m]} :: 0 <= m < inc ==> out[m] == Scaled(Conv(input, |old(input)| + m, taps, ch, 0))
      ensures forall m {:trigger out[m]} :: inc <= m < out.Length ==> out[m] == old(out[m])
    {
      hide Remembers, Scaled, Conv, RingSize;
      var n := ch * |taps|;
      var ok := Accepts(n);
      if !ok {
        return;
      }
      ghost var was, todo := input, samples[..inc];
      var m := 0;
      assert was + todo[..0] == was;
      while m < inc
        invariant m <= inc && history == old(history) && Valid(n) && input == was + todo[..m]
        invariant forall i :: m <= i < inc ==> samples[i] == todo[i]
        invariant forall i {:trigger out[i]} :: 0 <= i < m ==> out[i] == Scaled(Conv(input, |was| + i, taps, ch, 0))
        invariant forall i {:trigger out[i]} :: inc <= i < out.Length ==> out[i] == old(out[i])
      {
        ghost var before := input;
        var x := samples[m];
        var y := Step(x, ch, taps, n);
        Outputs(out[..m], was, before, x, taps, ch);
        out[m] := y;
        assert before + [x] == was + todo[..m + 1] by { assert todo[..m + 1] == todo[..m] + [x]; }
        m := m + 1;
      }
      assert todo[..inc] == todo;
    }

    /** One sample in, one sample out. */
    method Step(x: i16, ch: nat, taps: seq<i16>, n: int) returns (y: i16)
      requires n == ch * |taps| && RingSize(n) && Valid(n)
      modifies this, history
      ensures history == old(history) && Valid(n) && input == old(input) + [x]
      ensures y == Scaled(Conv(input, |old(input)|, taps, ch, 0))
    {
      hide Remembers, Conv;
      ghost var k := |input|;
      var c := RingDivides(n);
      MaskWraps(k, n, c);
      RemembersNext(history[..], input, n, x);
      ghost var h := history[..];
      history[index % n] := x;
      assert history[..] == h[k % n := x];
      input := input + [x];
      var acc := Accumulate(ch, taps, n, input, k);
      WrapSub(k, -1);
      index := (index + 1) % WORD;
      y := Scaled(acc);
    }
  }

  /** Tap i finds its sample in the ring. */
  lemma {:induction false} Recall(history: seq<i16>, s: seq<i16>, n: int, k: nat, i: nat, ch: nat, tapc: nat)
    requires RingSize(n) && n == ch * tapc && i < tapc && |s| == k + 1 && Remembers(history, s, n)
    ensures 0 <= (k - i * ch) % WORD % n < |history| && history[(k - i * ch) % WORD % n] == Sample(s, k - i * ch)
  {
    hide Remembers;
    var c := RingDivides(n);
    MaskWraps(k - i * ch, n, c);
    var d := 1 + i * ch;
    Within(i, ch, tapc);
    RecallSlot(history, s, n, d);
    assert |s| - d == k - i * ch;
  }

  lemma {:induction false} Within(i: nat, ch: nat, tapc: nat)
    requires i < tapc && 0 < ch * tapc
    ensures 0 < ch && i * ch + ch <= ch * tapc
  {
    assert ch > 0;
    MulMinus(tapc, i, ch);
    MulAtLeast(tapc - i, ch);
    assert tapc * ch == ch * tapc;
  }

  lemma {:induction false} RecallSlot(history: seq<i16>, s: seq<i16>, n: int, d: int)
    requires Remembers(history, s, n) && 0 < d <= n
    ensures 0 < n <= |history| && history[(|s| - d) % n] == Sample(s, |s| - d)
  {
    assert Slot(history, s, n, d);
  }

  /** Outputs so far stay right when another sample comes in. */
  lemma {:induction false} Outputs(out: seq<i16>, was: seq<i16>, before: seq<i16>, x: i16, taps: seq<i16>, ch: nat)
    requires |before| == |was| + |out|
    requires forall i {:trigger out[i]} :: 0 <= i < |out| ==> out[i] == Scaled(Conv(before, |was| + i, taps, ch, 0))
    ensures forall i {:trigger out[i]} :: 0 <= i < |out| ==> out[i] == Scaled(Conv(before + [x], |was| + i, taps, ch, 0))
  {
    forall i | 0 <= i < |out|
      ensures out[i] == Scaled(Conv(before + [x], |was| + i, taps, ch, 0))
    {
      ConvPast(before, [x], |was| + i, taps, ch, 0);
    }
  }
}
