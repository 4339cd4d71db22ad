/** Octets, network byte order, C strings and error codes shared by every component. */
module Bytes {

  type byte = x: int | 0 <= x < 0x100
  type u16 = x: int | 0 <= x < 0x1_0000
  type u32 = x: int | 0 <= x < 0x1_0000_0000
  type i64 = x: int | -0x8000_0000_0000_0000 <= x < 0x8000_0000_0000_0000

  /** The bytes of a C string before its terminator. */
  type cstr = s: seq<byte> | 0 !in s

  datatype Option<+T> = None | Some(value: T)

  datatype Errno =
    | OK | EINVAL | EBADMSG | ENODATA | ENOSYS | ENOMEM | ENOENT | EOVERFLOW
    | ERANGE | EPROTO | ECANCELED | ETIMEDOUT | ENOTSUP | EBUSY | EINTR

  datatype Result<+T> = Success(value: T) | Failure(err: Errno) {
    predicate IsFailure() { Failure? }
    function PropagateFailure<U>(): Result<U>
      requires Failure?
    { Failure(err) }
    function Extract(): T
      requires Success?
    { value }
  }

  /** htons followed by a 16-bit store. */
  function Be16(v: u16): (b: seq<byte>)
    ensures |b| == 2 && Get16(b, 0) == v && b[0] as int * 0x100 + b[1] == v
  {
    [v / 0x100, v % 0x100]
  }

  /** htonl followed by a 32-bit store. */
  function Be32(v: u32): (b: seq<byte>)
    ensures |b| == 4 && Get32(b, 0) == v
  {
    Be16(v / 0x1_0000) + Be16(v % 0x1_0000)
  }

  function Get16(b: seq<byte>, p: nat): u16
    requires p + 2 <= |b|
  {
    b[p] as int * 0x100 + b[p + 1]
  }

  function Get32(b: seq<byte>, p: nat): u32
    requires p + 4 <= |b|
  {
    Get16(b, p) * 0x1_0000 + Get16(b, p + 2)
  }

  /** Position of the first zero byte at or behind i. */
  function NulAt(s: seq<byte>, i: nat): (k: nat)
    requires i <= |s|
    ensures i <= k <= |s| && (k < |s| ==> s[k] == 0)
    ensures forall j {:trigger s[j]} :: i <= j < k ==> s[j] != 0
    decreases |s| - i
  {
    if i == |s| || s[i] == 0 then i else NulAt(s, i + 1)
  }

  /** What a reader of a char array sees: everything before the first zero byte. */
  function CString(s: seq<byte>): (r: cstr)
    ensures r <= s && (|r| < |s| ==> s[|r|] == 0)
    ensures 0 !in s ==> r == s
  {
    var k := NulAt(s, 0);
    assert k < |s| ==> s[k] in s;
    s[..k]
  }

  /** b holds d from position p on. */
  ghost predicate HoldsAt(b: seq<byte>, p: nat, d: seq<byte>) {
    p + |d| <= |b| && b[p..p + |d|] == d
  }

  lemma {:induction false} HoldsAtSplit(b: seq<byte>, p: nat, d: seq<byte>, e: seq<byte>)
    ensures HoldsAt(b, p, d + e) <==> HoldsAt(b, p, d) && HoldsAt(b, p + |d|, e)
  {
    if p + |d| + |e| <= |b| {
      var w := b[p..p + |d| + |e|];
      assert w == b[p..p + |d|] + b[p + |d|..p + |d| + |e|];
      assert w[..|d|] == b[p..p + |d|] && w[|d|..] == b[p + |d|..p + |d| + |e|];
      if w == d + e {
        assert w[..|d|] == d && w[|d|..] == e;
      }
    }
  }

  lemma {:induction false} HoldsAtIndex(b: seq<byte>, p: nat, d: seq<byte>, i: nat)
    requires HoldsAt(b, p, d) && i < |d|
    ensures b[p + i] == d[i]
  {
    assert b[p..p + |d|][i] == d[i];
  }

  lemma {:induction false} Holds16(b: seq<byte>, p: nat, v: u16)
    requires HoldsAt(b, p, Be16(v))
    ensures Get16(b, p) == v
  {
    HoldsAtIndex(b, p, Be16(v), 0);
    HoldsAtIndex(b, p, Be16(v), 1);
  }

  lemma {:induction false} Holds32(b: seq<byte>, p: nat, v: u32)
    requires HoldsAt(b, p, Be32(v))
    ensures Get32(b, p) == v
  {
    HoldsAtSplit(b, p, Be16(v / 0x1_0000), Be16(v % 0x1_0000));
    Holds16(b, p, v / 0x1_0000);
    Holds16(b, p + 2, v % 0x1_0000);
  }
}
