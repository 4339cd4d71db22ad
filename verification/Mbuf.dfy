/** Growable memory buffers with a read/write position and an end mark. */
module MemoryBuffer {
  import opened Bytes

  const DEFAULT_SIZE := 512

  /** now is was, grown if need be, with d stored at position p and nothing else changed. */
  ghost predicate Patched(was: seq<byte>, now: seq<byte>, p: nat, d: seq<byte>) {
    && |was| <= |now|
    && HoldsAt(now, p, d)
    && forall i :: 0 <= i < |was| && !(p <= i < p + |d|) ==> now[i] == was[i]
  }

  lemma {:induction false} PatchedRoom(was: seq<byte>, now: seq<byte>, p: nat, d: seq<byte>)
    requires Patched(was, now, p, d)
    ensures p + |d| <= |now| && |was| <= |now|
  {}

  /** Two stores next to each other are one store. */
  lemma {:induction false} PatchedAppend(a: seq<byte>, b: seq<byte>, c: seq<byte>, p: nat, d: seq<byte>, e: seq<byte>)
    requires Patched(a, b, p, d) && Patched(b, c, p + |d|, e)
    ensures Patched(a, c, p, d + e)
  {
    assert HoldsAt(c, p, d) by {
      assert forall i :: p <= i < p + |d| ==> c[i] == b[i];
      assert c[p..p + |d|] == b[p..p + |d|];
    }
    HoldsAtSplit(c, p, d, e);
  }

  /** Overwriting part of what was stored: the back-patch of a length field. */
  lemma {:induction false} PatchedInside(a: seq<byte>, b: seq<byte>, c: seq<byte>,
                      p: nat, d: seq<byte>, q: nat, e: seq<byte>)
    requires Patched(a, b, p, d) && Patched(b, c, q, e)
    requires p <= q && q + |e| <= p + |d|
    ensures Patched(a, c, p, d[..q - p] + e + d[q - p + |e|..])
  {
    var f := d[..q - p] + e + d[q - p + |e|..];
    forall i | 0 <= i < |f|
      ensures c[p..p + |f|][i] == f[i]
    {
      if q - p <= i < q - p + |e| {
        HoldsAtIndex(c, q, e, i - (q - p));
      } else {
        HoldsAtIndex(b, p, d, i);
      }
    }
  }

  class Mbuf {
    var buf: seq<byte>    // allocated storage; its length is the C field size
    var pos: nat
    var end: nat

    ghost predicate Valid()
      reads this
    {
      end <= |buf|
    }

    constructor (size: nat)
      ensures Valid() && pos == 0 && end == 0
      ensures |buf| == if size == 0 then DEFAULT_SIZE else size
    {
      pos, end := 0, 0;
      var n := if size == 0 then DEFAULT_SIZE else size;
      buf := seq(n, _ => 0);
    }

    /** Wraps existing bytes for reading. */
    constructor Wrap(b: seq<byte>)
      ensures Valid() && pos == 0 && end == |b| && buf == b
    {
      buf, pos, end := b, 0, |b|;
    }

    function Left(): (n: nat)
      reads this
      ensures n > 0 <==> pos < end
      ensures n > 0 ==> pos + n == end
    {
      if end > pos then end - pos else 0
    }

    /** mbuf_resize: storage keeps its old bytes as far as they fit; new ones hold anything. */
    method Resize(size: nat)
      modifies `buf
      ensures |buf| == size && forall i :: 0 <= i < size && i < |old(buf)| ==> buf[i] == old(buf)[i]
    {
      if size <= |buf| {
        buf := buf[..size];
        return;
      }
      var junk: seq<byte> :| |junk| == size - |buf| by {
        ghost var zeros: seq<byte> := seq(size - |buf|, _ => 0);
        assert |zeros| == size - |buf|;
      }
      buf := buf + junk;
    }

    method WriteMem(data: seq<byte>)
      requires Valid()
      modifies this
      ensures Valid() && Patched(old(buf), buf, old(pos), data)
      ensures pos == old(pos) + |data|
      ensures end == if old(end) < pos then pos else old(end)
      ensures pos <= |old(buf)| ==> |buf| == |old(buf)|
      ensures pos > |old(buf)| ==> |buf| == var twice := if old(buf) == [] then DEFAULT_SIZE else 2 * |old(buf)|; if pos > twice then pos else twice
    {
      var rsize := pos + |data|;
      if rsize > |buf| {
        var dsize := if |buf| > 0 then |buf| * 2 else DEFAULT_SIZE;
        Resize(if rsize > dsize then rsize else dsize);
      }
      buf := buf[..pos] + data + buf[pos + |data|..];
      assert buf[pos..pos + |data|] == data;
      pos := rsize;
      end := if end < pos then pos else end;
    }

    /** mb->buf[p] = v */
    method Poke(p: nat, v: byte)
      requires Valid() && p < |buf|
      modifies `buf
      ensures Valid() && Patched(old(buf), buf, p, [v])
    {
      buf := buf[p := v];
      assert buf[p..p + 1] == [v];
    }

    method WriteU8(v: byte)
      requires Valid()
      modifies this
      ensures Valid() && Patched(old(buf), buf, old(pos), [v])
      ensures pos == old(pos) + 1
      ensures end == if old(end) < pos then pos else old(end)
    {
      WriteMem([v]);
    }

    /** mbuf_write_u16 of a value already put in network order. */
    method WriteU16(v: u16)
      requires Valid()
      modifies this
      ensures Valid() && Patched(old(buf), buf, old(pos), Be16(v))
      ensures pos == old(pos) + 2
      ensures end == if old(end) < pos then pos else old(end)
    {
      WriteMem(Be16(v));
    }

    method WriteU32(v: u32)
      requires Valid()
      modifies this
      ensures Valid() && Patched(old(buf), buf, old(pos), Be32(v))
      ensures pos == old(pos) + 4
      ensures end == if old(end) < pos then pos else old(end)
    {
      WriteMem(Be32(v));
    }

    /** Reading past the end changes nothing and fails. */
    method ReadMem(n: nat) returns (err: Errno, data: seq<byte>)
      requires Valid()
      modifies `pos
      ensures n > old(Left()) ==> err == EOVERFLOW && pos == old(pos) && data == []
      ensures n <= old(Left()) ==>
        err == OK && pos == old(pos) + n && (n > 0 ==> pos <= end && data == buf[old(pos)..pos])
        && |data| == n
    {
      if n > Left() {
        return EOVERFLOW, [];
      }
      err := OK;
      data := if n == 0 then [] else buf[pos..pos + n];
      pos := pos + n;
    }

    method ReadU8() returns (v: byte)
      requires Valid()
      modifies `pos
      ensures old(Left()) >= 1 ==> pos == old(pos) + 1 && v == buf[old(pos)]
      ensures old(Left()) < 1 ==> pos == old(pos) && v == 0
    {
      var err, d := ReadMem(1);
      v := if err == OK then d[0] else 0;
    }

    method ReadU16() returns (v: u16)
      requires Valid()
      modifies `pos
      ensures old(Left()) >= 2 ==> pos == old(pos) + 2 && v == Get16(buf, old(pos))
      ensures old(Left()) < 2 ==> pos == old(pos) && v == 0
    {
      var err, d := ReadMem(2);
      v := if err == OK then Get16(d, 0) else 0;
    }

    method ReadU32() returns (v: u32)
      requires Valid()
      modifies `pos
      ensures old(Left()) >= 4 ==> pos == old(pos) + 4 && v == Get32(buf, old(pos))
      ensures old(Left()) < 4 ==> pos == old(pos) && v == 0
    {
      var err, d := ReadMem(4);
      v := if err == OK then Get32(d, 0) else 0;
    }
  }
}
