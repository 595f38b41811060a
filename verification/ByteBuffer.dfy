/** The growable byte queue behind every connection, as a FIFO of bytes. */
module ByteBuffer {
  import opened Bytes
  import opened Environment

  const INIT_CAP: nat := 256
  const MAX: nat := 16777216
  const COMPACT_MIN: nat := 4096

  /** `realloc` may refuse. */
  method Realloc(data: array?<byte>, used: nat, size: nat) returns (grown: array?<byte>)
    requires data == null ==> used == 0
    requires data != null ==> used <= data.Length <= size
    ensures grown != null ==> fresh(grown) && grown.Length == size
    ensures grown != null && data != null ==> grown[..used] == data[..used]
    ensures MEMORY_LASTS ==> grown != null
  {
    var granted := Malloc();
    if !granted {
      return null;
    }
    var a := new byte[size](_ => 0);
    if data != null {
      for i := 0 to used
        invariant a[..i] == data[..i]
      {
        a[i] := data[i];
      }
    }
    grown := a;
  }

  /** Capacities reachable by doubling from the initial one. */
  predicate Doubling(cap: nat)
    decreases MAX - cap
  {
    cap == MAX || (0 < cap < MAX && Doubling(2 * cap))
  }

  /** The doubling loop: the first capacity on the ladder with room for `need` bytes after
      `len`. It fails exactly when even the hard cap is too small. */
  method CapacityFor(cap: nat, len: nat, need: nat) returns (fits: bool, newCap: nat)
    requires len <= cap <= MAX && cap - len < need
    requires cap == 0 || (INIT_CAP <= cap && Doubling(cap))
    ensures fits <==> len + need <= 16777216
    ensures fits ==>
              && len + need <= newCap <= 16777216
              && 256 <= newCap && Doubling(newCap)
              && 2 * cap <= newCap
              && (newCap > 256 ==> newCap / 2 < len + need)
  {
    newCap := if cap == 0 then INIT_CAP else cap;
    DoublingFromStart();
    while newCap - len < need
      invariant cap <= newCap <= MAX && INIT_CAP <= newCap && Doubling(newCap)
      invariant newCap > cap ==> newCap >= 2 * cap
      invariant newCap > INIT_CAP ==> newCap / 2 < len + need
      decreases MAX - newCap
    {
      if newCap >= MAX {
        return false, newCap;
      }
      if newCap > MAX / 2 {
        newCap := MAX;
      } else {
        newCap := newCap * 2;
      }
    }
    fits := true;
  }

  class ByteBuf {
    var data: array?<byte>
    var cap: nat
    var len: nat
    var off: nat

    /** Totals over the buffer's life: bytes consumed, bytes moved by the compaction inside
        `Consume`, and bytes copied by growth. */
    ghost var consumed: nat
    ghost var compacted: nat
    ghost var copied: nat

    ghost predicate Valid()
      reads this, data
    {
      && off <= len <= cap <= MAX
      && (cap == 0 <==> data == null)
      && (data != null ==> data.Length == cap && cap >= INIT_CAP && Doubling(cap))
      && compacted + off <= consumed
      && (cap > 0 ==> copied < cap)
      && (cap == 0 ==> copied == 0)
    }

    ghost function Repr(): set<object>
      reads this
    {
      if data == null then {this} else {this, data}
    }

    /** The live bytes, oldest first. */
    function Contents(): (s: bytes)
      requires Valid()
      reads this, data
      ensures |s| == len - off <= 16777216
    {
      if data == null then [] else data[off..len]
    }

    constructor ()
      ensures Valid() && Contents() == [] && fresh(Repr())
      ensures data == null && cap == 0
      ensures consumed == compacted == copied == 0
    {
      data, cap, len, off := null, 0, 0, 0;
      consumed, compacted, copied := 0, 0, 0;
    }

    /** The fields are exactly what they were. */
    ghost predicate Untouched(data0: array?<byte>, cap0: nat, off0: nat, len0: nat)
      reads this
    {
      data == data0 && cap == cap0 && off == off0 && len == len0
    }

    /** The same allocation, with the live bytes moved down to its start. */
    ghost predicate Compacted(data0: array?<byte>, cap0: nat, off0: nat, len0: nat)
      reads this
    {
      data == data0 && cap == cap0 && off == 0 && len == len0 - off0
    }

    /** Move the live bytes down to the start; `moved` counts them. */
    method CompactInPlace() returns (ghost moved: nat)
      requires Valid()
      modifies this`len, this`off, data
      ensures Valid() && Contents() == old(Contents())
      ensures off == 0 && len == old(len - off)
      ensures moved == if old(off) > 0 then |Contents()| else 0
    {
      moved := 0;
      var live := len - off;
      if live > 0 && off > 0 {
        moved := live;
        forall i | 0 <= i < live {
          data[i] := data[off + i];
        }
      }
      len := live;
      off := 0;
    }

    /** Make room for `need` more bytes after the tail: reclaim the head first, then double.
        `refused` tells whether `realloc` was asked for memory and said no. A call that fails has
        moved the live bytes down all the same, so it leaves the fields alone exactly when no byte
        of the head was consumed. */
    method EnsureTailCap(need: nat) returns (ok: bool, ghost refused: bool)
      requires Valid()
      modifies this, data
      ensures Valid() && Contents() == old(Contents())
      ensures ok <==> !refused && |Contents()| + need <= 16777216
      ensures ok ==> cap - len >= need
      ensures refused ==> !MEMORY_LASTS && |Contents()| + need > old(cap)
      ensures off == old(off) || off == 0
      ensures !ok ==> Compacted(old(data), old(cap), old(off), old(len))
      ensures !ok ==> (old(off) == 0 <==> Untouched(old(data), old(cap), old(off), old(len)))
      ensures !ok && old(off) == 0 && data != null ==> data[..] == old(if data != null then data[..] else [])
      ensures consumed == old(consumed) && compacted == old(compacted)
      ensures cap >= old(cap) && (data == old(data) || fresh(data))
    {
      hide Contents, Doubling;
      ok, refused := true, false;
      if cap - len >= need {
        return;
      }
      if off > 0 {
        ghost var _ := CompactInPlace();
        if cap - len >= need {
          return;
        }
      }

      var fits, newCap := CapacityFor(cap, len, need);
      if !fits {
        ok := false;
        return;
      }
      ok := GrowTo(newCap);
      refused := !ok;
    }

    /** Move to a backing array of the given size. */
    method GrowTo(newCap: nat) returns (ok: bool)
      requires Valid() && newCap <= MAX && INIT_CAP <= newCap && Doubling(newCap) && newCap >= 2 * cap
      modifies this`data, this`cap, this`copied
      ensures Valid() && Contents() == old(Contents())
      ensures if ok then cap == newCap else cap == old(cap) && data == old(data)
      ensures MEMORY_LASTS ==> ok
      ensures data == old(data) || fresh(data)
    {
      ghost var live := Contents();
      var newData := Realloc(data, len, newCap);
      if newData == null {
        return false;
      }
      copied := copied + cap;
      data := newData;
      cap := newCap;
      assert data[off..len] == live;
      return true;
    }

    /** Copy `src` to the tail; all of it or nothing. */
    method Append(src: bytes) returns (ok: bool, ghost refused: bool)
      requires Valid()
      modifies this, data
      ensures Valid() && (data == old(data) || fresh(data))
      ensures Contents() == if ok then old(Contents()) + src else old(Contents())
      ensures ok <==> !refused && |old(Contents())| + |src| <= 16777216
      ensures refused ==> !MEMORY_LASTS && |old(Contents())| + |src| > old(cap)
      ensures off == old(off) || off == 0
      ensures !ok ==> Compacted(old(data), old(cap), old(off), old(len))
      ensures !ok ==> (old(off) == 0 <==> Untouched(old(data), old(cap), old(off), old(len)))
      ensures !ok && old(off) == 0 && data != null ==> data[..] == old(if data != null then data[..] else [])
      ensures consumed == old(consumed) && compacted == old(compacted)
    {
      ok, refused := true, false;
      if |src| == 0 {
        assert Contents() + src == Contents();
        return;
      }
      ok, refused := EnsureTailCap(|src|);
      if !ok {
        return;
      }
      Deposit(src);
      Advance(|src|);
    }

    /** Room for `n` bytes after the tail, for a caller that writes them itself. */
    method Reserve(n: nat) returns (ok: bool, ghost refused: bool)
      requires Valid()
      modifies this, data
      ensures Valid() && (data == old(data) || fresh(data))
      ensures Contents() == old(Contents())
      ensures ok <==> !refused && |Contents()| + n <= 16777216
      ensures refused ==> !MEMORY_LASTS && |Contents()| + n > old(cap)
      ensures off == old(off) || off == 0
      ensures !ok ==> Compacted(old(data), old(cap), old(off), old(len))
      ensures !ok ==> (old(off) == 0 <==> Untouched(old(data), old(cap), old(off), old(len)))
      ensures !ok && old(off) == 0 && data != null ==> data[..] == old(if data != null then data[..] else [])
      ensures ok ==> cap - len >= n
      ensures consumed == old(consumed) && compacted == old(compacted)
    {
      ok, refused := EnsureTailCap(n);
    }

    /** Bytes written into the spare tail; they are not live until `Advance`. */
    method Deposit(src: bytes)
      requires Valid() && |src| <= cap - len
      modifies data
      ensures Valid() && Contents() == old(Contents())
      ensures Spare(|src|) == src
    {
      forall i | 0 <= i < |src| {
        data[len + i] := src[i];
      }
    }

    /** The first `n` bytes after the tail. */
    ghost function Spare(n: nat): (s: bytes)
      requires Valid() && n <= cap - len
      reads this, data
      ensures |s| == n
    {
      if data == null then [] else data[len..len + n]
    }

    /** Make `n` deposited bytes live, clamped to the capacity. */
    method Advance(n: nat)
      requires Valid()
      modifies this`len
      ensures Valid()
      ensures Contents() == old(Contents()) + old(Spare(if n > cap - len then cap - len else n))
    {
      var m := n;
      if m > cap - len {
        m := cap - len;
      }
      ghost var spare := Spare(m);
      len := len + m;
      if data != null {
        assert data[off..len] == data[off..len - m] + data[len - m..len];
      }
    }

    /** Drop the `n` oldest bytes, clamped to what is live. The consumed head never outgrows both the
        threshold and half of the capacity. */
    method Consume(n: nat)
      requires Valid()
      modifies this, data
      ensures Valid() && data == old(data)
      ensures var m := if n > |old(Contents())| then |old(Contents())| else n;
              && Contents() == old(Contents())[m..]
              && consumed == old(consumed) + m
              && compacted == old(compacted) + if off == old(off) + m then 0 else |Contents()|
      ensures (off <= 4096 || off <= cap / 2) && (off == len ==> off == 0)
      ensures n < |old(Contents())| && (old(off) + n <= 4096 || old(off) + n <= cap / 2) ==> off == old(off) + n
      ensures copied == old(copied)
    {
      hide Doubling;
      var live := len - off;
      var m := n;
      if m > live {
        m := live;
      }
      off := off + m;
      consumed := consumed + m;
      if off == len {
        off, len := 0, 0;
        return;
      }
      if off > COMPACT_MIN && off > cap / 2 {
        ghost var moved := CompactInPlace();
        compacted := compacted + moved;
      }
    }

    /** Forget the contents, keep the allocation. */
    method Reset()
      requires Valid()
      modifies this`len, this`off
      ensures Valid() && Contents() == [] && cap == old(cap) && data == old(data)
    {
      len, off := 0, 0;
    }

    /** Release the allocation. */
    method Free()
      requires Valid()
      modifies this
      ensures Valid() && Contents() == [] && cap == 0
    {
      data := null;
      cap, len, off, copied := 0, 0, 0, 0;
    }
  }

  /** A reserve that fails and moves the fields: two bytes queued, one consumed, more asked for than
      the cap allows. `granted` tells whether the first allocation was. */
  method FailedReserveMoves() returns (b: ByteBuf, granted: bool, ok: bool, ghost off0: nat, ghost len0: nat)
    ensures MEMORY_LASTS ==> granted
    ensures granted ==> off0 == 1 && len0 == 2 && !ok && b.off == 0 && b.len == 1
  {
    b := new ByteBuf();
    ghost var refused;
    granted, refused := b.Append([0, 0]);
    ok, off0, len0 := true, 0, 0;
    if granted {
      b.Consume(1);
      off0, len0 := b.off, b.len;
      ok, refused := b.Reserve(MAX);
    }
  }

  lemma DoublingFromStart()
    ensures Doubling(INIT_CAP)
  {
    assert Doubling(MAX);
    assert Doubling(1048576);
    assert Doubling(65536);
    assert Doubling(4096);
  }

  function Pow2(k: nat): nat {
    if k == 0 then 1 else 2 * Pow2(k - 1)
  }

  /** Every capacity of an allocated buffer is 256 * 2^k. */
  lemma {:induction false} CapacityIsPowerOfTwo(cap: nat) returns (k: nat)
    requires INIT_CAP <= cap <= MAX && Doubling(cap)
    ensures k <= 16 && cap == 256 * Pow2(k)
    decreases MAX - cap
  {
    if cap == MAX {
      k := 16;
      assert Pow2(4) == 16;
      assert Pow2(8) == 256;
      assert Pow2(12) == 4096;
      assert Pow2(16) == 65536;
    } else {
      k := CapacityIsPowerOfTwo(2 * cap);
      assert k > 0;
      k := k - 1;
    }
  }
}
