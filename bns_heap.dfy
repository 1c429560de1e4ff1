/**
 * The pooled storage the containers live in: one flat pool of numeric slots
 * addressed by integer offset, and an allocator that hands out contiguous
 * regions of it.  The containers rely only on the contracts of Malloc,
 * Extend, Free, Get and Set; the bodies are a minimal bump allocator that
 * stands in for the real one, whose internals are not part of this model.
 */
module BNSHeap {

  /** The handle the allocator returns when it has no room. */
  const Fail: int := -1

  /** No live block overlaps the region [q, q + n). */
  ghost predicate Disjoint(q: int, n: int, blocks: map<int, nat>)
  {
    forall b :: b in blocks ==> b + blocks[b] <= q || q + n <= b
  }

  class Heap {
    /** The pool itself; its size is fixed. */
    const slots: array<real>
    /** Live blocks: base offset -> number of reserved slots. */
    var blocks: map<int, nat>
    /** First slot never handed out. */
    var top: nat

    ghost predicate Valid()
      reads this
    {
      top <= slots.Length &&
      forall b :: b in blocks ==> 0 <= b && 0 < blocks[b] && b + blocks[b] <= top
    }

    constructor (n: nat)
      ensures Valid() && fresh(slots)
      ensures slots.Length == n && blocks == map[]
    {
      slots := new real[n](_ => 0.0);
      blocks := map[];
      top := 0;
    }

    /** Reads one slot of the pool. */
    function Get(addr: int): real
      reads slots
      requires 0 <= addr < slots.Length
    {
      slots[addr]
    }

    /** Writes one slot of the pool and no other. */
    method Set(addr: int, v: real)
      requires 0 <= addr < slots.Length
      modifies slots
      ensures slots[..] == old(slots[..])[addr := v]
    {
      slots[addr] := v;
    }

    /** Reserves n slots: Fail, or the base of a fresh region inside the pool. */
    method Malloc(n: int) returns (p: int)
      requires Valid() && 0 < n
      modifies this
      ensures Valid()
      ensures p == Fail ==> blocks == old(blocks)
      ensures p != Fail ==>
        0 <= p && p + n <= slots.Length && Disjoint(p, n, old(blocks)) &&
        blocks == old(blocks)[p := n]
    {
      if top + n <= slots.Length {
        p := top;
        blocks := blocks[p := n];
        top := top + n;
      } else {
        p := Fail;
      }
    }

    /**
     * Grows the live block at p to n slots.  On Fail nothing changes.
     * Otherwise the result is the base of a region of n slots that overlaps
     * no other live block and whose first old-size slots hold the old
     * contents; p is no longer live (unless it is the result).  No slot
     * outside the old and the new block changes.
     */
    method Extend(p: int, n: int) returns (q: int)
      requires Valid() && p in blocks && blocks[p] <= n
      modifies this, slots
      ensures Valid()
      ensures q == Fail ==> blocks == old(blocks) && unchanged(slots)
      ensures q != Fail ==>
        0 <= q && q + n <= slots.Length &&
        Disjoint(q, n, old(blocks) - {p}) &&
        blocks == (old(blocks) - {p})[q := n] &&
        slots[q..q + old(blocks[p])] == old(slots[p..p + blocks[p]])
      ensures q != Fail ==>
        forall k :: 0 <= k < slots.Length && !(q <= k < q + n) && !(p <= k < p + old(blocks[p])) ==>
          slots[k] == old(slots[k])
    {
      var len := blocks[p];
      if top + n > slots.Length {
        return Fail;
      }
      q := top;
      var i := 0;
      while i < len
        invariant 0 <= i <= len
        invariant blocks == old(blocks) && top == old(top)
        invariant slots[q..q + i] == old(slots[p..p + i])
        invariant forall k :: 0 <= k < slots.Length && !(q <= k < q + i) ==> slots[k] == old(slots[k])
      {
        slots[q + i] := slots[p + i];
        i := i + 1;
      }
      blocks := (blocks - {p})[q := n];
      top := q + n;
    }

    /**
     * Releases the block at p.  A handle that is not live (such as Fail)
     * changes nothing; the real allocator's behaviour there is not known.
     */
    method Free(p: int)
      requires Valid()
      modifies this
      ensures Valid()
      ensures blocks == old(blocks) - {p}
    {
      blocks := blocks - {p};
    }
  }
}
