/**
 * The pooled dynamic array and the stack built on it.  The array owns one
 * block of the heap's pool, addressed as `pointer + index`; the stack keeps
 * a top-of-stack index `pos` over one array.
 */
module BNSDataStructures {
  import opened BNSHeap
  import opened StackModel

  /** Capacity reserved by DynamicArray.Init; any positive value will do. */
  const DefaultDynamicArraySize: int := 10

  /**
   * The region after RemoveAt(where): slots below `where` kept, each later
   * slot taking its right neighbour's value, and the last slot zeroed.
   */
  function ShiftedLeft(s: seq<real>, where: int): (r: seq<real>)
    requires 0 <= where < |s|
    ensures |r| == |s| && r[|s| - 1] == 0.0
    ensures forall i :: 0 <= i < where ==> r[i] == s[i]
    ensures forall i :: where <= i < |s| - 1 ==> r[i] == s[i + 1]
  {
    s[..where] + s[where + 1..] + [0.0]
  }

  /** Removing index 1 from a full block [10, 20, 30, 40] leaves [10, 30, 40, 0]. */
  lemma ShiftedLeftExample()
    ensures ShiftedLeft([10.0, 20.0, 30.0, 40.0], 1) == [10.0, 30.0, 40.0, 0.0]
  {
  }

  /** Writing v at lo + n, and nowhere else, appends v to the n slots starting at lo. */
  lemma WriteAppends(s0: seq<real>, s1: seq<real>, lo: int, n: nat, v: real)
    requires 0 <= lo && lo + n < |s0| && s1 == s0[lo + n := v]
    ensures s1[lo..lo + n + 1] == s0[lo..lo + n] + [v]
  {
  }

  /**
   * s1 and s0 agree at every slot outside the regions [p, p + n) and
   * [p0, p0 + n0).
   */
  ghost predicate OutsideUnchanged(s1: seq<real>, s0: seq<real>, p: int, n: int, p0: int, n0: int)
  {
    |s1| == |s0| &&
    forall k :: 0 <= k < |s1| && !(p <= k < p + n) && !(p0 <= k < p0 + n0) ==> s1[k] == s0[k]
  }

  class DynamicArray {
    const heap: Heap
    /** Base of the owned block, or Fail (-1) when there is none. */
    var pointer: int
    var maxSize: int
    var size: int
    var inUse: bool

    /**
     * 0 <= size <= maxSize; an array with a block owns a live block of
     * exactly maxSize > 0 slots; an array without one holds nothing.
     */
    ghost predicate Valid()
      reads this, heap
    {
      heap.Valid() && 0 <= size <= maxSize &&
      (pointer == Fail ==> size == 0) &&
      (pointer != Fail ==>
        pointer in heap.blocks && heap.blocks[pointer] == maxSize && 0 < maxSize && inUse &&
        0 <= pointer && pointer + maxSize <= heap.slots.Length)
    }

    ghost predicate Allocated()
      reads this
    {
      pointer != Fail
    }

    /** The maxSize slots of the owned block. */
    ghost function Region(): (r: seq<real>)
      reads this, heap, heap.slots
      requires Valid() && Allocated()
      ensures |r| == maxSize
    {
      heap.slots[pointer..pointer + maxSize]
    }

    /** The size logically valid elements. */
    ghost function Elements(): (r: seq<real>)
      reads this, heap, heap.slots
      requires Valid()
      ensures |r| == size
    {
      if pointer == Fail then [] else heap.slots[pointer..pointer + size]
    }

    /** A new array, in the unallocated state. */
    constructor (heap: Heap)
      requires heap.Valid()
      ensures Valid() && this.heap == heap
      ensures pointer == Fail && maxSize == 0 && size == 0 && !inUse
    {
      this.heap := heap;
      pointer := Fail;
      maxSize := 0;
      size := 0;
      inUse := false;
    }

    /**
     * Clears the array, then reserves a default-sized block.  On failure
     * pointer is Fail and maxSize and inUse keep their old values.
     */
    method Init()
      requires Valid()
      modifies this, heap
      ensures Valid() && size == 0 && Elements() == []
      ensures heap.slots[..] == old(heap.slots[..])
      ensures pointer == Fail ==>
        maxSize == old(maxSize) && inUse == old(inUse) && heap.blocks == old(heap.blocks)
      ensures pointer != Fail ==>
        maxSize == DefaultDynamicArraySize && inUse &&
        Disjoint(pointer, maxSize, old(heap.blocks)) &&
        heap.blocks == old(heap.blocks)[pointer := maxSize]
    {
      Clear();
      pointer := heap.Malloc(DefaultDynamicArraySize);
      if pointer != Fail {
        maxSize := DefaultDynamicArraySize;
        size := 0;
        inUse := true;
      }
    }

    /**
     * The growth step of Add on a full array: asks the heap to extend the
     * block to twice maxSize.  On success pointer and maxSize follow the new
     * block, which starts with the old elements; on failure nothing changes.
     */
    method Grow() returns (ok: bool)
      requires Valid() && Allocated() && size == maxSize
      modifies this`pointer, this`maxSize, heap, heap.slots
      ensures Valid() && Allocated()
      ensures !ok ==>
        pointer == old(pointer) && maxSize == old(maxSize) &&
        heap.blocks == old(heap.blocks) && unchanged(heap.slots)
      ensures ok ==>
        maxSize == 2 * old(maxSize) &&
        heap.blocks == (old(heap.blocks) - {old(pointer)})[pointer := maxSize] &&
        Disjoint(pointer, maxSize, old(heap.blocks) - {old(pointer)}) &&
        heap.slots[pointer..pointer + size] == old(Elements()) &&
        OutsideUnchanged(heap.slots[..], old(heap.slots[..]), pointer, maxSize, old(pointer), old(maxSize))
    {
      var res := heap.Extend(pointer, maxSize * 2);
      if res != Fail {
        pointer, maxSize := res, maxSize * 2;
        ok := true;
      } else {
        ok := false;
      }
    }

    /**
     * Appends value at index size.  A full array first grows its block to
     * twice maxSize; if that fails, nothing changes and the result is false.
     */
    method Add(value: real) returns (ok: bool)
      requires Valid() && Allocated()
      modifies this`pointer, this`maxSize, this`size, heap, heap.slots
      ensures Valid() && Allocated()
      ensures ok ==> size == old(size) + 1 && Elements() == old(Elements()) + [value]
      ensures !ok ==>
        old(size) == old(maxSize) &&
        pointer == old(pointer) && maxSize == old(maxSize) && size == old(size) &&
        heap.blocks == old(heap.blocks) && unchanged(heap.slots)
      // direct path
      ensures old(size) < old(maxSize) ==>
        ok && pointer == old(pointer) && maxSize == old(maxSize) &&
        heap.blocks == old(heap.blocks) &&
        heap.slots[..] == old(heap.slots[..])[pointer + old(size) := value]
      // growth path
      ensures ok && old(size) == old(maxSize) ==>
        maxSize == 2 * old(maxSize) &&
        heap.blocks == (old(heap.blocks) - {old(pointer)})[pointer := maxSize] &&
        Disjoint(pointer, maxSize, old(heap.blocks) - {old(pointer)})
      // either path: no slot outside the old and the new block changes
      ensures ok ==>
        OutsideUnchanged(heap.slots[..], old(heap.slots[..]), pointer, maxSize, old(pointer), old(maxSize))
    {
      if size < maxSize {
        ghost var before := heap.slots[..];
        heap.Set(pointer + size, value);
        WriteAppends(before, heap.slots[..], pointer, size, value);
        size := size + 1;
      } else {
        var grown := Grow();
        if grown {
          ghost var moved := heap.slots[..];
          heap.Set(pointer + size, value);
          WriteAppends(moved, heap.slots[..], pointer, size, value);
          size := size + 1;
        } else {
          return false;
        }
      }
      return true;
    }

    /** Reads slot pointer + where of the pool; there is no check against maxSize. */
    function Get(where: int): (r: real)
      reads this, heap, heap.slots
      requires Valid() && 0 <= pointer + where < heap.slots.Length
      ensures Allocated() && 0 <= where < maxSize ==> r == Region()[where]
      ensures 0 <= where < size ==> r == Elements()[where]
    {
      heap.Get(pointer + where)
    }

    /**
     * Removes the element at where by shifting the whole block (all maxSize
     * slots, not just size) one slot left and zeroing its last slot; size is
     * not changed.  An index outside [0, maxSize) changes nothing.
     */
    method RemoveAt(where: int) returns (ok: bool)
      requires Valid()
      requires Allocated() || !(0 <= where < maxSize)
      modifies heap.slots
      ensures Valid()
      ensures ok <==> 0 <= where < maxSize
      ensures !ok ==> heap.slots[..] == old(heap.slots[..])
      ensures ok ==> Region() == ShiftedLeft(old(Region()), where)
      ensures ok ==> forall k :: 0 <= k < heap.slots.Length && !(pointer <= k < pointer + maxSize) ==>
        heap.slots[k] == old(heap.slots[k])
    {
      if where < maxSize && where >= 0 {
        for i := where to maxSize - 1
          invariant forall k :: 0 <= k < heap.slots.Length && !(pointer + where <= k < pointer + i) ==>
            heap.slots[k] == old(heap.slots[k])
          invariant forall k :: pointer + where <= k < pointer + i ==> heap.slots[k] == old(heap.slots[k + 1])
        {
          heap.Set(pointer + i, heap.Get(pointer + i + 1));
        }
        heap.Set(pointer + maxSize - 1, 0.0);
        ghost var r, s := Region(), old(Region());
        forall i | 0 <= i < maxSize ensures r[i] == ShiftedLeft(s, where)[i] {
          assert r[i] == heap.slots[pointer + i];
        }
        ok := true;
      } else {
        ok := false;
      }
    }

    /** Sets size to 0; the block and maxSize are kept, so the next Add takes the direct path. */
    method Clear()
      requires Valid()
      modifies this`size
      ensures Valid() && size == 0 && Elements() == []
      ensures Allocated() ==> size < maxSize
    {
      size := 0;
    }

    function Size(): (n: int)
      reads this, heap, heap.slots
      requires Valid()
      ensures n == |Elements()| && 0 <= n <= maxSize
    {
      size
    }

    /**
     * Sets size to 0 and, when inUse, frees the block and sets pointer to
     * Fail.  inUse itself is never cleared.
     */
    method Delete()
      requires Valid()
      modifies this`size, this`pointer, heap
      ensures Valid() && size == 0 && Elements() == []
      ensures heap.slots[..] == old(heap.slots[..])
      ensures old(inUse) ==> pointer == Fail && heap.blocks == old(heap.blocks) - {old(pointer)}
      ensures !old(inUse) ==> pointer == old(pointer) && heap.blocks == old(heap.blocks)
    {
      size := 0;
      if inUse {
        heap.Free(pointer);
        pointer := Fail;
      }
    }
  }

  class Stack {
    const arr: DynamicArray  // the struct's `array` field
    /** Index of the top element; -1 when the stack is empty. */
    var pos: int

    ghost predicate Valid()
      reads this, arr, arr.heap
    {
      arr.Valid() && -1 <= pos <= arr.size - 1
    }

    /** The array's elements and pos, as a value. */
    ghost function View(): (v: StackView)
      reads this, arr, arr.heap, arr.heap.slots
      requires Valid()
      ensures ViewOk(v)
    {
      StackView(arr.Elements(), pos)
    }

    /** A new stack on a fresh, unallocated array of its own. */
    constructor (heap: Heap)
      requires heap.Valid()
      ensures Valid() && fresh(arr) && arr.heap == heap
      ensures View() == StackView([], -1) && !arr.Allocated()
    {
      arr := new DynamicArray(heap);
      pos := -1;
    }

    /** Sets pos to -1 and initialises the array (which may fail to allocate). */
    method Init()
      requires Valid()
      modifies this, arr, arr.heap
      ensures Valid() && View() == StackView([], -1) && IsEmpty()
      ensures arr.heap.slots[..] == old(arr.heap.slots[..])
      ensures arr.pointer == Fail ==>
        arr.maxSize == old(arr.maxSize) && arr.inUse == old(arr.inUse) &&
        arr.heap.blocks == old(arr.heap.blocks)
      ensures arr.pointer != Fail ==>
        arr.maxSize == DefaultDynamicArraySize && arr.inUse &&
        Disjoint(arr.pointer, arr.maxSize, old(arr.heap.blocks)) &&
        arr.heap.blocks == old(arr.heap.blocks)[arr.pointer := arr.maxSize]
    {
      pos := -1;
      arr.Init();
    }

    /** On an empty stack 0 and no change; otherwise the top element, with pos moved down. */
    method Pop() returns (v: real)
      requires Valid()
      modifies this
      ensures Valid()
      ensures View() == PopView(old(View())).0 && v == PopView(old(View())).1
    {
      if pos < 0 {
        return 0.0;
      }
      v := arr.Get(pos);
      pos := pos - 1;
    }

    /** Adds value to the array; pos moves up exactly when that succeeds. */
    method Push(value: real) returns (ok: bool)
      requires Valid() && arr.Allocated()
      modifies this`pos, arr`pointer, arr`maxSize, arr`size, arr.heap, arr.heap.slots
      ensures Valid() && arr.Allocated() && arr.inUse == old(arr.inUse)
      ensures ok ==> View() == PushView(old(View()), value)
      // room left: the block is kept and only slot pointer + old size is written
      ensures old(arr.size) < old(arr.maxSize) ==>
        arr.pointer == old(arr.pointer) && arr.maxSize == old(arr.maxSize) &&
        arr.heap.blocks == old(arr.heap.blocks) &&
        arr.heap.slots[..] == old(arr.heap.slots[..])[arr.pointer + old(arr.size) := value]
      // a full array that grows: the block doubles and replaces the old one
      ensures ok && old(arr.size) == old(arr.maxSize) ==>
        arr.maxSize == 2 * old(arr.maxSize) &&
        arr.heap.blocks == (old(arr.heap.blocks) - {old(arr.pointer)})[arr.pointer := arr.maxSize] &&
        Disjoint(arr.pointer, arr.maxSize, old(arr.heap.blocks) - {old(arr.pointer)})
      ensures ok ==>
        OutsideUnchanged(arr.heap.slots[..], old(arr.heap.slots[..]),
          arr.pointer, arr.maxSize, old(arr.pointer), old(arr.maxSize))
      ensures !ok ==>
        View() == old(View()) &&
        arr.pointer == old(arr.pointer) && arr.maxSize == old(arr.maxSize) &&
        arr.heap.blocks == old(arr.heap.blocks) && arr.heap.slots[..] == old(arr.heap.slots[..])
      ensures old(arr.size) < old(arr.maxSize) ==> ok
    {
      var good := arr.Add(value);
      if good {
        pos := pos + 1;
        return true;
      } else {
        return false;
      }
    }

    /** What Pop would return, without changing anything. */
    function Peek(): (v: real)
      reads this, arr, arr.heap, arr.heap.slots
      requires Valid()
      ensures v == PopView(View()).1
      ensures pos < 0 ==> v == 0.0
    {
      if pos < 0 then 0.0 else arr.Get(pos)
    }

    function IsEmpty(): (r: bool)
      reads this, arr, arr.heap, arr.heap.slots
      requires Valid()
      ensures r <==> Live(View()) == []
    {
      pos < 0
    }
  }
}
