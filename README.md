# BNSLibrary pooled DynamicArray and Stack, in Dafny

BNSLibrary runs on a robot controller that has no native dynamic memory. Its
containers therefore live in one flat pool of float slots ("the heap") and
address it by integer offset. This project models the two containers in
`Core/BNSDataStructures.c` and proves properties of them:

- **DynamicArray** owns one block of the pool. It keeps four fields:
  - `pointer`: the block's base offset, with `-1` meaning no block;
  - `maxSize`: the number of reserved slots;
  - `size`: the number of valid elements;
  - `inUse`: set when a block was obtained.

  Add appends at `size`. A full array first doubles its block through the
  allocator's extend call. RemoveAt shifts the block left in place. Get reads
  `pointer + where` with no bounds check.
- **Stack** keeps a top index `pos` over one DynamicArray. Pop and Peek guard
  against underflow.

Files and modules:

- `bns_heap.dfy`, module `BNSHeap`: the pool and its allocator, as a class
  `Heap`. The pool is a fixed `array<real>`. The allocator keeps a map of live
  blocks from base to size. `Malloc`, `Extend`, `Free`, `Get` and `Set` have
  abstract contracts:
  - Malloc returns `-1` or a region inside the pool that overlaps no live block.
  - Extend returns `-1` with nothing changed. Otherwise it returns a region,
    possibly at the same base, that overlaps no other live block and starts
    with the old block's contents. The old block is released, and no slot
    outside the old and the new region changes.
  - Free releases one block. Freeing a handle that is not live changes
    nothing.
  - Get and Set each touch one slot.

  The method bodies are a minimal bump allocator standing in for the real
  one. The containers rely only on the contracts.
- `bns_data_structures.dfy`, module `BNSDataStructures`: two classes.
  - `DynamicArray` has the four C fields and a reference to its heap.
  - `Stack` has `pos` and its array. The C field `array` is named `arr`,
    because `array` is a Dafny keyword.

  Each C function is a method. The functions that only read (Get, Size, Peek,
  IsEmpty) are functions. `Valid()` is the object invariant. For the array it
  says:
  - `0 <= size <= maxSize`;
  - an allocated array owns a live block of exactly `maxSize > 0` slots
    inside the pool;
  - an unallocated array holds nothing.

  For the stack it adds `-1 <= pos <= size - 1`. The ghost functions
  `Region()` (the `maxSize` slots) and `Elements()` (the first `size` of
  them) give the abstract contents.
- `stack_model.dfy`, module `StackModel`: a value view of the stack, the
  array's elements plus `pos`. `PushView` and `PopView` specify the Stack's
  Push and Pop. The multi-call laws are proved here: the LIFO law, and the
  stale read after Pop-then-Push.

Behaviour of the code that a reader might not expect:

- `StackPop` decrements only `pos` (line 136), and `DynamicArrayAdd` always
  writes at `size` (line 42). Pop does not shrink the array, so a later Push
  does not overwrite the popped slot: it appends past it, and `pos` points
  back at the popped value. `StackModel.PopThenPushReadsStale` proves this.
  LIFO is proved only for pushes with no pop in between. `pos` and
  `size - 1` can therefore differ; the model keeps `-1 <= pos <= size - 1`.
- `DynamicArrayInit` clears `size` before it tries to allocate (line 23). So
  `size` is 0 even when the allocation fails. `maxSize` and `inUse` then keep
  their old values (lines 27-32).
- `DynamicArrayDelete` never clears `inUse` (lines 111-115).
- `DynamicArrayRemoveAt` shifts over `maxSize`, not `size`, and does not
  decrement `size` (lines 77-81).

## Model

| member | source | states |
|---|---|---|
| `BNSDataStructures.DynamicArray.Init` | Core/BNSDataStructures.c:21-33 | `size` becomes 0 and the array holds no elements. On failure `pointer` is -1 and `maxSize`, `inUse` and the heap's blocks are untouched. Otherwise `maxSize` is the default, `inUse` is set, and the new block is live and overlaps no earlier block. The pool's contents do not change. |
| `BNSDataStructures.DynamicArray.Grow` | Core/BNSDataStructures.c:47-55 | This is the growth step of Add on a full array. If extend fails, `pointer`, `maxSize`, the blocks and the pool are unchanged. On success `maxSize` doubles, `pointer` is the new live block, which is disjoint from the other blocks, the old block is released, and the new block starts with the old elements. No pool slot outside the old and the new block changes. |
| `BNSDataStructures.DynamicArray.Add` | Core/BNSDataStructures.c:38-64 | On success the elements become the old elements followed by `value`, and `size` grows by one. With room left it always succeeds, keeps `pointer`, `maxSize` and the blocks, and the whole pool changes only at slot `pointer + old size`. On a full array that grows, `maxSize` doubles and `pointer` follows the new block. On either path of success, no pool slot outside the old and the new block changes. On a failed extend it returns false and `pointer`, `maxSize`, `size`, the blocks and every slot are unchanged. `Valid()`, which includes `0 <= size <= maxSize`, is preserved. |
| `BNSDataStructures.DynamicArray.Get` | Core/BNSDataStructures.c:67-70 | Requires only that `pointer + where` lies inside the pool. Within the block it returns `Region()[where]`. Below `size` it returns `Elements()[where]`. |
| `BNSDataStructures.ShiftedLeft` | Core/BNSDataStructures.c:77-81 | The block after a removal keeps its length. Slots below `where` are kept, slot `i` holds old slot `i+1` for `where <= i < maxSize-1`, and the last slot is 0. |
| `BNSDataStructures.ShiftedLeftExample` | Core/BNSDataStructures.c:73-90 | Removing index 1 from a full block `[10, 20, 30, 40]` gives `[10, 30, 40, 0]`. |
| `BNSDataStructures.DynamicArray.RemoveAt` | Core/BNSDataStructures.c:73-90 | It returns true exactly when `0 <= where < maxSize`. Otherwise no slot changes. On success the block becomes `ShiftedLeft(old block, where)`, no pool slot outside the block changes, and `size`, `pointer` and `maxSize` are kept. The shift loop's invariants carry the proof. |
| `BNSDataStructures.DynamicArray.Clear` | Core/BNSDataStructures.c:94-97 | Only `size` changes, and it becomes 0. An allocated array then has `size < maxSize`, so the next Add takes the direct path. |
| `BNSDataStructures.DynamicArray.Size` | Core/BNSDataStructures.c:100-103 | The result is the number of elements and lies in `[0, maxSize]`. |
| `BNSDataStructures.DynamicArray.Delete` | Core/BNSDataStructures.c:108-116 | `size` becomes 0. If `inUse`, the block is released and `pointer` becomes -1. Otherwise `pointer` and the blocks are kept. `inUse` and `maxSize` are never touched, and the pool's contents do not change. |
| `BNSDataStructures.Stack.Init` | Core/BNSDataStructures.c:119-123 | `pos` is -1, the view is empty and IsEmpty holds. The array's Init outcome (failure or fresh default block) is passed through. |
| `BNSDataStructures.Stack.Pop` | Core/BNSDataStructures.c:127-139 | The new view and the result are `PopView(old view)`. Only `pos` may change, and the array and the pool are untouched. |
| `BNSDataStructures.Stack.Push` | Core/BNSDataStructures.c:141-154 | On success the view is `PushView(old view, value)`: the array appends `value` and `pos` moves up by one, and no pool slot outside the array's old and new block changes. With room in the array it always succeeds, keeps `pointer`, `maxSize` and the blocks, and writes only slot `pointer + old size`. On a full array that grows, `maxSize` doubles and the new block, disjoint from the other live blocks, replaces the old one in the blocks map. On failure the view, `pos`, the array's fields, the blocks and the pool are unchanged. Only `pos` and the array's `pointer`, `maxSize` and `size` may change; `inUse` is kept. |
| `BNSDataStructures.Stack.Peek` | Core/BNSDataStructures.c:156-164 | It returns what Pop would return: 0 when `pos < 0`, otherwise the element at `pos`. It changes nothing. |
| `BNSDataStructures.Stack.IsEmpty` | Core/BNSDataStructures.c:167-174 | True exactly when no value is left to pop. |
| `StackModel.PushView` | Core/BNSDataStructures.c:141-154 | A successful push keeps the old elements as a prefix, puts `value` at index old `size`, raises `pos` by one and keeps `-1 <= pos <= size-1`. |
| `StackModel.PopView` | Core/BNSDataStructures.c:127-139 | With `pos < 0` it returns 0 and leaves the state unchanged. Otherwise it returns the element at `pos` and lowers `pos` by one. The array is never touched, and the index invariant is kept. |
| `StackModel.PopTakesLastLive` | Core/BNSDataStructures.c:127-139 | A pop on a non-empty stack removes exactly the last live value and returns it. |
| `StackModel.PushAll` | Core/BNSDataStructures.c:141-154 | Successful pushes of `vs` append `vs` to the elements, raise `pos` by `|vs|` and keep the index invariant. |
| `StackModel.PopNReturnsTopReversed` | Core/BNSDataStructures.c:127-139 | `n` pops from a stack with at least `n` live values return its top `n` values, topmost first, and lower `pos` by `n`. |
| `StackModel.PushesThenPopsReverse` | Core/BNSDataStructures.c:119-174 | LIFO law: start where `pos` is the last index, as after StackInit. Push `v1..vn` with no pop in between, then pop `n` times. The pops return `vn..v1`, and `pos` is back where it started. |
| `StackModel.PopThenPushReadsStale` | Core/BNSDataStructures.c:127-154 | Pop, then Push `v`, leaves `pos` where it was. `v` is stored beyond `pos`, and the next Pop or Peek returns the previously popped value. |

## Left out

- The allocator's internals are not part of this model: `BNSHeap.h`, with
  `bnsMalloc`, `bnsExtend`, `bnsFree`, `bnsGetHeapElement` and
  `bnsSetHeapElement`. `BNSHeap.Heap` gives them contracts. Its bodies, a
  bump allocator whose extend always relocates, are a stand-in and not a
  model of the real allocator.
- `BNSDataStructures.h` is not part of this model. `DEFAULT_DYNAMIC_ARRAY_SIZE`
  is modelled as the constant `DefaultDynamicArraySize = 10`, and no proof depends on its value beyond
  its being positive.
- Logging: the debug line at line 47 and the `BNS_ERROR` reports at lines 58,
  85, 131 and 160 are dropped. They do not affect the containers' state.
- Float semantics: elements are `real`. They are only copied or set to 0,
  never computed with.
- The 32-bit C `int` is not modelled for `pointer + where`, `maxSize * 2` or
  `size++`. Offsets stay within the pool, so the model uses unbounded
  integers.
- Uninitialised C structs are not modelled. A new `DynamicArray` starts
  unallocated (`pointer` -1, `maxSize` 0, `size` 0, `inUse` false), and a new
  `Stack` starts with `pos` -1 over a new array of its own.
- BNSDataStructures.DynamicArray.Add requires an allocated array. The same
  holds for BNSDataStructures.Stack.Push, which calls Add. Without a block
  the C code writes at `-1 + size` or extends handle -1, which is undefined.
  This happens after a failed Init, or after Delete, which keeps `maxSize`
  and `inUse`.
- BNSDataStructures.DynamicArray.RemoveAt requires an allocated array only
  when `where` is in range. The out-of-range error path is modelled for every
  array. Without a block (after Delete, which keeps `maxSize`, or after a
  failed Init) `pointer` is -1, so the shift would write pool slots
  `where - 1` to `maxSize - 2`, which the array does not own; the note at
  lines 105-107 says a deleted array must be initialised again before use.
- BNSDataStructures.DynamicArray.Get requires `pointer + where` to lie inside
  the pool. What the real heap does outside it is not known here.
- `BNSDataStructures.DynamicArray.Grow` is not a separate C function. It
  packages the extend branch of `DynamicArrayAdd` (lines 47-55) so its proof
  stays small. Add still takes the same branches in the same order.
- Growth over many appends (for example `2 × default + 1` of them) and
  re-reading earlier values follow from repeated use of
  `DynamicArray.Add`'s contract. There is no separate lemma for them.
- Aliasing between two arrays on one heap is not modelled. Each method speaks
  of its own array's block. Its contract says which pool slots it may change:
  slots of other live blocks keep their values as long as those blocks do
  not overlap this array's old or new block.
- BNSHeap.Heap.Free: freeing a handle that is not live is assumed to do
  nothing. After Delete `inUse` stays set and `pointer` is -1 (lines
  111-115), so a second Delete, or a Delete after a failed re-Init, calls
  `bnsFree(-1)`. What the real allocator does then is not known, and the
  model's `BNSDataStructures.DynamicArray.Delete` contract on that path
  rests on this choice.
- `Probability/NormalDistribution.c` is not modelled. It is floating-point
  numerics built on matrix routines that are not part of this model.
