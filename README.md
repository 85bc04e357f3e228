# Frame-buffer memory path of librealsense, modelled in Dafny

This project models the memory path that each captured frame goes through in
`src/frame_data_type.h` and `src/image.h`. It has three parts:

- **Pooling allocators.** The recency-ordered free list
  `static_framedata_allocator_array<T>` is modelled as class `AllocatorArray.ArrayPool`. It is the pool that the
  `static_framedata_allocator` alias selects. The size-indexed registry
  `static_framedata_allocator_map<T>` is modelled as class `AllocatorMap.MapPool`. A pointer is a Dafny
  `array<T>` object, so pointer identity is object identity. The array's `Length` is the element
  count it was obtained for. Its elements are the memory, and they survive a trip through the pool.
  Fresh storage (`::operator new`) is a fresh array. Each pool is an explicit object, where the
  source uses a lazily created process-wide singleton.
- **Owning buffer handle.** `vector_intrinsic<T>` is modelled as class `VectorIntrinsic.Handle`. It has the
  fields `data` and `size` and a reference to the array pool it draws from. It moves through three states:
  empty, holding one region, and moved-from (empty again). Every re-allocation first returns the held region
  to the pool under its old size.
- **Channel splitter.** `split_frame_simple`, `split_frame_parallel_sides` and `split_frame` are modelled in
  module `ImageSplit`. The loops themselves are in `ImageSplit.SplitFrameSimple` (one interleaved loop) and
  `ImageSplit.SplitSide` (one loop per destination). `SplitFrameParallelSides` calls `SplitSide` twice, and
  `SplitFrame` calls `SplitFrameParallelSides`. All of them write caller-owned arrays in place, and all have the same
  postcondition: the specification function `Demuxed`. This means the serial and parallel variants provably
  have the same observable result.

Both pools promise the same exact-size reuse contract. Each pool exposes `Free(n)`, the multiset of free
regions that a request for `n` elements may be served from. The `Allocate` and `Deallocate` of each pool
ensure the same things in terms of `Free`:
- a hit removes one region of size `n`;
- a miss returns fresh storage;
- freeing adds a region to size class `n` only;
- every other size class is unchanged.

Recency in the two pools:

- The comment in `src/frame_data_type.h:59` says the flat list favours the most recently deallocated region, and
  the reverse scan does pick the record nearest the back (`AllocatorArray.LastMatchIsMostRecent`).
- The list order is not the order of deallocation, though. A hit that is not at the back fills the removed slot
  with the back record, and that reorders the list. `AllocatorArray.RecencyNotKept` exhibits a list where a later
  request is served a region that was freed earlier than another region of the same size.
- The map keeps one LIFO vector per size, so it always returns the most recently freed region of that size
  (`AllocatorMap.MapPool.Allocate`).

Zero-length requests:

- An `allocate(0)` hands out a real, zero-length region (here a fresh `array` of length 0). A handle
  holding it is therefore not "empty" in the null sense, although its size is 0.

## Model

| member | source | states |
|---|---|---|
| `AllocatorArray.LastMatch` | src/frame_data_type.h:59-64 | the reverse scan finds an index whose record has count `n` and after which no record has count `n`; it finds none exactly when no record has count `n` |
| `AllocatorArray.LastMatchAt` | src/frame_data_type.h:60-63 | the scan stops at `i` when record `i` has count `n` and no later record has |
| `AllocatorArray.SwapRemove` | src/frame_data_type.h:67-70 | removing record `i` shortens the list by exactly one; its shape and multiset effect are stated by `SwapRemoveShape` and `SwapRemoveMultiset` |
| `AllocatorArray.SwapRemoveShape` | src/frame_data_type.h:67-70 | removing record `i` shortens the list by one, keeps every other slot except the last, and moves the last record into slot `i` |
| `AllocatorArray.SwapRemoveMultiset` | src/frame_data_type.h:67-70 | swap-removal loses exactly the matched record: the new list plus that record is the old list, as a multiset |
| `AllocatorArray.BagSwapRemove` | src/frame_data_type.h:59-72 | swap-removal takes one copy of the matched region out of its size class and leaves every other size class unchanged |
| `AllocatorArray.BagAppend` | src/frame_data_type.h:81-85 | appending `(p, n)` adds `p` to size class `n` and to no other |
| `AllocatorArray.LastMatchIsMostRecent` | src/frame_data_type.h:59-63 | the record the scan picks holds the last region of its size class in list order |
| `AllocatorArray.LastMatchNoneIffEmpty` | src/frame_data_type.h:60-78 | the scan misses if and only if size class `n` is empty |
| `AllocatorArray.SwapRemoveDistinct` | src/frame_data_type.h:65-72 | on a duplicate-free list, swap-removal keeps it duplicate-free, adds no region, and the handed-out region is no longer in the list |
| `AllocatorArray.SwapRemoveServes` | src/frame_data_type.h:59-72 | serving a request for `n` from a matching record keeps the list well formed; the handed-out region has `n` elements, came from size class `n` and has left the list; only size class `n` shrinks |
| `AllocatorArray.ReuseAfterFree` | src/frame_data_type.h:54-85 | after freeing `(p, n)`, the scan for `n` hits the new record, and removing it restores the previous list |
| `AllocatorArray.NeverCrossSize` | src/frame_data_type.h:63 | a record whose count differs from `n` is never picked for a request of `n`; its region is in size class `n` only if some other record holds it with count `n` |
| `AllocatorArray.RecencyNotKept` | src/frame_data_type.h:59-72 | on `[x(1), b(2), y(2)]`, serving a request for 1 leaves `b` as the next region handed out for 2, although `y` was freed later |
| `AllocatorArray.ArrayPool.constructor` | src/frame_data_type.h:31-34 | a new pool has an empty free list |
| `AllocatorArray.ArrayPool.Allocate` | src/frame_data_type.h:54-79 | on a hit, returns the region of the last record of count `n` and swap-removes that record; on a miss, returns fresh storage and leaves the list alone; the result has `n` elements and is not left in the registry; the size-class contract holds |
| `AllocatorArray.ArrayPool.Take` | src/frame_data_type.h:65-72 | the hit branch returns record `i`'s region and swap-removes that record; size class `count` loses that region and every other class is unchanged |
| `AllocatorArray.ArrayPool.Deallocate` | src/frame_data_type.h:81-85 | appends `(p, n)`; size class `n` gains `p` and no other size class changes |
| `AllocatorArray.ReuseSamePointer` | src/frame_data_type.h:54-85 | allocate, free and allocate of the same size return the same pointer |
| `AllocatorMap.PopBack` | src/frame_data_type.h:139-140 | popping a duplicate-free list removes exactly its back region, which is then absent |
| `AllocatorMap.PushBack` | src/frame_data_type.h:153 | pushing a region not yet in a list keeps it duplicate-free |
| `AllocatorMap.MapPool.constructor` | src/frame_data_type.h:109-111 | a new pool has no lists |
| `AllocatorMap.MapPool.Allocate` | src/frame_data_type.h:132-148 | creates list `n` if missing; pops and returns its back (LIFO) when it is not empty, otherwise returns fresh storage; no other list changes; the size-class contract holds |
| `AllocatorMap.MapPool.Deallocate` | src/frame_data_type.h:150-154 | pushes `p` onto list `n` only; the size-class contract holds |
| `AllocatorMap.ReuseSamePointer` | src/frame_data_type.h:132-154 | allocate, free and allocate of the same size return the same pointer |
| `VectorIntrinsic.Released` | src/frame_data_type.h:232-239 | releasing a held region adds it to size class `size` and changes no other size class; an empty handle changes no size class |
| `VectorIntrinsic.AfterAllocate` | src/frame_data_type.h:59-78 | after a miss the free list is unchanged; after a hit the list plus the matched record is the old list, as a multiset |
| `VectorIntrinsic.Reused` | src/frame_data_type.h:59-78 | a request needs fresh storage if and only if no record has count `k`; otherwise the handed-out region is in the list with count `k` |
| `VectorIntrinsic.CopyElements` | src/frame_data_type.h:278 | `std::copy` leaves the region equal to the range |
| `VectorIntrinsic.CopyBytes` | src/frame_data_type.h:284 | `memcpy` leaves the region equal to the range |
| `VectorIntrinsic.FillElements` | src/frame_data_type.h:327-330 | the pointer loop sets every element of the region to `value` |
| `VectorIntrinsic.Handle.constructor` | src/frame_data_type.h:249-252 | a default-constructed handle is empty (null data, size 0) |
| `VectorIntrinsic.Handle.Clear` | src/frame_data_type.h:218-222 | sets data to null and size to 0 without touching the pool |
| `VectorIntrinsic.Handle.Deallocate` | src/frame_data_type.h:232-239 | a holding handle gives its region back under its size and becomes empty; an empty handle leaves the pool unchanged; as a multiset of free regions, size class `size` gains the region and no other class changes |
| `VectorIntrinsic.Handle.Allocate` | src/frame_data_type.h:224-230 | first releases the held region under its old size, then holds a `k`-element region chosen by the pool's scan from the list that includes the just-released record |
| `VectorIntrinsic.Handle.MoveFrom` | src/frame_data_type.h:241-246 | the target takes over `(data, size)` and the source is left empty |
| `VectorIntrinsic.Handle.FromMoved` | src/frame_data_type.h:262-265 | move construction transfers `(data, size)` and leaves the source empty |
| `VectorIntrinsic.Handle.MoveAssign` | src/frame_data_type.h:267-272 | move assignment first releases the target's region, then transfers `(data, size)` and leaves the source empty |
| `VectorIntrinsic.Handle.Assign` | src/frame_data_type.h:274-279 | after the generic `assign`, size is the range length and the elements are the range's elements in order; no region of the pool or the old region, other than the one now held, has its elements changed |
| `VectorIntrinsic.Handle.AssignContiguous` | src/frame_data_type.h:281-285 | after the contiguous (`memcpy`) `assign`, size is `hi - lo` and the elements equal the source range as it was before the call; no region of the pool or the old region, other than the one now held, has its elements changed |
| `VectorIntrinsic.Handle.AssignBulk` | src/frame_data_type.h:283-284 | after allocating `|bytes|` elements and copying in bulk, size is `|bytes|` and the elements are `bytes`; no region of the pool or the old region, other than the one now held, has its elements changed |
| `VectorIntrinsic.Handle.IterateBeginEnd` | src/frame_data_type.h:287-315 | `begin()`/`data()` (`Handle.Begin`) and `end()` lie in one region, `begin()` is not after `end()`, and the elements between them are exactly the held elements |
| `VectorIntrinsic.Handle.End` | src/frame_data_type.h:297-305 | `end()` is in the same region as `begin()`, and `end() - begin() == size()` |
| `VectorIntrinsic.Handle.Size` | src/frame_data_type.h:318-321 | `size()` is the number of elements between `begin()` and `end()`, and 0 for an empty handle |
| `VectorIntrinsic.Handle.ResizeWithInitialization` | src/frame_data_type.h:323-331 | holds `n` elements, each equal to `value`; no region of the pool or the old region, other than the one now held, has its elements changed |
| `VectorIntrinsic.Handle.ResizeWithoutInitialization` | src/frame_data_type.h:333-336 | holds `n` elements; only the size is fixed |
| `VectorIntrinsic.Handle.Resize` | src/frame_data_type.h:338-345 | holds `n` elements; below 1024 all of them equal `value`; at 1024 or more no element of any region is written; no region of the pool or the old region, other than the one now held, has its elements changed |
| `VectorIntrinsic.MoveThenDestroySource` | src/frame_data_type.h:257-272 | after moving `a` into `b`, `a` is empty, and destroying `a` leaves the pool and `b`'s region alone |
| `ImageSplit.Demuxed` | src/image.h:41-42 | slot `i` is `f(src[i])` for `i < count` and otherwise keeps its prior value; the length is unchanged |
| `ImageSplit.DemuxedNonPositive` | src/image.h:58 | when `count <= 0` the destination is not written |
| `ImageSplit.DemuxedPrefix` | src/image.h:58-62 | the result depends only on the first `count` source elements; the slots from `count` on keep their prior values |
| `ImageSplit.SplitSide` | src/image.h:38-49 | one side's loop leaves `dest` equal to `Demuxed` of its prior contents: `dest[i] == split(source[i])` for `i < count`, later slots unchanged |
| `ImageSplit.SplitFrameSimple` | src/image.h:54-63 | `destA[i] == splitA(source[i])` and `destB[i] == splitB(source[i])` for `i < count`; later slots and the source are unchanged |
| `ImageSplit.SplitFrameParallelSides` | src/image.h:36-52 | the same destination contents as `SplitFrameSimple`, from one `SplitSide` loop per destination |
| `ImageSplit.SplitFrame` | src/image.h:65-68 | exactly the behaviour of `SplitFrameParallelSides` |

## Left out

- Mutexes and `Lock` guards: the model is sequential, and each pool call is one atomic step.
- The lazily created singletons (`get_instance`) are replaced by explicit pool objects. Handles that move
  regions between each other must share one pool. That is a precondition of `MoveFrom` and `MoveAssign`,
  and it reflects the source's single pool per element type.
- VectorIntrinsic.Handle.MoveAssign: requires that two distinct handles do not hold the same region. The
  source guarantees single ownership by deleting the copy operations; the model states it as a precondition.
- The pool destructors' `delete` loops and the `reserve(128)` capacity hint: freeing memory at process exit
  and preallocation are not observable in the pool's contract.
- `framedata_allocator`: it is a standard-allocator adapter that only forwards to the singleton, and its
  equality operators are constants.
- The handle's destructor calls `deallocate()`. Dafny has no destructors, so a client calls
  `Handle.Deallocate` at the end of a handle's lifetime.
- `size_t` arithmetic: `n * sizeof(T)` overflow and the system allocator's failure to provide storage are not
  modelled. Element counts are unbounded naturals.
- AllocatorArray.ArrayPool.Deallocate: requires that the region is not already in the free list. A double free
  is undefined in the source and is not checked there. It also requires `p.Length == n`, the caller's promise
  that `p` was obtained for `n` elements; `deallocate(p, n)` records whatever `n` it is given without checking it.
- AllocatorMap.MapPool.Deallocate: requires that the region is not already in its size's list, and that
  `p.Length == n`, for the same reasons.
- VectorIntrinsic.Handle.ResizeWithoutInitialization: fresh storage holds Dafny default elements instead of garbage. No contract
  mentions those elements, and a reused region keeps whatever it held.
- The splitter's `ctpl::thread_pool` worker, the `split_frame_threadpool` singleton and the future's
  `wait()`. Only the sequential effect is modelled: the worker's loop over `destA` runs before the caller's
  loop over `destB`. Failure propagation from the worker is therefore not modelled either.
- ImageSplit.SplitFrameSimple: requires (like `ImageSplit.SplitFrameParallelSides` and `ImageSplit.SplitFrame`) that the two destinations and the source are
  distinct arrays. The concurrent loops of the parallel variant race otherwise.
- `get_image_size`, `get_image_bpp`, `rotate_resolution` and `l500_confidence_resolution` are only declared in
  `src/image.h`, and their bodies are not part of this model.
- The recorder, calibration, save-to-disk and capture programs: they make SDK, OpenCV, file and window calls.
