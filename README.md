# JLB: a linear allocator and the containers built on it

This project models the core of JLB, a small C++ library. At its centre is
`LinearAllocator`, a bump allocator over one block of machine words with
last-in-first-out release. Each allocation stores its length in the word
just after it, and `Free` reads that word back to rewind the cursor. The
containers on top of it are:

- `Array`: a fixed-length view over one allocation;
- `Vector`: an unordered vector whose removal swaps with the last element;
- `Stack`;
- `ArrayView`: an older stand-alone copy of `Array`;
- `HashMap`: a linear-probing hash set;
- `Heap`: a 1-indexed binary min-heap.

The model has one module per source header:

| module | file | models |
|---|---|---|
| `Allocator` | `allocator.dfy` | `JLB/LinearAllocator.h`, `JLB/LinearAllocator.cpp` |
| `Arrays` | `arrays.dfy` | `JLB/Array.h` |
| `Vectors` | `vectors.dfy` | `JLB/Vector.h` |
| `Stacks` | `stacks.dfy` | `JLB/Stack.h` |
| `ArrayViews` | `arrayviews.dfy` | `JLB/ArrayView.h` |
| `HashMaps` | `hashmaps.dfy` | `JLB/HashMap.h`, `JLB/KeyPair.h` |
| `Heaps` | `heaps.dfy` | `JLB/Heap.h`, `JLB/KeyPair.h` |
| `Scenarios` | `scenarios.dfy` | the container scenarios of `JLB/UnitTest.cpp` |

Each C++ class that updates its fields in place is a Dafny `class` with
those fields and `modifies` clauses on its methods. The classes that keep a
count or bookkeeping (`LinearAllocator`, `Vector`, `Stack`, `HashMap` and
`Heap`) also carry a `Valid()` invariant. `Array` and `ArrayView` carry
none; their `Allocate` only replaces the managed elements.

**Allocator.** The allocator keeps a ghost stack `spans` of outstanding
allocations. Its invariant ties every span to the bookkeeping word that
holds the span's length.

**Containers.** A container that derives from `Array<T>` in C++ holds a
`const arr: Array<T>` here. The elements live in a Dafny `array`.
`Array.origin` records the word offset that the allocator handed out.

**HashMap.** A map slot is `Empty` or `Occupied(value, key)`. `Key` gives an
empty slot the number `SIZE_MAX`, as `KeyPair`'s default does. The probe
`(hash + i) % length` is written as `Probe`, which wraps at most once.

**Heap.** A heap element is `KeyPair(value, key)`, ordered by `key`.

### Behaviour of the code worth knowing

- **`Malloc`'s guard is strict** (`JLB/LinearAllocator.cpp:24`). `Malloc`
  asserts `size + _current + 1 < _size`, so one word of the region can
  never be handed out. Asking for exactly `GetAvailableMemorySpace()` bytes
  fails the assertion (`AvailableSpaceIsNotAllocatable`).
- **The hash map.**
  - `Insert` writes into the first empty slot of the probe from the home
    slot and moves no other slot (`JLB/HashMap.h:162-174`).
  - `Contains` scans all `length` slots and does not stop at an empty slot
    (`JLB/HashMap.h:129-145`).
  - `Erase` clears the slot and swaps it with the last slot of the run of
    equal keys after it (`JLB/HashMap.h:83-96`). The swap partner
    `index + i - 1` is not reduced modulo the length, so `Erase`'s
    precondition requires that the run does not wrap past the last slot.
    Without that, `Array::Swap`'s bounds assertion fails.
- **The stack's order.** `JLB/Stack.h:7` documents the stack as
  first-in-first-out. The code pops the value pushed last, and
  `Stacks.PushThenPop` states that last-in-first-out behaviour.

## Model

| member | source | states |
|---|---|---|
| Allocator.ToChunkSize | JLB/LinearAllocator.cpp:51-55 | the result is the least number of 8-byte words that holds the given bytes |
| Allocator.ChunkOfWholeWords | JLB/LinearAllocator.cpp:51-55 | a whole number of words is not rounded up |
| Allocator.TracksBelowCursor | JLB/LinearAllocator.cpp:27-33 | the bookkeeping depends only on the words below the cursor, so writes at or above it keep it |
| Allocator.TracksStacked | JLB/LinearAllocator.cpp:20-44 | sound bookkeeping means the allocations lie back to back from word 0 up to the cursor, each followed by a word holding its length |
| Allocator.MallocKeepsTracks | JLB/LinearAllocator.cpp:27-33 | an allocation at the cursor with its length written just after it keeps the bookkeeping sound |
| Allocator.FreeKeepsTracks | JLB/LinearAllocator.cpp:38-44 | rewinding by the length stored just below the cursor removes exactly the newest allocation |
| Allocator.LinearAllocator.constructor | JLB/LinearAllocator.cpp:7-13 | the region has `ToChunkSize(bytes)` words and nothing is allocated |
| Allocator.LinearAllocator.CanMalloc | JLB/LinearAllocator.cpp:23-24 | `Malloc`'s assertion: when it holds, the span and its bookkeeping word lie inside the region |
| Allocator.LinearAllocator.GetAvailableMemorySpace | JLB/LinearAllocator.cpp:46-49 | `(size - current - 1) * 8` bytes, wrapping modulo 2^64 when the cursor is at the end |
| Allocator.LinearAllocator.Malloc | JLB/LinearAllocator.cpp:20-36 | returns the old cursor, writes only the bookkeeping word, pushes the span, and the available space drops by `(chunk + 1) * 8` |
| Allocator.LinearAllocator.Free | JLB/LinearAllocator.cpp:38-44 | pops the newest span, rewinds the cursor by its stored length plus one, and the available space grows by the same amount |
| Allocator.LinearAllocator.New | JLB/LinearAllocator.h:69-73 | the same as `Malloc` of `sizeof(T) * count` bytes |
| Allocator.MallocFitsBelowAvailable | JLB/LinearAllocator.cpp:20-49 | `Malloc`'s assertion holds exactly when the rounded request is strictly below the reported available space |
| Allocator.AvailableSpaceIsNotAllocatable | JLB/LinearAllocator.cpp:20-49 | requesting exactly the reported available space fails `Malloc`'s assertion |
| Allocator.MallocEach | JLB/UnitTest.cpp:31-32 | a run of `Malloc`s advances the cursor by the run's footprint and pushes one span per request |
| Allocator.FreeTimes | JLB/UnitTest.cpp:34-35 | `n` `Free`s pop exactly the `n` newest spans |
| Allocator.MallocThenFreeAll | JLB/UnitTest.cpp:26-40 | a run of `Malloc`s followed by as many `Free`s restores the cursor, the spans and the available space |
| Arrays.Swapped | JLB/Array.h:109-116 | the two positions are exchanged and every other position is unchanged |
| Arrays.SwappedTwice | JLB/Array.h:109-116 | swapping the same two positions twice restores the sequence |
| Arrays.SwappedSlice | JLB/Array.h:109-116 | a swap inside a slice permutes that slice |
| Arrays.Array.GetLength | JLB/Array.h:78-82 | the length is the number of elements iteration visits |
| Arrays.Array.Get | JLB/Array.h:71-76 | indexing asserts the bound and reads the element iteration visits at that index |
| Arrays.Array.Set | JLB/Array.h:71-76 | indexing asserts the bound, and a write changes that element only |
| Arrays.Array.Allocate | JLB/Array.h:84-92 | one `New<T>(size)` is pushed on the allocator, the length is `size` and every element is the fill value |
| Arrays.Array.AllocateCopy | JLB/Array.h:94-101 | one `New<T>(size)` is pushed on the allocator, and the elements are the first `size` of the source |
| Arrays.Array.Free | JLB/Array.h:103-107 | the allocator's newest allocation is popped |
| Arrays.Array.Swap | JLB/Array.h:109-116 | the new elements are the old ones with the two positions exchanged |
| Arrays.Array.Elements | JLB/Array.h:124-142 | iteration visits every index below the length, in order |
| Arrays.CopyThenFreeBoth | JLB/UnitTest.cpp:113-123 | a copy holds the original's elements, and freeing both restores the allocator |
| Vectors.SwapWithLastRemoves | JLB/Vector.h:64-69 | swapping position `i` with the last and dropping the last removes exactly the element at `i` from the multiset |
| Vectors.Vector.Items | JLB/Vector.h:84-92 | iteration visits the first `count` elements |
| Vectors.Vector.GetCount | JLB/Vector.h:78-82 | the count is the number of elements iteration visits |
| Vectors.Vector.Allocate | JLB/Array.h:84-92 | the array is allocated and filled; the count is kept, so the vector stays consistent exactly when the count fits |
| Vectors.Vector.Add | JLB/Vector.h:50-62 | the value is appended to the items and no other element changes |
| Vectors.Vector.RemoveAt | JLB/Vector.h:64-69 | the count drops by one, the element at `index` is swapped with the new count, and the items lose exactly that element |
| Vectors.Vector.SetCount | JLB/Vector.h:71-76 | the count becomes the given value and no element changes |
| Stacks.Stack.Items | JLB/Stack.h:77-85 | iteration visits the first `count` elements, bottom first |
| Stacks.Stack.GetCount | JLB/Stack.h:71-75 | the count is the number of items |
| Stacks.Stack.Allocate | JLB/Array.h:84-92 | the array is allocated and filled; the count is kept |
| Stacks.Stack.Push | JLB/Stack.h:47-57 | the value is appended to the items |
| Stacks.Stack.Peek | JLB/Stack.h:59-63 | the result is the last item pushed |
| Stacks.Stack.Pop | JLB/Stack.h:65-69 | returns the former top and drops it from the items |
| Stacks.PushThenPop | JLB/Stack.h:47-69 | popping straight after a push returns the pushed value and restores the items (last in, first out) |
| ArrayViews.ArrayView.GetLength | JLB/ArrayView.h:36-40 | the length is the number of managed elements |
| ArrayViews.ArrayView.Get | JLB/ArrayView.h:29-34 | indexing asserts `index < _length` and reads that element |
| ArrayViews.ArrayView.Allocate | JLB/ArrayView.h:42-50 | one `New<T>(size)` is pushed on the allocator, the length is `size` and every element is the fill value |
| HashMaps.Probe | JLB/HashMap.h:129-131 | the slot visited at probe step `i` is `(hash + i) % length` |
| HashMaps.ProbeStep | JLB/HashMap.h:129-131 | every slot is visited at some step below the length |
| HashMaps.DistinctValuesCount | JLB/HashMap.h:107-111 | with no value stored twice, the number of occupied slots is the number of values held |
| HashMaps.OccupiedCountFill | JLB/HashMap.h:170-172 | filling an empty slot adds one occupied slot |
| HashMaps.OccupiedCountClear | JLB/HashMap.h:93-97 | clearing an occupied slot removes one occupied slot |
| HashMaps.OccupiedCountSwapped | JLB/HashMap.h:96-97 | swapping two slots keeps the number of occupied slots |
| HashMaps.RunEnd | JLB/HashMap.h:82-91 | the slots after `index`, up to the result, share its key, and the slot at the result does not |
| HashMaps.HashMap.Allocate | JLB/Array.h:84-92 | all slots are empty; the map is consistent afterwards exactly when its count was 0, and then it holds nothing |
| HashMaps.HashMap.GetHash | JLB/HashMap.h:113-118 | the home slot is below the length |
| HashMaps.HashMap.ContainsAt | JLB/HashMap.h:120-148 | finds a slot holding the value under its hash iff one exists, and the first such slot in probe order; in a consistent map, found iff the value is held |
| HashMaps.HashMap.StoredUnderHash | JLB/HashMap.h:135-144 | in a consistent map, a value is held iff some slot holds it under its hash |
| HashMaps.HashMap.Contains | JLB/HashMap.h:100-105 | in a consistent map, the result is membership of the value |
| HashMaps.HashMap.GetCount | JLB/HashMap.h:107-111 | the count is the number of distinct values held |
| HashMaps.HashMap.Insert | JLB/HashMap.h:150-175 | the contents gain the value; a value already held changes nothing; otherwise it fills the first empty slot of its probe and the count grows by one |
| HashMaps.HashMap.KeyGroupSize | JLB/HashMap.h:82-91 | the scan's result is the length of the run of equal keys starting at `index` |
| HashMaps.HashMap.Erase | JLB/HashMap.h:70-98 | the contents lose the value and the count drops by one; the slot is cleared and swapped with the last slot of its key run |
| HashMaps.ValuesSwapped | JLB/HashMap.h:96 | swapping two slots keeps the set of values held |
| HashMaps.EmptySlot | JLB/HashMap.h:153-168 | with fewer values than slots, the probe loop meets an empty slot |
| HashMaps.FillKeeps | JLB/HashMap.h:162-174 | writing an absent value into an empty slot under its hash keeps the map consistent and adds the value |
| HashMaps.ClearAndSwapKeeps | JLB/HashMap.h:93-97 | clearing a value's slot and swapping it with any slot keeps the map consistent and removes exactly that value |
| Heaps.SiftUpStep | JLB/Heap.h:128-144 | one swap with a larger parent moves the single disorder one level up |
| Heaps.SiftDownStep | JLB/Heap.h:146-170 | one swap with the smaller child moves the single disorder one level down |
| Heaps.RootIsMinimum | JLB/Heap.h:94-101 | in a heap-ordered slice, the root's key is at most every key |
| Heaps.SiftTarget | JLB/Heap.h:149-166 | stops iff no child is smaller; otherwise picks the smaller child, the left one on a tie |
| Heaps.SwapRearranges | JLB/Heap.h:172-179 | a swap among slots `1..n` permutes them, leaves slot 0 and the tail alone, and keeps keys matched |
| Heaps.Heap.Allocate | JLB/Heap.h:63-67 | `size + 1` slots are allocated and filled, with slot 0 unused |
| Heaps.Heap.GetCount | JLB/Heap.h:122-126 | the count is the number of elements |
| Heaps.Heap.Swap | JLB/Heap.h:172-179 | the two slots are exchanged |
| Heaps.Heap.HeapifyBottomToTop | JLB/Heap.h:128-144 | sifting up restores heap order while only permuting slots `1..count` |
| Heaps.Heap.HeapifyTopToBottom | JLB/Heap.h:146-170 | sifting down restores heap order while only permuting slots `1..count` |
| Heaps.Heap.Insert | JLB/Heap.h:81-92 | the contents gain `{value, hasher(value)}` and the heap stays ordered |
| Heaps.Heap.Peek | JLB/Heap.h:94-101 | the result is held and no key is below its key |
| Heaps.Heap.Pop | JLB/Heap.h:103-114 | returns the value `Peek` gave, removes its pair, and no remaining key is below its key |
| Heaps.Heap.Clear | JLB/Heap.h:116-120 | the heap holds nothing |
| Heaps.RootIsLeast | JLB/Heap.h:94-101 | slot 1 is held and has the least key |
| Heaps.AppendSlices | JLB/Heap.h:84-91 | storing in the next slot adds the pair and leaves only the edge to its parent unordered |
| Heaps.PopSlices | JLB/Heap.h:108-112 | moving the last element to the root removes the old root and leaves only the root's edges unordered |
| Heaps.DrainStep | JLB/Heap.h:103-114 | appending the popped least pair keeps the output sorted and the output plus the rest equal to the start |
| Heaps.PopAll | JLB/Heap.h:103-114 | popping until empty yields every pair once, in non-decreasing key order |
| Scenarios.IntToSizeT | JLB/UnitTest.cpp:201-204 | the test's hash function: a non-negative int is its own hash, and every hash fits a `size_t` |
| Scenarios.ArraySwapScenario | JLB/UnitTest.cpp:125-130 | after writing 4 and 6 at indices 1 and 2 and swapping them, index 1 holds 6 and index 2 holds 4 |
| Scenarios.VectorScenario | JLB/UnitTest.cpp:133-150 | iteration yields 2, 4, 6 and not the 8 written past the count |
| Scenarios.StackScenario | JLB/UnitTest.cpp:165-179 | after push 2, push 3 and pop, the top is 2 |
| Scenarios.MapWithFive | JLB/UnitTest.cpp:199-207 | 5 inserted into 24 empty slots sits alone in its home slot 5 |
| Scenarios.FirstInsertLandsHome | JLB/HashMap.h:82-96 | with 5 alone in slot 5, the key run is one slot long, so `Erase`'s swap stays in bounds |
| Scenarios.HashMapInsertScenario | JLB/UnitTest.cpp:206-212 | 5 is absent, then present, and the count stays 1 after a second insert |
| Scenarios.HashMapEraseScenario | JLB/UnitTest.cpp:213-229 | after erasing 5, neither 5 nor 6 is held; inserting 6 does not bring back 5; inserting 5 does |
| Scenarios.HeapScenario | JLB/UnitTest.cpp:249-261 | after inserting 6 and 5, the count is 2 and the top is 5; after clearing, the count is 0 |

## Left out

- Typed storage is not aliased to the allocator's words. The model never
  reads the word that `Malloc` writes as an element of the array above it;
  the `reinterpret_cast`s and the `memcpy` in `Array::Allocate` are not
  modelled.
- The region itself is not acquired or released. `malloc` in the
  allocator's constructor and `free` in its destructor are not modelled.
- Destructors, the deleted copy and move operations, and `virtual`
  dispatch are not modelled. The derived classes call the base `Array`
  behaviour directly.
- `Iterator`, `Tuple`, `StringView`, `VectorView` and `Main` are not part
  of this model.
- The `rand()`-driven loops of `JLB/UnitTest.cpp`, its output and its
  string and tuple tests are not part of this model.
- The map scenario's fourteen random inserts are not part of this model.
- HashMaps.HashMap.Allocate: only the default fill value is modelled. The
  map invariant holds only for empty slots, so the fill must be the
  default.
- HashMaps.HashMap.GetHash: the `assert(hasher)` null check is left out,
  because the hash function is a total Dafny function.
- The map's and the heap's `operator[]` give raw access to a slot. They
  are left out because they can break the container's invariant.
- Heaps.Heap.HeapifyTopToBottom: the `uint32_t` index arithmetic is
  unbounded here; heaps of 2^31 or more elements, where `index * 2` would
  wrap, are not modelled.
- Heaps.Heap.HeapifyBottomToTop: its `uint32_t` parameter is unbounded
  here; the narrowing of a count of 2^32 or more is not modelled.
- Heaps.Heap.Swap: its `uint32_t` parameters are unbounded here; the
  narrowing of slot indices of 2^32 or more is not modelled.
- Heaps.Heap.Insert: it passes the `size_t` count to the `uint32_t`
  parameter of `HeapifyBottomToTop`; the model does not truncate it, so
  heaps of 2^32 or more elements are not modelled.
- Vectors.Vector.Add: the C++ returns a `T&` to the stored slot and takes
  a default `{}` argument; the model returns nothing, so changing the
  element through that reference is not modelled.
- Stacks.Stack.Push: the C++ returns a `T&` to the stored slot and takes
  a default `{}` argument; the model returns nothing.
- Stacks.Stack.Peek: the C++ returns a `T&` to the top slot; the model
  returns a copy of the value, so writing through it is not modelled.
- Keys are unbounded naturals. A hash function's `size_t` result is
  modelled as any natural, and `Scenarios.IntToSizeT` reduces it modulo
  2^64 explicitly.
- The allocator assumes `sizeof(size_t)` is 8.
- Arrays.Array.Allocate, Vectors.Vector.Allocate, Stacks.Stack.Allocate,
  ArrayViews.ArrayView.Allocate, HashMaps.HashMap.Allocate and
  Heaps.Heap.Allocate: C++ silently drops the previously managed memory
  on a second `Allocate`. The model replaces the Dafny `array` the same
  way, but it does not model the earlier allocation's storage being left
  behind in the region.
