/**
 * The fixed-length, non-owning array of JLB/Array.h, which Vector, Stack,
 * HashMap and Heap all build on.
 *
 * `Allocate` takes exactly one allocation from a `LinearAllocator`
 * (`New<T>(size)`) and never gives back memory it managed before; `Free`
 * hands back the allocator's newest allocation. The elements are kept in a
 * Dafny array `data` whose length is the C++ `_length`; `origin` is the word
 * offset in the allocator's region that `_memory` points to.
 */
module Arrays {
  import opened Allocator

  /** `s` with the elements at `a` and `b` exchanged. */
  function Swapped<T>(s: seq<T>, a: nat, b: nat): (r: seq<T>)
    requires a < |s| && b < |s|
    ensures |r| == |s| && r[a] == s[b] && r[b] == s[a]
    ensures forall i :: 0 <= i < |s| && i != a && i != b ==> r[i] == s[i]
  {
    s[a := s[b]][b := s[a]]
  }

  /** Swapping the same two positions twice restores the sequence. */
  lemma SwappedTwice<T>(s: seq<T>, a: nat, b: nat)
    requires a < |s| && b < |s|
    ensures Swapped(Swapped(s, a, b), a, b) == s
  {
  }

  /** A swap inside `[lo, hi)` only permutes that slice. */
  lemma SwappedSlice<T>(s: seq<T>, a: nat, b: nat, lo: nat, hi: nat)
    requires lo <= a < hi && lo <= b < hi && hi <= |s|
    ensures multiset(Swapped(s, a, b)[lo..hi]) == multiset(s[lo..hi])
  {
    assert Swapped(s, a, b)[lo..hi] == Swapped(s[lo..hi], a - lo, b - lo);
  }

  class Array<T(0)> {
    /** sizeof(T): the bytes one element takes in the allocator's region. */
    const elemSize: nat
    /** Word offset of the managed span in the allocator's region (`_memory`). */
    var origin: nat
    /** The managed elements; `data.Length` is `_length`. */
    var data: array<T>

    /** A default-constructed array: no memory, length 0. */
    constructor (elemSize: nat)
      ensures this.elemSize == elemSize && origin == 0
      ensures fresh(data) && data.Length == 0
    {
      this.elemSize := elemSize;
      origin := 0;
      data := new T[0];
    }

    /** `GetLength`: the number of elements iteration visits. */
    function GetLength(): (n: nat)
      reads this, data
      ensures n == |Elements()|
    {
      data.Length
    }

    /** `operator[]` as a read: asserts `index < _length`; the element iteration visits at `index`. */
    function Get(index: nat): (v: T)
      reads this, data
      requires index < data.Length
      ensures v == Elements()[index]
    {
      data[index]
    }

    /** `operator[]` as a write: asserts `index < _length`; no other element changes. */
    method Set(index: nat, value: T)
      requires index < data.Length
      modifies data
      ensures data[..] == old(data[..])[index := value]
    {
      data[index] := value;
    }

    /**
     * `Allocate(allocator, size, fillValue)`: one `New<T>(size)` from the
     * allocator, length `size`, every element `fillValue`. The memory
     * managed before is not freed.
     */
    method Allocate(alloc: LinearAllocator, size: nat, fill: T)
      requires alloc.Valid() && alloc.CanMalloc(elemSize * size)
      modifies this, alloc, alloc.region
      ensures alloc.Valid() && alloc.Pushed(elemSize * size, origin)
      ensures fresh(data) && data.Length == size
      ensures forall i :: 0 <= i < size ==> data[i] == fill
    {
      origin := alloc.New(elemSize, size);
      data := new T[size];
      var i := 0;
      while i < size
        modifies data
        invariant 0 <= i <= size
        invariant forall j :: 0 <= j < i ==> data[j] == fill
      {
        data[i] := fill;
        i := i + 1;
      }
    }

    /**
     * `Allocate(allocator, size, src)`: one `New<T>(size)` from the
     * allocator, length `size`, the elements copied from `src[0..size)`.
     */
    method AllocateCopy(alloc: LinearAllocator, size: nat, src: array<T>)
      requires alloc.Valid() && alloc.CanMalloc(elemSize * size)
      requires size <= src.Length
      modifies this, alloc, alloc.region
      ensures alloc.Valid() && alloc.Pushed(elemSize * size, origin)
      ensures fresh(data) && data[..] == src[..size]
    {
      origin := alloc.New(elemSize, size);
      data := new T[size];
      forall i | 0 <= i < size {
        data[i] := src[i];
      }
    }

    /** `Free`: releases the allocator's newest allocation. */
    method Free(alloc: LinearAllocator)
      requires alloc.Valid() && alloc.current > 0
      modifies alloc
      ensures alloc.Valid() && alloc.Popped()
    {
      alloc.Free();
    }

    /** `Swap`: asserts both indices are in range and exchanges the two elements. */
    method Swap(a: nat, b: nat)
      requires a < data.Length && b < data.Length
      modifies data
      ensures data[..] == Swapped(old(data[..]), a, b)
    {
      var temp := data[a];
      data[a] := data[b];
      data[b] := temp;
    }

    /** What iterating from `begin()` to `end()` visits: indices `0.._length`. */
    function Elements(): (r: seq<T>)
      reads this, data
      ensures |r| == data.Length
      ensures forall i :: 0 <= i < |r| ==> r[i] == data[i]
    {
      data[..]
    }
  }

  /**
   * The copy scenario: allocate an array, allocate a copy of it, free both.
   * The copy holds the original's elements and the allocator is back where
   * it started.
   */
  method CopyThenFreeBoth<T(0)>(alloc: LinearAllocator, a: Array<T>, b: Array<T>, size: nat, fill: T)
    requires a != b && a.elemSize == b.elemSize
    requires alloc.Valid()
    requires alloc.current + ToChunkSize(a.elemSize * size) + 1 + ToChunkSize(a.elemSize * size) + 1 < alloc.size
    modifies a, b, alloc, alloc.region
    ensures alloc.Valid() && alloc.current == old(alloc.current) && alloc.spans == old(alloc.spans)
    ensures b.data[..] == a.data[..] && |a.data[..]| == size
  {
    a.Allocate(alloc, size, fill);
    b.AllocateCopy(alloc, a.GetLength(), a.data);
    b.Free(alloc);
    a.Free(alloc);
  }
}
