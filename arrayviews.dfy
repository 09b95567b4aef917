/**
 * JLB/ArrayView.h: the older, stand-alone copy of `Array` that only
 * allocates, fills and indexes. Only the stale JLB/VectorView.h uses it.
 */
module ArrayViews {
  import opened Allocator

  class ArrayView<T(0)> {
    /** sizeof(T): the bytes one element takes in the allocator's region. */
    const elemSize: nat
    /** Word offset of the managed span in the allocator's region (`_memory`). */
    var origin: nat
    /** The managed elements; `data.Length` is `_length`. */
    var data: array<T>

    /** A default-constructed view: no memory, length 0. */
    constructor (elemSize: nat)
      ensures this.elemSize == elemSize && origin == 0
      ensures fresh(data) && data.Length == 0
    {
      this.elemSize := elemSize;
      origin := 0;
      data := new T[0];
    }

    /** `GetLength`: the number of elements the view manages. */
    function GetLength(): (n: nat)
      reads this
      ensures n == data.Length
    {
      data.Length
    }

    /** `operator[]`: asserts `index < _length` and reads that element. */
    function Get(index: nat): (v: T)
      reads this, data
      requires index < GetLength()
      ensures v == data[..][index]
    {
      data[index]
    }

    /**
     * `Allocate`: one `New<T>(size)` from the allocator, length `size`,
     * every element `fillValue`. Earlier memory is not freed.
     */
    method Allocate(alloc: LinearAllocator, size: nat, fill: T)
      requires alloc.Valid() && alloc.CanMalloc(elemSize * size)
      modifies this, alloc, alloc.region
      ensures alloc.Valid() && alloc.Pushed(elemSize * size, origin)
      ensures fresh(data) && GetLength() == size
      ensures forall i :: 0 <= i < size ==> Get(i) == fill
    {
      origin := alloc.New(elemSize, size);
      data := new T[size];
      var i := 0;
      while i < size
        modifies data
        invariant 0 <= i <= size
        invariant forall j :: 0 <= j < i ==> data[j] == fill
      {
        data[i] := fill;
        i := i + 1;
      }
    }
  }
}
