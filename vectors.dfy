/**
 * The unordered, fixed-capacity vector of JLB/Vector.h: an `Array` plus a
 * count of the elements in use. Removal swaps the removed element with the
 * last one, so order is not kept.
 */
module Vectors {
  import opened Allocator
  import opened Arrays

  /**
   * Removing position `i` of the first `n` elements by swapping it with
   * position `n - 1` and dropping the last leaves the others, in some order.
   */
  lemma SwapWithLastRemoves<T>(s: seq<T>, i: nat, n: nat)
    requires i < n <= |s|
    ensures multiset(Swapped(s, i, n - 1)[..n - 1]) == multiset(s[..n]) - multiset{s[i]}
  {
    var t := Swapped(s, i, n - 1);
    SwappedSlice(s, i, n - 1, 0, n);
    assert t[..n] == t[..n - 1] + [t[n - 1]];
    assert multiset(t[..n]) == multiset(t[..n - 1]) + multiset{s[i]};
  }

  class Vector<T(0)> {
    /** The underlying array (the `Array<T>` base). */
    const arr: Array<T>
    /** Number of elements in use (`_count`). */
    var count: nat

    ghost predicate Valid()
      reads this, arr
    {
      count <= arr.data.Length
    }

    /** An empty vector over no memory. */
    constructor (elemSize: nat)
      ensures Valid() && count == 0
      ensures fresh(arr) && fresh(arr.data) && arr.elemSize == elemSize && arr.data.Length == 0
    {
      arr := new Array(elemSize);
      count := 0;
    }

    /** What iterating from `begin()` to `end()` visits: the first `count` elements. */
    function Items(): (r: seq<T>)
      reads this, arr, arr.data
      requires Valid()
      ensures |r| == count
      ensures forall i :: 0 <= i < count ==> r[i] == arr.data[i]
    {
      arr.data[..count]
    }

    /** `GetCount`: the number of elements iteration visits. */
    function GetCount(): (n: nat)
      reads this, arr, arr.data
      requires Valid()
      ensures n == |Items()|
    {
      count
    }

    /** The inherited `Allocate(allocator, size, fillValue)`; the count is left as it was. */
    method Allocate(alloc: LinearAllocator, size: nat, fill: T)
      requires alloc.Valid() && alloc.CanMalloc(arr.elemSize * size)
      modifies arr, alloc, alloc.region
      ensures alloc.Valid() && alloc.Pushed(arr.elemSize * size, arr.origin)
      ensures fresh(arr.data) && arr.data.Length == size
      ensures forall i :: 0 <= i < size ==> arr.data[i] == fill
      ensures count == old(count) && (Valid() <==> count <= size)
    {
      arr.Allocate(alloc, size, fill);
    }

    /**
     * `Add`: asserts `count + 1 <= length`, writes the value at index
     * `count` and counts it. No other element changes.
     */
    method Add(value: T)
      requires Valid() && count + 1 <= arr.data.Length
      modifies this, arr.data
      ensures Valid() && count == old(count) + 1
      ensures arr.data[..] == old(arr.data[..])[old(count) := value]
      ensures Items() == old(Items()) + [value]
    {
      arr.Set(count, value);
      count := count + 1;
    }

    /**
     * `RemoveAt`: decrements `count` and swaps element `index` with the one
     * at the new `count` (asserting both are below the length).
     */
    method RemoveAt(index: nat)
      requires Valid() && count > 0 && index < arr.data.Length
      modifies this, arr.data
      ensures Valid() && count == old(count) - 1
      ensures arr.data[..] == Swapped(old(arr.data[..]), index, count)
      ensures index < old(count) ==> multiset(Items()) == multiset(old(Items())) - multiset{old(arr.data[index])}
    {
      count := count - 1;
      arr.Swap(index, count);
      if index < old(count) {
        SwapWithLastRemoves(old(arr.data[..]), index, old(count));
        assert Items() == Swapped(old(arr.data[..]), index, count)[..count];
        assert old(Items()) == old(arr.data[..])[..old(count)];
      }
    }

    /** `SetCount`: asserts `count <= length`; no element changes. */
    method SetCount(count: nat)
      requires count <= arr.data.Length
      modifies this
      ensures Valid() && this.count == count
    {
      this.count := count;
    }
  }
}
