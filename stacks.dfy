/**
 * The fixed-capacity stack of JLB/Stack.h: an `Array` plus a count. Values
 * are pushed at index `count` and popped from index `count - 1`, so the
 * stack is last-in-first-out.
 */
module Stacks {
  import opened Allocator
  import opened Arrays

  class Stack<T(0)> {
    /** The underlying array (the `Array<T>` base). */
    const arr: Array<T>
    /** Number of values on the stack (`_count`). */
    var count: nat

    ghost predicate Valid()
      reads this, arr
    {
      count <= arr.data.Length
    }

    /** An empty stack over no memory. */
    constructor (elemSize: nat)
      ensures Valid() && count == 0
      ensures fresh(arr) && fresh(arr.data) && arr.elemSize == elemSize && arr.data.Length == 0
    {
      arr := new Array(elemSize);
      count := 0;
    }

    /** What iterating from `begin()` to `end()` visits: the values on the stack, bottom first. */
    function Items(): (r: seq<T>)
      reads this, arr, arr.data
      requires Valid()
      ensures |r| == count
      ensures forall i :: 0 <= i < count ==> r[i] == arr.data[i]
    {
      arr.data[..count]
    }

    /** `GetCount`: the number of values on the stack. */
    function GetCount(): (n: nat)
      reads this, arr, arr.data
      requires Valid()
      ensures n == |Items()|
    {
      count
    }

    /** The inherited `Allocate(allocator, size, fillValue)`; the count is left as it was. */
    method Allocate(alloc: LinearAllocator, size: nat, fill: T)
      requires alloc.Valid() && alloc.CanMalloc(arr.elemSize * size)
      modifies arr, alloc, alloc.region
      ensures alloc.Valid() && alloc.Pushed(arr.elemSize * size, arr.origin)
      ensures fresh(arr.data) && arr.data.Length == size
      ensures forall i :: 0 <= i < size ==> arr.data[i] == fill
      ensures count == old(count) && (Valid() <==> count <= size)
    {
      arr.Allocate(alloc, size, fill);
    }

    /**
     * `Push`: writes the value at index `count` (the array asserts
     * `count < length`) and counts it.
     */
    method Push(value: T)
      requires Valid() && count < arr.data.Length
      modifies this, arr.data
      ensures Valid() && count == old(count) + 1
      ensures arr.data[..] == old(arr.data[..])[old(count) := value]
      ensures Items() == old(Items()) + [value]
    {
      arr.Set(count, value);
      count := count + 1;
    }

    /** `Peek`: the value at index `count - 1`, the one pushed last. */
    function Peek(): (top: T)
      reads this, arr, arr.data
      requires Valid() && count > 0
      ensures top == Items()[|Items()| - 1]
    {
      arr.Get(count - 1)
    }

    /** `Pop`: decrements `count` and returns the value at the new `count`; no element changes. */
    method Pop() returns (top: T)
      requires Valid() && count > 0
      modifies this
      ensures Valid() && count == old(count) - 1
      ensures top == old(Peek())
      ensures Items() == old(Items())[..count]
    {
      count := count - 1;
      top := arr.Get(count);
    }
  }

  /** Pushing a value and popping straight after returns it and restores the stack's items. */
  method PushThenPop<T(0)>(s: Stack<T>, x: T) returns (y: T)
    requires s.Valid() && s.count < s.arr.data.Length
    modifies s, s.arr.data
    ensures s.Valid() && y == x
    ensures s.count == old(s.count) && s.Items() == old(s.Items())
  {
    s.Push(x);
    y := s.Pop();
  }
}
