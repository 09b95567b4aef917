/**
 * The binary min-heap of JLB/Heap.h, built on an `Array` of key/value pairs
 * (JLB/KeyPair.h). The heap is 1-indexed: slot 0 is never used, the
 * elements sit in slots `1..count`, the parent of slot `i` is `i / 2`, and
 * every value is kept under the key `hasher(value)`.
 */
module Heaps {
  import opened Allocator
  import opened Arrays

  /** `KeyPair<T>`: a value and the key it is ordered by. */
  datatype KeyPair<T> = KeyPair(value: T, key: nat)

  /** Every parent's key is at most its children's, in slots `1..n`. */
  ghost predicate HeapOrdered<T>(s: seq<KeyPair<T>>, n: nat)
    requires n < |s|
  {
    forall i :: 2 <= i <= n ==> s[i / 2].key <= s[i].key
  }

  /** Every element in slots `1..n` is kept under the key its value hashes to. */
  ghost predicate KeysMatch<T>(s: seq<KeyPair<T>>, n: nat, hasher: T -> nat)
    requires n < |s|
  {
    forall i :: 1 <= i <= n ==> s[i].key == hasher(s[i].value)
  }

  /**
   * Heap order while `x` is being sifted up: every edge is ordered except
   * the one from `x` to its parent, and `x`'s parent is at most `x`'s
   * children.
   */
  ghost predicate OrderedExceptUp<T>(s: seq<KeyPair<T>>, n: nat, x: nat)
    requires n < |s|
  {
    && (forall i :: 2 <= i <= n && i != x ==> s[i / 2].key <= s[i].key)
    && (2 <= x ==> forall i :: 2 <= i <= n && i / 2 == x ==> s[x / 2].key <= s[i].key)
  }

  /**
   * Heap order while `x` is being sifted down: every edge is ordered except
   * those from `x` to its children, and `x`'s parent is at most `x`'s
   * children.
   */
  ghost predicate OrderedExceptDown<T>(s: seq<KeyPair<T>>, n: nat, x: nat)
    requires n < |s|
  {
    && (forall i :: 2 <= i <= n && i / 2 != x ==> s[i / 2].key <= s[i].key)
    && (2 <= x ==> forall i :: 2 <= i <= n && i / 2 == x ==> s[x / 2].key <= s[i].key)
  }

  /** One sift-up swap moves the single disorder one level up. */
  lemma SiftUpStep<T>(s: seq<KeyPair<T>>, n: nat, x: nat)
    requires 2 <= x <= n < |s| && OrderedExceptUp(s, n, x)
    requires s[x].key < s[x / 2].key
    ensures OrderedExceptUp(Swapped(s, x, x / 2), n, x / 2)
  {
    var p := x / 2;
    var t := Swapped(s, x, p);
    forall i | 2 <= i <= n && i != p
      ensures t[i / 2].key <= t[i].key
    {
      if i == x {
      } else if i / 2 == x {
        assert t[i / 2] == s[p] && t[i] == s[i];
      } else if i / 2 == p {
        assert s[p].key <= s[i].key;
      } else {
        assert t[i / 2] == s[i / 2] && t[i] == s[i];
      }
    }
    if 2 <= p {
      forall i | 2 <= i <= n && i / 2 == p
        ensures t[p / 2].key <= t[i].key
      {
        assert t[p / 2] == s[p / 2];
        assert s[p / 2].key <= s[p].key;
        if i != x {
          assert s[p].key <= s[i].key;
        }
      }
    }
  }

  /** One sift-down swap with the smaller child moves the single disorder one level down. */
  lemma SiftDownStep<T>(s: seq<KeyPair<T>>, n: nat, x: nat, c: nat)
    requires 1 <= x && n < |s| && OrderedExceptDown(s, n, x)
    requires c / 2 == x && 2 <= c <= n && s[c].key < s[x].key
    requires forall i :: 2 <= i <= n && i / 2 == x ==> s[c].key <= s[i].key
    ensures OrderedExceptDown(Swapped(s, c, x), n, c)
  {
    var t := Swapped(s, c, x);
    forall i | 2 <= i <= n && i / 2 != c
      ensures t[i / 2].key <= t[i].key
    {
      if i / 2 == x {
        if i != c {
          assert t[i / 2] == s[c] && t[i] == s[i];
        }
      } else if i == x {
        assert t[i / 2] == s[x / 2] && t[i] == s[c];
      } else {
        assert t[i / 2] == s[i / 2] && t[i] == s[i];
      }
    }
    forall i | 2 <= i <= n && i / 2 == c
      ensures t[c / 2].key <= t[i].key
    {
      assert t[c / 2] == s[c] && t[i] == s[i];
    }
  }

  /** In a heap-ordered slice, the root's key is at most the key at every slot `1..n`. */
  lemma {:induction false} RootIsMinimum<T>(s: seq<KeyPair<T>>, n: nat, i: nat)
    requires 1 <= i <= n < |s| && HeapOrdered(s, n)
    ensures s[1].key <= s[i].key
    decreases i
  {
    if i > 1 {
      RootIsMinimum(s, n, i / 2);
    }
  }

  /**
   * The decision `HeapifyTopToBottom` makes at slot `x`, which has a left
   * child: 0 to stop, or the child to swap with. It swaps only with a child
   * whose key is below `x`'s, always with the smaller child, and with the
   * left child when both children's keys are equal.
   */
  function SiftTarget<T>(s: seq<KeyPair<T>>, n: nat, x: nat): (c: nat)
    requires 1 <= x && 2 * x <= n < |s|
    ensures c == 0 <==> forall i :: 2 <= i <= n && i / 2 == x ==> s[x].key <= s[i].key
    ensures c != 0 ==> c / 2 == x && 2 <= c <= n && s[c].key < s[x].key
    ensures c != 0 ==> forall i :: 2 <= i <= n && i / 2 == x ==> s[c].key <= s[i].key
    ensures c == 2 * x + 1 ==> s[c].key < s[2 * x].key
  {
    var left := 2 * x;
    var right := 2 * x + 1;
    var lDiff := s[x].key > s[left].key;
    var rDiff := if n > left then s[x].key > s[right].key else false;
    var dir := if rDiff then s[left].key > s[right].key else false;
    assert forall i :: 2 <= i <= n && i / 2 == x ==> i == left || i == right;
    if lDiff || rDiff then left + (if dir then 1 else 0) else 0
  }

  /**
   * `t` is `s` with slots `1..n` rearranged: slot 0 and the slots after
   * `n` are untouched.
   */
  ghost predicate Rearranged<T>(s: seq<KeyPair<T>>, t: seq<KeyPair<T>>, n: nat)
  {
    && |s| == |t| && n < |s|
    && s[0] == t[0] && s[n + 1..] == t[n + 1..]
    && multiset(s[1..n + 1]) == multiset(t[1..n + 1])
  }

  /** Swapping two slots among `1..n` rearranges them and keeps every key matched. */
  lemma SwapRearranges<T>(s: seq<KeyPair<T>>, n: nat, a: nat, b: nat, hasher: T -> nat)
    requires 1 <= a <= n && 1 <= b <= n && n < |s|
    requires KeysMatch(s, n, hasher)
    ensures Rearranged(s, Swapped(s, a, b), n) && KeysMatch(Swapped(s, a, b), n, hasher)
  {
    var t := Swapped(s, a, b);
    SwappedSlice(s, a, b, 1, n + 1);
    assert t[n + 1..] == s[n + 1..] by {
      forall k | n + 1 <= k < |s|
        ensures t[k] == s[k]
      {
      }
    }
    forall i | 1 <= i <= n
      ensures t[i].key == hasher(t[i].value)
    {
      var j := if i == a then b else if i == b then a else i;
      assert t[i] == s[j];
    }
  }

  lemma RearrangedTrans<T>(s: seq<KeyPair<T>>, t: seq<KeyPair<T>>, u: seq<KeyPair<T>>, n: nat)
    requires Rearranged(s, t, n) && Rearranged(t, u, n)
    ensures Rearranged(s, u, n)
  {
  }

  class Heap<T(0)> {
    /** The slots (the `Array<KeyPair<T>>` base); slot 0 is unused. */
    const arr: Array<KeyPair<T>>
    /** The key function (the `hasher` function pointer). */
    const hasher: T -> nat
    /** Number of elements (`_count`). */
    var count: nat

    ghost predicate Valid()
      reads this, arr, arr.data
    {
      && (count == 0 || count < arr.data.Length)
      && (count > 0 ==> HeapOrdered(arr.data[..], count) && KeysMatch(arr.data[..], count, hasher))
    }

    /** The multiset of key/value pairs in the heap. */
    ghost function Contents(): multiset<KeyPair<T>>
      reads this, arr, arr.data
    {
      if 0 < count < arr.data.Length then multiset(arr.data[1..count + 1]) else multiset{}
    }

    /** An empty heap over no memory, with its key function. */
    constructor (elemSize: nat, hasher: T -> nat)
      ensures Valid() && count == 0 && Contents() == multiset{}
      ensures this.hasher == hasher
      ensures fresh(arr) && fresh(arr.data) && arr.elemSize == elemSize && arr.data.Length == 0
    {
      arr := new Array(elemSize);
      this.hasher := hasher;
      count := 0;
    }

    /** `Allocate`: room for `size` elements is `size + 1` slots, slot 0 unused. */
    method Allocate(alloc: LinearAllocator, size: nat, fill: KeyPair<T>)
      requires alloc.Valid() && alloc.CanMalloc(arr.elemSize * (size + 1))
      modifies arr, alloc, alloc.region
      ensures alloc.Valid() && alloc.Pushed(arr.elemSize * (size + 1), arr.origin)
      ensures fresh(arr.data) && arr.data.Length == size + 1
      ensures forall i :: 0 <= i <= size ==> arr.data[i] == fill
      ensures count == old(count)
    {
      arr.Allocate(alloc, size + 1, fill);
    }

    /** `GetCount`: the number of elements. */
    function GetCount(): (n: nat)
      reads this, arr, arr.data
      requires Valid()
      ensures n == |Contents()|
    {
      count
    }

    /** `Swap`: exchanges two slots. */
    method Swap(a: nat, b: nat)
      requires a < arr.data.Length && b < arr.data.Length
      modifies arr.data
      ensures arr.data[..] == Swapped(old(arr.data[..]), a, b)
    {
      arr.Swap(a, b);
    }

    /**
     * `HeapifyBottomToTop`: while the element at `index` has a parent with a
     * larger key, swap it with that parent. Only slots `1..count` move.
     */
    method HeapifyBottomToTop(index: nat)
      requires 1 <= index <= count < arr.data.Length
      requires OrderedExceptUp(arr.data[..], count, index) && KeysMatch(arr.data[..], count, hasher)
      modifies arr.data
      ensures HeapOrdered(arr.data[..], count) && KeysMatch(arr.data[..], count, hasher)
      ensures Rearranged(old(arr.data[..]), arr.data[..], count)
      decreases index
    {
      if index <= 1 {
        return;
      }
      var parentIndex := index / 2;
      if arr.Get(index).key < arr.Get(parentIndex).key {
        ghost var s := arr.data[..];
        SiftUpStep(s, count, index);
        SwapRearranges(s, count, index, parentIndex, hasher);
        Swap(index, parentIndex);
        ghost var t := arr.data[..];
        HeapifyBottomToTop(parentIndex);
        RearrangedTrans(s, t, arr.data[..], count);
      }
    }

    /**
     * `HeapifyTopToBottom`: while the element at `index` has a child with a
     * smaller key, swap it with the smaller child (the left one on a tie).
     * Only slots `1..count` move.
     */
    method HeapifyTopToBottom(index: nat)
      requires 1 <= index && count < arr.data.Length
      requires OrderedExceptDown(arr.data[..], count, index) && KeysMatch(arr.data[..], count, hasher)
      modifies arr.data
      ensures HeapOrdered(arr.data[..], count) && KeysMatch(arr.data[..], count, hasher)
      ensures Rearranged(old(arr.data[..]), arr.data[..], count)
      decreases count - index + 1
    {
      var left := index * 2;
      if count < left {
        return;
      }
      var newIndex := SiftTarget(arr.data[..], count, index);
      if newIndex != 0 {
        ghost var s := arr.data[..];
        SiftDownStep(s, count, index, newIndex);
        SwapRearranges(s, count, newIndex, index, hasher);
        Swap(newIndex, index);
        ghost var t := arr.data[..];
        HeapifyTopToBottom(newIndex);
        RearrangedTrans(s, t, arr.data[..], count);
      }
    }

    /**
     * `Insert` / `_Insert`: counts one more element, asserts it fits below
     * the length, stores `{value, hasher(value)}` in slot `count` and sifts
     * it up.
     */
    method Insert(value: T)
      requires Valid() && count + 1 < arr.data.Length
      modifies this, arr.data
      ensures Valid() && count == old(count) + 1
      ensures Contents() == old(Contents()) + multiset{KeyPair(value, hasher(value))}
      ensures arr.data[0] == old(arr.data[0])
    {
      ghost var before := Contents();
      count := count + 1;
      ghost var s := arr.data[..];
      arr.Set(count, KeyPair(value, hasher(value)));
      ghost var t := arr.data[..];
      AppendSlices(s, t, count, KeyPair(value, hasher(value)), hasher);
      HeapifyBottomToTop(count);
    }

    /** `Peek`: asserts the heap is not empty and reads slot 1, whose key is the least. */
    function Peek(): (top: T)
      reads this, arr, arr.data
      requires Valid() && count > 0
      ensures KeyPair(top, hasher(top)) in Contents()
      ensures KeysAtLeast(Contents(), hasher(top))
    {
      RootIsLeast(arr.data[..], count);
      arr.Get(1).value
    }

    /**
     * `Pop`: asserts the heap is not empty, takes the root's value, moves
     * the last element into slot 1, counts one fewer and sifts slot 1 down.
     */
    method Pop() returns (value: T)
      requires Valid() && count > 0
      modifies this, arr.data
      ensures Valid() && count == old(count) - 1
      ensures value == old(Peek())
      ensures Contents() == old(Contents()) - multiset{KeyPair(value, hasher(value))}
      ensures KeysAtLeast(Contents(), hasher(value))
      ensures arr.data[0] == old(arr.data[0])
    {
      ghost var s := arr.data[..];
      RootIsLeast(s, count);
      value := arr.Get(1).value;
      arr.Set(1, arr.Get(count));
      count := count - 1;
      ghost var t := arr.data[..];
      PopSlices(s, t, count, hasher);
      HeapifyTopToBottom(1);
      assert multiset(arr.data[1..count + 1]) <= multiset(s[1..count + 2]);
    }

    /** `Clear`: counts no elements; the slots keep their contents. */
    method Clear()
      modifies this
      ensures Valid() && count == 0 && Contents() == multiset{}
    {
      count := 0;
    }
  }

  /** The root's key is at most every key in a heap-ordered slice `1..n`. */
  lemma RootIsLeast<T>(s: seq<KeyPair<T>>, n: nat)
    requires 1 <= n < |s| && HeapOrdered(s, n)
    ensures s[1] in multiset(s[1..n + 1])
    ensures KeysAtLeast(multiset(s[1..n + 1]), s[1].key)
  {
    assert s[1..n + 1][0] == s[1];
    forall p | p in multiset(s[1..n + 1])
      ensures s[1].key <= p.key
    {
      var k :| 0 <= k < n && s[1..n + 1][k] == p;
      RootIsMinimum(s, n, k + 1);
    }
  }

  /**
   * Storing a pair in slot `n` after a heap-ordered slice `1..n-1` adds it
   * to the multiset and leaves only the edge to its parent to repair.
   */
  lemma AppendSlices<T>(s: seq<KeyPair<T>>, t: seq<KeyPair<T>>, n: nat, x: KeyPair<T>, hasher: T -> nat)
    requires 1 <= n < |s| && t == s[n := x] && x.key == hasher(x.value)
    requires n > 1 ==> HeapOrdered(s, n - 1) && KeysMatch(s, n - 1, hasher)
    ensures multiset(t[1..n + 1]) == (if n == 1 then multiset{} else multiset(s[1..n])) + multiset{x}
    ensures OrderedExceptUp(t, n, n) && KeysMatch(t, n, hasher)
  {
    assert t[1..n + 1] == s[1..n] + [x];
    if n == 1 {
      assert s[1..n] == [];
    }
  }

  /**
   * Moving the last of `n + 1` elements into slot 1 and dropping the last
   * slot removes the old root from the multiset, keeps the other edges
   * ordered and keeps every key matched.
   */
  lemma PopSlices<T>(s: seq<KeyPair<T>>, t: seq<KeyPair<T>>, n: nat, hasher: T -> nat)
    requires n + 1 < |s| && t == s[1 := s[n + 1]]
    requires HeapOrdered(s, n + 1) && KeysMatch(s, n + 1, hasher)
    ensures multiset(t[1..n + 1]) == multiset(s[1..n + 2]) - multiset{s[1]}
    ensures OrderedExceptDown(t, n, 1) && KeysMatch(t, n, hasher)
  {
    if n == 0 {
      assert s[1..n + 2] == [s[1]];
    } else {
      assert s[1..n + 2] == [s[1]] + s[2..n + 1] + [s[n + 1]];
      assert t[1..n + 1] == [s[n + 1]] + s[2..n + 1];
    }
    forall i | 2 <= i <= n && i / 2 != 1
      ensures t[i / 2].key <= t[i].key
    {
      assert t[i / 2] == s[i / 2] && t[i] == s[i];
    }
    forall i | 1 <= i <= n
      ensures t[i].key == hasher(t[i].value)
    {
      assert i == 1 || t[i] == s[i];
    }
  }

  /** Keys never decrease along `s`. */
  ghost predicate SortedByKey<T>(s: seq<KeyPair<T>>)
  {
    forall i, j :: 0 <= i < j < |s| ==> s[i].key <= s[j].key
  }

  /** No pair in `m` has a key below `k`. */
  ghost predicate KeysAtLeast<T>(m: multiset<KeyPair<T>>, k: nat)
  {
    forall p :: p in m ==> k <= p.key
  }

  /**
   * One round of draining: appending the popped least pair to the output
   * keeps the output sorted, still below what is left, and keeps the output
   * and the remaining pairs together equal to what there was.
   */
  lemma DrainStep<T>(out: seq<KeyPair<T>>, before: multiset<KeyPair<T>>, after: multiset<KeyPair<T>>,
                     popped: KeyPair<T>, initial: multiset<KeyPair<T>>)
    requires SortedByKey(out) && multiset(out) + before == initial
    requires out != [] ==> KeysAtLeast(before, out[|out| - 1].key)
    requires popped in before && after == before - multiset{popped} && KeysAtLeast(after, popped.key)
    ensures SortedByKey(out + [popped]) && multiset(out + [popped]) + after == initial
  {
    assert out != [] ==> out[|out| - 1].key <= popped.key;
    assert multiset(out + [popped]) == multiset(out) + multiset{popped};
  }

  /**
   * Popping until the heap is empty yields every element once, in
   * non-decreasing key order: the order the heap is meant to sort in.
   */
  method PopAll<T(0)>(h: Heap<T>) returns (out: seq<KeyPair<T>>)
    requires h.Valid()
    modifies h, h.arr.data
    ensures h.Valid() && h.count == 0
    ensures multiset(out) == old(h.Contents())
    ensures SortedByKey(out)
  {
    out := [];
    ghost var initial := h.Contents();
    while h.count > 0
      invariant h.Valid()
      invariant multiset(out) + h.Contents() == initial
      invariant SortedByKey(out)
      invariant out != [] ==> KeysAtLeast(h.Contents(), out[|out| - 1].key)
      decreases h.count
    {
      ghost var before := h.Contents();
      var v := h.Pop();
      var popped := KeyPair(v, h.hasher(v));
      DrainStep(out, before, h.Contents(), popped, initial);
      out := out + [popped];
    }
  }
}
