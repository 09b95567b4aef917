/**
 * The container scenarios of JLB/UnitTest.cpp, each over a 1024-byte
 * `LinearAllocator`. The test's array swap reuses an allocator that already
 * holds an earlier array; the model starts that one fresh, which leaves the
 * swap's outcome the same. Element sizes are those of the test's types
 * on a 64-bit target: 4 bytes for `int`, 16 for a `KeyPair` of a struct
 * holding one `int`. The test's values derived from `rand()` are left out;
 * its hash function is `static_cast<size_t>(str.i)`.
 */
module Scenarios {
  import opened Allocator
  import opened Arrays
  import opened Vectors
  import opened Stacks
  import opened HashMaps
  import opened Heaps

  /** `static_cast<size_t>` of an `int`. */
  function IntToSizeT(i: int): (r: nat)
    ensures r <= SizeMax
    ensures 0 <= i <= SizeMax ==> r == i
  {
    ToSizeT(i)
  }

  /** Four ints, 4 and 6 written at 1 and 2, then swapped. */
  method ArraySwapScenario() returns (at1: int, at2: int)
    ensures at1 == 6 && at2 == 4
  {
    var alloc := new LinearAllocator(1024);
    var arr := new Array<int>(4);
    arr.Allocate(alloc, 4, 0);
    arr.Set(1, 4);
    arr.Set(2, 6);
    arr.Swap(1, 2);
    at1, at2 := arr.Get(1), arr.Get(2);
  }

  /**
   * Twelve ints; count set to 2, elements 2 and 4 written, 6 added, then 8
   * written past the count. Iteration sees 2, 4, 6 and not the 8.
   */
  method VectorScenario() returns (items: seq<int>)
    ensures items == [2, 4, 6]
  {
    var alloc := new LinearAllocator(1024);
    var vec := new Vector<int>(4);
    vec.Allocate(alloc, 12, 0);
    vec.SetCount(2);
    vec.arr.Set(0, 2);
    vec.arr.Set(1, 4);
    vec.Add(6);
    vec.arr.Set(3, 8);
    items := vec.Items();
  }

  /** Push 2, push 3, pop: the top is 2 again. */
  method StackScenario() returns (top: int)
    ensures top == 2
  {
    var alloc := new LinearAllocator(1024);
    var stack := new Stack<int>(4);
    stack.Allocate(alloc, 12, 0);
    stack.Push(2);
    stack.Push(3);
    var popped := stack.Pop();
    top := stack.Peek();
  }

  /** A fresh 24-slot map of structs hashed by their int, with 5 inserted. */
  method MapWithFive() returns (hm: HashMap<int>)
    ensures fresh(hm) && fresh(hm.arr) && fresh(hm.arr.data) && hm.Valid() && hm.arr.data.Length == 24
    ensures hm.hasher == IntToSizeT && hm.count == 1 && hm.Contents() == {5}
    ensures forall j :: 0 <= j < 24 ==> hm.arr.data[j] == if j == 5 then Occupied(5, 5) else Empty
  {
    var alloc := new LinearAllocator(1024);
    hm := new HashMap<int>(16, IntToSizeT);
    hm.Allocate(alloc, 24);
    ghost var empty := hm.arr.data[..];
    hm.Insert(5);
    assert hm.GetHash(5) == 5;
    assert Probe(5, 0, 24) == 5;
    assert hm.arr.data[..] == empty[5 := Occupied(5, 5)] by {
      var m :| 0 <= m < 24 && empty[Probe(5, m, 24)] == Empty
        && (forall k :: 0 <= k < m ==> empty[Probe(5, k, 24)] != Empty)
        && hm.arr.data[..] == empty[Probe(5, m, 24) := Occupied(5, 5)];
      assert m == 0;
    }
  }

  /** Before and after inserting 5 (twice): contained once, count 1. */
  method HashMapInsertScenario() returns (before: bool, afterInsert: bool, count1: nat, count2: nat)
    ensures !before && afterInsert && count1 == 1 && count2 == 1
  {
    var alloc := new LinearAllocator(1024);
    var hm := new HashMap<int>(16, IntToSizeT);
    hm.Allocate(alloc, 24);
    before := hm.Contains(5);
    hm.Insert(5);
    afterInsert := hm.Contains(5);
    count1 := hm.GetCount();
    hm.Insert(5);
    count2 := hm.GetCount();
  }

  /** Erasing 5 leaves neither 5 nor 6; inserting 6 does not bring 5 back; inserting 5 does. */
  method HashMapEraseScenario() returns (afterErase: bool, sixAfterErase: bool, fiveAfterSix: bool, last: bool)
    ensures !afterErase && !sixAfterErase && !fiveAfterSix && last
  {
    var hm := MapWithFive();
    FirstInsertLandsHome(hm.arr.data[..]);
    ghost var erasedAt := hm.Erase(5);
    afterErase := hm.Contains(5);
    sixAfterErase := hm.Contains(6);
    hm.Insert(6);
    fiveAfterSix := hm.Contains(5);
    hm.Insert(5);
    last := hm.Contains(5);
  }

  /**
   * After 5 is inserted into 24 empty slots it sits alone in its home slot
   * 5, the next slot is empty, so its key group is one slot long and
   * `Erase`'s swap stays in bounds.
   */
  lemma FirstInsertLandsHome(s: seq<Slot<int>>)
    requires |s| == 24
    requires forall j :: 0 <= j < 24 ==> (s[j] == Occupied(5, 5) <==> j == 5) && (j != 5 ==> s[j] == Empty)
    ensures forall j :: 0 <= j < 24 && s[j] == Occupied(5, 5) ==> j + RunEnd(s, j, 1) <= 24
  {
    assert Probe(5, 1, 24) == 6;
    assert RunEnd(s, 5, 1) == 1;
  }

  /** A heap of eight: insert 6 and 5; two elements, 5 on top; cleared, none. */
  method HeapScenario() returns (count: nat, top: int, cleared: nat)
    ensures count == 2 && top == 5 && cleared == 0
  {
    var alloc := new LinearAllocator(1024);
    var heap := new Heap<int>(16, IntToSizeT);
    heap.Allocate(alloc, 8, KeyPair(-1, SizeMax));
    heap.Insert(6);
    heap.Insert(5);
    count := heap.GetCount();
    top := heap.Peek();
    heap.Clear();
    cleared := heap.GetCount();
  }
}
