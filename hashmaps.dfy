/**
 * The linear-probing hash set of JLB/HashMap.h, built on an `Array` of
 * key/value slots (JLB/KeyPair.h).
 *
 * A slot's key is SIZE_MAX while it is empty; a stored value `v` sits in a
 * slot whose key is `hasher(v) % length`. The model tags the empty slot
 * (`Empty`) and gives it the key SIZE_MAX through `Key`, so the comparisons
 * the code makes on keys are made on the same numbers here.
 */
module HashMaps {
  import opened Allocator
  import opened Arrays

  /** A `KeyPair<T>` slot: empty, or a value and the key it was stored under. */
  datatype Slot<T> = Empty | Occupied(value: T, key: nat)

  /** The `key` field of a slot; an empty slot holds SIZE_MAX. */
  function Key<T>(slot: Slot<T>): nat
  {
    if slot.Empty? then SizeMax else slot.key
  }

  /**
   * The slot visited at step `i` of a probe that starts at slot `hash`:
   * `(hash + i) % len`, which for `hash, i < len` wraps at most once.
   */
  function Probe(hash: nat, i: nat, len: nat): (index: nat)
    requires hash < len && i < len
    ensures index < len && index == (hash + i) % len
  {
    WrapOnce(hash + i, len);
    if hash + i < len then hash + i else hash + i - len
  }

  lemma WrapOnce(x: nat, len: nat)
    requires x < 2 * len
    ensures x % len == if x < len then x else x - len
  {
    if x >= len {
      assert x == 1 * len + (x - len);
    }
  }

  /** The step at which a probe from `hash` visits slot `j`: every slot is reached within `len` steps. */
  function ProbeStep(hash: nat, j: nat, len: nat): (i: nat)
    requires hash < len && j < len
    ensures i < len && Probe(hash, i, len) == j
  {
    if hash <= j then j - hash else j + len - hash
  }

  /** Number of non-empty slots. */
  function OccupiedCount<T>(s: seq<Slot<T>>): (n: nat)
    ensures n <= |s|
    ensures n == |s| <==> forall j :: 0 <= j < |s| ==> s[j].Occupied?
  {
    if s == [] then 0
    else OccupiedCount(s[..|s| - 1]) + (if s[|s| - 1].Occupied? then 1 else 0)
  }

  /** The values stored in the slots. */
  function Values<T>(s: seq<Slot<T>>): set<T>
  {
    if s == [] then {}
    else Values(s[..|s| - 1]) + (if s[|s| - 1].Occupied? then {s[|s| - 1].value} else {})
  }

  /** A value is stored iff some slot holds it. */
  lemma {:induction false} ValuesMember<T>(s: seq<Slot<T>>, v: T)
    ensures v in Values(s) <==> exists j :: 0 <= j < |s| && s[j].Occupied? && s[j].value == v
  {
    if s != [] {
      var p := s[..|s| - 1];
      ValuesMember(p, v);
      if v in Values(p) {
        var j :| 0 <= j < |p| && p[j].Occupied? && p[j].value == v;
        assert s[j] == p[j];
      }
      if exists j :: 0 <= j < |s| && s[j].Occupied? && s[j].value == v {
        var j :| 0 <= j < |s| && s[j].Occupied? && s[j].value == v;
        if j < |p| {
          assert p[j] == s[j];
        }
      }
    }
  }

  /** No value is stored twice. */
  ghost predicate Distinct<T>(s: seq<Slot<T>>)
  {
    forall i, j :: 0 <= i < j < |s| && s[i].Occupied? && s[j].Occupied? ==> s[i].value != s[j].value
  }

  /** Every stored value sits under the key `hasher(v) % length`. */
  ghost predicate KeysAreHashes<T>(s: seq<Slot<T>>, hasher: T -> nat)
  {
    forall j :: 0 <= j < |s| && s[j].Occupied? ==> s[j].key == hasher(s[j].value) % |s|
  }

  /** Without duplicates, the number of stored values is the number of occupied slots. */
  lemma {:induction false} DistinctValuesCount<T>(s: seq<Slot<T>>)
    requires Distinct(s)
    ensures |Values(s)| == OccupiedCount(s)
  {
    if s != [] {
      var p := s[..|s| - 1];
      assert Distinct(p) by {
        forall i, j | 0 <= i < j < |p| && p[i].Occupied? && p[j].Occupied?
          ensures p[i].value != p[j].value
        {
          assert p[i] == s[i] && p[j] == s[j];
        }
      }
      DistinctValuesCount(p);
      var last := s[|s| - 1];
      if last.Occupied? {
        ValuesMember(p, last.value);
        forall j | 0 <= j < |p| && p[j].Occupied?
          ensures p[j].value != last.value
        {
          assert p[j] == s[j];
        }
      }
    }
  }

  /** Filling an empty slot adds one occupied slot. */
  lemma {:induction false} OccupiedCountFill<T>(s: seq<Slot<T>>, j: nat, x: Slot<T>)
    requires j < |s| && s[j].Empty? && x.Occupied?
    ensures OccupiedCount(s[j := x]) == OccupiedCount(s) + 1
  {
    var p := s[..|s| - 1];
    if j < |s| - 1 {
      assert s[j := x][..|s| - 1] == p[j := x];
      OccupiedCountFill(p, j, x);
    } else {
      assert s[j := x][..|s| - 1] == p;
    }
  }

  /** Clearing an occupied slot removes one occupied slot. */
  lemma {:induction false} OccupiedCountClear<T>(s: seq<Slot<T>>, j: nat)
    requires j < |s| && s[j].Occupied?
    ensures OccupiedCount(s[j := Empty]) == OccupiedCount(s) - 1
  {
    var p := s[..|s| - 1];
    if j < |s| - 1 {
      assert s[j := Empty][..|s| - 1] == p[j := Empty];
      OccupiedCountClear(p, j);
    } else {
      assert s[j := Empty][..|s| - 1] == p;
    }
  }

  /** Swapping two slots keeps the occupancy count. */
  lemma {:induction false} OccupiedCountSwapped<T>(s: seq<Slot<T>>, a: nat, b: nat)
    requires a < |s| && b < |s|
    ensures OccupiedCount(Swapped(s, a, b)) == OccupiedCount(s)
  {
    if s[a].Occupied? == s[b].Occupied? {
      if s[a].Occupied? && a != b {
        OccupiedCountSwapBoth(s, a, b);
      } else if a != b {
        assert forall j :: 0 <= j < |s| ==> Swapped(s, a, b)[j].Occupied? == s[j].Occupied?;
        OccupiedCountSame(s, Swapped(s, a, b));
      } else {
        assert Swapped(s, a, b) == s;
      }
    } else {
      var occ, emp := if s[a].Occupied? then a else b, if s[a].Occupied? then b else a;
      OccupiedCountClear(s, occ);
      OccupiedCountFill(s[occ := Empty], emp, s[occ]);
      assert s[occ := Empty][emp := s[occ]] == Swapped(s, a, b);
    }
  }

  /** Swapping two distinct occupied slots keeps the occupancy count. */
  lemma OccupiedCountSwapBoth<T>(s: seq<Slot<T>>, a: nat, b: nat)
    requires a < |s| && b < |s| && a != b && s[a].Occupied? && s[b].Occupied?
    ensures OccupiedCount(Swapped(s, a, b)) == OccupiedCount(s)
  {
    var cleared := s[a := Empty][b := Empty];
    OccupiedCountClear(s, a);
    OccupiedCountClear(s[a := Empty], b);
    OccupiedCountFill(cleared, a, s[b]);
    OccupiedCountFill(cleared[a := s[b]], b, s[a]);
    assert cleared[a := s[b]][b := s[a]] == Swapped(s, a, b);
  }

  /** The count only looks at which slots are occupied. */
  lemma {:induction false} OccupiedCountSame<T>(s: seq<Slot<T>>, t: seq<Slot<T>>)
    requires |s| == |t|
    requires forall j :: 0 <= j < |s| ==> s[j].Occupied? == t[j].Occupied?
    ensures OccupiedCount(s) == OccupiedCount(t)
  {
    if s != [] {
      OccupiedCountSame(s[..|s| - 1], t[..|t| - 1]);
    }
  }

  /**
   * The length of the run of slots after `index` (wrapping around) whose key
   * equals the key at `index`, counting `index` itself, as the scan in
   * `Erase` measures it from step `i` on.
   */
  function RunEnd<T>(s: seq<Slot<T>>, index: nat, i: nat): (r: nat)
    requires index < |s| && 1 <= i <= |s|
    decreases |s| - i
    ensures i <= r <= |s|
    ensures forall k :: i <= k < r ==> Key(s[Probe(index, k, |s|)]) == Key(s[index])
    ensures r < |s| ==> Key(s[Probe(index, r, |s|)]) != Key(s[index])
  {
    if i < |s| && Key(s[Probe(index, i, |s|)]) == Key(s[index]) then RunEnd(s, index, i + 1) else i
  }

  class HashMap<T(==, 0)> {
    /** The slots (the `Array<KeyPair<T>>` base). */
    const arr: Array<Slot<T>>
    /** The hash function (the `hasher` function pointer). */
    const hasher: T -> nat
    /** Number of values stored (`_count`). */
    var count: nat

    ghost predicate Valid()
      reads this, arr, arr.data
    {
      && count == OccupiedCount(arr.data[..])
      && KeysAreHashes(arr.data[..], hasher)
      && Distinct(arr.data[..])
    }

    /** The set the map holds. */
    ghost function Contents(): set<T>
      reads this, arr, arr.data
    {
      Values(arr.data[..])
    }

    /** An empty map over no memory, with its hasher. */
    constructor (elemSize: nat, hasher: T -> nat)
      ensures Valid() && count == 0 && Contents() == {}
      ensures this.hasher == hasher
      ensures fresh(arr) && fresh(arr.data) && arr.elemSize == elemSize && arr.data.Length == 0
    {
      arr := new Array(elemSize);
      this.hasher := hasher;
      count := 0;
    }

    /**
     * The inherited `Allocate(allocator, size)` with its default fill value:
     * `size` empty slots. The count is not reset, so the map is consistent
     * afterwards exactly when it was empty.
     */
    method Allocate(alloc: LinearAllocator, size: nat)
      requires alloc.Valid() && alloc.CanMalloc(arr.elemSize * size)
      modifies arr, alloc, alloc.region
      ensures alloc.Valid() && alloc.Pushed(arr.elemSize * size, arr.origin)
      ensures fresh(arr.data) && arr.data.Length == size
      ensures forall i :: 0 <= i < size ==> arr.data[i] == Empty
      ensures count == old(count) && (Valid() <==> count == 0)
      ensures Valid() ==> Contents() == {}
    {
      arr.Allocate(alloc, size, Empty);
      Empties(arr.data[..]);
    }

    /** `GetHash`: the home slot of `value`, `hasher(value) % length`. */
    function GetHash(value: T): (hash: nat)
      reads this, arr
      requires arr.data.Length > 0
      ensures hash < arr.data.Length
    {
      hasher(value) % arr.data.Length
    }

    /**
     * `Contains(value, outIndex)`: scans all `length` slots from the home
     * slot, wrapping around, and reports the first that holds `value` under
     * its hash. The scan does not stop at an empty slot.
     */
    method ContainsAt(value: T) returns (found: bool, index: nat)
      requires count < arr.data.Length
      ensures found <==> exists j :: 0 <= j < arr.data.Length && arr.data[j] == Occupied(value, GetHash(value))
      ensures found ==> index < arr.data.Length && arr.data[index] == Occupied(value, GetHash(value))
      ensures found ==> exists m :: 0 <= m < arr.data.Length && index == Probe(GetHash(value), m, arr.data.Length)
                                    && forall k :: 0 <= k < m ==> arr.data[Probe(GetHash(value), k, arr.data.Length)] != Occupied(value, GetHash(value))
      ensures Valid() ==> (found <==> value in Contents())
    {
      var length := arr.data.Length;
      var hash := GetHash(value);
      index := 0;
      var i := 0;
      while i < length
        invariant 0 <= i <= length
        invariant forall k :: 0 <= k < i ==> arr.data[Probe(hash, k, length)] != Occupied(value, hash)
      {
        var at := Probe(hash, i, length);
        var slot := arr.Get(at);
        // An empty slot's key, SIZE_MAX, never equals a hash below the length.
        if slot.Occupied? && slot.key == hash && slot.value == value {
          found, index := true, at;
          StoredUnderHash(value);
          return;
        }
        i := i + 1;
      }
      found := false;
      forall j | 0 <= j < length
        ensures arr.data[j] != Occupied(value, hash)
      {
        var m := ProbeStep(hash, j, length);
        assert arr.data[Probe(hash, m, length)] != Occupied(value, hash);
      }
      StoredUnderHash(value);
    }

    /** In a consistent map, a value is stored iff it sits in some slot under its hash. */
    lemma StoredUnderHash(value: T)
      requires arr.data.Length > 0
      ensures Valid() ==> (value in Contents() <==> exists j :: 0 <= j < arr.data.Length && arr.data[j] == Occupied(value, GetHash(value)))
    {
      var s := arr.data[..];
      ValuesMember(s, value);
      if Valid() && value in Contents() {
        var j :| 0 <= j < |s| && s[j].Occupied? && s[j].value == value;
        assert arr.data[j] == Occupied(value, GetHash(value));
      }
    }

    /** `Contains(value)`: whether the map holds `value`. */
    method Contains(value: T) returns (found: bool)
      requires count < arr.data.Length
      ensures found <==> exists j :: 0 <= j < arr.data.Length && arr.data[j] == Occupied(value, GetHash(value))
      ensures Valid() ==> (found <==> value in Contents())
    {
      var n;
      found, n := ContainsAt(value);
    }

    /** `GetCount`: the number of values stored. */
    function GetCount(): (n: nat)
      reads this, arr, arr.data
      requires Valid()
      ensures n == |Contents()|
    {
      DistinctValuesCount(arr.data[..]);
      count
    }

    /**
     * `Insert` / `_Insert`: asserts `count < length`. A value already held
     * changes nothing; otherwise it is written, under its hash, into the
     * first empty slot of the probe from its home slot, and counted.
     */
    method Insert(value: T)
      requires Valid() && count < arr.data.Length
      modifies this, arr.data
      ensures Valid() && Contents() == old(Contents()) + {value}
      ensures value in old(Contents()) ==> count == old(count) && arr.data[..] == old(arr.data[..])
      ensures value !in old(Contents()) ==> count == old(count) + 1
      ensures value !in old(Contents()) ==>
        exists m :: 0 <= m < arr.data.Length
          && old(arr.data[Probe(GetHash(value), m, arr.data.Length)]) == Empty
          && (forall k :: 0 <= k < m ==> old(arr.data[Probe(GetHash(value), k, arr.data.Length)]) != Empty)
          && arr.data[..] == old(arr.data[..])[Probe(GetHash(value), m, arr.data.Length) := Occupied(value, GetHash(value))]
    {
      var found := Contains(value);
      if found {
        return;
      }
      var length := arr.data.Length;
      var hash := GetHash(value);
      ghost var s := arr.data[..];
      ghost var hole := EmptySlot(s);
      ghost var e := ProbeStep(hash, hole, length);
      var i := 0;
      // The code's `for` loop skips occupied slots and stops at the first
      // empty one; one exists because `count < length`.
      while arr.Get(Probe(hash, i, length)) != Empty
        invariant 0 <= i <= e
        invariant forall k :: 0 <= k < i ==> s[Probe(hash, k, length)] != Empty
        decreases e - i
      {
        i := i + 1;
      }
      var at := Probe(hash, i, length);
      arr.Set(at, Occupied(value, hash));
      count := count + 1;
      StoredUnderHash(value);
      FillKeeps(s, at, value, hasher);
    }

    /**
     * The scan at the start of `Erase` that measures the key group at
     * `index`: how many slots from `index` on, wrapping around, share its key.
     */
    method KeyGroupSize(index: nat) returns (i: nat)
      requires index < arr.data.Length
      ensures i == RunEnd(arr.data[..], index, 1)
    {
      var length := arr.data.Length;
      i := 1;
      while i < length
        invariant 1 <= i <= length
        invariant RunEnd(arr.data[..], index, i) == RunEnd(arr.data[..], index, 1)
        decreases length - i
      {
        if Key(arr.Get(Probe(index, i, length))) != Key(arr.Get(index)) {
          break;
        }
        i := i + 1;
      }
    }

    /**
     * `Erase`: asserts that the value is held, measures the run of slots
     * after its slot whose key equals its key, clears its slot and swaps
     * that slot with the last slot of the run. The swap partner is not
     * reduced modulo the length, so `Array::Swap`'s bounds assertion
     * demands that the run does not wrap past the last slot.
     */
    method Erase(value: T) returns (ghost index: nat)
      requires Valid() && count < arr.data.Length
      requires value in Contents()
      requires forall j :: 0 <= j < arr.data.Length && arr.data[j] == Occupied(value, GetHash(value)) ==>
        j + RunEnd(arr.data[..], j, 1) <= arr.data.Length
      modifies this, arr.data
      ensures Valid() && count == old(count) - 1
      ensures Contents() == old(Contents()) - {value}
      ensures index < arr.data.Length && old(arr.data[index]) == Occupied(value, GetHash(value))
      ensures index + RunEnd(old(arr.data[..]), index, 1) <= arr.data.Length
      ensures arr.data[..] == Swapped(old(arr.data[..])[index := Empty], index, index + RunEnd(old(arr.data[..]), index, 1) - 1)
    {
      var contains, at := ContainsAt(value);
      assert contains;
      index := at;
      ghost var s := arr.data[..];
      var i := KeyGroupSize(at);
      DistinctValuesCount(s);
      arr.Set(at, Empty);
      arr.Swap(at, at + i - 1);
      count := count - 1;
      ClearAndSwapKeeps(s, at, at + i - 1, value, hasher);
    }
  }

  /** Swapping two slots keeps the stored values. */
  lemma ValuesSwapped<T>(s: seq<Slot<T>>, a: nat, b: nat)
    requires a < |s| && b < |s|
    ensures Values(Swapped(s, a, b)) == Values(s)
  {
    var t := Swapped(s, a, b);
    forall v
      ensures v in Values(t) <==> v in Values(s)
    {
      ValuesMember(s, v);
      ValuesMember(t, v);
      if v in Values(s) {
        var j :| 0 <= j < |s| && s[j].Occupied? && s[j].value == v;
        var k := if j == a then b else if j == b then a else j;
        assert t[k] == s[j];
      }
      if v in Values(t) {
        var j :| 0 <= j < |t| && t[j].Occupied? && t[j].value == v;
        var k := if j == a then b else if j == b then a else j;
        assert s[k] == t[j];
      }
    }
    SameMembers(Values(t), Values(s));
  }

  /**
   * Two sets with the same members are equal. The lemmas about `Values`
   * conclude their set equalities through this call: asserted in place,
   * after their case analysis, the solver does not find them.
   */
  lemma SameMembers<T>(a: set<T>, b: set<T>)
    requires forall v :: v in a <==> v in b
    ensures a == b
  {
  }

  /** Slots that are all empty hold nothing. */
  lemma {:induction false} Empties<T>(s: seq<Slot<T>>)
    requires forall j :: 0 <= j < |s| ==> s[j] == Empty
    ensures OccupiedCount(s) == 0 && Values(s) == {}
  {
    if s != [] {
      Empties(s[..|s| - 1]);
    }
  }

  /** Slots with fewer values than slots have an empty slot. */
  lemma EmptySlot<T>(s: seq<Slot<T>>) returns (j: nat)
    requires OccupiedCount(s) < |s|
    ensures j < |s| && s[j] == Empty
  {
    j :| 0 <= j < |s| && !s[j].Occupied?;
  }

  /**
   * Writing a value not yet stored into an empty slot, under its hash,
   * keeps the slots consistent, counts one more slot and adds the value.
   */
  lemma FillKeeps<T>(s: seq<Slot<T>>, at: nat, value: T, hasher: T -> nat)
    requires at < |s| && s[at] == Empty
    requires KeysAreHashes(s, hasher) && Distinct(s) && value !in Values(s)
    ensures OccupiedCount(s[at := Occupied(value, hasher(value) % |s|)]) == OccupiedCount(s) + 1
    ensures KeysAreHashes(s[at := Occupied(value, hasher(value) % |s|)], hasher)
    ensures Distinct(s[at := Occupied(value, hasher(value) % |s|)])
    ensures Values(s[at := Occupied(value, hasher(value) % |s|)]) == Values(s) + {value}
  {
    var t := s[at := Occupied(value, hasher(value) % |s|)];
    OccupiedCountFill(s, at, t[at]);
    FillDistinct(s, at, t[at]);
    FillValues(s, at, t[at]);
  }

  lemma FillDistinct<T>(s: seq<Slot<T>>, at: nat, x: Slot<T>)
    requires at < |s| && s[at] == Empty && x.Occupied?
    requires Distinct(s) && x.value !in Values(s)
    ensures Distinct(s[at := x])
  {
    ValuesMember(s, x.value);
    var t := s[at := x];
    forall i, j | 0 <= i < j < |t| && t[i].Occupied? && t[j].Occupied?
      ensures t[i].value != t[j].value
    {
      if i != at && j != at {
        assert t[i] == s[i] && t[j] == s[j];
      } else if i == at {
        assert t[j] == s[j];
      } else {
        assert t[i] == s[i];
      }
    }
  }

  lemma FillValues<T>(s: seq<Slot<T>>, at: nat, x: Slot<T>)
    requires at < |s| && s[at] == Empty && x.Occupied?
    ensures Values(s[at := x]) == Values(s) + {x.value}
  {
    var t := s[at := x];
    forall v
      ensures v in Values(t) <==> v in Values(s) + {x.value}
    {
      ValuesMember(s, v);
      ValuesMember(t, v);
      if v in Values(s) {
        var j :| 0 <= j < |s| && s[j].Occupied? && s[j].value == v;
        assert t[j] == s[j];
      }
      if v == x.value {
        assert t[at] == x;
      }
      if v in Values(t) && v != x.value {
        var j :| 0 <= j < |t| && t[j].Occupied? && t[j].value == v;
        assert t[j] == s[j];
      }
    }
    SameMembers(Values(t), Values(s) + {x.value});
  }

  /**
   * Clearing the slot of a stored value and swapping it with any other slot
   * keeps the slots consistent, counts one slot fewer and removes exactly
   * that value.
   */
  lemma ClearAndSwapKeeps<T>(s: seq<Slot<T>>, index: nat, other: nat, value: T, hasher: T -> nat)
    requires index < |s| && other < |s| && s[index].Occupied? && s[index].value == value
    requires KeysAreHashes(s, hasher) && Distinct(s)
    ensures OccupiedCount(Swapped(s[index := Empty], index, other)) == OccupiedCount(s) - 1
    ensures KeysAreHashes(Swapped(s[index := Empty], index, other), hasher)
    ensures Distinct(Swapped(s[index := Empty], index, other))
    ensures Values(Swapped(s[index := Empty], index, other)) == Values(s) - {value}
  {
    var cleared := s[index := Empty];
    OccupiedCountClear(s, index);
    OccupiedCountSwapped(cleared, index, other);
    SwapDistinct(cleared, index, other);
    ClearAndSwapHashes(s, index, other, hasher);
    ClearValues(s, index);
    ValuesSwapped(cleared, index, other);
  }

  lemma SwapDistinct<T>(s: seq<Slot<T>>, a: nat, b: nat)
    requires a < |s| && b < |s| && Distinct(s)
    ensures Distinct(Swapped(s, a, b))
  {
    var t := Swapped(s, a, b);
    forall i, j | 0 <= i < j < |t| && t[i].Occupied? && t[j].Occupied?
      ensures t[i].value != t[j].value
    {
      var i' := if i == a then b else if i == b then a else i;
      var j' := if j == a then b else if j == b then a else j;
      assert t[i] == s[i'] && t[j] == s[j'];
    }
  }

  lemma ClearValues<T>(s: seq<Slot<T>>, index: nat)
    requires index < |s| && s[index].Occupied? && Distinct(s)
    ensures Values(s[index := Empty]) == Values(s) - {s[index].value}
  {
    var t := s[index := Empty];
    forall v
      ensures v in Values(t) <==> v in Values(s) - {s[index].value}
    {
      ValuesMember(s, v);
      ValuesMember(t, v);
      if v in Values(s) && v != s[index].value {
        var j :| 0 <= j < |s| && s[j].Occupied? && s[j].value == v;
        assert t[j] == s[j];
      }
      if v in Values(t) {
        var j :| 0 <= j < |t| && t[j].Occupied? && t[j].value == v;
        assert j != index && t[j] == s[j];
        if j < index {
          assert s[j].value != s[index].value;
        } else {
          assert s[index].value != s[j].value;
        }
      }
    }
    SameMembers(Values(t), Values(s) - {s[index].value});
  }

  lemma ClearAndSwapHashes<T>(s: seq<Slot<T>>, index: nat, other: nat, hasher: T -> nat)
    requires index < |s| && other < |s| && KeysAreHashes(s, hasher)
    ensures KeysAreHashes(Swapped(s[index := Empty], index, other), hasher)
  {
    var t := Swapped(s[index := Empty], index, other);
    forall j | 0 <= j < |t| && t[j].Occupied?
      ensures t[j].key == hasher(t[j].value) % |s|
    {
      var j' := if j == index then other else if j == other then index else j;
      assert t[j] == s[index := Empty][j'];
    }
  }
}
