/**
 * The stack-discipline bump allocator of JLB/LinearAllocator.h and
 * JLB/LinearAllocator.cpp.
 *
 * One region of `size` machine words is reserved up front. `Malloc` hands
 * out the words at the cursor `current`, writes the span's word count into
 * the word just after the span, and moves the cursor past that bookkeeping
 * word. `Free` takes no argument: it reads the bookkeeping word below the
 * cursor and rewinds, so only the newest allocation can ever be released.
 *
 * The ghost stack `spans` records the allocations still outstanding; the
 * object invariant `Valid` ties every record to its bookkeeping word.
 */
module Allocator {

  /** sizeof(size_t) on the 64-bit targets the library is written for. */
  const WordBytes: nat := 8

  /** SIZE_MAX, the largest size_t. */
  const SizeMax: nat := 0xFFFF_FFFF_FFFF_FFFF

  /** A size_t computation: the mathematical value reduced modulo 2^64. */
  function ToSizeT(x: int): (r: nat)
    ensures r <= SizeMax
    ensures 0 <= x <= SizeMax ==> r == x
  {
    if 0 <= x <= SizeMax then x else x % (SizeMax + 1)
  }

  /** `ToChunkSize`: the number of whole words that hold `bytes` bytes. */
  function ToChunkSize(bytes: nat): (words: nat)
    ensures words * WordBytes >= bytes
    ensures words == 0 || (words - 1) * WordBytes < bytes
  {
    bytes / WordBytes + (if bytes % WordBytes > 0 then 1 else 0)
  }

  /** A whole number of words needs no rounding. */
  lemma ChunkOfWholeWords(words: nat)
    ensures ToChunkSize(words * WordBytes) == words
  {
  }

  /**
   * One outstanding allocation: `len` words from `start`, followed by the
   * bookkeeping word at `start + len` that holds `len`.
   */
  datatype Span = Span(start: nat, len: nat)

  /** The cursor that the allocations `spans` leave behind. */
  function Top(spans: seq<Span>): nat
  {
    if spans == [] then 0 else spans[|spans| - 1].start + spans[|spans| - 1].len + 1
  }

  /** Each allocation sits directly on top of the previous one. */
  ghost predicate Stacked(spans: seq<Span>)
  {
    && (|spans| > 0 ==> spans[0].start == 0)
    && (forall k :: 0 < k < |spans| ==> spans[k].start == spans[k - 1].start + spans[k - 1].len + 1)
  }

  /** Words (bookkeeping included) that `Malloc`ing each of `sizes` in turn consumes. */
  function Footprint(sizes: seq<nat>): nat
  {
    if sizes == [] then 0
    else Footprint(sizes[..|sizes| - 1]) + ToChunkSize(sizes[|sizes| - 1]) + 1
  }

  /** A run of allocations never takes less room than any of its prefixes. */
  lemma {:induction false} FootprintPrefix(sizes: seq<nat>, k: nat)
    requires k <= |sizes|
    ensures Footprint(sizes[..k]) <= Footprint(sizes)
  {
    if k < |sizes| {
      var shorter := sizes[..|sizes| - 1];
      assert shorter[..k] == sizes[..k];
      FootprintPrefix(shorter, k);
    } else {
      assert sizes[..k] == sizes;
    }
  }

  /**
   * The allocations `spans` lie one on top of the other from word 0 up to
   * `cursor`, and the word just after each one holds its length: what
   * `Free` reads back to rewind.
   */
  ghost predicate Tracks(spans: seq<Span>, cursor: nat, words: seq<nat>)
    decreases |spans|
  {
    if spans == [] then cursor == 0
    else
      var last := spans[|spans| - 1];
      && cursor == last.start + last.len + 1
      && cursor <= |words|
      && words[last.start + last.len] == last.len
      && Tracks(spans[..|spans| - 1], last.start, words)
  }

  /** The bookkeeping only depends on the words below the cursor. */
  lemma {:induction false} TracksBelowCursor(spans: seq<Span>, cursor: nat, words: seq<nat>, words': seq<nat>)
    requires Tracks(spans, cursor, words)
    requires cursor <= |words'| && forall i :: 0 <= i < cursor ==> words'[i] == words[i]
    ensures Tracks(spans, cursor, words')
    decreases |spans|
  {
    if spans != [] {
      var last := spans[|spans| - 1];
      TracksBelowCursor(spans[..|spans| - 1], last.start, words, words');
    }
  }

  /**
   * Every allocation sits directly on top of the previous one, below the
   * cursor, with its length stored in the word just after it.
   */
  lemma {:induction false} TracksStacked(spans: seq<Span>, cursor: nat, words: seq<nat>)
    requires Tracks(spans, cursor, words)
    ensures Stacked(spans) && cursor == Top(spans)
    ensures forall k :: 0 <= k < |spans| ==>
              spans[k].start + spans[k].len < cursor && words[spans[k].start + spans[k].len] == spans[k].len
    decreases |spans|
  {
    if spans != [] {
      var n := |spans| - 1;
      var rest := spans[..n];
      TracksStacked(rest, spans[n].start, words);
      assert forall k :: 0 <= k < n ==> spans[k] == rest[k];
      if n > 0 {
        assert rest[n - 1] == spans[n - 1];
      }
    }
  }

  /** An allocation of `chunk` words at the cursor keeps the bookkeeping sound. */
  lemma MallocKeepsTracks(spans: seq<Span>, cursor: nat, words: seq<nat>, chunk: nat)
    requires Tracks(spans, cursor, words) && cursor + chunk < |words|
    ensures Tracks(spans + [Span(cursor, chunk)], cursor + chunk + 1, words[cursor + chunk := chunk])
  {
    var words' := words[cursor + chunk := chunk];
    TracksBelowCursor(spans, cursor, words, words');
    assert (spans + [Span(cursor, chunk)])[..|spans|] == spans;
  }

  /**
   * Rewinding by the length stored just below the cursor removes exactly the
   * newest allocation and keeps the bookkeeping sound.
   */
  lemma FreeKeepsTracks(spans: seq<Span>, cursor: nat, words: seq<nat>)
    requires Tracks(spans, cursor, words) && cursor > 0
    ensures spans != [] && words[cursor - 1] + 1 <= cursor
    ensures cursor - words[cursor - 1] - 1 == spans[|spans| - 1].start
    ensures Tracks(spans[..|spans| - 1], cursor - words[cursor - 1] - 1, words)
  {
  }

  class LinearAllocator {
    /** The reserved block of words (`_memory`). */
    const region: array<nat>
    /** Total number of words (`_size`). */
    const size: nat
    /** Index of the next free word (`_current`). */
    var current: nat
    /** The allocations still outstanding, oldest first. */
    ghost var spans: seq<Span>

    ghost predicate Valid()
      reads this, region
    {
      && region.Length == size
      && (size - 1) * WordBytes <= SizeMax
      && Tracks(spans, current, region[..])
      && (spans != [] ==> current < size)
    }

    /** Reserves `ToChunkSize(bytes)` words; nothing is allocated yet. */
    constructor (bytes: nat)
      requires bytes <= SizeMax
      ensures Valid() && fresh(region)
      ensures size == ToChunkSize(bytes) && current == 0 && spans == []
    {
      size := ToChunkSize(bytes);
      region := new nat[ToChunkSize(bytes)];
      current := 0;
      spans := [];
    }

    /**
     * The assertion at the head of `Malloc`: room for the span and its
     * bookkeeping word, which then lies inside the region.
     */
    predicate CanMalloc(bytes: nat): (ok: bool)
      reads this
      ensures ok ==> current + ToChunkSize(bytes) < size
    {
      ToChunkSize(bytes) + current + 1 < size
    }

    /**
     * `GetAvailableMemorySpace`: `(_size - _current - 1) * sizeof(size_t)` in
     * size_t arithmetic, which wraps when nothing can ever be allocated.
     */
    function GetAvailableMemorySpace(): (bytes: nat)
      reads this, region
      requires Valid()
      ensures current < size ==> bytes == (size - current - 1) * WordBytes
      ensures current == size ==> bytes == SizeMax + 1 - WordBytes
    {
      ToSizeT((size - current - 1) * WordBytes)
    }

    /** What `Malloc(bytes)` does to the allocator, given that it returned `start`. */
    twostate predicate Pushed(bytes: nat, start: nat)
      reads this, region
    {
      && start == old(current)
      && current == start + ToChunkSize(bytes) + 1
      && spans == old(spans) + [Span(start, ToChunkSize(bytes))]
      && (forall i :: 0 <= i < region.Length ==>
            region[i] == if i == start + ToChunkSize(bytes) then ToChunkSize(bytes) else old(region[i]))
    }

    /** What `Free()` does to the allocator: the newest allocation is gone. */
    twostate predicate Popped()
      reads this
    {
      && |old(spans)| > 0
      && spans == old(spans)[..|old(spans)| - 1]
      && current == old(spans)[|old(spans)| - 1].start
    }

    /**
     * `Malloc`: rounds `bytes` up to words, asserts there is room, returns the
     * old cursor as the span's start, writes the span's length into the word
     * just after it (the only word written) and moves the cursor past it.
     */
    method Malloc(bytes: nat) returns (start: nat)
      requires Valid() && CanMalloc(bytes)
      modifies this, region
      ensures Valid() && Pushed(bytes, start)
      ensures GetAvailableMemorySpace() == old(GetAvailableMemorySpace()) - (ToChunkSize(bytes) + 1) * WordBytes
    {
      var chunk := ToChunkSize(bytes);
      MallocKeepsTracks(spans, current, region[..], chunk);
      start := current;
      current := current + chunk;
      region[current] := chunk;
      current := current + 1;
      spans := spans + [Span(start, chunk)];
    }

    /**
     * `Free`: asserts something is allocated, reads the length stored just
     * below the cursor and rewinds past it and its span. Runs no destructor
     * and leaves the region's words as they are.
     */
    method Free()
      requires Valid() && current > 0
      modifies this
      ensures Valid() && Popped()
      ensures current == old(current) - old(region[current - 1]) - 1
      ensures GetAvailableMemorySpace() == old(GetAvailableMemorySpace()) + (old(region[current - 1]) + 1) * WordBytes
    {
      FreeKeepsTracks(spans, current, region[..]);
      current := current - (region[current - 1] + 1);
      spans := spans[..|spans| - 1];
    }

    /** `New<T>(count)`: `Malloc(sizeof(T) * count)`, with `elemSize` standing for sizeof(T). */
    method New(elemSize: nat, count: nat) returns (start: nat)
      requires Valid() && CanMalloc(elemSize * count)
      modifies this, region
      ensures Valid() && Pushed(elemSize * count, start)
    {
      start := Malloc(elemSize * count);
    }
  }

  /**
   * The strict guard of `Malloc` in terms of `GetAvailableMemorySpace`: a
   * request fits exactly when its rounded size is below the reported space.
   */
  lemma MallocFitsBelowAvailable(a: LinearAllocator, bytes: nat)
    requires a.Valid() && a.current < a.size
    ensures a.CanMalloc(bytes) <==> ToChunkSize(bytes) * WordBytes < a.GetAvailableMemorySpace()
  {
    var c, room := ToChunkSize(bytes), a.size - a.current - 1;
    if c < room {
      assert c * WordBytes < room * WordBytes;
    } else {
      assert c * WordBytes >= room * WordBytes;
    }
  }

  /** Requesting all the space `GetAvailableMemorySpace` reports fails `Malloc`'s assertion. */
  lemma AvailableSpaceIsNotAllocatable(a: LinearAllocator)
    requires a.Valid() && a.current < a.size
    ensures !a.CanMalloc(a.GetAvailableMemorySpace())
  {
    var room := a.size - a.current - 1;
    ChunkOfWholeWords(room);
    MallocFitsBelowAvailable(a, a.GetAvailableMemorySpace());
  }

  /** `Malloc` each of `sizes` in turn: the allocations are stacked in that order. */
  method MallocEach(a: LinearAllocator, sizes: seq<nat>) returns (ghost pushed: seq<Span>)
    requires a.Valid()
    requires sizes != [] ==> a.current + Footprint(sizes) < a.size
    modifies a, a.region
    ensures a.Valid()
    ensures a.current == old(a.current) + Footprint(sizes)
    ensures a.spans == old(a.spans) + pushed && |pushed| == |sizes|
  {
    pushed := [];
    var k := 0;
    while k < |sizes|
      invariant 0 <= k <= |sizes|
      invariant a.Valid()
      invariant a.current == old(a.current) + Footprint(sizes[..k])
      invariant a.spans == old(a.spans) + pushed && |pushed| == k
    {
      FootprintPrefix(sizes, k + 1);
      assert sizes[..k + 1][..k] == sizes[..k];
      var start := a.Malloc(sizes[k]);
      pushed := pushed + [Span(start, ToChunkSize(sizes[k]))];
      k := k + 1;
    }
    assert sizes[..k] == sizes;
  }

  /** `Free` `n` times: the `n` newest allocations are gone, newest first. */
  method FreeTimes(a: LinearAllocator, n: nat)
    requires a.Valid() && n <= |a.spans|
    modifies a
    ensures a.Valid()
    ensures a.spans == old(a.spans)[..|old(a.spans)| - n]
  {
    var k := n;
    while k > 0
      invariant 0 <= k <= n
      invariant a.Valid()
      invariant a.spans == old(a.spans)[..|old(a.spans)| - n + k]
    {
      TracksStacked(a.spans, a.current, a.region[..]);
      a.Free();
      k := k - 1;
    }
  }

  /**
   * A well-nested run: `Malloc` each of `sizes`, then `Free` as many times.
   * The allocator ends exactly where it started, so the available space is
   * unchanged.
   */
  method MallocThenFreeAll(a: LinearAllocator, sizes: seq<nat>)
    requires a.Valid()
    requires sizes != [] ==> a.current + Footprint(sizes) < a.size
    modifies a, a.region
    ensures a.Valid()
    ensures a.current == old(a.current) && a.spans == old(a.spans)
    ensures a.GetAvailableMemorySpace() == old(a.GetAvailableMemorySpace())
  {
    ghost var pushed := MallocEach(a, sizes);
    FreeTimes(a, |sizes|);
    assert a.spans == old(a.spans);
    TracksStacked(a.spans, a.current, a.region[..]);
    TracksStacked(old(a.spans), old(a.current), old(a.region[..]));
  }
}
