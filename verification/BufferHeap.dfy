/**
 Block buffers in the kernel heap of mm/heap.c: from boot, with nobody else allocating, it serves a
 sequence of uses exactly as long as the buffers kept and the working one fit into its slabs.
 */
module BufferHeap {
  import opened Words
  import opened Common
  import opened Bitmaps
  import opened SlabHeap
  import opened HeapInvariant
  import opened HeapSteps
  import opened HeapRuns
  import opened HeapAnswers
  import opened HeapExhaustion
  import opened BlockBuffers

  // ----- Uses of the heap -----

  /** The client fills its block. */
  function Stored(h: Heap, x: int, data: seq<byte>): Heap
    decreases |data|
  {
    if data == [] then h else Stored(Write(h, x, data[0]), x + 1, data[1..])
  }

  /** The heap after the uses; the first `kmalloc` that answers NULL ends them. */
  function Used(h: Heap, size: nat, us: seq<Use>, data: seq<seq<byte>>): Option<Heap>
    requires |data| == |us|
    decreases |us|
  {
    if us == [] then Some(h)
    else
      var (g, a) := Alloc(h, size);
      if a == NULL then None
      else Used(Next(g, a, size, us[0], data[0]), size, us[1..], data[1..])
  }

  function Next(g: Heap, a: int, size: nat, u: Use, data: seq<byte>): Heap {
    if u.Keep? then Stored(g, a, data) else Free(Stored(g, a, data), a, size)
  }

  /** The heap at the first `kmalloc` that answers NULL, or at the end. */
  function Stopped(h: Heap, size: nat, us: seq<Use>, data: seq<seq<byte>>): Heap
    requires |data| == |us|
    decreases |us|
  {
    if us == [] || Alloc(h, size).1 == NULL then h
    else Stopped(Next(Alloc(h, size).0, Alloc(h, size).1, size, us[0], data[0]), size, us[1..], data[1..])
  }

  lemma {:induction false} StoredSound(h: Heap, blocks: map<int, nat>, a: int, x: int, data: seq<byte>)
    requires Sound(h, blocks) && a in blocks && a <= x && x + |data| <= a + blocks[a]
    ensures Sound(Stored(h, x, data), blocks)
    ensures Stored(h, x, data).slabs == h.slabs && Stored(h, x, data).bits == h.bits
    decreases |data|
  {
    if data != [] {
      WriteSound(h, blocks, a, x, data[0]);
      StoredSound(Write(h, x, data[0]), blocks, a, x + 1, data[1..]);
    }
  }

  // ----- Objects in use -----

  function InUse(slabs: seq<Slab>): int {
    if slabs == [] then 0 else InUse(slabs[..|slabs| - 1]) + slabs[|slabs| - 1].inuse
  }

  lemma {:induction false} InUseReplaced(slabs: seq<Slab>, i: nat, s: Slab)
    requires i < |slabs|
    ensures InUse(slabs[i := s]) == InUse(slabs) - slabs[i].inuse + s.inuse
    decreases |slabs|
  {
    var n := |slabs| - 1;
    if i < n {
      InUseReplaced(slabs[..n], i, s);
      assert slabs[i := s][..n] == slabs[..n][i := s];
    } else {
      assert slabs[i := s][..n] == slabs[..n];
    }
  }

  lemma InUseAdded(slabs: seq<Slab>, s: Slab)
    ensures InUse(slabs + [s]) == InUse(slabs) + s.inuse
  {
    assert (slabs + [s])[..|slabs|] == slabs;
  }

  lemma InUseRemoved(slabs: seq<Slab>, i: nat)
    requires i < |slabs|
    ensures InUse(SwapRemove(slabs, i)) == InUse(slabs) - slabs[i].inuse
  {
    var n := |slabs| - 1;
    var t := slabs[i := slabs[n]];
    InUseReplaced(slabs, i, slabs[n]);
    SwappedIs(slabs, i, n);
    assert InUse(t) == InUse(t[..n]) + t[n].inuse;
  }

  lemma SwappedIs(slabs: seq<Slab>, i: nat, n: nat)
    requires i < |slabs| == n + 1
    ensures SwapRemove(slabs, i) == slabs[i := slabs[n]][..n]
  {
  }

  /** Slabs with at most `cap` objects in use each, from the one at `base` on; none before it. */
  lemma {:induction false} InUseBounds(slabs: seq<Slab>, base: nat, cap: nat)
    requires base <= |slabs| && (forall i :: 0 <= i < base ==> slabs[i].inuse == 0)
    requires forall i :: base <= i < |slabs| ==> 0 <= slabs[i].inuse <= cap
    ensures 0 <= InUse(slabs) <= Times(|slabs| - base, cap)
    ensures (exists i :: base <= i < |slabs| && slabs[i].inuse < cap) <==> InUse(slabs) < Times(|slabs| - base, cap)
    decreases |slabs|
  {
    if |slabs| > base {
      var n := |slabs| - 1;
      InUseBounds(slabs[..n], base, cap);
      assert forall i :: base <= i < n ==> slabs[..n][i] == slabs[i];
    } else {
      NoneInUse(slabs);
    }
  }

  lemma {:induction false} NoneInUse(slabs: seq<Slab>)
    requires forall i :: 0 <= i < |slabs| ==> slabs[i].inuse == 0
    ensures InUse(slabs) == 0
    decreases |slabs|
  {
    if slabs != [] {
      NoneInUse(slabs[..|slabs| - 1]);
    }
  }

  // ----- The cells of the heap -----

  /** Behind the four pages of the first slab, large slabs take ten pages each. */
  predicate OnCell(s: Slab) {
    s.large && 4 <= s.FirstPage() && (s.FirstPage() - 4) % 10 == 0
  }

  function Cell(s: Slab): int {
    (s.FirstPage() - 4) / 10
  }

  const CELLS := 204

  /** The slab of small objects that start-up makes first, then large slabs, each on a cell. */
  ghost predicate Celled(slabs: seq<Slab>) {
    && slabs != [] && !slabs[0].large && slabs[0].FirstPage() == 0
    && forall i :: 1 <= i < |slabs| ==> OnCell(slabs[i])
  }

  ghost predicate CellTaken(slabs: seq<Slab>, j: int) {
    exists i :: 1 <= i < |slabs| && Cell(slabs[i]) == j
  }

  /** All ten pages of a cell are taken, or none is. */
  lemma PageOfCell(slabs: seq<Slab>, bits: seq<bool>, p: int)
    requires Celled(slabs) && BitmapExact(slabs, bits) && 4 <= p < HEAP_PAGES
    ensures bits[p] <==> CellTaken(slabs, (p - 4) / 10)
  {
    if bits[p] {
      var i :| 0 <= i < |slabs| && slabs[i].Covers(p);
      assert i > 0;
      CellCovers(slabs[i], p);
    }
    if CellTaken(slabs, (p - 4) / 10) {
      var i :| 1 <= i < |slabs| && Cell(slabs[i]) == (p - 4) / 10;
      CellCovers(slabs[i], p);
      assert Owned(slabs, p);
    }
  }

  lemma CellCovers(s: Slab, p: int)
    requires OnCell(s)
    ensures s.Covers(p) <==> Cell(s) == (p - 4) / 10
  {
    assert s.FirstPage() == 4 + 10 * Cell(s);
  }

  /** The first run of free pages is a cell, and there is one exactly if a cell is free. */
  lemma FirstFreeCell(slabs: seq<Slab>, bits: seq<bool>)
    requires Celled(slabs) && BitmapExact(slabs, bits)
    ensures var r := FirstRun(bits, LARGE_SLAB_PAGES, false);
            && (r >= 0 ==> 4 <= r && (r - 4) % 10 == 0 && !CellTaken(slabs, (r - 4) / 10) && (r - 4) / 10 < CELLS)
            && (r < 0 ==> forall j :: 0 <= j < CELLS ==> CellTaken(slabs, j))
  {
    var r := FirstRun(bits, LARGE_SLAB_PAGES, false);
    if r >= 0 {
      RunIsCell(slabs, bits, r);
    } else {
      forall j | 0 <= j < CELLS
        ensures CellTaken(slabs, j)
      {
        FreeCellRuns(slabs, bits, j);
      }
    }
  }

  lemma FreeCellIsRun(slabs: seq<Slab>, bits: seq<bool>, j: int)
    requires Celled(slabs) && BitmapExact(slabs, bits) && 0 <= j < CELLS && !CellTaken(slabs, j)
    ensures IsRun(bits, LARGE_SLAB_PAGES, false, 4 + 10 * j)
  {
    forall p | 4 + 10 * j <= p < 14 + 10 * j
      ensures !bits[p]
    {
      PageOfCell(slabs, bits, p);
      assert (p - 4) / 10 == j;
    }
  }

  lemma FreeCellRuns(slabs: seq<Slab>, bits: seq<bool>, j: int)
    requires Celled(slabs) && BitmapExact(slabs, bits) && 0 <= j < CELLS
    ensures CellTaken(slabs, j) || IsRun(bits, LARGE_SLAB_PAGES, false, 4 + 10 * j)
  {
    if !CellTaken(slabs, j) {
      FreeCellIsRun(slabs, bits, j);
    }
  }

  lemma RunIsCell(slabs: seq<Slab>, bits: seq<bool>, r: int)
    requires Celled(slabs) && BitmapExact(slabs, bits) && r == FirstRun(bits, LARGE_SLAB_PAGES, false) >= 0
    ensures 4 <= r && (r - 4) % 10 == 0 && !CellTaken(slabs, (r - 4) / 10) && (r - 4) / 10 < CELLS
  {
    assert IsRun(bits, LARGE_SLAB_PAGES, false, r) && !bits[r];
    forall p | 0 <= p < 4
      ensures bits[p]
    {
      assert slabs[0].Covers(p);
      assert Owned(slabs, p);
    }
    PageOfCell(slabs, bits, r);
    FreeCellIsRun(slabs, bits, (r - 4) / 10);
  }

  /** `n` numbers need a list at least that long. */
  lemma {:induction false} Covering(cs: seq<nat>, n: nat)
    requires forall j: nat :: j < n ==> j in cs
    ensures n <= |cs|
    decreases n
  {
    if n > 0 {
      assert n - 1 in cs;
      var i :| 0 <= i < |cs| && cs[i] == n - 1;
      var t := cs[..i] + cs[i + 1..];
      forall j: nat | j < n - 1
        ensures j in t
      {
        assert j in cs;
        var k :| 0 <= k < |cs| && cs[k] == j;
        assert t[if k < i then k else k - 1] == j;
      }
      Covering(t, n - 1);
    }
  }

  /** A table with a slab on every cell has one more than there are cells, and no table has more. */
  lemma CellCount(slabs: seq<Slab>)
    requires Celled(slabs) && AllApart(slabs) && forall i :: 1 <= i < |slabs| ==> 0 <= Cell(slabs[i]) < CELLS
    ensures |slabs| <= CELLS + 1
    ensures (forall j :: 0 <= j < CELLS ==> CellTaken(slabs, j)) <==> |slabs| == CELLS + 1
  {
    var cs: seq<nat> := seq(|slabs| - 1, i requires 0 <= i < |slabs| - 1 => Cell(slabs[i + 1]));
    CellsDiffer(slabs, cs);
    Pigeonhole(cs, CELLS);
    forall j: nat | j < CELLS
      ensures CellTaken(slabs, j) <==> j in cs
    {
      if CellTaken(slabs, j) {
        var i :| 1 <= i < |slabs| && Cell(slabs[i]) == j;
        assert cs[i - 1] == j;
      }
      if j in cs {
        var i :| 0 <= i < |cs| && cs[i] == j;
        assert Cell(slabs[i + 1]) == j;
      }
    }
    if forall j :: 0 <= j < CELLS ==> CellTaken(slabs, j) {
      Covering(cs, CELLS);
    } else {
      var j :| 0 <= j < CELLS && !CellTaken(slabs, j);
      Pigeonhole(cs + [j], CELLS);
    }
  }

  lemma CellsDiffer(slabs: seq<Slab>, cs: seq<nat>)
    requires Celled(slabs) && AllApart(slabs) && |cs| == |slabs| - 1
    requires forall i :: 0 <= i < |cs| ==> cs[i] == Cell(slabs[i + 1])
    ensures forall i, j :: 0 <= i < j < |cs| ==> cs[i] != cs[j]
  {
    forall i, j | 0 <= i < j < |cs|
      ensures cs[i] != cs[j]
    {
      var s, t, p := slabs[i + 1], slabs[j + 1], slabs[i + 1].FirstPage();
      CellCovers(s, p);
      CellCovers(t, p);
      assert Apart(slabs[i + 1], slabs[j + 1]);
    }
  }

  // ----- A heap that serves one size of buffers -----

  /** How many slabs at the front of the table, all unused, are too small: after start-up the other two
      have objects of one page. */
  function Base(size: nat): nat {
    if size <= PAGE then 1 else 3
  }

  /** The objects of `size` bytes a slab made for them holds. */
  function PerSlab(size: nat): nat
    requires 0 < size
  {
    40960 / RoundUp(size)
  }

  /** The buffers of one block size that fit into the heap the kernel boots with. */
  function BufferRoom(size: nat): nat {
    if 0 < size <= MAX_OBJECT then Times(CELLS + 1 - Base(size), PerSlab(size)) else 0
  }

  /** A table for buffers of the size, with `k` of them in use. */
  ghost predicate Lined(slabs: seq<Slab>, size: nat, k: int) {
    && Celled(slabs) && Base(size) <= |slabs| && InUse(slabs) == k
    && (forall i :: 0 <= i < Base(size) ==> slabs[i].objectSize < size && slabs[i].inuse == 0)
    && (forall i :: Base(size) <= i < |slabs| ==> slabs[i].objectSize == RoundUp(size))
  }

  /** `k` buffers of the size are outstanding, and nothing else. */
  ghost predicate Serving(h: Heap, size: nat, blocks: map<int, nat>, k: int) {
    LARGE_FROM <= size <= MAX_OBJECT && Sound(h, blocks) && Lined(h.slabs, size, k)
  }

  lemma LinedChanged(slabs: seq<Slab>, size: nat, k: int, i: nat, s: Slab, t: seq<Slab>, k': int)
    requires Lined(slabs, size, k) && Base(size) <= i < |slabs| && t == slabs[i := s]
    requires s.start == slabs[i].start && s.large == slabs[i].large && s.objectSize == slabs[i].objectSize
    requires k' == k - slabs[i].inuse + s.inuse
    ensures Lined(t, size, k')
  {
    InUseReplaced(slabs, i, s);
  }

  lemma LinedAdded(slabs: seq<Slab>, size: nat, k: int, s: Slab, t: seq<Slab>)
    requires Lined(slabs, size, k) && OnCell(s) && s.objectSize == RoundUp(size) && s.inuse == 0 && t == slabs + [s]
    ensures Lined(t, size, k)
  {
    InUseAdded(slabs, s);
  }

  lemma LinedRemoved(slabs: seq<Slab>, size: nat, k: int, i: nat, t: seq<Slab>, k': int)
    requires Lined(slabs, size, k) && Base(size) <= i < |slabs| && t == SwapRemove(slabs, i)
    requires k' == k - slabs[i].inuse
    ensures Lined(t, size, k')
  {
    InUseRemoved(slabs, i);
  }

  /** What the invariant says of one slab's counter. */
  lemma CounterIs(h: Heap, shs: seq<Shadow>, i: nat)
    requires Inv(h, shs) && i < |shs|
    ensures Shaped(h.slabs[i]) && 0 <= h.slabs[i].inuse <= h.slabs[i].Capacity() <= 4096
    ensures h.slabs[i].first == NULL <==> h.slabs[i].inuse == h.slabs[i].Capacity()
  {
    var s, sh := h.slabs[i], shs[i];
    assert SlabOk(h.mem, s, sh);
    CountIsCapacity(s, sh.count);
    Pigeonhole(sh.free, sh.count);
    FirstIsWord(h, shs, i);
  }

  lemma CellInHeap(s: Slab)
    requires Shaped(s) && OnCell(s)
    ensures 0 <= Cell(s) < CELLS
  {
  }

  /** Counters within bounds, and a free object wherever the counter says so. */
  ghost predicate Counting(slabs: seq<Slab>, size: nat) {
    forall i :: Base(size) <= i < |slabs| ==>
      && 0 <= slabs[i].inuse <= PerSlabOf(size)
      && (Fits(slabs[i], size) <==> slabs[i].inuse < PerSlabOf(size))
  }

  function PerSlabOf(size: nat): nat {
    if size == 0 then 0 else PerSlab(size)
  }

  lemma TableCounts(h: Heap, shs: seq<Shadow>, size: nat, k: int)
    requires Inv(h, shs) && Lined(h.slabs, size, k) && LARGE_FROM <= size
    ensures Counting(h.slabs, size)
  {
    forall i | Base(size) <= i < |h.slabs|
      ensures 0 <= h.slabs[i].inuse <= PerSlab(size) && (Fits(h.slabs[i], size) <==> h.slabs[i].inuse < PerSlab(size))
    {
      CounterIs(h, shs, i);
      CapacityIs(h.slabs[i], size);
    }
  }

  lemma CapacityIs(s: Slab, size: nat)
    requires s.large && s.objectSize == RoundUp(size) && 0 < size
    ensures s.objectSize >= size && s.Capacity() == PerSlab(size)
  {
  }

  lemma CellsInHeap(h: Heap, shs: seq<Shadow>)
    requires Inv(h, shs) && Celled(h.slabs)
    ensures forall i :: 1 <= i < |h.slabs| ==> 0 <= Cell(h.slabs[i]) < CELLS
  {
    forall i | 1 <= i < |h.slabs|
      ensures 0 <= Cell(h.slabs[i]) < CELLS
    {
      assert SlabOk(h.mem, h.slabs[i], shs[i]);
      CellInHeap(h.slabs[i]);
    }
  }

  /** The table can grow by a slab on a cell until all have one. */
  ghost predicate Growing(h: Heap) {
    var r := FirstRun(h.bits, LARGE_SLAB_PAGES, false);
    |h.slabs| <= CELLS + 1 && (r < 0 <==> |h.slabs| == CELLS + 1) && (r >= 0 ==> 4 <= r && (r - 4) % 10 == 0)
  }

  lemma CanGrow(h: Heap, shs: seq<Shadow>)
    requires Inv(h, shs) && Celled(h.slabs)
    ensures Growing(h)
  {
    CellsInHeap(h, shs);
    CellCount(h.slabs);
    FirstFreeCell(h.slabs, h.bits);
  }

  /** Whether it has a free object. */
  lemma HasFree(slabs: seq<Slab>, size: nat, k: int)
    requires Lined(slabs, size, k) && Counting(slabs, size) && 0 < size
    ensures 0 <= k <= Times(|slabs| - Base(size), PerSlab(size))
    ensures BestFit(slabs, size, |slabs|) < 0 <==> k == Times(|slabs| - Base(size), PerSlab(size))
  {
    InUseBounds(slabs, Base(size), PerSlab(size));
  }

  /** A buffer is served exactly while fewer are outstanding than fit; if not, the heap is exhausted. */
  lemma AllocServes(h: Heap, size: nat, blocks: map<int, nat>, k: int)
    requires Serving(h, size, blocks, k)
    ensures var (g, a) := Alloc(h, size);
            && (a != NULL <==> k < BufferRoom(size)) && (a == NULL <==> Exhausted(h, size))
            && (a != NULL ==> a !in blocks && Serving(g, size, blocks[a := size], k + 1))
  {
    TableFacts(h, size, blocks, k);
    TableServes(h, size, k);
    if !Exhausted(h, size) {
      AllocSound(h, blocks, size);
    }
  }

  lemma TableFacts(h: Heap, size: nat, blocks: map<int, nat>, k: int)
    requires Serving(h, size, blocks, k)
    ensures Counting(h.slabs, size) && Growing(h)
  {
    var shs: seq<Shadow> :| Inv(h, shs) && Recorded(h, shs, blocks);
    TableCounts(h, shs, size, k);
    CanGrow(h, shs);
  }

  lemma TableServes(h: Heap, size: nat, k: int)
    requires LARGE_FROM <= size <= MAX_OBJECT && Lined(h.slabs, size, k) && Counting(h.slabs, size) && Growing(h)
    ensures var (g, a) := Alloc(h, size);
            && (a != NULL <==> k < BufferRoom(size)) && (a == NULL <==> Exhausted(h, size))
            && (a != NULL ==> Lined(g.slabs, size, k + 1))
  {
    HasFree(h.slabs, size, k);
    SlabHolds(size);
    RoomLeft(|h.slabs|, Base(size), PerSlab(size));
    if BestFit(h.slabs, size, |h.slabs|) >= 0 {
      FromSlab(h, size, k);
    } else if |h.slabs| <= CELLS {
      FromNewSlab(h, size, k, FirstRun(h.bits, LARGE_SLAB_PAGES, false));
    } else {
      NoneLeft(h, size);
    }
  }

  lemma NoneLeft(h: Heap, size: nat)
    requires LARGE_FROM <= size <= MAX_OBJECT && BestFit(h.slabs, size, |h.slabs|) < 0 && |h.slabs| == CELLS + 1
    requires FirstRun(h.bits, LARGE_SLAB_PAGES, false) < 0
    ensures Alloc(h, size).1 == NULL && Exhausted(h, size)
  {
  }

  lemma SlabHolds(size: nat)
    requires 0 < size <= MAX_OBJECT
    ensures 1 <= PerSlab(size) <= 10
  {
  }

  lemma RoomLeft(n: nat, base: nat, cap: nat)
    requires base <= n <= CELLS + 1
    ensures Times(n - base, cap) <= Times(CELLS + 1 - base, cap)
    ensures n <= CELLS && 0 < cap ==> Times(n - base, cap) < Times(CELLS + 1 - base, cap)
  {
    TimesMono(n - base, CELLS + 1 - base, cap);
    if n <= CELLS {
      TimesMono(n + 1 - base, CELLS + 1 - base, cap);
    }
  }

  lemma FromSlab(h: Heap, size: nat, k: int)
    requires LARGE_FROM <= size <= MAX_OBJECT && Lined(h.slabs, size, k) && Counting(h.slabs, size)
    requires PerSlab(size) <= 10 && BestFit(h.slabs, size, |h.slabs|) >= 0
    ensures Alloc(h, size).1 != NULL && Lined(Alloc(h, size).0.slabs, size, k + 1) && !Exhausted(h, size)
  {
    var i := BestFit(h.slabs, size, |h.slabs|);
    var s := h.slabs[i];
    TakeIs(h, i);
    LinedChanged(h.slabs, size, k, i, s.(inuse := s.inuse + 1, first := Peek(h.mem, s.first)), Take(h, i).0.slabs,
         k + 1);
  }

  lemma FromNewSlab(h: Heap, size: nat, k: int, page: nat)
    requires LARGE_FROM <= size <= MAX_OBJECT && Lined(h.slabs, size, k) && |h.slabs| <= CELLS
    requires page == FirstRun(h.bits, LARGE_SLAB_PAGES, false) && 4 <= page && (page - 4) % 10 == 0
    requires BestFit(h.slabs, size, |h.slabs|) < 0
    ensures Alloc(h, size).1 != NULL && Lined(Alloc(h, size).0.slabs, size, k + 1) && !Exhausted(h, size)
  {
    var s, n, g := NewSlab(page, size, true), |h.slabs|, Grow(h, size, true).0;
    assert g.slabs == h.slabs + [s] && Alloc(h, size) == Take(g, n);
    NewOnCell(page, size);
    LinedAdded(h.slabs, size, k, s, g.slabs);
    TakeIs(g, n);
    LinedChanged(g.slabs, size, k, n, s.(inuse := 1, first := Peek(g.mem, s.first)), Take(g, n).0.slabs, k + 1);
  }

  lemma NewOnCell(page: nat, size: nat)
    requires 4 <= page && (page - 4) % 10 == 0
    ensures OnCell(NewSlab(page, size, true))
  {
    assert NewSlab(page, size, true).FirstPage() == page;
  }

  /** What `kfree` of an outstanding block does to the table. */
  lemma FreedFrom(h: Heap, blocks: map<int, nat>, a: int, size: nat) returns (i: nat)
    requires Sound(h, blocks) && a in blocks && LINK_SIZE <= size <= blocks[a]
    ensures i < |h.slabs| && size <= h.slabs[i].objectSize
    ensures var s, t := h.slabs[i], Free(h, a, size).slabs;
            if s.first != NULL && s.inuse == 1 then t == SwapRemove(h.slabs, i)
            else t == h.slabs[i := s.(inuse := s.inuse - 1, first := a)]
  {
    i := FreeAnswers(h, blocks, a, size);
  }

  lemma FreeServes(h: Heap, size: nat, blocks: map<int, nat>, k: int, a: int, g: Heap, rest: map<int, nat>, k': int)
    requires Serving(h, size, blocks, k) && a in blocks && blocks[a] == size
    requires g == Free(h, a, size) && rest == blocks - {a} && k' == k - 1
    ensures Serving(g, size, rest, k')
  {
    FreeSound(h, blocks, a, size);
    var i := FreedFrom(h, blocks, a, size);
    FreedLined(h.slabs, size, k, a, i, g.slabs, k');
  }

  lemma FreedLined(slabs: seq<Slab>, size: nat, k: int, a: int, i: nat, t: seq<Slab>, k': int)
    requires Lined(slabs, size, k) && i < |slabs| && size <= slabs[i].objectSize && k' == k - 1
    requires if slabs[i].first != NULL && slabs[i].inuse == 1 then t == SwapRemove(slabs, i)
             else t == slabs[i := slabs[i].(inuse := slabs[i].inuse - 1, first := a)]
    ensures Lined(t, size, k')
  {
    var s := slabs[i];
    if s.first != NULL && s.inuse == 1 {
      LinedRemoved(slabs, size, k, i, t, k');
    } else {
      LinedChanged(slabs, size, k, i, s.(inuse := s.inuse - 1, first := a), t, k');
    }
  }

  // ----- Every sequence of uses -----

  ghost predicate Filling(size: nat, data: seq<seq<byte>>) {
    forall i :: 0 <= i < |data| ==> |data[i]| <= size
  }

  lemma KeepServes(h: Heap, size: nat, blocks: map<int, nat>, k: int, data: seq<byte>, a: int, f: Heap, k': int)
    requires Serving(h, size, blocks, k) && k < BufferRoom(size) && |data| <= size
    requires a == Alloc(h, size).1 && f == Stored(Alloc(h, size).0, a, data) && k' == k + 1
    ensures a != NULL && a !in blocks && Serving(f, size, blocks[a := size], k')
  {
    AllocServes(h, size, blocks, k);
    StoredSound(Alloc(h, size).0, blocks[a := size], a, a, data);
  }

  lemma WorkServes(h: Heap, size: nat, blocks: map<int, nat>, k: int, data: seq<byte>, a: int, f: Heap, g: Heap)
    requires Serving(h, size, blocks, k) && k < BufferRoom(size) && |data| <= size
    requires a == Alloc(h, size).1 && f == Stored(Alloc(h, size).0, a, data) && g == Free(f, a, size)
    ensures a != NULL && Serving(g, size, blocks, k)
  {
    KeepServes(h, size, blocks, k, data, a, f, k + 1);
    assert blocks == blocks[a := size] - {a};
    FreeServes(f, size, blocks[a := size], k + 1, a, g, blocks, k);
  }

  /** With `k` buffers outstanding, the heap serves the uses exactly if there is room for them. */
  lemma {:induction false} ServesIff(h: Heap, size: nat, blocks: map<int, nat>, k: int, us: seq<Use>,
                                     data: seq<seq<byte>>, room: int)
    requires Serving(h, size, blocks, k) && |data| == |us| && Filling(size, data) && room == BufferRoom(size) - k >= 0
    ensures Used(h, size, us, data).Some? <==> After(room, us) >= 0
    ensures Used(h, size, us, data).None? ==> Exhausted(Stopped(h, size, us, data), size)
    decreases |us|
  {
    if us != [] {
      var (m, a) := Alloc(h, size);
      AllocServes(h, size, blocks, k);
      if room > 0 {
        var f := Stored(m, a, data[0]);
        if us[0].Keep? {
          KeepServes(h, size, blocks, k, data[0], a, f, k + 1);
          ServesIff(f, size, blocks[a := size], k + 1, us[1..], data[1..], room - 1);
        } else {
          var g := Free(f, a, size);
          WorkServes(h, size, blocks, k, data[0], a, f, g);
          ServesIff(g, size, blocks, k, us[1..], data[1..], room);
        }
      }
    }
  }

  /** The table the kernel boots with. */
  lemma BootServes(mem: seq<byte>, size: nat)
    requires |mem| == HEAP_BYTES && LARGE_FROM <= size <= MAX_OBJECT
    ensures Serving(Booted(mem), size, map[], 0)
  {
    BootHolds(mem);
    BootTable(mem);
    BootLined(Booted(mem).slabs, size);
  }

  lemma BootLined(slabs: seq<Slab>, size: nat)
    requires slabs == [NewSlab(0, 8, false), NewSlab(14, 32, true)] + [NewSlab(4, 16, true)] && LARGE_FROM <= size
    ensures Lined(slabs, size, 0)
  {
    NoneInUse(slabs);
    NewOnCell(4, 16);
    NewOnCell(14, 32);
    assert NewSlab(4, 16, true).objectSize == NewSlab(14, 32, true).objectSize == 4096;
    assert size <= PAGE ==> RoundUp(size) == 4096;
  }

  /** From boot on, whatever the buffers are filled with: the kernel heap serves a sequence of uses exactly
      if the buffers kept and the working one are no more than `BufferRoom`; if not, it ends up exhausted, and
      the `kmalloc` that answers NULL breaks its bitmap (`AllocSoundIff`). */
  lemma HeapServesIff(mem: seq<byte>, size: nat, us: seq<Use>, data: seq<seq<byte>>)
    requires |mem| == HEAP_BYTES && LARGE_FROM <= size && |data| == |us| && Filling(size, data)
    ensures Used(Booted(mem), size, us, data).Some? <==> Needs(us) <= BufferRoom(size)
    ensures size <= MAX_OBJECT && Used(Booted(mem), size, us, data).None? ==>
              Exhausted(Stopped(Booted(mem), size, us, data), size)
  {
    ServedIff(BufferRoom(size), us);
    if size <= MAX_OBJECT {
      BootServes(mem, size);
      ServesIff(Booted(mem), size, map[], 0, us, data, BufferRoom(size));
    }
  }

  /** One page for each block of at most 4096 bytes: 2040 buffers. */
  lemma PageBuffers(size: nat)
    requires 0 < size <= PAGE
    ensures BufferRoom(size) == 2040
  {
    assert RoundUp(size) == 4096;
    TimesIs(204, 10);
  }

  // ----- Any heap at all -----

  ghost function LargeBlocks(blocks: map<int, nat>): set<int> {
    set a | a in blocks && blocks[a] >= LARGE_FROM
  }

  lemma {:induction false} PagesDiffer(s: set<int>, n: nat)
    requires forall a :: a in s ==> a % 4096 == 0 && HEAP_BASE <= a < HEAP_BASE + 4096 * n
    ensures |s| <= n
    decreases n
  {
    if n > 0 {
      var last := HEAP_BASE + 4096 * (n - 1);
      PagesDiffer(s - {last}, n - 1);
      if last in s {
        assert s == s - {last} + {last};
      } else {
        assert s == s - {last};
      }
    } else {
      assert forall a :: a !in s;
      assert s == {};
    }
  }

  /** Blocks of at least 1024 bytes have a page of their own. */
  lemma LargeBound(h: Heap, blocks: map<int, nat>)
    requires Sound(h, blocks)
    ensures |LargeBlocks(blocks)| <= HEAP_PAGES
  {
    forall a | a in LargeBlocks(blocks)
      ensures a % 4096 == 0 && HEAP_BASE <= a < HEAP_BASE + HEAP_BYTES
    {
      BlockPlaced(h, blocks, a);
    }
    PagesDiffer(LargeBlocks(blocks), HEAP_PAGES);
  }

  lemma ServedSound(h: Heap, blocks: map<int, nat>, size: nat, data: seq<byte>, a: int, f: Heap)
    requires Sound(h, blocks) && |data| <= size && a == Alloc(h, size).1 != NULL
    requires f == Stored(Alloc(h, size).0, a, data)
    ensures a !in blocks && Sound(f, blocks[a := size])
  {
    assert !Exhausted(h, size);
    AllocSound(h, blocks, size);
    StoredSound(Alloc(h, size).0, blocks[a := size], a, a, data);
  }

  lemma OneMoreLarge(blocks: map<int, nat>, a: int, size: nat)
    requires a !in blocks && LARGE_FROM <= size
    ensures |LargeBlocks(blocks[a := size])| == |LargeBlocks(blocks)| + 1
    ensures blocks[a := size] - {a} == blocks
  {
    assert LargeBlocks(blocks[a := size]) == LargeBlocks(blocks) + {a};
  }

  /** Whoever else allocates: no heap serves uses that need more buffers than it has pages. */
  lemma {:induction false} NoHeapServesMore(h: Heap, blocks: map<int, nat>, size: nat, us: seq<Use>,
                                            data: seq<seq<byte>>)
    requires Sound(h, blocks) && LARGE_FROM <= size && |data| == |us| && Filling(size, data)
    requires Used(h, size, us, data).Some?
    ensures |LargeBlocks(blocks)| + Needs(us) <= HEAP_PAGES
    decreases |us|
  {
    if us == [] {
      LargeBound(h, blocks);
    } else {
      var (m, a) := Alloc(h, size);
      var f := Stored(m, a, data[0]);
      ServedSound(h, blocks, size, data[0], a, f);
      LargeBound(f, blocks[a := size]);
      OneMoreLarge(blocks, a, size);
      NeedsRest(us);
      if us[0].Keep? {
        NoHeapServesMore(f, blocks[a := size], size, us[1..], data[1..]);
      } else {
        FreeSound(f, blocks[a := size], a, size);
        NoHeapServesMore(Free(f, a, size), blocks, size, us[1..], data[1..]);
      }
    }
  }

  lemma TooMany(h: Heap, blocks: map<int, nat>, size: nat, us: seq<Use>, data: seq<seq<byte>>)
    requires Sound(h, blocks) && LARGE_FROM <= size && |data| == |us| && Filling(size, data) && Needs(us) > HEAP_PAGES
    ensures Used(h, size, us, data) == None
  {
    if Used(h, size, us, data).Some? {
      NoHeapServesMore(h, blocks, size, us, data);
    }
  }

  lemma NeedsRest(us: seq<Use>)
    requires us != []
    ensures us[0].Keep? ==> Needs(us) == 1 + Needs(us[1..])
    ensures us[0].Work? ==> Needs(us) <= 1 || Needs(us) == Needs(us[1..])
  {
    assert |us| > 1 ==> us[1..][|us| - 2] == us[|us| - 1];
  }
}
