/**
 What `kmalloc` and `kfree` (mm/heap.c) answer and change, in terms of the slab table and the
 page bitmap alone: which requests are served, from where, and what goes back.
 */
module HeapAnswers {
  import opened Words
  import opened Bitmaps
  import opened SlabHeap
  import opened HeapInvariant
  import opened HeapSteps
  import opened HeapRuns

  /** The slab has a free object of at least `size` bytes. */
  predicate HasRoom(s: Slab, size: nat) {
    s.first != 0 && s.objectSize >= size
  }

  ghost predicate SomeSlab(h: Heap, size: nat) {
    exists i :: 0 <= i < |h.slabs| && HasRoom(h.slabs[i], size)
  }

  /** `n` pages from `p` on are free. */
  ghost predicate FreePages(bits: seq<bool>, p: int, n: nat) {
    0 <= p && p + n <= |bits| && forall q :: p <= q < p + n ==> !bits[q]
  }

  /** The pages of a new slab for objects of `size` bytes. */
  function PagesFor(size: nat): nat {
    if size < 1024 then 4 else 10
  }

  /** The table has an entry left, and the bitmap the pages of one more slab. */
  ghost predicate CanGrow(h: Heap, size: nat) {
    |h.slabs| < 256 && exists p :: FreePages(h.bits, p, PagesFor(size))
  }

  // ----- kmalloc -----

  /** The link size makes no difference: no slab has smaller objects. */
  lemma RoomIsFit(h: Heap, blocks: map<int, nat>, size: nat, i: nat)
    requires Sound(h, blocks) && i < |h.slabs|
    ensures HasRoom(h.slabs[i], size) <==> Fits(h.slabs[i], AtLeastLink(size))
  {
    var shs: seq<Shadow> :| Inv(h, shs) && Recorded(h, shs, blocks);
    assert SlabOk(h.mem, h.slabs[i], shs[i]);
  }

  lemma FitIff(h: Heap, blocks: map<int, nat>, size: nat)
    requires Sound(h, blocks)
    ensures BestFit(h.slabs, AtLeastLink(size), |h.slabs|) >= 0 <==> SomeSlab(h, size)
  {
    forall i | 0 <= i < |h.slabs|
      ensures HasRoom(h.slabs[i], size) <==> Fits(h.slabs[i], AtLeastLink(size))
    {
      RoomIsFit(h, blocks, size, i);
    }
  }

  lemma GrowIff(bits: seq<bool>, n: nat)
    requires 0 < n
    ensures FirstRun(bits, n, false) >= 0 <==> exists p :: FreePages(bits, p, n)
    ensures var p := FirstRun(bits, n, false);
            p >= 0 ==> FreePages(bits, p, n) && forall q :: FreePages(bits, q, n) ==> p <= q
  {
    forall p
      ensures FreePages(bits, p, n) <==> IsRun(bits, n, false, p)
    {
    }
  }

  /** In every sound heap and for every size: `kmalloc` hands out a block exactly if the size is within its
      bounds and a slab has a free object of at least that size, or a slab for it can still be made. */
  lemma AllocAnswersIff(h: Heap, blocks: map<int, nat>, size: nat)
    requires Sound(h, blocks)
    ensures Alloc(h, size).1 != 0 <==> 0 < size <= 40960 && (SomeSlab(h, size) || CanGrow(h, size))
  {
    if 0 < size <= 40960 {
      FitIff(h, blocks, size);
      GrowIff(h.bits, PagesFor(size));
    }
  }

  /** When a slab fits, the block is the first free object of the smallest one that does, the first of those;
      the table does not grow, and nothing else changes. */
  lemma AllocFromSlab(h: Heap, blocks: map<int, nat>, size: nat) returns (i: nat)
    requires Sound(h, blocks) && 0 < size <= 40960 && SomeSlab(h, size)
    ensures i < |h.slabs| && HasRoom(h.slabs[i], size)
    ensures forall j :: 0 <= j < |h.slabs| && HasRoom(h.slabs[j], size) ==>
              h.slabs[i].objectSize <= h.slabs[j].objectSize
                   && (h.slabs[i].objectSize == h.slabs[j].objectSize ==> i <= j)
    ensures var (g, a) := Alloc(h, size);
            && a == h.slabs[i].first && h.slabs[i].HasAddr(a)
            && g.mem == h.mem && g.bits == h.bits && |g.slabs| == |h.slabs|
            && (forall j :: 0 <= j < |h.slabs| && j != i ==> g.slabs[j] == h.slabs[j])
            && g.slabs[i] == h.slabs[i].(inuse := h.slabs[i].inuse + 1, first := Peek(h.mem, a))
  {
    FitIff(h, blocks, size);
    i := BestFit(h.slabs, AtLeastLink(size), |h.slabs|);
    forall j | 0 <= j < |h.slabs|
      ensures HasRoom(h.slabs[j], size) <==> Fits(h.slabs[j], AtLeastLink(size))
    {
      RoomIsFit(h, blocks, size, j);
    }
    TakesFirst(h, blocks, i);
  }

  lemma TakesFirst(h: Heap, blocks: map<int, nat>, i: nat)
    requires Sound(h, blocks) && i < |h.slabs| && h.slabs[i].first != 0
    ensures var s := h.slabs[i];
            && s.HasAddr(s.first)
            && Take(h, i) == (Heap(h.mem, h.slabs[i := s.(inuse := s.inuse + 1, first := Peek(h.mem, s.first))],
                 h.bits),
                              s.first)
  {
    var shs: seq<Shadow> :| Inv(h, shs) && Recorded(h, shs, blocks);
    var s, sh := h.slabs[i], shs[i];
    assert SlabOk(h.mem, s, sh);
    FirstIsWord(h, shs, i);
    ObjectFits(s, sh.count, sh.free[0]);
    Pigeonhole(sh.free, sh.count);
    TakeIs(h, i);
  }

  /** The object size of a new slab: the size itself, at least the link, or the least number of pages. */
  predicate SizedFor(objectSize: nat, size: nat) {
    if size < 1024 then objectSize == if size < 4 then 4 else size
    else objectSize % 4096 == 0 && size <= objectSize < size + 4096
  }

  /** A new slab for objects of `size` bytes on page `p`, with its first object handed out. */
  ghost predicate SlabAdded(h: Heap, size: nat, g: Heap, p: int) {
    && |g.slabs| == |h.slabs| + 1 && g.slabs[..|h.slabs|] == h.slabs
    && g.slabs[|h.slabs|].start == HEAP_BASE + 4096 * p && g.slabs[|h.slabs|].inuse == 1
    && g.slabs[|h.slabs|].large == (size >= 1024) && SizedFor(g.slabs[|h.slabs|].objectSize, size)
  }

  /** When none fits, the first run of free pages becomes a new slab at the end of the table, whose start is the
      block; the other slabs stay. */
  lemma AllocFromNew(h: Heap, blocks: map<int, nat>, size: nat) returns (p: int)
    requires Sound(h, blocks) && 0 < size <= 40960 && !SomeSlab(h, size) && CanGrow(h, size)
    ensures FreePages(h.bits, p, PagesFor(size)) && forall q :: FreePages(h.bits, q, PagesFor(size)) ==> p <= q
    ensures var (g, a) := Alloc(h, size);
            && a == HEAP_BASE + 4096 * p && SlabAdded(h, size, g, p)
            && |g.bits| == |h.bits|
            && forall q :: 0 <= q < |h.bits| ==> (g.bits[q] <==> h.bits[q] || p <= q < p + PagesFor(size))
  {
    FitIff(h, blocks, size);
    GrowIff(h.bits, PagesFor(size));
    p := FirstRun(h.bits, PagesFor(size), false);
    HeapSizes(h, blocks);
    NewSlabAnswers(h, size, p);
  }

  lemma HeapSizes(h: Heap, blocks: map<int, nat>)
    requires Sound(h, blocks)
    ensures |h.bits| == HEAP_PAGES
  {
  }

  lemma NewSlabAnswers(h: Heap, size: nat, p: nat)
    requires |h.bits| == HEAP_PAGES && 0 < size <= 40960 && |h.slabs| < 256
    requires BestFit(h.slabs, AtLeastLink(size), |h.slabs|) < 0 && p == FirstRun(h.bits, PagesFor(size), false)
    ensures var (g, a) := Alloc(h, size);
            && a == HEAP_BASE + 4096 * p && SlabAdded(h, size, g, p)
            && |g.bits| == |h.bits|
            && forall q :: 0 <= q < |h.bits| ==> (g.bits[q] <==> h.bits[q] || p <= q < p + PagesFor(size))
  {
    var n, sz := PagesFor(size), AtLeastLink(size);
    assert IsRun(h.bits, n, false, p);
    ScanFlipFound(h.bits, n, false);
    var g := Grow(h, sz, sz >= LARGE_FROM).0;
    assert g.slabs == h.slabs + [NewSlab(p, sz, sz >= LARGE_FROM)];
    TakeIs(g, |h.slabs|);
  }

  /** A request that is not served leaves memory and table alone, and the bitmap too unless the heap is exhausted. */
  lemma AllocRefused(h: Heap, size: nat)
    requires Alloc(h, size).1 == 0
    ensures var g := Alloc(h, size).0;
            g.mem == h.mem && g.slabs == h.slabs && (!Exhausted(h, size) ==> g.bits == h.bits)
  {
  }

  // ----- kfree -----

  /** Freeing an outstanding block: its slab is dropped, and its pages are free, exactly if this was its last
      object in use and another was free; otherwise the object becomes the first free one of its slab. */
  lemma FreeAnswers(h: Heap, blocks: map<int, nat>, a: int, size: nat) returns (i: nat)
    requires Sound(h, blocks) && a in blocks && 0 < size <= blocks[a]
    ensures i < |h.slabs| && h.slabs[i].HasAddr(a) && size <= h.slabs[i].objectSize && 1 <= h.slabs[i].inuse
    ensures forall j :: 0 <= j < |h.slabs| && h.slabs[j].HasAddr(a) ==> j == i
    ensures var g, s, n := Free(h, a, size), h.slabs[i], |h.slabs| - 1;
            if s.first != 0 && s.inuse == 1 then
              && g.mem == h.mem && |g.slabs| == n
              && (forall j :: 0 <= j < n ==> g.slabs[j] == h.slabs[if j == i then n else j])
              && |g.bits| == |h.bits| && forall q :: 0 <= q < |h.bits| ==> (g.bits[q] <==> h.bits[q] && !s.Covers(q))
            else
              && g.bits == h.bits && g.slabs == h.slabs[i := s.(inuse := s.inuse - 1, first := a)]
              && Peek(g.mem, a) == s.first
  {
    var shs: seq<Shadow> :| Inv(h, shs) && Recorded(h, shs, blocks);
    var k;
    i, k := BlockOwner(h, shs, blocks, a);
    ObjectFits(h.slabs[i], shs[i].count, k);
    forall j | 0 <= j < |h.slabs| && h.slabs[j].HasAddr(a)
      ensures j == i
    {
      OneOwner(h, shs, i, j, a);
    }
    FindOwner(h, shs, i, a, AtLeastLink(size));
    GivenBack(h, shs, i, k, a);
  }

  lemma OneOwner(h: Heap, shs: seq<Shadow>, i: nat, j: nat, a: int)
    requires Inv(h, shs) && i < |shs| && j < |shs| && h.slabs[i].HasAddr(a) && h.slabs[j].HasAddr(a)
    ensures i == j
  {
    if i != j {
      assert SlabOk(h.mem, h.slabs[i], shs[i]) && SlabOk(h.mem, h.slabs[j], shs[j]);
      assert if i < j then Apart(h.slabs[i], h.slabs[j]) else Apart(h.slabs[j], h.slabs[i]);
      ApartAddr(h.slabs[i], h.slabs[j], a);
    }
  }

  lemma GivenBack(h: Heap, shs: seq<Shadow>, i: nat, k: nat, a: int)
    requires Inv(h, shs) && i < |shs| && k in shs[i].live && a == Object(h.slabs[i], k)
    ensures 1 <= h.slabs[i].inuse
    ensures var g, s, n := Give(h, i, a), h.slabs[i], |h.slabs| - 1;
            if s.first != 0 && s.inuse == 1 then
              && g.mem == h.mem && |g.slabs| == n
              && (forall j :: 0 <= j < n ==> g.slabs[j] == h.slabs[if j == i then n else j])
              && |g.bits| == |h.bits| && forall q :: 0 <= q < |h.bits| ==> (g.bits[q] <==> h.bits[q] && !s.Covers(q))
            else
              && g.bits == h.bits && g.slabs == h.slabs[i := s.(inuse := s.inuse - 1, first := a)]
              && Peek(g.mem, a) == s.first
  {
    var s, sh := h.slabs[i], shs[i];
    assert SlabOk(h.mem, s, sh);
    LiveCounts(s, sh, k);
    FirstIsWord(h, shs, i);
    GiveIs(h, i, a);
    if s.first != NULL && s.inuse == 1 {
      PagesBack(h, i);
    } else {
      ObjectInHeap(h.mem, s, sh.count, k);
      PeekPoked(h.mem, a, s.first);
    }
  }

  lemma PagesBack(h: Heap, i: nat)
    requires i < |h.slabs| && Shaped(h.slabs[i]) && |h.bits| == HEAP_PAGES
    ensures var g, s, n := Shrink(h, i), h.slabs[i], |h.slabs| - 1;
            && g.mem == h.mem && |g.slabs| == n
            && (forall j :: 0 <= j < n ==> g.slabs[j] == h.slabs[if j == i then n else j])
            && |g.bits| == |h.bits| && forall q :: 0 <= q < |h.bits| ==> (g.bits[q] <==> h.bits[q] && !s.Covers(q))
  {
    var s := h.slabs[i];
    ShrinkIs(h, i);
    forall q | 0 <= q < |h.bits|
      ensures InSpan(q, s.FirstPage(), SlabPages(s.large)) <==> s.Covers(q)
    {
    }
  }

  /** An address in no slab of large enough objects, and size 0, change nothing. */
  lemma FreeElsewhere(h: Heap, a: int, size: nat)
    requires size == 0 || forall i :: 0 <= i < |h.slabs| ==>
               !(h.slabs[i].HasAddr(a) && h.slabs[i].objectSize >= size && h.slabs[i].objectSize >= 4)
    ensures Free(h, a, size) == h
  {
  }
}
