/** Exhausting the heap of mm/heap.c: a run from boot after which an allocation corrupts the page bitmap. */
module HeapExhaustion {
  import opened Words
  import opened Bitmaps
  import opened SlabHeap
  import opened HeapInvariant
  import opened HeapSteps
  import opened HeapRuns

  /** Exactly the pages below `p` are taken. */
  ghost predicate Packed(bits: seq<bool>, p: nat) {
    p <= |bits| == HEAP_PAGES && forall q :: 0 <= q < HEAP_PAGES ==> (bits[q] <==> q < p)
  }

  /** Growing a packed heap takes the next pages. */
  lemma GrowPacked(h: Heap, size: nat, large: bool, p: nat)
    requires Packed(h.bits, p) && |h.slabs| < CACHE_MAX && 0 < size && p + SlabPages(large) <= HEAP_PAGES
    ensures var (g, grown) := Grow(h, size, large);
            grown && g.slabs == h.slabs + [NewSlab(p, size, large)] && Packed(g.bits, p + SlabPages(large))
  {
    var n := SlabPages(large);
    NextRun(h.bits, p, n);
    ScanFlipFound(h.bits, n, false);
  }

  lemma NextRun(bits: seq<bool>, p: nat, n: nat)
    requires Packed(bits, p) && 0 < n && p + n <= HEAP_PAGES
    ensures FirstRun(bits, n, false) == p
  {
    assert IsRun(bits, n, false, p);
    forall q | 0 <= q < p
      ensures !IsRun(bits, n, false, q)
    {
      assert bits[q];
    }
    FirstRunIs(bits, n, false, p);
  }

  /** A packed heap in which no slab has a free object of the largest size. */
  ghost predicate Filled(h: Heap, p: nat, n: nat) {
    && |h.mem| == HEAP_BYTES && Packed(h.bits, p) && |h.slabs| == n
    && forall i :: 0 <= i < |h.slabs| ==> !Fits(h.slabs[i], MAX_OBJECT)
  }

  /** One more allocation of the largest size takes a slab of its own. */
  lemma FillMore(h: Heap, p: nat, n: nat)
    requires Filled(h, p, n) && n < CACHE_MAX && p + LARGE_SLAB_PAGES <= HEAP_PAGES
    ensures !Exhausted(h, MAX_OBJECT) && Filled(Alloc(h, MAX_OBJECT).0, p + LARGE_SLAB_PAGES, n + 1)
  {
    NextRun(h.bits, p, LARGE_SLAB_PAGES);
    NoFit(h.slabs);
    GrowPacked(h, MAX_OBJECT, true, p);
    SingleObject(h, p);
    assert Alloc(h, MAX_OBJECT) == Take(Grow(h, MAX_OBJECT, true).0, n);
  }

  /** A slab of the largest objects holds one, so its list is empty once that is taken. */
  lemma SingleObject(h: Heap, p: nat)
    requires |h.mem| == HEAP_BYTES && p + LARGE_SLAB_PAGES <= HEAP_PAGES
    ensures var s := NewSlab(p, MAX_OBJECT, true);
            Peek(NewFreeList(h.mem, s.start, s.objectSize, s.Capacity()), s.first) == NULL
  {
    var s := NewSlab(p, MAX_OBJECT, true);
    assert s.objectSize == 40960 && s.Capacity() == 1;
    PeekPoked(h.mem, s.start, NULL);
  }

  /** After start-up the first 24 pages are taken, by three slabs of small objects. */
  lemma BootTable(mem: seq<byte>)
    ensures Packed(Booted(mem).bits, 24)
    ensures Booted(mem).slabs == [NewSlab(0, 8, false), NewSlab(14, 32, true)] + [NewSlab(4, 16, true)]
  {
    GrowPacked(Empty(mem), 8, false, 0);
    var a := Grow(Empty(mem), 8, false).0;
    GrowPacked(a, 16, true, 4);
    var b := Grow(a, 16, true).0;
    GrowPacked(b, 32, true, 14);
    var c := Grow(b, 32, true).0;
    Refilled(c);
  }

  lemma BootFilled(mem: seq<byte>)
    requires |mem| == HEAP_BYTES
    ensures Filled(Booted(mem), 24, 3)
  {
    BootTable(mem);
    BootIsSmall(Booted(mem).slabs);
    BootHolds(mem);
  }

  lemma BootIsSmall(slabs: seq<Slab>)
    requires slabs == [NewSlab(0, 8, false), NewSlab(14, 32, true)] + [NewSlab(4, 16, true)]
    ensures |slabs| == 3 && forall i :: 0 <= i < 3 ==> !Fits(slabs[i], MAX_OBJECT)
  {
    assert NewSlab(4, 16, true).objectSize == NewSlab(14, 32, true).objectSize == 4096;
  }

  /** The slab that start-up drops leaves a gap that the next one fills. */
  lemma Refilled(c: Heap)
    requires Packed(c.bits, 24) && c.slabs == [NewSlab(0, 8, false), NewSlab(4, 16, true), NewSlab(14, 32, true)]
    ensures var d := Grow(Shrink(c, 1), 16, true).0;
            && Packed(d.bits, 24)
            && d.slabs == [NewSlab(0, 8, false), NewSlab(14, 32, true)] + [NewSlab(4, 16, true)]
  {
    ShrinkIs(c, 1);
    var d := Shrink(c, 1);
    assert d.slabs == [NewSlab(0, 8, false), NewSlab(14, 32, true)];
    GapTaken(d);
  }

  lemma GapTaken(d: Heap)
    requires |d.bits| == HEAP_PAGES && forall q :: 0 <= q < HEAP_PAGES ==> (d.bits[q] <==> q < 4 || 14 <= q < 24)
    requires |d.slabs| < CACHE_MAX
    ensures var g := Grow(d, 16, true).0; Packed(g.bits, 24) && g.slabs == d.slabs + [NewSlab(4, 16, true)]
  {
    assert IsRun(d.bits, 10, false, 4);
    forall q | 0 <= q < 4
      ensures !IsRun(d.bits, 10, false, q)
    {
      assert d.bits[q];
    }
    FirstRunIs(d.bits, 10, false, 4);
    ScanFlipFound(d.bits, 10, false);
  }

  /** `k` allocations of the largest size. */
  function Fill(k: nat): seq<Op> {
    if k == 0 then [] else [Malloc(MAX_OBJECT)] + Fill(k - 1)
  }

  lemma {:induction false} FillRun(h: Heap, c: Client, p: nat, n: nat, k: nat, p': nat, n': nat)
    requires Filled(h, p, n) && n' == n + k <= CACHE_MAX && p' == p + 10 * k <= HEAP_PAGES
    ensures AllAllowed(h, c, Fill(k)) && Filled(Run(h, c, Fill(k)).0, p', n')
    decreases k
  {
    if k > 0 {
      var g := Alloc(h, MAX_OBJECT).0;
      var d := Step(h, c, Malloc(MAX_OBJECT)).1;
      FillMore(h, p, n);
      FillRun(g, d, p + 10, n + 1, k - 1, p', n');
      FillStep(h, c, k, g, d);
    }
  }

  lemma FillStep(h: Heap, c: Client, k: nat, g: Heap, d: Client)
    requires k > 0 && g == Alloc(h, MAX_OBJECT).0 && d == Step(h, c, Malloc(MAX_OBJECT)).1
    ensures Run(h, c, Fill(k)) == Run(g, d, Fill(k - 1))
    ensures !Exhausted(h, MAX_OBJECT) && AllAllowed(g, d, Fill(k - 1)) ==> AllAllowed(h, c, Fill(k))
  {
    assert Fill(k)[0] == Malloc(MAX_OBJECT) && Fill(k)[1..] == Fill(k - 1);
  }

  /** 202 allocations from boot, all allowed, leave a heap whose next one breaks the bitmap. */
  lemma ExhaustedFromBoot(mem: seq<byte>)
    requires |mem| == HEAP_BYTES
    ensures AllAllowed(Booted(mem), Client(map[], map[]), Fill(202))
    ensures var (h, c) := Run(Booted(mem), Client(map[], map[]), Fill(202));
            var (g, a) := Alloc(h, MAX_OBJECT);
            Sound(h, c.blocks) && Exhausted(h, MAX_OBJECT) && !Sound(g, Handed(c.blocks, a, MAX_OBJECT))
  {
    BootFilled(mem);
    BootHolds(mem);
    FillRun(Booted(mem), Client(map[], map[]), 24, 3, 202, 2044, 205);
    RunHolds(Booted(mem), Client(map[], map[]), Fill(202));
    var (h, c) := Run(Booted(mem), Client(map[], map[]), Fill(202));
    FewLeft(h.bits);
    NoFit(h.slabs);
    AllocSoundIff(h, c.blocks, MAX_OBJECT);
  }

  lemma NoFit(slabs: seq<Slab>)
    requires forall i :: 0 <= i < |slabs| ==> !Fits(slabs[i], MAX_OBJECT)
    ensures BestFit(slabs, MAX_OBJECT, |slabs|) < 0
  {
  }

  lemma FewLeft(bits: seq<bool>)
    requires Packed(bits, 2044)
    ensures FirstRun(bits, LARGE_SLAB_PAGES, false) < 0
  {
    forall q
      ensures !IsRun(bits, LARGE_SLAB_PAGES, false, q)
    {
      assert 0 <= q < 2044 ==> bits[q];
    }
  }
}
