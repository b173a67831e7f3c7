/**
 Heap blocks as page tables: what `kmalloc(4096)` hands out survives the masking of `make_pde`
 (mm/paging.c), and the page allocator does not hand it out again, by the `pmm_set` of
 `kheap_init` (mm/heap.c).  This is what the set of free table pages of the paging model stands for.
 */
module HeapTables {
  import opened Words
  import opened Bitmaps
  import opened SlabHeap
  import opened HeapRuns
  import opened PageEntry
  import opened PageTables
  import opened PhysicalFrames
  import opened CloneSpace

  /** `ADDR_TO_PHYS` */
  function Phys(a: int): int {
    a - VIRT_BASE
  }

  /** The address of a table from the heap comes back out of a directory entry, and no two share one. */
  lemma TableSurvives(h: Heap, blocks: map<int, nat>, a: int, b: int, write: bool, user: bool)
    requires Sound(h, blocks) && a in blocks && blocks[a] == 4096
    ensures 0 < Phys(a) < TWO32 && Phys(a) % 4096 == 0 && Address(MakeEntry(Phys(a), write, user)) == Phys(a)
    ensures b in blocks && a != b ==> Phys(b) + blocks[b] <= Phys(a) || Phys(a) + 4096 <= Phys(b)
  {
    BlockPlaced(h, blocks, a);
    EntryOfPage(a, write, user);
    if b in blocks && a != b {
      BlocksDisjoint(h, blocks, a, b);
    }
  }

  lemma EntryOfPage(a: int, write: bool, user: bool)
    requires HEAP_BASE <= a < HEAP_BASE + HEAP_BYTES && a % 4096 == 0
    ensures 0 < Phys(a) < TWO32 && Phys(a) % 4096 == 0 && Address(MakeEntry(Phys(a), write, user)) == Phys(a)
  {
    EntryRoundTrip(Phys(a), write, user);
  }

  /** The bitmap of the page allocator after `kheap_init` took the heap's pages. */
  function HeapTaken(bits: seq<bool>): seq<bool> {
    SetBits(bits, Phys(HEAP_BASE), HEAP_PAGES, false)
  }

  lemma HeapPagesBusy(bits: seq<bool>, a: int)
    requires |bits| <= PAGES && HEAP_BASE <= a < HEAP_BASE + HEAP_BYTES
    ensures Busy(HeapTaken(bits), Phys(a))
  {
    var p := Phys(a) / 4096;
    assert 1024 <= p < 1024 + HEAP_PAGES;
    assert p < |bits| ==> InSpan(p, 1024, SetCount(|bits|, 1024, HEAP_PAGES));
  }

  /** The pages of all 4096-byte blocks of a sound heap are aligned, nonzero and taken. */
  lemma TablePagesUsable(h: Heap, blocks: map<int, nat>, bits: seq<bool>)
    requires Sound(h, blocks) && |bits| <= PAGES
    ensures forall a :: a in blocks && blocks[a] == 4096 ==>
                          0 < Phys(a) < TWO32 && Phys(a) % 4096 == 0 && Busy(HeapTaken(bits), Phys(a))
  {
    forall a | a in blocks && blocks[a] == 4096
      ensures 0 < Phys(a) < TWO32 && Phys(a) % 4096 == 0 && Busy(HeapTaken(bits), Phys(a))
    {
      BlockPlaced(h, blocks, a);
      EntryOfPage(a, true, true);
      HeapPagesBusy(bits, a);
    }
  }
}
