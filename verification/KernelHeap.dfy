/** mm/heap.c in place: memory, slab table and page bitmap updated by `kmalloc` and `kfree`. */
module KernelHeap {
  import opened Words
  import opened Bitmaps
  import opened SlabHeap
  import opened HeapInvariant
  import opened HeapRuns

  class Heaps {
    const mem: array<byte>
    const cache: array<Slab>
    const bitmap: Bitmap
    var size: nat

    ghost predicate Valid()
      reads this
    {
      && bitmap.Valid() && bitmap.size == HEAP_PAGES && mem.Length == HEAP_BYTES && cache.Length == CACHE_MAX
      && size <= CACHE_MAX
      && mem as object != cache && mem as object != bitmap.bits && cache as object != bitmap.bits
    }

    ghost function State(): Heap
      requires Valid()
      reads this, mem, cache, bitmap.bits
    {
      Heap(mem[..], cache[..size], bitmap.Bits())
    }

    /** The empty heap that `kheap_init` sets up before growing its first slabs. */
    constructor ()
      ensures Valid() && size == 0 && fresh(mem) && fresh(cache) && fresh(bitmap.bits)
      ensures State() == Empty(mem[..])
    {
      mem := new byte[HEAP_BYTES];
      cache := new Slab[CACHE_MAX](_ => Slab(NULL, NULL, 0, 0, false));
      bitmap := new Bitmap(HEAP_PAGES);
      size := 0;
    }

    /** `kheap_init` on the empty heap. */
    method Init()
      requires Valid() && State() == Empty(mem[..])
      modifies this`size, mem, cache, bitmap.bits
      ensures Valid() && State() == Booted(old(mem[..]))
    {
      ghost var m := mem[..];
      BootSizes(m);
      var first := Grow(8, false);
      var slab := Grow(16, true);
      var next := Grow(32, true);
      Shrink(slab);
      var last := Grow(16, true);
    }

    method Store(a: int, v: u32)
      requires Valid()
      modifies mem
      ensures mem[..] == Poke(old(mem[..]), a, v)
    {
      if HEAP_BASE <= a && a - HEAP_BASE + LINK_SIZE <= mem.Length {
        var o := a - HEAP_BASE;
        mem[o] := v % 0x100;
        mem[o + 1] := v / 0x100 % 0x100;
        mem[o + 2] := v / 0x1_0000 % 0x100;
        mem[o + 3] := v / 0x100_0000;
      }
    }

    method Fetch(a: int) returns (v: u32)
      requires Valid()
      ensures v == Peek(mem[..], a)
    {
      if HEAP_BASE <= a && a - HEAP_BASE + LINK_SIZE <= mem.Length {
        var o := a - HEAP_BASE;
        v := mem[o] as int + 0x100 * mem[o + 1] as int + 0x1_0000 * mem[o + 2] as int + 0x100_0000 * mem[o + 3] as int;
      } else {
        v := 0;
      }
    }

    /** The link-building loop of `kheap_cache_grow`. */
    method BuildFreeList(start: int, objectSize: nat, count: nat)
      requires Valid() && 0 < objectSize
      modifies mem
      ensures mem[..] == NewFreeList(old(mem[..]), start, objectSize, count)
    {
      var i, current := 1, start;
      while i < count
        invariant 1 <= i && (i <= count || i == 1)
        invariant current == start + (i - 1) * objectSize
        invariant mem[..] == Threaded(old(mem[..]), start, objectSize, i - 1)
      {
        Store(current, Wrap(start + i * objectSize));
        current := start + i * objectSize;
        i := i + 1;
      }
      Store(current, NULL);
    }

    /** `kheap_cache_grow`: the index of the new slab, or -1 for NULL. */
    method Grow(objectSize: nat, large: bool) returns (slab: int)
      requires Valid() && 0 < objectSize
      modifies this`size, mem, cache, bitmap.bits
      ensures Valid() && State() == SlabHeap.Grow(old(State()), objectSize, large).0
      ensures slab == if SlabHeap.Grow(old(State()), objectSize, large).1 then old(size) else -1
    {
      if size == CACHE_MAX {
        return -1;
      }
      var page := bitmap.ScanFlip(SlabPages(large), false);
      if page < 0 {
        return -1;
      }
      var s := NewSlab(page, objectSize, large);
      slab := size;
      Install(s);
    }

    /** Threads the free list of a new slab and enters it in the table. */
    method Install(s: Slab)
      requires Valid() && size < CACHE_MAX && 0 < s.objectSize
      modifies this`size, mem, cache
      ensures Valid() && size == old(size) + 1 && cache[..size] == old(cache[..size]) + [s]
      ensures mem[..] == NewFreeList(old(mem[..]), s.start, s.objectSize, s.Capacity())
    {
      BuildFreeList(s.start, s.objectSize, s.Bytes() / s.objectSize);
      cache[size] := s;
      size := size + 1;
    }

    /** The last table entry moves to place `i`. */
    method DropEntry(i: nat)
      requires Valid() && i < size
      modifies this`size, cache
      ensures Valid() && cache[..size] == SwapRemove(old(cache[..size]), i)
    {
      size := size - 1;
      if i != size {
        cache[i] := cache[size];
      }
    }

    method Replace(i: nat, s: Slab)
      requires Valid() && i < size
      modifies cache
      ensures cache[..size] == old(cache[..size])[i := s]
    {
      cache[i] := s;
    }

    /** `kheap_cache_shrink` of the slab at index `slab`. */
    method Shrink(slab: nat)
      requires Valid() && slab < size
      modifies this`size, cache, bitmap.bits
      ensures Valid() && State() == SlabHeap.Shrink(old(State()), slab)
    {
      for i := 0 to size
        invariant i <= slab && unchanged(this) && unchanged(cache) && unchanged(bitmap.bits)
      {
        if i == slab {
          var s := cache[i];
          bitmap.SetMulti(false, Wrap((s.start - HEAP_BASE) / 4096), SlabPages(s.large));
          DropEntry(i);
          return;
        }
      }
    }

    /** The best-fit search of `kmalloc`, which stops at an exact match. */
    method Search(sz: nat) returns (fit: int)
      requires Valid() && 0 < sz
      ensures fit == BestFit(cache[..size], sz, size)
    {
      ghost var slabs := cache[..size];
      fit := -1;
      var best := 0;
      for i := 0 to size
        invariant fit == BestFit(slabs, sz, i)
        invariant best == if fit < 0 then 0 else slabs[fit].objectSize
      {
        var s := cache[i];
        assert s == slabs[i];
        if s.first == NULL || s.objectSize < sz {
          continue;
        }
        if best == 0 || s.objectSize < best {
          fit, best := i, s.objectSize;
          if best == sz {
            ExactStays(slabs, sz, i + 1, size);
            return;
          }
        }
      }
    }

    method KMalloc(n: nat) returns (a: int)
      requires Valid()
      modifies this`size, mem, cache, bitmap.bits
      ensures Valid() && (State(), a) == Alloc(old(State()), n)
    {
      if n == 0 || n > MAX_OBJECT {
        return NULL;
      }
      var sz := AtLeastLink(n);
      var slab := Search(sz);
      if slab < 0 {
        slab := Grow(sz, sz >= LARGE_FROM);
        if slab < 0 {
          return NULL;
        }
      }
      a := TakeFirst(slab);
    }

    method TakeFirst(slab: nat) returns (a: int)
      requires Valid() && slab < size
      modifies cache
      ensures (State(), a) == Take(old(State()), slab)
    {
      var s := cache[slab];
      a := s.first;
      var next := Fetch(s.first);
      Replace(slab, s.(inuse := (s.inuse + 1) % 0x1_0000, first := next));
    }

    method KFree(a: int, n: nat)
      requires Valid()
      modifies this`size, mem, cache, bitmap.bits
      ensures Valid() && State() == Free(old(State()), a, n)
    {
      if n == 0 {
        return;
      }
      var sz := AtLeastLink(n);
      ghost var slabs := cache[..size];
      for i := 0 to size
        invariant unchanged(this) && unchanged(mem) && unchanged(cache) && unchanged(bitmap.bits)
        invariant FindSlab(slabs, a, sz, 0) == FindSlab(slabs, a, sz, i)
      {
        if cache[i].objectSize >= sz && cache[i].HasAddr(a) {
          GiveBack(i, a);
          return;
        }
      }
    }

    method GiveBack(i: nat, a: int)
      requires Valid() && i < size
      modifies this`size, mem, cache, bitmap.bits
      ensures Valid() && State() == Give(old(State()), i, a)
    {
      var s := cache[i].(inuse := (cache[i].inuse - 1) % 0x1_0000);
      if s.first == NULL {
        Replace(i, s.(first := a));
        Store(a, NULL);
      } else if s.inuse == 0 {
        Shrink(i);
      } else {
        Store(a, Wrap(s.first));
        Replace(i, s.(first := a));
      }
    }
  }

  /** The first three slabs of `kheap_init` all find pages. */
  lemma BootSizes(mem: seq<byte>)
    requires |mem| == HEAP_BYTES
    ensures var a := SlabHeap.Grow(Empty(mem), 8, false);
            var b := SlabHeap.Grow(a.0, 16, true);
            var c := SlabHeap.Grow(b.0, 32, true);
            a.1 && b.1 && c.1 && |a.0.slabs| == 1 && |b.0.slabs| == 2 && |c.0.slabs| == 3
  {
    assert Inv(Empty(mem), []) && Recorded(Empty(mem), [], map[]);
    BootGrow(Empty(mem), 0, 8, false, 0);
    var a := SlabHeap.Grow(Empty(mem), 8, false).0;
    BootGrow(a, 1, 16, true, 10);
    BootGrow(SlabHeap.Grow(a, 16, true).0, 2, 32, true, 20);
  }

  /** Once a slab of exactly the wanted object size is found, no later one is better. */
  lemma {:induction false} ExactStays(slabs: seq<Slab>, sz: nat, i: nat, n: nat)
    requires i <= n <= |slabs| && BestFit(slabs, sz, i) >= 0 && slabs[BestFit(slabs, sz, i)].objectSize == sz
    ensures BestFit(slabs, sz, n) == BestFit(slabs, sz, i)
  {
    if i < n {
      ExactStays(slabs, sz, i, n - 1);
    }
  }
}
