/**
 The kernel heap of mm/heap.c as a function of its state: heap memory, the slab table
 and the page bitmap.  Free objects carry the free list in their first four bytes.
 */
module SlabHeap {
  import opened Words
  import opened Bitmaps

  const PAGE := 4096
  const HEAP_BASE := 0xC040_0000
  const HEAP_PAGES := 2048
  const HEAP_BYTES := 0x80_0000
  const SLAB_PAGES := 4
  const LARGE_SLAB_PAGES := 10
  const LARGE_FROM := 1024
  const MAX_OBJECT := 40960
  const CACHE_MAX := 256
  const LINK_SIZE := 4
  const NULL := 0

  function RoundUp(x: nat): nat {
    (x + PAGE - 1) / 4096 * 4096
  }

  function SlabPages(large: bool): nat {
    if large then LARGE_SLAB_PAGES else SLAB_PAGES
  }

  datatype Slab = Slab(start: int, first: int, objectSize: nat, inuse: int, large: bool) {
    function Bytes(): nat {
      if large then 40960 else 16384
    }

    /** `slab_has_addr` */
    predicate HasAddr(a: int) {
      start <= a < start + Bytes()
    }

    function FirstPage(): int {
      (start - HEAP_BASE) / 4096
    }

    predicate Covers(page: int) {
      FirstPage() <= page < FirstPage() + SlabPages(large)
    }

    function Capacity(): nat
      requires objectSize > 0
    {
      Bytes() / objectSize
    }
  }

  datatype Heap = Heap(mem: seq<byte>, slabs: seq<Slab>, bits: seq<bool>)

  // ----- Heap memory; a pointer outside it reads 0 and writes nothing -----

  predicate InHeap(m: seq<byte>, a: int) {
    HEAP_BASE <= a && a - HEAP_BASE + LINK_SIZE <= |m|
  }

  function Peek(m: seq<byte>, a: int): u32 {
    if InHeap(m, a) then Load32(m, a - HEAP_BASE) else 0
  }

  function Poke(m: seq<byte>, a: int, v: u32): (m': seq<byte>)
    ensures |m'| == |m|
  {
    if InHeap(m, a) then Store32(m, a - HEAP_BASE, v) else m
  }

  // ----- kheap_cache_grow -----

  /** The first `i` links of a new slab: object k points to object k + 1. */
  function Threaded(m: seq<byte>, start: int, size: nat, i: nat): (m': seq<byte>)
    ensures |m'| == |m|
  {
    if i == 0 then m
    else Poke(Threaded(m, start, size, i - 1), start + (i - 1) * size, Wrap(start + i * size))
  }

  /** The whole free list of a new slab, ending in NULL. */
  function NewFreeList(m: seq<byte>, start: int, size: nat, count: nat): (m': seq<byte>)
    ensures |m'| == |m|
  {
    var last := if count == 0 then 0 else count - 1;
    Poke(Threaded(m, start, size, last), start + last * size, NULL)
  }

  function ObjectSize(size: nat, large: bool): nat {
    if large then RoundUp(size) else size
  }

  function NewSlab(page: nat, size: nat, large: bool): Slab {
    Slab(HEAP_BASE + page * 4096, HEAP_BASE + page * 4096, ObjectSize(size, large), 0, large)
  }

  /** Grows the table by one slab; the flag says whether it did. */
  function Grow(h: Heap, size: nat, large: bool): (r: (Heap, bool))
    requires 0 < size
    ensures |r.0.slabs| == |h.slabs| + if r.1 then 1 else 0
  {
    if |h.slabs| >= CACHE_MAX then (h, false)
    else
      var n := SlabPages(large);
      var page := FirstRun(h.bits, n, false);
      var bits := ScanFlipped(h.bits, n, false);
      if page < 0 then (h.(bits := bits), false)
      else
        var slab := NewSlab(page, size, large);
        (Heap(NewFreeList(h.mem, slab.start, slab.objectSize, slab.Capacity()), h.slabs + [slab], bits), true)
  }

  // ----- kheap_cache_shrink -----

  /** Entry `i` of a table is dropped and the last one takes its place. */
  function SwapRemove<T>(s: seq<T>, i: nat): (r: seq<T>)
    requires i < |s|
    ensures |r| == |s| - 1
    ensures forall j :: 0 <= j < |r| ==> r[j] == if j == i then s[|r|] else s[j]
  {
    if i == |s| - 1 then s[..i] else s[i := s[|s| - 1]][..|s| - 1]
  }

  function Shrink(h: Heap, i: nat): Heap
    requires i < |h.slabs|
  {
    var s := h.slabs[i];
    var idx := Wrap(s.FirstPage());
    h.(slabs := SwapRemove(h.slabs, i),
       bits := SetSpan(h.bits, idx, SetCount(|h.bits|, idx, SlabPages(s.large)), false))
  }

  // ----- kmalloc -----

  predicate Fits(s: Slab, size: nat) {
    s.first != NULL && size <= s.objectSize
  }

  /** The first slab of smallest sufficient object size among the first `n`, or -1. */
  function BestFit(slabs: seq<Slab>, size: nat, n: nat): (r: int)
    requires n <= |slabs|
    ensures -1 <= r < n
    ensures r >= 0 ==> Fits(slabs[r], size)
    ensures forall i :: 0 <= i < n && Fits(slabs[i], size) ==>
              r >= 0 && slabs[r].objectSize <= slabs[i].objectSize
                   && (i < r ==> slabs[r].objectSize < slabs[i].objectSize)
  {
    if n == 0 then -1
    else
      var r := BestFit(slabs, size, n - 1);
      if Fits(slabs[n - 1], size) && (r < 0 || slabs[n - 1].objectSize < slabs[r].objectSize) then n - 1 else r
  }

  /** Pops the head of slab `i`'s free list. */
  function Take(h: Heap, i: nat): (Heap, int)
    requires i < |h.slabs|
  {
    var s := h.slabs[i];
    (h.(slabs := h.slabs[i := s.(inuse := (s.inuse + 1) % 0x1_0000, first := Peek(h.mem, s.first))]), s.first)
  }

  function AtLeastLink(size: nat): nat {
    if size < LINK_SIZE then LINK_SIZE else size
  }

  function Alloc(h: Heap, size: nat): (Heap, int) {
    if size == 0 || size > MAX_OBJECT then (h, NULL)
    else
      var sz := AtLeastLink(size);
      var fit := BestFit(h.slabs, sz, |h.slabs|);
      if fit >= 0 then Take(h, fit)
      else
        var (g, grown) := Grow(h, sz, sz >= LARGE_FROM);
        if grown then Take(g, |h.slabs|) else (g, NULL)
  }

  // ----- kfree -----

  /** The first slab, from `i` on, that holds `addr` in objects of at least `size`, or -1. */
  function FindSlab(slabs: seq<Slab>, addr: int, size: nat, i: nat): (r: int)
    requires i <= |slabs|
    ensures r == -1 || (i <= r < |slabs| && size <= slabs[r].objectSize && slabs[r].HasAddr(addr))
    ensures forall j :: i <= j < |slabs| && size <= slabs[j].objectSize && slabs[j].HasAddr(addr) ==> i <= r <= j
    decreases |slabs| - i
  {
    if i == |slabs| then -1
    else if size <= slabs[i].objectSize && slabs[i].HasAddr(addr) then i
    else FindSlab(slabs, addr, size, i + 1)
  }

  /** Returns object `addr` to slab `i`, or drops the slab when that was its last one in use. */
  function Give(h: Heap, i: nat, addr: int): Heap
    requires i < |h.slabs|
  {
    var s := h.slabs[i].(inuse := (h.slabs[i].inuse - 1) % 0x1_0000);
    if s.first == NULL then
      Heap(Poke(h.mem, addr, NULL), h.slabs[i := s.(first := addr)], h.bits)
    else if s.inuse == 0 then
      Shrink(h, i)
    else
      Heap(Poke(h.mem, addr, Wrap(s.first)), h.slabs[i := s.(first := addr)], h.bits)
  }

  function Free(h: Heap, addr: int, size: nat): Heap {
    if size == 0 then h
    else
      var i := FindSlab(h.slabs, addr, AtLeastLink(size), 0);
      if i < 0 then h else Give(h, i, addr)
  }

  /** A client stores one byte. */
  function Write(h: Heap, addr: int, b: byte): Heap {
    if HEAP_BASE <= addr < HEAP_BASE + |h.mem| then h.(mem := h.mem[addr - HEAP_BASE := b]) else h
  }

  // ----- Start-up -----

  function Empty(mem: seq<byte>): Heap {
    Heap(mem, [], seq(HEAP_PAGES, _ => false))
  }

  /** The slabs `kheap_init` makes, in its order. */
  function Booted(mem: seq<byte>): Heap {
    var a := Grow(Empty(mem), 8, false).0;
    var b := Grow(a, 16, true).0;
    var c := Grow(b, 32, true).0;
    var d := if |c.slabs| > 1 then Shrink(c, 1) else c;
    Grow(d, 16, true).0
  }
}
