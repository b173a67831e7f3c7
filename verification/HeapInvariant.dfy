/**
 What every state of the kernel heap satisfies.  A `Shadow` records, for one slab, its
 number of objects, the object indices on its free list, in order, and the requested size of each live object.
 */
module HeapInvariant {
  import opened Words
  import opened SlabHeap

  datatype Shadow = Shadow(count: nat, free: seq<nat>, live: map<nat, nat>)

  /** The address of the slab's object `k`. */
  function Object(s: Slab, k: nat): int {
    s.start + Times(k, s.objectSize)
  }

  predicate InObject(s: Slab, k: nat, a: int) {
    Object(s, k) <= a < Object(s, k) + s.objectSize
  }

  // ----- The invariant -----

  /** Small slabs hold objects below 1024 bytes, large ones whole pages. */
  predicate Shaped(s: Slab) {
    && HEAP_BASE <= s.start && (s.start - HEAP_BASE) % 4096 == 0
    && s.start + s.Bytes() <= HEAP_BASE + HEAP_BYTES
    && (if s.large then PAGE <= s.objectSize <= MAX_OBJECT && s.objectSize % 4096 == 0
        else LINK_SIZE <= s.objectSize < LARGE_FROM)
  }

  /** The address the `i`-th free object is reached by: NULL after the last one. */
  function Link(s: Slab, free: seq<nat>, i: nat): int {
    if i < |free| then Object(s, free[i]) else NULL
  }

  ghost predicate Chained(mem: seq<byte>, s: Slab, free: seq<nat>) {
    && s.first == Link(s, free, 0)
    && forall i {:trigger Peek(mem, Object(s, free[i]))} :: 0 <= i < |free| ==>
         Peek(mem, Object(s, free[i])) == Link(s, free, i + 1)
  }

  /** `count` objects fit in the slab and one more does not. */
  predicate Counted(s: Slab, count: nat) {
    0 < count <= 4096 && Times(count, s.objectSize) <= s.Bytes() < Times(count + 1, s.objectSize)
  }

  /** Every object of the slab is free or live and none is both, none twice on the list. */
  ghost predicate Partitioned(s: Slab, sh: Shadow) {
    && (forall i, j :: 0 <= i < j < |sh.free| ==> sh.free[i] != sh.free[j])
    && (forall i :: 0 <= i < |sh.free| ==> sh.free[i] < sh.count && sh.free[i] !in sh.live)
    && (forall k :: k in sh.live ==> k < sh.count && 0 < sh.live[k] <= s.objectSize)
    && (forall k: nat :: k < sh.count ==> k in sh.free || k in sh.live)
    && s.inuse + |sh.free| == sh.count
  }

  ghost predicate SlabOk(mem: seq<byte>, s: Slab, sh: Shadow) {
    Shaped(s) && Counted(s, sh.count) && Partitioned(s, sh) && Chained(mem, s, sh.free)
  }

  ghost predicate Apart(s: Slab, t: Slab) {
    forall p :: !(s.Covers(p) && t.Covers(p))
  }

  ghost predicate Owned(slabs: seq<Slab>, p: int) {
    exists i :: 0 <= i < |slabs| && slabs[i].Covers(p)
  }

  ghost predicate BitmapExact(slabs: seq<Slab>, bits: seq<bool>) {
    |bits| == HEAP_PAGES && forall p :: 0 <= p < HEAP_PAGES ==> (bits[p] <==> Owned(slabs, p))
  }

  ghost predicate AllApart(slabs: seq<Slab>) {
    forall i, j :: 0 <= i < j < |slabs| ==> Apart(slabs[i], slabs[j])
  }

  ghost predicate Inv(h: Heap, shs: seq<Shadow>) {
    && |h.mem| == HEAP_BYTES
    && |shs| == |h.slabs| <= CACHE_MAX
    && (forall i {:trigger SlabOk(h.mem, h.slabs[i], shs[i])} :: 0 <= i < |shs| ==> SlabOk(h.mem, h.slabs[i], shs[i]))
    && AllApart(h.slabs)
    && BitmapExact(h.slabs, h.bits)
  }

  // ----- Geometry of objects -----

  lemma CapacityCounts(s: Slab)
    requires Shaped(s)
    ensures Counted(s, s.Capacity())
  {
    var c := s.Capacity();
    TimesIs(c, s.objectSize);
    TimesIs(c + 1, s.objectSize);
    assert (c + 1) * s.objectSize == c * s.objectSize + s.objectSize;
    assert c == 0 ==> c * s.objectSize == 0;
    assert c > 4096 ==> c * s.objectSize >= 4097 * s.objectSize;
  }

  /** The shadow's count is the capacity the code computes by division. */
  lemma CountIsCapacity(s: Slab, count: nat)
    requires Shaped(s) && Counted(s, count)
    ensures count == s.Capacity()
  {
    TimesIs(count, s.objectSize);
    TimesIs(count + 1, s.objectSize);
    DivIs(s.Bytes(), s.objectSize, count);
  }

  lemma ObjectFits(s: Slab, count: nat, k: nat)
    requires Counted(s, count) && k < count
    ensures s.start <= Object(s, k) && Object(s, k) + s.objectSize <= s.start + s.Bytes()
  {
    TimesApart(k, count, s.objectSize);
  }

  lemma ObjectsApart(s: Slab, k: nat, l: nat)
    requires k != l
    ensures Object(s, k) + s.objectSize <= Object(s, l) || Object(s, l) + s.objectSize <= Object(s, k)
  {
    if k < l {
      TimesApart(k, l, s.objectSize);
    } else {
      TimesApart(l, k, s.objectSize);
    }
  }

  /** An object of a slab lies in heap memory, at a nonzero 32-bit address. */
  lemma ObjectInHeap(m: seq<byte>, s: Slab, count: nat, k: nat)
    requires Shaped(s) && Counted(s, count) && k < count && |m| == HEAP_BYTES
    ensures InHeap(m, Object(s, k)) && HEAP_BASE <= Object(s, k) < TWO32 - LINK_SIZE
  {
    ObjectFits(s, count, k);
  }

  lemma AddrPage(s: Slab, a: int)
    requires Shaped(s)
    ensures s.HasAddr(a) <==> s.Covers((a - HEAP_BASE) / 4096)
  {
    assert s.start == HEAP_BASE + 4096 * s.FirstPage();
  }

  /** Slabs that share no page share no byte. */
  lemma ApartAddr(s: Slab, t: Slab, a: int)
    requires Shaped(s) && Shaped(t) && Apart(s, t)
    ensures !(s.HasAddr(a) && t.HasAddr(a))
  {
    AddrPage(s, a);
    AddrPage(t, a);
  }

  // ----- Memory frames -----

  lemma PeekFrame(m: seq<byte>, m': seq<byte>, a: int)
    requires |m| == |m'|
    requires forall x :: 0 <= x < |m| && a <= HEAP_BASE + x < a + LINK_SIZE ==> m[x] == m'[x]
    ensures Peek(m, a) == Peek(m', a)
  {
    if InHeap(m, a) {
      var o := a - HEAP_BASE;
      assert m[o] == m'[o] && m[o + 1] == m'[o + 1] && m[o + 2] == m'[o + 2] && m[o + 3] == m'[o + 3];
    }
  }

  lemma PeekPoked(m: seq<byte>, a: int, v: u32)
    requires InHeap(m, a)
    ensures Peek(Poke(m, a, v), a) == v
  {
    LoadStored(m, a - HEAP_BASE, v);
  }

  lemma PeekElsewhere(m: seq<byte>, a: int, v: u32, b: int)
    requires b + LINK_SIZE <= a || a + LINK_SIZE <= b
    ensures Peek(Poke(m, a, v), b) == Peek(m, b)
  {
    PeekFrame(m, Poke(m, a, v), b);
  }

  /** A slab does not notice stores outside it. */
  lemma SlabFrame(m: seq<byte>, m': seq<byte>, s: Slab, sh: Shadow)
    requires SlabOk(m, s, sh) && |m| == |m'| == HEAP_BYTES
    requires forall x :: 0 <= x < |m| && s.HasAddr(HEAP_BASE + x) ==> m[x] == m'[x]
    ensures SlabOk(m', s, sh)
  {
    forall i | 0 <= i < |sh.free|
      ensures Peek(m', Object(s, sh.free[i])) == Link(s, sh.free, i + 1)
    {
      ObjectFits(s, sh.count, sh.free[i]);
      PeekFrame(m, m', Object(s, sh.free[i]));
    }
  }
}
