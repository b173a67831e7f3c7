/** Each heap operation keeps the invariant, and says which bytes it may touch. */
module HeapSteps {
  import opened Words
  import opened Bitmaps
  import opened SlabHeap
  import opened HeapInvariant

  // ----- Taking an object -----

  function TakeShadow(shs: seq<Shadow>, i: nat, size: nat): seq<Shadow>
    requires i < |shs| && shs[i].free != []
  {
    shs[i := shs[i].(free := shs[i].free[1..], live := shs[i].live[shs[i].free[0] := size])]
  }

  lemma TakePartitioned(s: Slab, sh: Shadow, size: nat, s': Slab)
    requires Partitioned(s, sh) && sh.free != [] && 0 < size <= s.objectSize
    requires s'.inuse == s.inuse + 1 && s'.objectSize == s.objectSize
    ensures Partitioned(s', sh.(free := sh.free[1..], live := sh.live[sh.free[0] := size]))
  {
    var rest := sh.free[1..];
    forall k: nat | k < sh.count
      ensures k in rest || k in sh.live[sh.free[0] := size]
    {
      assert k in sh.free || k in sh.live;
      assert k in sh.free ==> k == sh.free[0] || k in rest;
    }
  }

  lemma TakeChained(m: seq<byte>, s: Slab, free: seq<nat>, s': Slab)
    requires Chained(m, s, free) && free != []
    requires s'.first == Peek(m, s.first) && s'.start == s.start && s'.objectSize == s.objectSize
    ensures Chained(m, s', free[1..])
  {
    var rest := free[1..];
    assert Peek(m, Object(s, free[0])) == Link(s, free, 1);
    forall i | 0 <= i < |rest|
      ensures Peek(m, Object(s', rest[i])) == Link(s', rest, i + 1)
    {
      assert rest[i] == free[i + 1];
      assert Peek(m, Object(s, free[i + 1])) == Link(s, free, i + 2);
    }
  }

  /** Changing the counters and the list head of one slab moves no page. */
  lemma ReplaceKeepsPages(slabs: seq<Slab>, i: nat, s: Slab, bits: seq<bool>)
    requires i < |slabs| && s.start == slabs[i].start && s.large == slabs[i].large
    requires AllApart(slabs) && BitmapExact(slabs, bits)
    ensures AllApart(slabs[i := s]) && BitmapExact(slabs[i := s], bits)
  {
    var t := slabs[i := s];
    forall j, p | 0 <= j < |slabs|
      ensures t[j].Covers(p) <==> slabs[j].Covers(p)
    {
    }
    forall a, b | 0 <= a < b < |t|
      ensures Apart(t[a], t[b])
    {
      assert Apart(slabs[a], slabs[b]);
    }
    forall p | 0 <= p < HEAP_PAGES
      ensures Owned(t, p) <==> Owned(slabs, p)
    {
      if Owned(slabs, p) {
        var j :| 0 <= j < |slabs| && slabs[j].Covers(p);
        assert t[j].Covers(p);
      }
    }
  }

  /** One slab and its shadow change, in place, and memory with them. */
  lemma SlabKeeps(h: Heap, shs: seq<Shadow>, i: nat, m: seq<byte>, s: Slab, sh: Shadow)
    requires Inv(h, shs) && i < |shs| && |m| == |h.mem|
    requires s.start == h.slabs[i].start && s.large == h.slabs[i].large && SlabOk(m, s, sh)
    requires forall x :: 0 <= x < |m| && !s.HasAddr(HEAP_BASE + x) ==> m[x] == h.mem[x]
    ensures Inv(Heap(m, h.slabs[i := s], h.bits), shs[i := sh])
  {
    ReplaceKeepsPages(h.slabs, i, s, h.bits);
    forall j | 0 <= j < |shs| && j != i
      ensures SlabOk(m, h.slabs[j], shs[j])
    {
      OtherSlab(h, shs, i, j, m);
    }
  }

  lemma OtherSlab(h: Heap, shs: seq<Shadow>, i: nat, j: nat, m: seq<byte>)
    requires Inv(h, shs) && i < |shs| && j < |shs| && j != i && |m| == |h.mem|
    requires forall x :: 0 <= x < |m| && !h.slabs[i].HasAddr(HEAP_BASE + x) ==> m[x] == h.mem[x]
    ensures SlabOk(m, h.slabs[j], shs[j])
  {
    assert SlabOk(h.mem, h.slabs[i], shs[i]) && SlabOk(h.mem, h.slabs[j], shs[j]);
    assert Apart(h.slabs[i], h.slabs[j]) by {
      assert if i < j then Apart(h.slabs[i], h.slabs[j]) else Apart(h.slabs[j], h.slabs[i]);
    }
    forall x | 0 <= x < |m| && h.slabs[j].HasAddr(HEAP_BASE + x)
      ensures m[x] == h.mem[x]
    {
      ApartAddr(h.slabs[i], h.slabs[j], HEAP_BASE + x);
    }
    SlabFrame(h.mem, m, h.slabs[j], shs[j]);
  }

  lemma TakeKeeps(h: Heap, shs: seq<Shadow>, i: nat, size: nat)
    requires Inv(h, shs) && i < |shs| && shs[i].free != [] && 0 < size <= h.slabs[i].objectSize
    ensures var (g, a) := Take(h, i);
            && Inv(g, TakeShadow(shs, i, size))
            && g.mem == h.mem && a == Object(h.slabs[i], shs[i].free[0]) && a != NULL
  {
    var s, sh := h.slabs[i], shs[i];
    assert SlabOk(h.mem, s, sh);
    var s' := s.(inuse := s.inuse + 1, first := Peek(h.mem, s.first));
    var sh' := sh.(free := sh.free[1..], live := sh.live[sh.free[0] := size]);
    ObjectInHeap(h.mem, s, sh.count, sh.free[0]);
    Pigeonhole(sh.free, sh.count);
    TakePartitioned(s, sh, size, s');
    TakeChained(h.mem, s, sh.free, s');
    SlabKeeps(h, shs, i, h.mem, s', sh');
    TakeIs(h, i);
  }

  lemma TakeIs(h: Heap, i: nat)
    requires i < |h.slabs| && 0 <= h.slabs[i].inuse < 0xFFFF
    ensures var s := h.slabs[i];
            Take(h, i) == (Heap(h.mem, h.slabs[i := s.(inuse := s.inuse + 1, first := Peek(h.mem, s.first))], h.bits),
                 s.first)
  {
  }

  // ----- A new slab -----

  /** Storing a link in object `k` sets that link, keeps the others and stays in the object. */
  lemma PokeLink(m: seq<byte>, s: Slab, count: nat, k: nat, v: u32)
    requires Shaped(s) && Counted(s, count) && k < count && |m| == HEAP_BYTES
    ensures var m' := Poke(m, Object(s, k), v);
            && Peek(m', Object(s, k)) == v
            && (forall l: nat {:trigger Peek(m', Object(s, l))} :: l != k ==>
                 Peek(m', Object(s, l)) == Peek(m, Object(s, l)))
            && (forall x :: 0 <= x < |m| && !InObject(s, k, HEAP_BASE + x) ==> m'[x] == m[x])
            && (forall x :: 0 <= x < |m| && !s.HasAddr(HEAP_BASE + x) ==> m'[x] == m[x])
  {
    ObjectInHeap(m, s, count, k);
    ObjectFits(s, count, k);
    PeekPoked(m, Object(s, k), v);
    forall l: nat | l != k
      ensures Peek(Poke(m, Object(s, k), v), Object(s, l)) == Peek(m, Object(s, l))
    {
      ObjectsApart(s, k, l);
      PeekElsewhere(m, Object(s, k), v, Object(s, l));
    }
  }

  lemma {:induction false} ThreadedLinks(m: seq<byte>, s: Slab, count: nat, i: nat)
    requires Shaped(s) && Counted(s, count) && i < count && |m| == HEAP_BYTES
    ensures var m' := Threaded(m, s.start, s.objectSize, i);
            && (forall k: nat {:trigger Peek(m', Object(s, k))} :: k < i ==> Peek(m', Object(s, k)) == Object(s, k + 1))
            && (forall x :: 0 <= x < |m| && !s.HasAddr(HEAP_BASE + x) ==> m'[x] == m[x])
  {
    if i > 0 {
      ThreadedLinks(m, s, count, i - 1);
      ObjectInHeap(m, s, count, i);
      ThreadIs(m, s, i, Object(s, i));
      ThreadStep(m, Threaded(m, s.start, s.objectSize, i - 1), Threaded(m, s.start, s.objectSize, i), s, count, i,
           Object(s, i));
    }
  }

  lemma ThreadStep(m: seq<byte>, m0: seq<byte>, m': seq<byte>, s: Slab, count: nat, i: nat, v: u32)
    requires Shaped(s) && Counted(s, count) && 0 < i < count && |m| == |m0| == HEAP_BYTES
    requires v == Object(s, i) && m' == Poke(m0, Object(s, i - 1), v)
    requires forall k: nat {:trigger Peek(m0, Object(s, k))} :: k < i - 1 ==> Peek(m0, Object(s, k)) == Object(s, k + 1)
    requires forall x :: 0 <= x < |m| && !s.HasAddr(HEAP_BASE + x) ==> m0[x] == m[x]
    ensures forall k: nat {:trigger Peek(m', Object(s, k))} :: k < i ==> Peek(m', Object(s, k)) == Object(s, k + 1)
    ensures forall x :: 0 <= x < |m| && !s.HasAddr(HEAP_BASE + x) ==> m'[x] == m[x]
  {
    PokeLink(m0, s, count, i - 1, v);
  }

  lemma ThreadIs(m: seq<byte>, s: Slab, i: nat, v: u32)
    requires 0 < i && v == Object(s, i)
    ensures Threaded(m, s.start, s.objectSize, i)
            == Poke(Threaded(m, s.start, s.objectSize, i - 1), Object(s, i - 1), v)
  {
    TimesIs(i - 1, s.objectSize);
    TimesIs(i, s.objectSize);
    assert v == Wrap(v);
  }

  lemma NewListIs(m: seq<byte>, s: Slab, count: nat)
    requires 0 < count
    ensures NewFreeList(m, s.start, s.objectSize, count)
            == Poke(Threaded(m, s.start, s.objectSize, count - 1), Object(s, count - 1), NULL)
  {
    TimesIs(count - 1, s.objectSize);
  }

  /** The object indices from 0 on, in order. */
  function Indices(count: nat): (free: seq<nat>)
    ensures |free| == count && forall k :: 0 <= k < count ==> free[k] == k
  {
    seq(count, k => k)
  }

  /** The free list of a new slab runs through all its objects in order. */
  lemma NewListChained(m: seq<byte>, s: Slab, count: nat)
    requires Shaped(s) && Counted(s, count) && s.first == s.start && |m| == HEAP_BYTES
    ensures var m' := NewFreeList(m, s.start, s.objectSize, count);
            && Chained(m', s, Indices(count))
            && (forall x :: 0 <= x < |m| && !s.HasAddr(HEAP_BASE + x) ==> m'[x] == m[x])
  {
    ThreadedLinks(m, s, count, count - 1);
    NewListIs(m, s, count);
    LastLink(m, Threaded(m, s.start, s.objectSize, count - 1), s, count);
  }

  lemma LastLink(m: seq<byte>, m0: seq<byte>, s: Slab, count: nat)
    requires Shaped(s) && Counted(s, count) && s.first == s.start && |m| == |m0| == HEAP_BYTES
    requires forall k: nat {:trigger Peek(m0, Object(s, k))} :: k < count - 1 ==>
            Peek(m0, Object(s, k)) == Object(s, k + 1)
    requires forall x :: 0 <= x < |m| && !s.HasAddr(HEAP_BASE + x) ==> m0[x] == m[x]
    ensures var m' := Poke(m0, Object(s, count - 1), NULL);
            && Chained(m', s, Indices(count))
            && (forall x :: 0 <= x < |m| && !s.HasAddr(HEAP_BASE + x) ==> m'[x] == m[x])
  {
    PokeLink(m0, s, count, count - 1, NULL);
    InOrder(Poke(m0, Object(s, count - 1), NULL), s, count);
  }

  lemma InOrder(m: seq<byte>, s: Slab, count: nat)
    requires 0 < count && s.first == s.start && Peek(m, Object(s, count - 1)) == NULL
    requires forall k: nat {:trigger Peek(m, Object(s, k))} :: k < count - 1 ==>
            Peek(m, Object(s, k)) == Object(s, k + 1)
    ensures Chained(m, s, Indices(count))
  {
    var free := Indices(count);
    forall i | 0 <= i < |free|
      ensures Peek(m, Object(s, free[i])) == Link(s, free, i + 1)
    {
      assert free[i] == i;
    }
  }

  function NewShadow(s: Slab): Shadow
    requires s.objectSize > 0
  {
    Shadow(s.Capacity(), Indices(s.Capacity()), map[])
  }

  predicate Growable(size: nat, large: bool) {
    if large then 0 < size <= MAX_OBJECT else LINK_SIZE <= size < LARGE_FROM
  }

  lemma NewSlabShaped(page: nat, size: nat, large: bool)
    requires Growable(size, large) && page + SlabPages(large) <= HEAP_PAGES
    ensures Shaped(NewSlab(page, size, large)) && size <= NewSlab(page, size, large).objectSize
  {
  }

  lemma NewSlabOk(m: seq<byte>, page: nat, size: nat, large: bool)
    requires Growable(size, large) && page + SlabPages(large) <= HEAP_PAGES && |m| == HEAP_BYTES
    ensures var s := NewSlab(page, size, large);
            var m' := NewFreeList(m, s.start, s.objectSize, s.Capacity());
            && Shaped(s) && size <= s.objectSize && NewShadow(s).free != []
            && SlabOk(m', s, NewShadow(s))
            && (forall x :: 0 <= x < |m| && !s.HasAddr(HEAP_BASE + x) ==> m'[x] == m[x])
  {
    NewSlabShaped(page, size, large);
    var s := NewSlab(page, size, large);
    CapacityCounts(s);
    NewListChained(m, s, s.Capacity());
    NewPartitioned(s, s.Capacity());
  }

  lemma NewPartitioned(s: Slab, count: nat)
    requires s.inuse == 0
    ensures Partitioned(s, Shadow(count, Indices(count), map[]))
  {
    var free := Indices(count);
    forall k: nat | k < count
      ensures k in free
    {
      assert free[k] == k;
    }
  }

  // ----- Pages of a growing and a shrinking table -----

  lemma NewSlabApart(slabs: seq<Slab>, bits: seq<bool>, page: nat, s: Slab)
    requires AllApart(slabs) && BitmapExact(slabs, bits)
    requires IsRun(bits, SlabPages(s.large), false, page) && s.FirstPage() == page
    ensures AllApart(slabs + [s])
  {
    forall i, p | 0 <= i < |slabs|
      ensures !(slabs[i].Covers(p) && s.Covers(p))
    {
      if s.Covers(p) && slabs[i].Covers(p) {
        assert !bits[p];
        assert Owned(slabs, p);
      }
    }
    forall i, j | 0 <= i < j < |slabs + [s]|
      ensures Apart((slabs + [s])[i], (slabs + [s])[j])
    {
      assert j < |slabs| ==> Apart(slabs[i], slabs[j]);
    }
  }

  lemma NewSlabBits(slabs: seq<Slab>, bits: seq<bool>, bits': seq<bool>, page: nat, s: Slab)
    requires BitmapExact(slabs, bits) && |bits'| == |bits| && s.FirstPage() == page
    requires forall p :: 0 <= p < |bits| ==> bits'[p] == if page <= p < page + SlabPages(s.large) then true else bits[p]
    ensures BitmapExact(slabs + [s], bits')
  {
    var t := slabs + [s];
    forall p | 0 <= p < HEAP_PAGES
      ensures bits'[p] <==> Owned(t, p)
    {
      if s.Covers(p) {
        assert t[|slabs|].Covers(p);
      } else if Owned(slabs, p) {
        var i :| 0 <= i < |slabs| && slabs[i].Covers(p);
        assert t[i].Covers(p);
      }
    }
  }

  lemma GrowKeeps(h: Heap, shs: seq<Shadow>, size: nat, large: bool)
    requires Inv(h, shs) && Growable(size, large) && Grow(h, size, large).1
    ensures var g := Grow(h, size, large).0;
            && |g.slabs| == |h.slabs| + 1 && g.slabs[..|h.slabs|] == h.slabs
            && size <= g.slabs[|h.slabs|].objectSize && NewShadow(g.slabs[|h.slabs|]).free != []
            && Inv(g, shs + [NewShadow(g.slabs[|h.slabs|])])
            && forall i, x :: 0 <= i < |shs| && 0 <= x < |h.mem| && h.slabs[i].HasAddr(HEAP_BASE + x) ==>
                 g.mem[x] == h.mem[x]
  {
    var n := SlabPages(large);
    var page := FirstRun(h.bits, n, false);
    assert IsRun(h.bits, n, false, page);
    var s := NewSlab(page, size, large);
    var m := NewFreeList(h.mem, s.start, s.objectSize, s.Capacity());
    NewSlabOk(h.mem, page, size, large);
    NewSlabApart(h.slabs, h.bits, page, s);
    ScanFlipFound(h.bits, n, false);
    NewSlabBits(h.slabs, h.bits, ScanFlipped(h.bits, n, false), page, s);
    OldSlabsKept(h, shs, s, m);
  }

  /** Slabs apart from `s` keep their lists and bytes when only bytes of `s` change. */
  lemma OldSlabsKept(h: Heap, shs: seq<Shadow>, s: Slab, m: seq<byte>)
    requires Inv(h, shs) && Shaped(s) && |m| == |h.mem| && AllApart(h.slabs + [s])
    requires forall x :: 0 <= x < |m| && !s.HasAddr(HEAP_BASE + x) ==> m[x] == h.mem[x]
    ensures forall i, x :: 0 <= i < |shs| && 0 <= x < |m| && h.slabs[i].HasAddr(HEAP_BASE + x) ==> m[x] == h.mem[x]
    ensures forall i :: 0 <= i < |shs| ==> SlabOk(m, h.slabs[i], shs[i])
  {
    forall i | 0 <= i < |shs|
      ensures forall x :: 0 <= x < |m| && h.slabs[i].HasAddr(HEAP_BASE + x) ==> m[x] == h.mem[x]
      ensures SlabOk(m, h.slabs[i], shs[i])
    {
      assert Apart((h.slabs + [s])[i], (h.slabs + [s])[|h.slabs|]);
      assert SlabOk(h.mem, h.slabs[i], shs[i]);
      forall x | 0 <= x < |m| && h.slabs[i].HasAddr(HEAP_BASE + x)
        ensures m[x] == h.mem[x]
      {
        ApartAddr(h.slabs[i], s, HEAP_BASE + x);
      }
      SlabFrame(h.mem, m, h.slabs[i], shs[i]);
    }
  }

  lemma ShrinkApart(slabs: seq<Slab>, i: nat)
    requires AllApart(slabs) && i < |slabs|
    ensures AllApart(SwapRemove(slabs, i))
  {
    var t := SwapRemove(slabs, i);
    forall a, b | 0 <= a < b < |t|
      ensures Apart(t[a], t[b])
    {
      var a', b' := if a == i then |t| else a, if b == i then |t| else b;
      assert if a' < b' then Apart(slabs[a'], slabs[b']) else Apart(slabs[b'], slabs[a']);
    }
  }

  lemma ShrinkBits(slabs: seq<Slab>, bits: seq<bool>, i: nat)
    requires AllApart(slabs) && BitmapExact(slabs, bits) && i < |slabs| && Shaped(slabs[i])
    ensures var idx := slabs[i].FirstPage();
            && 0 <= idx < HEAP_PAGES
            && BitmapExact(SwapRemove(slabs, i),
                 SetSpan(bits, idx, SetCount(|bits|, idx, SlabPages(slabs[i].large)), false))
  {
    var s, t, idx := slabs[i], SwapRemove(slabs, i), slabs[i].FirstPage();
    assert 0 <= idx <= HEAP_PAGES - SlabPages(s.large);
    var bits' := SetSpan(bits, idx, SetCount(|bits|, idx, SlabPages(s.large)), false);
    forall p | 0 <= p < HEAP_PAGES
      ensures bits'[p] <==> Owned(t, p)
    {
      assert InSpan(p, idx, SlabPages(s.large)) <==> s.Covers(p);
      if s.Covers(p) {
        forall j | 0 <= j < |t|
          ensures !t[j].Covers(p)
        {
          var j' := if j == i then |t| else j;
          assert if i < j' then Apart(slabs[i], slabs[j']) else Apart(slabs[j'], slabs[i]);
        }
      } else if Owned(slabs, p) {
        var j :| 0 <= j < |slabs| && slabs[j].Covers(p);
        assert t[if j == |t| then i else j].Covers(p);
      }
    }
  }

  lemma ShrinkKeeps(h: Heap, shs: seq<Shadow>, i: nat)
    requires Inv(h, shs) && i < |shs|
    ensures Inv(Shrink(h, i), SwapRemove(shs, i))
  {
    assert Shaped(h.slabs[i]) by {
      assert SlabOk(h.mem, h.slabs[i], shs[i]);
    }
    ShrinkApart(h.slabs, i);
    ShrinkBits(h.slabs, h.bits, i);
    SwapKeepsSlabs(h.mem, h.slabs, shs, i);
    ShrinkIs(h, i);
  }

  lemma ShrinkIs(h: Heap, i: nat)
    requires i < |h.slabs| && 0 <= h.slabs[i].FirstPage() < HEAP_PAGES
    ensures var s, idx := h.slabs[i], h.slabs[i].FirstPage();
            Shrink(h, i) == Heap(h.mem, SwapRemove(h.slabs, i),
                 SetSpan(h.bits, idx, SetCount(|h.bits|, idx, SlabPages(s.large)), false))
  {
    assert Wrap(h.slabs[i].FirstPage()) == h.slabs[i].FirstPage();
  }

  lemma SwapKeepsSlabs(m: seq<byte>, slabs: seq<Slab>, shs: seq<Shadow>, i: nat)
    requires i < |slabs| == |shs| && forall j :: 0 <= j < |shs| ==> SlabOk(m, slabs[j], shs[j])
    ensures forall j :: 0 <= j < |shs| - 1 ==> SlabOk(m, SwapRemove(slabs, i)[j], SwapRemove(shs, i)[j])
  {
    forall j | 0 <= j < |shs| - 1
      ensures SlabOk(m, SwapRemove(slabs, i)[j], SwapRemove(shs, i)[j])
    {
      SwapEntry(slabs, shs, i, j);
    }
  }

  lemma SwapEntry(slabs: seq<Slab>, shs: seq<Shadow>, i: nat, j: nat)
    requires i < |slabs| == |shs| && j < |shs| - 1
    ensures SwapRemove(slabs, i)[j] == slabs[if j == i then |shs| - 1 else j]
    ensures SwapRemove(shs, i)[j] == shs[if j == i then |shs| - 1 else j]
  {
  }

  // ----- Giving an object back -----

  /** A live object means one in use, and the only one when the counter says one. */
  lemma LiveCounts(s: Slab, sh: Shadow, k: nat)
    requires Partitioned(s, sh) && k in sh.live
    ensures 1 <= s.inuse <= sh.count
    ensures s.inuse == 1 ==> sh.live.Keys == {k}
  {
    Pigeonhole(sh.free + [k], sh.count);
    if s.inuse == 1 {
      forall l | l in sh.live
        ensures l == k
      {
        if l != k {
          Pigeonhole(sh.free + [k] + [l], sh.count);
        }
      }
    }
  }

  lemma GivePartitioned(s: Slab, sh: Shadow, k: nat, s': Slab)
    requires Partitioned(s, sh) && k in sh.live && s'.inuse == s.inuse - 1 && s'.objectSize == s.objectSize
    ensures Partitioned(s', sh.(free := [k] + sh.free, live := sh.live - {k}))
  {
    var free := [k] + sh.free;
    forall l: nat | l < sh.count
      ensures l in free || l in sh.live - {k}
    {
      assert l in sh.free || l in sh.live;
      assert free[0] == k;
    }
  }

  lemma PushChained(m: seq<byte>, m': seq<byte>, s: Slab, free: seq<nat>, k: nat, s': Slab)
    requires Chained(m, s, free) && Peek(m', Object(s, k)) == s.first && k !in free
    requires forall l: nat {:trigger Peek(m', Object(s, l))} :: l != k ==>
            Peek(m', Object(s, l)) == Peek(m, Object(s, l))
    requires s'.first == Object(s, k) && s'.start == s.start && s'.objectSize == s.objectSize
    ensures Chained(m', s', [k] + free)
  {
    var list := [k] + free;
    forall i | 0 <= i < |list|
      ensures Peek(m', Object(s', list[i])) == Link(s', list, i + 1)
    {
      if i > 0 {
        assert list[i] == free[i - 1] && free[i - 1] != k;
        assert Peek(m, Object(s, free[i - 1])) == Link(s, free, i);
      }
    }
  }

  function GiveShadow(h: Heap, shs: seq<Shadow>, i: nat, k: nat): seq<Shadow>
    requires i < |h.slabs| == |shs|
  {
    if h.slabs[i].first != NULL && h.slabs[i].inuse == 1 then SwapRemove(shs, i)
    else shs[i := shs[i].(free := [k] + shs[i].free, live := shs[i].live - {k})]
  }

  lemma GiveKeeps(h: Heap, shs: seq<Shadow>, i: nat, k: nat)
    requires Inv(h, shs) && i < |shs| && k in shs[i].live
    ensures var g := Give(h, i, Object(h.slabs[i], k));
            && Inv(g, GiveShadow(h, shs, i, k)) && |g.mem| == |h.mem|
            && (forall x :: 0 <= x < |h.mem| && !InObject(h.slabs[i], k, HEAP_BASE + x) ==> g.mem[x] == h.mem[x])
  {
    var s, sh := h.slabs[i], shs[i];
    assert SlabOk(h.mem, s, sh);
    assert 1 <= s.inuse <= 4096 by {
      LiveCounts(s, sh, k);
    }
    FirstIsWord(h, shs, i);
    GiveIs(h, i, Object(s, k));
    if s.first != NULL && s.inuse == 1 {
      ShrinkKeeps(h, shs, i);
    } else {
      RelinkKeeps(h, shs, i, k, s.first);
    }
  }

  /** The slab itself after object `k` went to the head of its free list. */
  lemma Relinked(m: seq<byte>, s: Slab, sh: Shadow, k: nat, v: u32, s': Slab, sh': Shadow)
    requires SlabOk(m, s, sh) && k in sh.live && |m| == HEAP_BYTES && v == s.first
    requires s' == s.(inuse := s.inuse - 1, first := Object(s, k))
    requires sh' == sh.(free := [k] + sh.free, live := sh.live - {k})
    ensures var m' := Poke(m, Object(s, k), v);
            && SlabOk(m', s', sh')
            && (forall x :: 0 <= x < |m| && !InObject(s, k, HEAP_BASE + x) ==> m'[x] == m[x])
            && (forall x :: 0 <= x < |m| && !s.HasAddr(HEAP_BASE + x) ==> m'[x] == m[x])
  {
    PokeLink(m, s, sh.count, k, v);
    GivePartitioned(s, sh, k, s');
    PushChained(m, Poke(m, Object(s, k), v), s, sh.free, k, s');
  }

  lemma RelinkKeeps(h: Heap, shs: seq<Shadow>, i: nat, k: nat, v: u32)
    requires Inv(h, shs) && i < |shs| && k in shs[i].live && v == h.slabs[i].first
    ensures var s, sh := h.slabs[i], shs[i];
            var m := Poke(h.mem, Object(s, k), v);
            && Inv(Heap(m, h.slabs[i := s.(inuse := s.inuse - 1, first := Object(s, k))], h.bits),
                 shs[i := sh.(free := [k] + sh.free, live := sh.live - {k})])
            && (forall x :: 0 <= x < |m| && !InObject(s, k, HEAP_BASE + x) ==> m[x] == h.mem[x])
  {
    var s, sh := h.slabs[i], shs[i];
    var s', sh' := s.(inuse := s.inuse - 1, first := Object(s, k)), sh.(free := [k] + sh.free, live := sh.live - {k});
    assert SlabOk(h.mem, s, sh);
    Relinked(h.mem, s, sh, k, v, s', sh');
    SlabKeeps(h, shs, i, Poke(h.mem, Object(s, k), v), s', sh');
  }

  lemma FirstIsWord(h: Heap, shs: seq<Shadow>, i: nat)
    requires Inv(h, shs) && i < |shs|
    ensures 0 <= h.slabs[i].first < TWO32
    ensures h.slabs[i].first == NULL <==> shs[i].free == []
  {
    var s, sh := h.slabs[i], shs[i];
    assert SlabOk(h.mem, s, sh);
    if sh.free != [] {
      ObjectInHeap(h.mem, s, sh.count, sh.free[0]);
    }
  }

  lemma GiveIs(h: Heap, i: nat, addr: int)
    requires i < |h.slabs| && 1 <= h.slabs[i].inuse <= 4096 && 0 <= h.slabs[i].first < TWO32
    ensures var s := h.slabs[i];
            Give(h, i, addr) == if s.first != NULL && s.inuse == 1 then Shrink(h, i)
                                else Heap(Poke(h.mem, addr, s.first),
                                     h.slabs[i := s.(inuse := s.inuse - 1, first := addr)], h.bits)
  {
    assert Wrap(h.slabs[i].first) == h.slabs[i].first;
  }
}
