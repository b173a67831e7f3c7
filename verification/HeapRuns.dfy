/**
 The heap as its clients see it.  A client keeps a ledger of the blocks it was handed and
 of the bytes it stored in them; every run of allocations, releases and stores keeps that
 picture true.
 */
module HeapRuns {
  import opened Words
  import opened Bitmaps
  import opened SlabHeap
  import opened HeapInvariant
  import opened HeapSteps

  /** `blocks` maps each outstanding address to the size asked for, `stored` each written address to its byte. */
  datatype Client = Client(blocks: map<int, nat>, stored: map<int, byte>)

  ghost predicate LiveAt(h: Heap, shs: seq<Shadow>, i: nat, k: nat, a: int) {
    i < |shs| == |h.slabs| && k in shs[i].live && Object(h.slabs[i], k) == a
  }

  ghost predicate IsLive(h: Heap, shs: seq<Shadow>, a: int) {
    exists i, k :: LiveAt(h, shs, i, k, a)
  }

  /** The ledger lists every live object. */
  ghost predicate Listed(h: Heap, shs: seq<Shadow>, blocks: map<int, nat>) {
    |shs| == |h.slabs| && forall i, k :: 0 <= i < |shs| && k in shs[i].live ==>
      Object(h.slabs[i], k) in blocks && blocks[Object(h.slabs[i], k)] == shs[i].live[k]
  }

  /** A live object stands behind every ledger entry. */
  ghost predicate Backed(h: Heap, shs: seq<Shadow>, blocks: map<int, nat>) {
    forall a {:trigger IsLive(h, shs, a)} :: a in blocks ==> IsLive(h, shs, a)
  }

  /** The ledger lists exactly the live objects. */
  ghost predicate Recorded(h: Heap, shs: seq<Shadow>, blocks: map<int, nat>) {
    Listed(h, shs, blocks) && Backed(h, shs, blocks)
  }

  ghost predicate Sound(h: Heap, blocks: map<int, nat>) {
    exists shs :: Inv(h, shs) && Recorded(h, shs, blocks)
  }

  predicate Inside(blocks: map<int, nat>, a: int, x: int) {
    a in blocks && a <= x < a + blocks[a]
  }

  // ----- Blocks never overlap -----

  lemma ObjectsDisjoint(h: Heap, shs: seq<Shadow>, i: nat, k: nat, j: nat, l: nat)
    requires Inv(h, shs) && i < |shs| && j < |shs| && k < shs[i].count && l < shs[j].count
    requires i != j || k != l
    ensures var a, b := Object(h.slabs[i], k), Object(h.slabs[j], l);
            a + h.slabs[i].objectSize <= b || b + h.slabs[j].objectSize <= a
  {
    var s, t := h.slabs[i], h.slabs[j];
    assert SlabOk(h.mem, s, shs[i]) && SlabOk(h.mem, t, shs[j]);
    if i == j {
      ObjectsApart(s, k, l);
    } else {
      assert if i < j then Apart(s, t) else Apart(t, s);
      ObjectFits(s, shs[i].count, k);
      ObjectFits(t, shs[j].count, l);
      var a, b := Object(s, k), Object(t, l);
      ApartAddr(s, t, if a < b then b else a);
    }
  }

  /** What the invariant says of one live object. */
  lemma LiveFacts(h: Heap, shs: seq<Shadow>, i: nat, k: nat)
    requires Inv(h, shs) && i < |shs| && k in shs[i].live
    ensures Shaped(h.slabs[i]) && Counted(h.slabs[i], shs[i].count)
    ensures k < shs[i].count && 0 < shs[i].live[k] <= h.slabs[i].objectSize
  {
    assert SlabOk(h.mem, h.slabs[i], shs[i]);
  }

  /** The object behind a ledger entry. */
  lemma BlockOwner(h: Heap, shs: seq<Shadow>, blocks: map<int, nat>, a: int) returns (i: nat, k: nat)
    requires Inv(h, shs) && Recorded(h, shs, blocks) && a in blocks
    ensures LiveAt(h, shs, i, k, a) && blocks[a] == shs[i].live[k]
    ensures Shaped(h.slabs[i]) && Counted(h.slabs[i], shs[i].count)
    ensures k < shs[i].count && 0 < blocks[a] <= h.slabs[i].objectSize
  {
    assert IsLive(h, shs, a);
    i, k :| LiveAt(h, shs, i, k, a);
    LiveFacts(h, shs, i, k);
  }

  /** Any two outstanding blocks are disjoint. */
  lemma BlocksDisjoint(h: Heap, blocks: map<int, nat>, a: int, b: int)
    requires Sound(h, blocks) && a in blocks && b in blocks && a != b
    ensures a + blocks[a] <= b || b + blocks[b] <= a
  {
    var shs: seq<Shadow> :| Inv(h, shs) && Recorded(h, shs, blocks);
    var i, k := BlockOwner(h, shs, blocks, a);
    var j, l := BlockOwner(h, shs, blocks, b);
    ObjectsDisjoint(h, shs, i, k, j, l);
  }

  /** Every block lies in the heap, and one of at least 1024 bytes starts on a page. */
  lemma BlockPlaced(h: Heap, blocks: map<int, nat>, a: int)
    requires Sound(h, blocks) && a in blocks
    ensures 0 < blocks[a] && HEAP_BASE <= a && a + blocks[a] <= HEAP_BASE + HEAP_BYTES == HEAP_BASE + |h.mem|
    ensures blocks[a] >= LARGE_FROM ==> a % 4096 == 0
  {
    var shs: seq<Shadow> :| Inv(h, shs) && Recorded(h, shs, blocks);
    var i, k := BlockOwner(h, shs, blocks, a);
    ObjectFits(h.slabs[i], shs[i].count, k);
    LargeObjectAligned(h.slabs[i], k);
  }

  lemma LargeObjectAligned(s: Slab, k: nat)
    requires Shaped(s)
    ensures s.large ==> Object(s, k) % 4096 == 0
    ensures !s.large ==> s.objectSize < LARGE_FROM
  {
    if s.large {
      PageMultiple(k, s.objectSize);
      assert s.start % 4096 == 0;
    }
  }

  lemma {:induction false} PageMultiple(k: nat, n: nat)
    requires n % 4096 == 0
    ensures Times(k, n) % 4096 == 0
  {
    if k > 0 {
      PageMultiple(k - 1, n);
    }
  }

  // ----- kmalloc -----

  lemma TakeRecorded(h: Heap, shs: seq<Shadow>, i: nat, size: nat, blocks: map<int, nat>)
    requires Inv(h, shs) && Recorded(h, shs, blocks) && i < |shs| && shs[i].free != []
    requires 0 < size <= h.slabs[i].objectSize
    ensures var (g, a) := Take(h, i); a !in blocks && Recorded(g, TakeShadow(shs, i, size), blocks[a := size])
  {
    var (g, a) := Take(h, i);
    TakeKeeps(h, shs, i, size);
    assert shs[i].free[0] < shs[i].count by {
      assert SlabOk(h.mem, h.slabs[i], shs[i]);
    }
    forall j, k | 0 <= j < |shs| && k in shs[j].live
      ensures Object(h.slabs[j], k) != a
    {
      LiveFacts(h, shs, j, k);
      TakenIsFree(h, shs, i, j, k);
    }
    RecordedAdd(h, g, shs, TakeShadow(shs, i, size), i, shs[i].free[0], size, blocks, a);
  }

  lemma TakenIsFree(h: Heap, shs: seq<Shadow>, i: nat, j: nat, k: nat)
    requires Inv(h, shs) && i < |shs| && shs[i].free != [] && j < |shs| && k in shs[j].live
    ensures Object(h.slabs[j], k) != Object(h.slabs[i], shs[i].free[0])
  {
    assert SlabOk(h.mem, h.slabs[i], shs[i]);
    LiveFacts(h, shs, j, k);
    ObjectsDisjoint(h, shs, i, shs[i].free[0], j, k);
  }

  /** Slab tables with the same objects in the same places. */
  ghost predicate SamePlaces(h: Heap, g: Heap) {
    |g.slabs| == |h.slabs| && forall j :: 0 <= j < |h.slabs| ==>
      g.slabs[j].start == h.slabs[j].start && g.slabs[j].objectSize == h.slabs[j].objectSize
  }

  /** One object of slab `i` becomes live. */
  lemma RecordedAdd(h: Heap, g: Heap, shs: seq<Shadow>, shs': seq<Shadow>, i: nat, k0: nat, size: nat,
                    blocks: map<int, nat>, a: int)
    requires Recorded(h, shs, blocks) && i < |shs| == |shs'| && a == Object(h.slabs[i], k0) && SamePlaces(h, g)
    requires forall j :: 0 <= j < |shs| ==> shs'[j].live == if j == i then shs[j].live[k0 := size] else shs[j].live
    requires forall j, k :: 0 <= j < |shs| && k in shs[j].live ==> Object(h.slabs[j], k) != a
    ensures a !in blocks && Recorded(g, shs', blocks[a := size])
  {
    AddListed(h, g, shs, shs', i, k0, size, blocks, a);
    AddBacked(h, g, shs, shs', i, k0, size, blocks, a);
    assert a in blocks ==> IsLive(h, shs, a);
  }

  lemma AddListed(h: Heap, g: Heap, shs: seq<Shadow>, shs': seq<Shadow>, i: nat, k0: nat, size: nat,
                  blocks: map<int, nat>, a: int)
    requires Listed(h, shs, blocks) && i < |shs| == |shs'| && a == Object(h.slabs[i], k0) && SamePlaces(h, g)
    requires forall j :: 0 <= j < |shs| ==> shs'[j].live == if j == i then shs[j].live[k0 := size] else shs[j].live
    requires forall j, k :: 0 <= j < |shs| && k in shs[j].live ==> Object(h.slabs[j], k) != a
    ensures Listed(g, shs', blocks[a := size])
  {
    forall j, k | 0 <= j < |shs'| && k in shs'[j].live
      ensures Object(g.slabs[j], k) in blocks[a := size] && blocks[a := size][Object(g.slabs[j], k)] == shs'[j].live[k]
    {
      assert Object(g.slabs[j], k) == Object(h.slabs[j], k);
    }
  }

  lemma AddBacked(h: Heap, g: Heap, shs: seq<Shadow>, shs': seq<Shadow>, i: nat, k0: nat, size: nat,
                  blocks: map<int, nat>, a: int)
    requires Backed(h, shs, blocks) && i < |shs| == |shs'| == |h.slabs| && a == Object(h.slabs[i], k0)
    requires SamePlaces(h, g)
    requires forall j :: 0 <= j < |shs| ==> shs'[j].live == if j == i then shs[j].live[k0 := size] else shs[j].live
    ensures Backed(g, shs', blocks[a := size])
  {
    forall b | b in blocks
      ensures IsLive(g, shs', b)
    {
      assert IsLive(h, shs, b);
      var j: nat, k: nat :| LiveAt(h, shs, j, k, b);
      assert LiveAt(g, shs', j, k, b);
    }
    assert LiveAt(g, shs', i, k0, a);
  }

  /** One live object of slab `i` stops being live. */
  lemma RecordedDrop(h: Heap, g: Heap, shs: seq<Shadow>, shs': seq<Shadow>, i: nat, k0: nat, blocks: map<int, nat>,
                     a: int)
    requires Recorded(h, shs, blocks) && i < |shs| == |shs'| && a == Object(h.slabs[i], k0) && SamePlaces(h, g)
    requires forall j :: 0 <= j < |shs| ==> shs'[j].live == if j == i then shs[j].live - {k0} else shs[j].live
    requires forall j, k :: 0 <= j < |shs| && k in shs[j].live && (j != i || k != k0) ==> Object(h.slabs[j], k) != a
    ensures Recorded(g, shs', blocks - {a})
  {
    DropListed(h, g, shs, shs', i, k0, blocks, a);
    DropBacked(h, g, shs, shs', i, k0, blocks, a);
  }

  lemma DropListed(h: Heap, g: Heap, shs: seq<Shadow>, shs': seq<Shadow>, i: nat, k0: nat, blocks: map<int, nat>,
                   a: int)
    requires Listed(h, shs, blocks) && i < |shs| == |shs'| && SamePlaces(h, g)
    requires forall j :: 0 <= j < |shs| ==> shs'[j].live == if j == i then shs[j].live - {k0} else shs[j].live
    requires forall j, k :: 0 <= j < |shs| && k in shs[j].live && (j != i || k != k0) ==> Object(h.slabs[j], k) != a
    ensures Listed(g, shs', blocks - {a})
  {
    forall j, k | 0 <= j < |shs'| && k in shs'[j].live
      ensures Object(g.slabs[j], k) in blocks - {a} && (blocks - {a})[Object(g.slabs[j], k)] == shs'[j].live[k]
    {
      assert Object(g.slabs[j], k) == Object(h.slabs[j], k);
    }
  }

  lemma DropBacked(h: Heap, g: Heap, shs: seq<Shadow>, shs': seq<Shadow>, i: nat, k0: nat, blocks: map<int, nat>,
                   a: int)
    requires Backed(h, shs, blocks) && i < |shs| == |shs'| == |h.slabs| && a == Object(h.slabs[i], k0)
    requires SamePlaces(h, g)
    requires forall j :: 0 <= j < |shs| ==> shs'[j].live == if j == i then shs[j].live - {k0} else shs[j].live
    ensures Backed(g, shs', blocks - {a})
  {
    forall b | b in blocks && b != a
      ensures IsLive(g, shs', b)
    {
      assert IsLive(h, shs, b);
      var j: nat, k: nat :| LiveAt(h, shs, j, k, b);
      assert LiveAt(g, shs', j, k, b);
    }
  }

  /** A slab without live objects joins the table. */
  lemma RecordedGrow(h: Heap, g: Heap, shs: seq<Shadow>, sh: Shadow, blocks: map<int, nat>)
    requires Recorded(h, shs, blocks) && |g.slabs| == |h.slabs| + 1 && g.slabs[..|h.slabs|] == h.slabs
    requires sh.live == map[]
    ensures Recorded(g, shs + [sh], blocks)
  {
    var shs' := shs + [sh];
    forall j | 0 <= j < |shs|
      ensures g.slabs[j] == h.slabs[j]
    {
      assert g.slabs[..|h.slabs|][j] == h.slabs[j];
    }
    forall b | b in blocks
      ensures IsLive(g, shs', b)
    {
      assert IsLive(h, shs, b);
      var j: nat, k: nat :| LiveAt(h, shs, j, k, b);
      assert LiveAt(g, shs', j, k, b);
    }
    forall j, k | 0 <= j < |shs'| && k in shs'[j].live
      ensures Object(g.slabs[j], k) in blocks && blocks[Object(g.slabs[j], k)] == shs'[j].live[k]
    {
      assert k in shs[j].live;
    }
  }

  /** Table entry `i` of `n + 1` is dropped and the last one takes its place. */
  ghost predicate Swapped(h: Heap, g: Heap, shs: seq<Shadow>, shs': seq<Shadow>, i: nat, n: nat) {
    && i <= n == |shs'| == |g.slabs| && |shs| == |h.slabs| == n + 1
    && (forall j :: 0 <= j < n && j != i ==> shs'[j] == shs[j] && g.slabs[j] == h.slabs[j])
    && (i < n ==> shs'[i] == shs[n] && g.slabs[i] == h.slabs[n])
  }

  /** The slab that is dropped had the one live object `k0`, at address `a`. */
  lemma RecordedShrink(h: Heap, g: Heap, shs: seq<Shadow>, shs': seq<Shadow>, i: nat, k0: nat, blocks: map<int, nat>,
                       a: int, n: nat)
    requires Swapped(h, g, shs, shs', i, n) && Recorded(h, shs, blocks)
    requires a == Object(h.slabs[i], k0) && shs[i].live.Keys == {k0}
    requires forall j, k :: 0 <= j < |shs| && k in shs[j].live && (j != i || k != k0) ==> Object(h.slabs[j], k) != a
    ensures Recorded(g, shs', blocks - {a})
  {
    ShrinkListed(h, g, shs, shs', i, blocks, a, n);
    assert forall k :: k in shs[i].live ==> k in shs[i].live.Keys;
    ShrinkBacked(h, g, shs, shs', i, k0, blocks, a, n);
  }

  lemma ShrinkListed(h: Heap, g: Heap, shs: seq<Shadow>, shs': seq<Shadow>, i: nat, blocks: map<int, nat>, a: int,
                     n: nat)
    requires Swapped(h, g, shs, shs', i, n) && Listed(h, shs, blocks)
    requires forall j, k :: 0 <= j < |shs| && k in shs[j].live && j != i ==> Object(h.slabs[j], k) != a
    ensures Listed(g, shs', blocks - {a})
  {
    forall j, k | 0 <= j < n && k in shs'[j].live
      ensures Object(g.slabs[j], k) in blocks - {a} && (blocks - {a})[Object(g.slabs[j], k)] == shs'[j].live[k]
    {
      var j' := if j == i then n else j;
      assert k in shs[j'].live && g.slabs[j] == h.slabs[j'];
    }
  }

  lemma ShrinkBacked(h: Heap, g: Heap, shs: seq<Shadow>, shs': seq<Shadow>, i: nat, k0: nat, blocks: map<int, nat>,
                       a: int, n: nat)
    requires Swapped(h, g, shs, shs', i, n) && Backed(h, shs, blocks)
    requires a == Object(h.slabs[i], k0) && forall k :: k in shs[i].live ==> k == k0
    ensures Backed(g, shs', blocks - {a})
  {
    forall b | b in blocks && b != a
      ensures IsLive(g, shs', b)
    {
      assert IsLive(h, shs, b);
      var j: nat, k: nat :| LiveAt(h, shs, j, k, b);
      assert LiveAt(g, shs', if j == n then i else j, k, b);
    }
  }

  /** The two heaps hold the same bytes in every block of the ledger. */
  ghost predicate SameBytes(h: Heap, g: Heap, blocks: map<int, nat>) {
    forall a, x :: Inside(blocks, a, x) ==> ByteAt(g, x) == ByteAt(h, x)
  }

  /** What a client reads at address `x`; 0 stands for memory outside the heap. */
  function ByteAt(h: Heap, x: int): byte {
    if HEAP_BASE <= x < HEAP_BASE + |h.mem| then h.mem[x - HEAP_BASE] else 0
  }

  /** No slab fits, the table has room, and no run of free pages is left for a new slab. */
  predicate Exhausted(h: Heap, size: nat) {
    var sz := AtLeastLink(size);
    && 0 < size <= MAX_OBJECT
    && BestFit(h.slabs, sz, |h.slabs|) < 0
    && |h.slabs| < CACHE_MAX
    && FirstRun(h.bits, SlabPages(sz >= LARGE_FROM), false) < 0
  }

  function Handed(blocks: map<int, nat>, a: int, size: nat): map<int, nat> {
    if a == NULL then blocks else blocks[a := size]
  }

  lemma FitKeeps(h: Heap, shs: seq<Shadow>, blocks: map<int, nat>, i: nat, size: nat)
    requires Inv(h, shs) && Recorded(h, shs, blocks) && i < |shs| && Fits(h.slabs[i], size) && 0 < size
    ensures var (g, a) := Take(h, i);
            && a != NULL && a !in blocks && g.mem == h.mem && Sound(g, blocks[a := size])
  {
    FirstIsWord(h, shs, i);
    TakeKeeps(h, shs, i, size);
    TakeRecorded(h, shs, i, size, blocks);
    var (g, a) := Take(h, i);
    assert Inv(g, TakeShadow(shs, i, size)) && Recorded(g, TakeShadow(shs, i, size), blocks[a := size]);
  }

  lemma GrownFits(h: Heap, shs: seq<Shadow>, blocks: map<int, nat>, size: nat, large: bool)
    requires Inv(h, shs) && Recorded(h, shs, blocks) && Growable(size, large) && Grow(h, size, large).1
    ensures var g := Grow(h, size, large).0;
            && |g.slabs| == |h.slabs| + 1 && Fits(g.slabs[|h.slabs|], size)
            && Inv(g, shs + [NewShadow(g.slabs[|h.slabs|])])
                 && Recorded(g, shs + [NewShadow(g.slabs[|h.slabs|])], blocks)
  {
    var g := Grow(h, size, large).0;
    GrowKeeps(h, shs, size, large);
    var sh := NewShadow(g.slabs[|h.slabs|]);
    RecordedGrow(h, g, shs, sh, blocks);
    FirstIsWord(g, shs + [sh], |shs|);
  }

  /** A byte of a block is a byte of some slab. */
  lemma ByteOwner(h: Heap, shs: seq<Shadow>, blocks: map<int, nat>, a: int, x: int) returns (i: nat)
    requires Inv(h, shs) && Recorded(h, shs, blocks) && Inside(blocks, a, x)
    ensures i < |shs| == |h.slabs| && h.slabs[i].HasAddr(x)
  {
    var k;
    i, k := BlockOwner(h, shs, blocks, a);
    ObjectFits(h.slabs[i], shs[i].count, k);
  }

  /** Slabs that keep their bytes keep the blocks in them. */
  lemma SlabBytes(h: Heap, g: Heap, shs: seq<Shadow>, blocks: map<int, nat>)
    requires Inv(h, shs) && Recorded(h, shs, blocks) && |g.mem| == |h.mem|
    requires forall i, x :: 0 <= i < |shs| && 0 <= x < |h.mem| && h.slabs[i].HasAddr(HEAP_BASE + x) ==>
            g.mem[x] == h.mem[x]
    ensures SameBytes(h, g, blocks)
  {
    forall a, x | Inside(blocks, a, x)
      ensures ByteAt(g, x) == ByteAt(h, x)
    {
      var i := ByteOwner(h, shs, blocks, a, x);
      SlabByte(h.slabs[i], h, g, x, i, |shs|);
    }
  }

  lemma SlabByte(s: Slab, h: Heap, g: Heap, x: int, i: nat, n: nat)
    requires i < n <= |h.slabs| && s == h.slabs[i] && s.HasAddr(x) && |g.mem| == |h.mem|
    requires forall i, x :: 0 <= i < n && 0 <= x < |h.mem| && h.slabs[i].HasAddr(HEAP_BASE + x) ==> g.mem[x] == h.mem[x]
    ensures ByteAt(g, x) == ByteAt(h, x)
  {
    assert s.HasAddr(HEAP_BASE + (x - HEAP_BASE));
  }

  lemma NullNotHanded(h: Heap, blocks: map<int, nat>)
    requires Sound(h, blocks)
    ensures NULL !in blocks
  {
    if NULL in blocks {
      BlockPlaced(h, blocks, NULL);
    }
  }

  ghost predicate AllocOk(h: Heap, blocks: map<int, nat>, size: nat, g: Heap, a: int) {
    && a !in blocks && Sound(g, Handed(blocks, a, size)) && SameBytes(h, g, blocks)
    && (a == NULL ==> g == h)
  }

  lemma AllocOkIntro(h: Heap, blocks: map<int, nat>, size: nat, g: Heap, a: int)
    requires a != NULL && a !in blocks && Sound(g, blocks[a := size]) && SameBytes(h, g, blocks)
    ensures AllocOk(h, blocks, size, g, a)
  {
  }

  lemma TakenSame(h: Heap, g: Heap, g': Heap, blocks: map<int, nat>)
    requires SameBytes(h, g, blocks) && g'.mem == g.mem
    ensures SameBytes(h, g', blocks)
  {
    forall a, x | Inside(blocks, a, x)
      ensures ByteAt(g', x) == ByteAt(h, x)
    {
      assert ByteAt(g, x) == ByteAt(h, x);
    }
  }

  lemma AllocFromGrown(h: Heap, shs: seq<Shadow>, blocks: map<int, nat>, size: nat, sz: nat)
    requires Inv(h, shs) && Recorded(h, shs, blocks) && 0 < size <= MAX_OBJECT && sz == AtLeastLink(size)
    requires Grow(h, sz, sz >= LARGE_FROM).1
    ensures var g := Grow(h, sz, sz >= LARGE_FROM).0;
            AllocOk(h, blocks, size, Take(g, |h.slabs|).0, Take(g, |h.slabs|).1)
  {
    var g := Grow(h, sz, sz >= LARGE_FROM).0;
    GrownFits(h, shs, blocks, sz, sz >= LARGE_FROM);
    GrowKeeps(h, shs, sz, sz >= LARGE_FROM);
    SlabBytes(h, g, shs, blocks);
    TakenSame(h, g, Take(g, |h.slabs|).0, blocks);
    FitKeeps(g, shs + [NewShadow(g.slabs[|h.slabs|])], blocks, |h.slabs|, size);
    AllocOkIntro(h, blocks, size, Take(g, |h.slabs|).0, Take(g, |h.slabs|).1);
  }

  lemma AllocOkNull(h: Heap, blocks: map<int, nat>, size: nat)
    requires Sound(h, blocks)
    ensures AllocOk(h, blocks, size, h, NULL)
  {
    NullNotHanded(h, blocks);
  }

  lemma AllocFromFit(h: Heap, blocks: map<int, nat>, size: nat, fit: nat)
    requires Sound(h, blocks) && fit < |h.slabs| && Fits(h.slabs[fit], AtLeastLink(size)) && 0 < size
    ensures AllocOk(h, blocks, size, Take(h, fit).0, Take(h, fit).1)
  {
    var shs: seq<Shadow> :| Inv(h, shs) && Recorded(h, shs, blocks);
    FitKeeps(h, shs, blocks, fit, size);
    TakenSame(h, h, Take(h, fit).0, blocks);
    AllocOkIntro(h, blocks, size, Take(h, fit).0, Take(h, fit).1);
  }

  /** `kmalloc` keeps the ledger true and every block's bytes, and hands out a block not in it. */
  lemma AllocSound(h: Heap, blocks: map<int, nat>, size: nat)
    requires Sound(h, blocks) && !Exhausted(h, size)
    ensures AllocOk(h, blocks, size, Alloc(h, size).0, Alloc(h, size).1)
  {
    var sz := AtLeastLink(size);
    var fit := BestFit(h.slabs, sz, |h.slabs|);
    if size == 0 || size > MAX_OBJECT || (fit < 0 && |h.slabs| >= CACHE_MAX) {
      AllocOkNull(h, blocks, size);
      assert Alloc(h, size) == (h, NULL);
    } else if fit >= 0 {
      AllocFromFit(h, blocks, size, fit);
      assert Alloc(h, size) == Take(h, fit);
    } else {
      var shs: seq<Shadow> :| Inv(h, shs) && Recorded(h, shs, blocks);
      AllocFromGrown(h, shs, blocks, size, sz);
      assert Alloc(h, size) == Take(Grow(h, sz, sz >= LARGE_FROM).0, |h.slabs|);
    }
  }

  /**
   The ledger stays true exactly when the heap is not exhausted: with no run of free pages
   left, `kmalloc` answers NULL but inverts the bitmap's first bits on the way.
   */
  lemma AllocSoundIff(h: Heap, blocks: map<int, nat>, size: nat)
    requires Sound(h, blocks)
    ensures var (g, a) := Alloc(h, size); Sound(g, Handed(blocks, a, size)) <==> !Exhausted(h, size)
  {
    if Exhausted(h, size) {
      var n := SlabPages(AtLeastLink(size) >= LARGE_FROM);
      var shs: seq<Shadow> :| Inv(h, shs) && Recorded(h, shs, blocks);
      ScanFlipMissed(h.bits, n, false);
      FlippedNotSound(h, shs, h.(bits := ScanFlipped(h.bits, n, false)), blocks);
    } else {
      AllocSound(h, blocks, size);
    }
  }

  /** A heap whose bitmap is wrong about its first page satisfies no ledger. */
  lemma FlippedNotSound(h: Heap, shs: seq<Shadow>, g: Heap, blocks: map<int, nat>)
    requires Inv(h, shs) && g.slabs == h.slabs && |g.bits| == |h.bits| && g.bits[0] == !h.bits[0]
    ensures !Sound(g, blocks)
  {
    assert h.bits[0] <==> Owned(h.slabs, 0);
    assert !BitmapExact(g.slabs, g.bits);
  }

  // ----- kfree -----

  /** The search of `kfree` ends at the slab that owns the block. */
  lemma FindOwner(h: Heap, shs: seq<Shadow>, i: nat, a: int, size: nat)
    requires Inv(h, shs) && i < |shs| && h.slabs[i].HasAddr(a) && size <= h.slabs[i].objectSize
    ensures FindSlab(h.slabs, a, size, 0) == i
  {
    var r := FindSlab(h.slabs, a, size, 0);
    if r != i {
      assert SlabOk(h.mem, h.slabs[i], shs[i]) && SlabOk(h.mem, h.slabs[r], shs[r]);
      assert Apart(h.slabs[r], h.slabs[i]);
      ApartAddr(h.slabs[r], h.slabs[i], a);
    }
  }

  lemma OthersElsewhere(h: Heap, shs: seq<Shadow>, i: nat, k0: nat)
    requires Inv(h, shs) && i < |shs| && k0 in shs[i].live
    ensures forall j, k :: 0 <= j < |shs| && k in shs[j].live && (j != i || k != k0) ==>
            Object(h.slabs[j], k) != Object(h.slabs[i], k0)
  {
    LiveFacts(h, shs, i, k0);
    forall j, k | 0 <= j < |shs| && k in shs[j].live && (j != i || k != k0)
      ensures Object(h.slabs[j], k) != Object(h.slabs[i], k0)
    {
      LiveFacts(h, shs, j, k);
      ObjectsDisjoint(h, shs, j, k, i, k0);
    }
  }

  lemma GiveRecorded(h: Heap, shs: seq<Shadow>, blocks: map<int, nat>, i: nat, k: nat)
    requires Inv(h, shs) && Recorded(h, shs, blocks) && i < |shs| && k in shs[i].live
    ensures var a := Object(h.slabs[i], k); Recorded(Give(h, i, a), GiveShadow(h, shs, i, k), blocks - {a})
  {
    var s, a := h.slabs[i], Object(h.slabs[i], k);
    assert Partitioned(s, shs[i]) && shs[i].count <= 4096 by {
      assert SlabOk(h.mem, s, shs[i]);
    }
    LiveCounts(s, shs[i], k);
    FirstIsWord(h, shs, i);
    GiveIs(h, i, a);
    OthersElsewhere(h, shs, i, k);
    if s.first != NULL && s.inuse == 1 {
      assert shs[i].live.Keys == {k};
      RecordedShrink(h, Shrink(h, i), shs, SwapRemove(shs, i), i, k, blocks, a, |shs| - 1);
    } else {
      RecordedRelink(h, Give(h, i, a), shs, blocks, i, k);
    }
  }

  lemma RecordedRelink(h: Heap, g: Heap, shs: seq<Shadow>, blocks: map<int, nat>, i: nat, k: nat)
    requires Recorded(h, shs, blocks) && i < |shs| && k in shs[i].live
    requires exists s ::
               g.slabs == h.slabs[i := s] && s.start == h.slabs[i].start && s.objectSize == h.slabs[i].objectSize
    requires forall j, l :: 0 <= j < |shs| && l in shs[j].live && (j != i || l != k) ==>
            Object(h.slabs[j], l) != Object(h.slabs[i], k)
    ensures Recorded(g, shs[i := shs[i].(free := [k] + shs[i].free, live := shs[i].live - {k})],
            blocks - {Object(h.slabs[i], k)})
  {
    RecordedDrop(h, g, shs, shs[i := shs[i].(free := [k] + shs[i].free, live := shs[i].live - {k})], i, k, blocks,
         Object(h.slabs[i], k));
  }

  lemma GiveBytes(h: Heap, g: Heap, shs: seq<Shadow>, blocks: map<int, nat>, i: nat, k: nat)
    requires Inv(h, shs) && Recorded(h, shs, blocks) && i < |shs| && k in shs[i].live && |g.mem| == |h.mem|
    requires forall x :: 0 <= x < |h.mem| && !InObject(h.slabs[i], k, HEAP_BASE + x) ==> g.mem[x] == h.mem[x]
    ensures SameBytes(h, g, blocks - {Object(h.slabs[i], k)})
  {
    forall b, x | Inside(blocks - {Object(h.slabs[i], k)}, b, x)
      ensures ByteAt(g, x) == ByteAt(h, x)
    {
      OtherBlock(h, shs, blocks, i, k, b, x);
      SameByte(h, g, h.slabs[i], k, x);
    }
  }

  /** A byte of another block is outside the object. */
  lemma OtherBlock(h: Heap, shs: seq<Shadow>, blocks: map<int, nat>, i: nat, k: nat, b: int, x: int)
    requires Inv(h, shs) && Recorded(h, shs, blocks) && i < |shs| && k in shs[i].live
    requires Inside(blocks, b, x) && b != Object(h.slabs[i], k)
    ensures !InObject(h.slabs[i], k, x)
  {
    LiveFacts(h, shs, i, k);
    var j, l := BlockOwner(h, shs, blocks, b);
    ObjectsDisjoint(h, shs, i, k, j, l);
  }

  lemma SameByte(h: Heap, g: Heap, s: Slab, k: nat, x: int)
    requires |g.mem| == |h.mem| && !InObject(s, k, x)
    requires forall x :: 0 <= x < |h.mem| && !InObject(s, k, HEAP_BASE + x) ==> g.mem[x] == h.mem[x]
    ensures ByteAt(g, x) == ByteAt(h, x)
  {
    assert InObject(s, k, HEAP_BASE + (x - HEAP_BASE)) == InObject(s, k, x);
  }

  /** `kfree` of an outstanding block takes it, and only it, off the ledger and keeps the bytes of all others. */
  lemma FreeSound(h: Heap, blocks: map<int, nat>, a: int, size: nat)
    requires Sound(h, blocks) && a in blocks && 0 < size <= blocks[a]
    ensures Sound(Free(h, a, size), blocks - {a}) && SameBytes(h, Free(h, a, size), blocks - {a})
  {
    var shs: seq<Shadow> :| Inv(h, shs) && Recorded(h, shs, blocks);
    var i, k := BlockOwner(h, shs, blocks, a);
    ObjectFits(h.slabs[i], shs[i].count, k);
    FindOwner(h, shs, i, a, AtLeastLink(size));
    var g := Give(h, i, a);
    assert Free(h, a, size) == g;
    GiveKeeps(h, shs, i, k);
    GiveRecorded(h, shs, blocks, i, k);
    GiveBytes(h, g, shs, blocks, i, k);
    assert Inv(g, GiveShadow(h, shs, i, k)) && Recorded(g, GiveShadow(h, shs, i, k), blocks - {a});
  }

  // ----- A client stores a byte -----

  lemma WriteKeeps(h: Heap, shs: seq<Shadow>, i: nat, k: nat, x: int, b: byte)
    requires Inv(h, shs) && i < |shs| && k in shs[i].live
    requires Object(h.slabs[i], k) <= x < Object(h.slabs[i], k) + h.slabs[i].objectSize
    ensures Inv(Write(h, x, b), shs)
  {
    var s, sh, g := h.slabs[i], shs[i], Write(h, x, b);
    assert SlabOk(h.mem, s, sh);
    ObjectFits(s, sh.count, k);
    forall j | 0 <= j < |sh.free|
      ensures Peek(g.mem, Object(s, sh.free[j])) == Link(s, sh.free, j + 1)
    {
      ObjectsApart(s, k, sh.free[j]);
      PeekFrame(h.mem, g.mem, Object(s, sh.free[j]));
    }
    assert SlabOk(g.mem, s, sh);
    SlabKeeps(h, shs, i, g.mem, s, sh);
    assert g == Heap(g.mem, h.slabs[i := s], h.bits) && shs[i := sh] == shs;
  }

  lemma WriteSound(h: Heap, blocks: map<int, nat>, a: int, x: int, b: byte)
    requires Sound(h, blocks) && Inside(blocks, a, x)
    ensures Sound(Write(h, x, b), blocks) && ByteAt(Write(h, x, b), x) == b
    ensures forall y :: y != x ==> ByteAt(Write(h, x, b), y) == ByteAt(h, y)
  {
    var shs: seq<Shadow> :| Inv(h, shs) && Recorded(h, shs, blocks);
    var i, k := BlockOwner(h, shs, blocks, a);
    WriteKeeps(h, shs, i, k, x, b);
    RecordedSame(h, Write(h, x, b), shs, blocks);
    BlockPlaced(h, blocks, a);
    WrittenBytes(h, x, b);
  }

  lemma WrittenBytes(h: Heap, x: int, b: byte)
    requires HEAP_BASE <= x < HEAP_BASE + |h.mem|
    ensures ByteAt(Write(h, x, b), x) == b
    ensures forall y :: y != x ==> ByteAt(Write(h, x, b), y) == ByteAt(h, y)
  {
  }

  lemma RecordedSame(h: Heap, g: Heap, shs: seq<Shadow>, blocks: map<int, nat>)
    requires Recorded(h, shs, blocks) && g.slabs == h.slabs
    ensures Recorded(g, shs, blocks)
  {
    forall c | c in blocks
      ensures IsLive(g, shs, c)
    {
      assert IsLive(h, shs, c);
      var j: nat, l: nat :| LiveAt(h, shs, j, l, c);
      assert LiveAt(g, shs, j, l, c);
    }
  }

  // ----- Every run -----

  datatype Op = Malloc(size: nat) | Release(a: int, size: nat) | StoreByte(x: int, b: byte)

  function StoredOutside(c: Client, a: int): (r: map<int, byte>)
    ensures forall x :: x in r ==> x in c.stored && !Inside(c.blocks, a, x) && r[x] == c.stored[x]
  {
    map x | x in c.stored && !Inside(c.blocks, a, x) :: c.stored[x]
  }

  function Step(h: Heap, c: Client, op: Op): (Heap, Client) {
    match op
    case Malloc(size) =>
      var (g, a) := Alloc(h, size);
      (g, c.(blocks := Handed(c.blocks, a, size)))
    case Release(a, size) =>
      (Free(h, a, size), Client(c.blocks - {a}, StoredOutside(c, a)))
    case StoreByte(x, b) =>
      (Write(h, x, b), c.(stored := c.stored[x := b]))
  }

  /** What a well-behaved client may do: any allocation short of exhaustion, release and stores of its own. */
  ghost predicate Allowed(h: Heap, c: Client, op: Op) {
    match op
    case Malloc(size) => !Exhausted(h, size)
    case Release(a, size) => a in c.blocks && 0 < size <= c.blocks[a]
    case StoreByte(x, _) => exists a :: Inside(c.blocks, a, x)
  }

  /** The ledger is true, and every byte the client stored and still owns reads back. */
  ghost predicate Holds(h: Heap, c: Client) {
    && Sound(h, c.blocks)
    && forall x :: x in c.stored ==> (exists a :: Inside(c.blocks, a, x)) && ByteAt(h, x) == c.stored[x]
  }

  lemma MallocHolds(h: Heap, c: Client, size: nat)
    requires Holds(h, c) && !Exhausted(h, size)
    ensures var r := Step(h, c, Malloc(size)); Holds(r.0, r.1)
  {
    AllocSound(h, c.blocks, size);
    var (g, a) := Alloc(h, size);
    forall x | x in c.stored
      ensures (exists b :: Inside(Handed(c.blocks, a, size), b, x)) && ByteAt(g, x) == c.stored[x]
    {
      var b :| Inside(c.blocks, b, x);
      assert Inside(Handed(c.blocks, a, size), b, x);
    }
  }

  lemma ReleaseHolds(h: Heap, c: Client, a: int, size: nat)
    requires Holds(h, c) && a in c.blocks && 0 < size <= c.blocks[a]
    ensures var r := Step(h, c, Release(a, size)); Holds(r.0, r.1)
  {
    FreeSound(h, c.blocks, a, size);
    var g, kept := Free(h, a, size), StoredOutside(c, a);
    forall x | x in kept
      ensures (exists b :: Inside(c.blocks - {a}, b, x)) && ByteAt(g, x) == kept[x]
    {
      ReleaseKeepsStore(h, g, c.blocks, a, x);
    }
  }

  /** A store outside the released block still reads back. */
  lemma ReleaseKeepsStore(h: Heap, g: Heap, blocks: map<int, nat>, a: int, x: int)
    requires SameBytes(h, g, blocks - {a}) && (exists b :: Inside(blocks, b, x)) && !Inside(blocks, a, x)
    ensures (exists b :: Inside(blocks - {a}, b, x)) && ByteAt(g, x) == ByteAt(h, x)
  {
    var b :| Inside(blocks, b, x);
    assert Inside(blocks - {a}, b, x);
  }

  lemma StepHolds(h: Heap, c: Client, op: Op)
    requires Holds(h, c) && Allowed(h, c, op)
    ensures var r := Step(h, c, op); Holds(r.0, r.1)
  {
    match op
    case Malloc(size) => MallocHolds(h, c, size);
    case Release(a, size) => ReleaseHolds(h, c, a, size);
    case StoreByte(x, b) =>
      var a :| Inside(c.blocks, a, x);
      WriteSound(h, c.blocks, a, x, b);
  }

  function Run(h: Heap, c: Client, ops: seq<Op>): (Heap, Client)
    decreases |ops|
  {
    if ops == [] then (h, c)
    else
      var (g, d) := Step(h, c, ops[0]);
      Run(g, d, ops[1..])
  }

  ghost predicate AllAllowed(h: Heap, c: Client, ops: seq<Op>)
    decreases |ops|
  {
    ops != [] ==> Allowed(h, c, ops[0]) && AllAllowed(Step(h, c, ops[0]).0, Step(h, c, ops[0]).1, ops[1..])
  }

  /** Safety of the heap over whole runs. */
  lemma {:induction false} RunHolds(h: Heap, c: Client, ops: seq<Op>)
    requires Holds(h, c) && AllAllowed(h, c, ops)
    ensures var r := Run(h, c, ops); Holds(r.0, r.1)
    decreases |ops|
  {
    if ops != [] {
      StepHolds(h, c, ops[0]);
      RunHolds(Step(h, c, ops[0]).0, Step(h, c, ops[0]).1, ops[1..]);
    }
  }

  // ----- The heap the kernel boots with -----

  ghost predicate FreeFrom(bits: seq<bool>, p: nat) {
    |bits| == HEAP_PAGES && forall q :: p <= q < HEAP_PAGES ==> !bits[q]
  }

  /** A heap of `n` slabs with nothing outstanding and all pages from `p` on free. */
  ghost predicate Fresh(h: Heap, n: nat, p: nat) {
    |h.slabs| == n && FreeFrom(h.bits, p) && Sound(h, map[])
  }

  lemma BootGrow(h: Heap, n: nat, size: nat, large: bool, p: nat)
    requires Fresh(h, n, p) && n < CACHE_MAX && Growable(size, large) && p + LARGE_SLAB_PAGES <= HEAP_PAGES
    ensures Fresh(Grow(h, size, large).0, n + 1, p + LARGE_SLAB_PAGES)
  {
    var shs: seq<Shadow> :| Inv(h, shs) && Recorded(h, shs, map[]);
    assert IsRun(h.bits, SlabPages(large), false, p);
    ScanFlipFound(h.bits, SlabPages(large), false);
    GrownFits(h, shs, map[], size, large);
    var g := Grow(h, size, large).0;
    assert Recorded(g, shs + [NewShadow(g.slabs[n])], map[]);
  }

  lemma BootShrink(h: Heap, n: nat, i: nat, p: nat)
    requires Fresh(h, n, p) && i < n
    ensures Fresh(Shrink(h, i), n - 1, p)
  {
    var shs: seq<Shadow> :| Inv(h, shs) && Recorded(h, shs, map[]);
    ShrinkKeeps(h, shs, i);
    var g, t := Shrink(h, i), SwapRemove(shs, i);
    NoneLive(h, shs, g, t, i);
    ShrinkIsFreeFrom(h, shs, i, p);
  }

  lemma NoneLive(h: Heap, shs: seq<Shadow>, g: Heap, t: seq<Shadow>, i: nat)
    requires Recorded(h, shs, map[]) && i < |shs| && t == SwapRemove(shs, i) && |g.slabs| == |t|
    ensures Recorded(g, t, map[])
  {
    forall j, k | 0 <= j < |t|
      ensures k !in t[j].live
    {
      assert k !in shs[if j == i then |t| else j].live;
    }
  }

  lemma ShrinkIsFreeFrom(h: Heap, shs: seq<Shadow>, i: nat, p: nat)
    requires Inv(h, shs) && i < |shs| && FreeFrom(h.bits, p)
    ensures FreeFrom(Shrink(h, i).bits, p) && |Shrink(h, i).slabs| == |h.slabs| - 1
  {
    assert Shaped(h.slabs[i]) by {
      assert SlabOk(h.mem, h.slabs[i], shs[i]);
    }
    ShrinkIs(h, i);
  }

  /** `kheap_init` leaves a heap in which nothing is outstanding. */
  lemma BootHolds(mem: seq<byte>)
    requires |mem| == HEAP_BYTES
    ensures Holds(Booted(mem), Client(map[], map[]))
  {
    assert Inv(Empty(mem), []) && Recorded(Empty(mem), [], map[]);
    BootGrow(Empty(mem), 0, 8, false, 0);
    var a := Grow(Empty(mem), 8, false).0;
    BootGrow(a, 1, 16, true, 10);
    var b := Grow(a, 16, true).0;
    BootGrow(b, 2, 32, true, 20);
    var c := Grow(b, 32, true).0;
    BootShrink(c, 3, 1, 30);
    BootGrow(Shrink(c, 1), 2, 16, true, 30);
  }

  /** From boot on: no run of a well-behaved client breaks the heap, and its blocks never overlap. */
  lemma KernelHeapSafe(mem: seq<byte>, ops: seq<Op>, a: int, b: int)
    requires |mem| == HEAP_BYTES && AllAllowed(Booted(mem), Client(map[], map[]), ops)
    ensures var (h, c) := Run(Booted(mem), Client(map[], map[]), ops);
            && Holds(h, c)
            && (a in c.blocks && b in c.blocks && a != b ==> a + c.blocks[a] <= b || b + c.blocks[b] <= a)
            && (a in c.blocks && c.blocks[a] >= LARGE_FROM ==> a % 4096 == 0)
  {
    BootHolds(mem);
    RunHolds(Booted(mem), Client(map[], map[]), ops);
    var (h, c) := Run(Booted(mem), Client(map[], map[]), ops);
    if a in c.blocks {
      BlockPlaced(h, c.blocks, a);
      if b in c.blocks && a != b {
        BlocksDisjoint(h, c.blocks, a, b);
      }
    }
  }
}
