/** The physical page allocator of mm/pmm.c over the page bitmap. */
module PhysicalFrames {
  import opened Words
  import opened Bitmaps

  const RESERVED_PAGES := 1024

  // ----- The operations on the bitmap's meaning -----

  function AllocBits(bits: seq<bool>, n: u32): seq<bool> {
    ScanFlipped(bits, n, false)
  }

  /** The address `pmm_alloc` returns: the index, as `size_t`, shifted left by 12. */
  function AllocAddr(bits: seq<bool>, n: u32): u32 {
    Wrap(Wrap(FirstRun(bits, n, false)) * 4096)
  }

  function FreeBits(bits: seq<bool>, frame: u32, n: u32): seq<bool> {
    SetSpan(bits, frame / 4096, SetCount(|bits|, frame / 4096, n), false)
  }

  /** `pmm_set`: the range becomes available, or not. */
  function SetBits(bits: seq<bool>, frame: u32, n: u32, avail: bool): seq<bool> {
    SetSpan(bits, frame / 4096, SetCount(|bits|, frame / 4096, n), !avail)
  }

  class Frames {
    const bitmap: Bitmap

    ghost predicate Valid() {
      bitmap.Valid() && bitmap.size <= 0x10_0000
    }

    /** `pmm_init`: the first 4 MiB are taken from the start. */
    constructor (memorySize: u32, totalMemory: u32)
      requires 0 < if memorySize == 0 then totalMemory else memorySize
      ensures Valid() && fresh(bitmap.bits)
      ensures var m := if memorySize == 0 then totalMemory else memorySize; bitmap.size == (m + 4095) / 4096
      ensures forall p :: 0 <= p < bitmap.size ==> (bitmap.Bits()[p] <==> p < RESERVED_PAGES)
    {
      var m := if memorySize == 0 then totalMemory else memorySize;
      bitmap := new Bitmap(m / 4096 + (if m % 4096 != 0 then 1 else 0));
      new;
      ghost var b := bitmap.Bits();
      Reserve();
      ReservedOnly(b);
    }

    method Reserve()
      requires Valid()
      modifies bitmap.bits
      ensures bitmap.Bits() == FlipSpan(old(bitmap.Bits()), 0, RESERVED_PAGES)
    {
      for i := 0 to RESERVED_PAGES
        invariant bitmap.Bits() == FlipSpan(old(bitmap.Bits()), 0, i)
      {
        FlipSpanStep(old(bitmap.Bits()), 0, i, i);
        bitmap.Flip(i);
      }
    }

    method Alloc(n: u32) returns (frame: u32)
      requires Valid()
      modifies bitmap.bits
      ensures bitmap.Bits() == AllocBits(old(bitmap.Bits()), n)
      ensures frame == AllocAddr(old(bitmap.Bits()), n)
    {
      var idx := bitmap.ScanFlip(n, false);
      frame := Wrap(Wrap(idx) * 4096);
    }

    method Free(frame: u32, n: u32)
      requires Valid()
      modifies bitmap.bits
      ensures bitmap.Bits() == FreeBits(old(bitmap.Bits()), frame, n)
    {
      bitmap.SetMulti(false, frame / 4096, n);
    }

    method Set(frame: u32, n: u32, avail: bool)
      requires Valid()
      modifies bitmap.bits
      ensures bitmap.Bits() == SetBits(old(bitmap.Bits()), frame, n, avail)
    {
      bitmap.SetMulti(!avail, frame / 4096, n);
    }
  }

  lemma ReservedOnly(b: seq<bool>)
    requires |b| < TWO32 && forall p :: 0 <= p < |b| ==> !b[p]
    ensures forall p :: 0 <= p < |b| ==> FlipSpan(b, 0, RESERVED_PAGES)[p] == (p < RESERVED_PAGES)
  {
    forall p | 0 <= p < |b|
      ensures FlipSpan(b, 0, RESERVED_PAGES)[p] == (p < RESERVED_PAGES)
    {
      SpanPlain(p, 0, RESERVED_PAGES);
    }
  }

  // ----- Outstanding ranges -----

  predicate InRange(ranges: map<nat, nat>, s: nat, p: int) {
    s in ranges && s <= p < s + ranges[s]
  }

  /** `ranges` maps the first page of each outstanding range to its length; `res` marks what is not for hire. */
  ghost predicate Accounted(bits: seq<bool>, res: seq<bool>, ranges: map<nat, nat>) {
    && |bits| == |res| <= 0x10_0000
    && (forall s :: s in ranges ==> 0 < ranges[s] && s + ranges[s] <= |bits|)
    && (forall s, t, p :: InRange(ranges, s, p) && InRange(ranges, t, p) ==> s == t)
    && (forall s, p :: InRange(ranges, s, p) ==> !res[p])
    && (forall p :: 0 <= p < |bits| ==> (bits[p] <==> res[p] || exists s :: InRange(ranges, s, p)))
  }

  /** The lease a successful allocation adds. */
  function Leased(bits: seq<bool>, ranges: map<nat, nat>, n: u32): map<nat, nat> {
    var r := FirstRun(bits, n, false);
    if r >= 0 then ranges[r := n] else ranges
  }

  lemma AllocAccounted(bits: seq<bool>, res: seq<bool>, ranges: map<nat, nat>, n: u32)
    requires Accounted(bits, res, ranges) && FirstRun(bits, n, false) >= 0
    ensures var r := FirstRun(bits, n, false);
            && AllocAddr(bits, n) == r * 4096 && r !in ranges
            && (forall p :: r <= p < r + n ==> !res[p] && !exists s :: InRange(ranges, s, p))
            && Accounted(AllocBits(bits, n), res, Leased(bits, ranges, n))
  {
    var r := FirstRun(bits, n, false);
    var bits', ranges' := AllocBits(bits, n), Leased(bits, ranges, n);
    ScanFlipFound(bits, n, false);
    AddrOfRun(bits, n);
    FreePages(bits, res, ranges, r, n);
    LeaseAccounted(bits, bits', res, ranges, ranges', r, n);
  }

  lemma AddrOfRun(bits: seq<bool>, n: u32)
    requires |bits| <= 0x10_0000 && FirstRun(bits, n, false) >= 0
    ensures AllocAddr(bits, n) == FirstRun(bits, n, false) * 4096
  {
    assert IsRun(bits, n, false, FirstRun(bits, n, false));
  }

  /** Pages the bitmap shows as free are nobody's. */
  lemma FreePages(bits: seq<bool>, res: seq<bool>, ranges: map<nat, nat>, r: nat, n: nat)
    requires Accounted(bits, res, ranges) && 0 < n && r + n <= |bits| && forall p :: r <= p < r + n ==> !bits[p]
    ensures r !in ranges && forall p :: r <= p < r + n ==> !res[p] && !exists s :: InRange(ranges, s, p)
  {
    assert !bits[r] && (r in ranges ==> InRange(ranges, r, r));
  }

  /** A lease of pages that were free: the bitmap shows them taken. */
  lemma LeaseAccounted(bits: seq<bool>, bits': seq<bool>, res: seq<bool>, ranges: map<nat, nat>, ranges': map<nat, nat>,
                       r: nat, n: nat)
    requires Accounted(bits, res, ranges) && 0 < n && r + n <= |bits| == |bits'|
    requires r !in ranges && ranges' == ranges[r := n]
    requires forall p :: r <= p < r + n ==> !bits[p]
    requires forall p :: 0 <= p < |bits| ==> bits'[p] == if r <= p < r + n then true else bits[p]
    ensures Accounted(bits', res, ranges')
  {
    forall s, p
      ensures InRange(ranges', s, p) <==> (s == r && r <= p < r + n) || InRange(ranges, s, p)
    {
    }
    forall p | 0 <= p < |bits|
      ensures bits'[p] <==> res[p] || exists s :: InRange(ranges', s, p)
    {
      if r <= p < r + n {
        assert InRange(ranges', r, p);
      } else if s :| InRange(ranges, s, p) {
        assert InRange(ranges', s, p);
      }
    }
  }

  /** A failed allocation is harmless only up to one page; otherwise reserved low pages come back as free. */
  lemma AllocAccountedIff(bits: seq<bool>, res: seq<bool>, ranges: map<nat, nat>, n: u32)
    requires Accounted(bits, res, ranges) && 0 < |bits|
    ensures Accounted(AllocBits(bits, n), res, Leased(bits, ranges, n)) <==> (FirstRun(bits, n, false) >= 0 || n <= 1)
  {
    if FirstRun(bits, n, false) >= 0 {
      AllocAccounted(bits, res, ranges, n);
    } else {
      ScanFlipMissed(bits, n, false);
      if n <= 1 {
        assert AllocBits(bits, n) == bits;
      } else {
        assert AllocBits(bits, n)[0] != bits[0];
      }
    }
  }

  lemma FreeAccounted(bits: seq<bool>, res: seq<bool>, ranges: map<nat, nat>, s: nat)
    requires Accounted(bits, res, ranges) && s in ranges
    ensures Accounted(FreeBits(bits, s * 4096, ranges[s]), res, ranges - {s})
  {
    var n, bits' := ranges[s], FreeBits(bits, s * 4096, ranges[s]);
    assert SetCount(|bits|, s, n) == n;
    forall p | 0 <= p < |bits|
      ensures bits'[p] == if s <= p < s + n then false else bits[p]
    {
    }
    forall t, p
      ensures InRange(ranges - {s}, t, p) <==> t != s && InRange(ranges, t, p)
    {
    }
    forall p | 0 <= p < |bits|
      ensures bits'[p] <==> res[p] || exists t :: InRange(ranges - {s}, t, p)
    {
      if s <= p < s + n {
        assert InRange(ranges, s, p);
      } else if exists t :: InRange(ranges, t, p) {
        var t :| InRange(ranges, t, p);
        assert InRange(ranges - {s}, t, p);
      }
    }
  }

  /** Freeing what was just allocated restores the bitmap. */
  lemma AllocThenFree(bits: seq<bool>, n: u32)
    requires |bits| <= 0x10_0000 && FirstRun(bits, n, false) >= 0
    ensures FreeBits(AllocBits(bits, n), AllocAddr(bits, n), n) == bits
  {
    var r := FirstRun(bits, n, false);
    assert r + n <= |bits| && AllocAddr(bits, n) == r * 4096;
    ScanFlipThenSet(bits, n, false);
  }

  // ----- Every run -----

  datatype Op = Take(n: u32) | Return(s: nat)

  function Step(bits: seq<bool>, ranges: map<nat, nat>, op: Op): (seq<bool>, map<nat, nat>)
    requires op.Return? ==> op.s in ranges && op.s < 0x10_0000 && ranges[op.s] < TWO32
  {
    match op
    case Take(n) => (AllocBits(bits, n), Leased(bits, ranges, n))
    case Return(s) => (FreeBits(bits, s * 4096, ranges[s]), ranges - {s})
  }

  ghost predicate Allowed(bits: seq<bool>, ranges: map<nat, nat>, ops: seq<Op>)
    decreases |ops|
  {
    ops != [] ==>
      && (match ops[0]
          case Take(n) => FirstRun(bits, n, false) >= 0
          case Return(s) => s in ranges && s < 0x10_0000 && ranges[s] < TWO32)
      && Allowed(Step(bits, ranges, ops[0]).0, Step(bits, ranges, ops[0]).1, ops[1..])
  }

  function Run(bits: seq<bool>, ranges: map<nat, nat>, ops: seq<Op>): (seq<bool>, map<nat, nat>)
    requires Allowed(bits, ranges, ops)
    decreases |ops|
  {
    if ops == [] then (bits, ranges)
    else Run(Step(bits, ranges, ops[0]).0, Step(bits, ranges, ops[0]).1, ops[1..])
  }

  /** Over every run, leases stay disjoint, avoid the reserved pages, and explain the bitmap exactly. */
  lemma {:induction false} RunAccounted(bits: seq<bool>, res: seq<bool>, ranges: map<nat, nat>, ops: seq<Op>)
    requires Accounted(bits, res, ranges) && Allowed(bits, ranges, ops)
    ensures var r := Run(bits, ranges, ops); Accounted(r.0, res, r.1)
    decreases |ops|
  {
    if ops != [] {
      match ops[0] {
        case Take(n) => AllocAccounted(bits, res, ranges, n);
        case Return(s) => FreeAccounted(bits, res, ranges, s);
      }
      RunAccounted(Step(bits, ranges, ops[0]).0, res, Step(bits, ranges, ops[0]).1, ops[1..]);
    }
  }

  /** From the bitmap `pmm_init` leaves: every outstanding range of every run lies beyond the first 4 MiB. */
  lemma RunFromInit(bits: seq<bool>, ops: seq<Op>, s: nat, p: nat)
    requires |bits| <= 0x10_0000 && (forall q :: 0 <= q < |bits| ==> (bits[q] <==> q < RESERVED_PAGES))
    requires Allowed(bits, map[], ops)
    ensures var r := Run(bits, map[], ops);
            Accounted(r.0, bits, r.1) && (InRange(r.1, s, p) ==> RESERVED_PAGES <= p < |bits|)
  {
    RunAccounted(bits, bits, map[], ops);
  }

  /** On a machine of at most 4 MiB, where all is reserved, asking for two pages makes page 0 available. */
  lemma FailedAllocFreesPageZero(bits: seq<bool>)
    requires 0 < |bits| <= RESERVED_PAGES && forall q :: 0 <= q < |bits| ==> bits[q]
    ensures Accounted(bits, bits, map[]) && !Accounted(AllocBits(bits, 2), bits, Leased(bits, map[], 2))
    ensures !AllocBits(bits, 2)[0]
  {
    assert Accounted(bits, bits, map[]);
    NoneFree(bits, 2);
    AllocAccountedIff(bits, bits, map[], 2);
    ScanFlipMissed(bits, 2, false);
  }

  /** The `n` frames in a row from `phys` on, as a mapping counts them, are all free. */
  ghost predicate FramesFree(bits: seq<bool>, phys: u32, n: nat) {
    forall i: nat :: i < n ==> IsFree(bits, FrameAt(phys, i))
  }

  /** The page number of the `i`-th of them. */
  function FrameAt(phys: u32, i: nat): nat {
    Wrap(phys + i * 4096) / 4096
  }

  predicate IsFree(bits: seq<bool>, page: nat) {
    page < |bits| && !bits[page]
  }

  /** The frames `pmm_alloc` answers with were free exactly if there was a run of that many. */
  lemma AllocFreeIff(bits: seq<bool>, n: u32)
    requires 0 < n && |bits| <= 0x10_0000 && (|bits| > 0 && !bits[0] ==> |bits| < 0x10_0000)
    ensures FramesFree(bits, AllocAddr(bits, n), n) <==> FirstRun(bits, n, false) >= 0
  {
    var r := FirstRun(bits, n, false);
    if r >= 0 {
      assert IsRun(bits, n, false, r);
      assert AllocAddr(bits, n) == r * 4096;
      forall i: nat | i < n
        ensures IsFree(bits, FrameAt(AllocAddr(bits, n), i))
      {
        RunFrame(r, i);
        assert bits[r + i] == false;
      }
    } else {
      NoRunAddr(bits, n);
      LastThenFirst(bits, n);
    }
  }

  lemma RunFrame(r: nat, i: nat)
    requires r + i < 0x10_0000
    ensures FrameAt(r * 4096, i) == r + i
  {
  }

  /** Without a run the answer is the last page of the address space. */
  lemma NoRunAddr(bits: seq<bool>, n: u32)
    requires FirstRun(bits, n, false) < 0
    ensures AllocAddr(bits, n) == 0xFFFF_F000
  {
  }

  lemma LastThenFirst(bits: seq<bool>, n: u32)
    requires 0 < n && |bits| <= 0x10_0000 && FirstRun(bits, n, false) < 0
    ensures FramesFree(bits, 0xFFFF_F000, n) ==> |bits| == 0x10_0000 && !bits[0]
  {
    assert !IsRun(bits, n, false, 0xF_FFFF);
    if FramesFree(bits, 0xFFFF_F000, n) {
      assert IsFree(bits, FrameAt(0xFFFF_F000, 0));
      assert n != 1;
      assert IsFree(bits, FrameAt(0xFFFF_F000, 1));
    }
  }
}
