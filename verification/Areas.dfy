/**
 The virtual memory areas of a task (mm/vmm.c): the ordered area list that `vma_create`
 maintains and the bump allocator behind `mmap` calls that name no address.
 */
module Areas {
  import opened Words
  import opened PageTables

  const MMAP_BASE := 0x4000_0000

  /** `struct vm_area`; `loads` stands for an `ops` table with a `load_page` in it. */
  datatype Area = Area(addr: u32, size: u32, nPages: u32, limit: u32, phys: u32, pgd: nat, loads: bool, fileOff: u32)

  datatype Errno = EINVAL | EOVERFLOW | EEXIST | ENOMEM
  datatype Outcome = Mapped(area: Area) | Failed(errno: Errno)

  /** The numbers of include/depthos/errno.h. */
  function Number(e: Errno): int {
    match e
    case EINVAL => 1
    case EOVERFLOW => 2
    case EEXIST => 15
    case ENOMEM => 16
  }

  /** `PG_RND_UP` on a `size_t`. */
  function RoundUp(x: u32): u32 {
    Wrap(x + 4095) / 4096 * 4096
  }

  /** `ceil_div(x, PAGE_SIZE)`: the argument is taken as a signed `int`, and C divides toward zero. */
  function CeilDiv(x: u32): u32 {
    if x < 0x8000_0000 then x / 4096 + (if x % 4096 != 0 then 1 else 0)
    else
      var m := 0x1_0000_0000 - x;
      Wrap(-(m / 4096) + (if m % 4096 != 0 then 1 else 0))
  }

  predicate Overlap(a: Area, b: Area) {
    if a.addr > b.addr then Wrap(b.addr + b.size) > a.addr else Wrap(a.addr + a.size) > b.addr
  }

  predicate Contains(a: Area, x: int) {
    a.addr <= x < a.addr + a.size
  }

  /** Not empty, and not running into the end of the address space. */
  predicate Bounded(a: Area) {
    0 < a.size && a.addr + a.size < TWO32
  }

  lemma OverlapIff(a: Area, b: Area)
    requires Bounded(a) && Bounded(b)
    ensures Overlap(a, b) <==> a.addr < b.addr + b.size && b.addr < a.addr + a.size
    ensures Overlap(a, b) <==> exists x :: Contains(a, x) && Contains(b, x)
  {
    assert Wrap(a.addr + a.size) == a.addr + a.size && Wrap(b.addr + b.size) == b.addr + b.size;
    if Overlap(a, b) {
      var x := if a.addr > b.addr then a.addr else b.addr;
      assert Contains(a, x) && Contains(b, x);
    }
  }

  ghost predicate Ordered(s: seq<Area>) {
    && (forall i :: 0 <= i < |s| ==> Bounded(s[i]))
    && (forall i, j :: 0 <= i < j < |s| ==> s[i].addr + s[i].size <= s[j].addr)
  }

  lemma AtMostOneArea(s: seq<Area>, x: int, i: nat, j: nat)
    requires Ordered(s) && i < |s| && j < |s| && Contains(s[i], x) && Contains(s[j], x)
    ensures i == j
  {
  }

  // ----- vma_create -----

  function NewArea(pgd: nat, addr: u32, size: u32): Area {
    Area(addr, size, CeilDiv(size), 0, 0, pgd, false, 0)
  }

  /** An area of the task with nothing behind it yet: no physical address, no limit, no loader, no file. */
  predicate Plain(a: Area, pgd: nat) {
    a.phys == 0 && a.limit == 0 && !a.loads && a.fileOff == 0 && a.pgd == pgd
  }

  /** The first area that starts above `addr`, or the length of the list. */
  function FirstAbove(s: seq<Area>, addr: u32): (k: nat)
    ensures k <= |s| && (k < |s| ==> s[k].addr > addr) && forall i :: 0 <= i < k ==> s[i].addr <= addr
  {
    if s == [] || s[0].addr > addr then 0 else FirstAbove(s[1..], addr) + 1
  }

  /** What the walk looks at: the areas up to and including the first one above. */
  predicate Refused(s: seq<Area>, vma: Area) {
    exists i :: 0 <= i < |s| && i <= FirstAbove(s, vma.addr) && Overlap(s[i], vma)
  }

  /** The list afterwards: the new area takes the place of the first one above it. */
  function Linked(s: seq<Area>, vma: Area): seq<Area> {
    var k := FirstAbove(s, vma.addr);
    if k == |s| then s + [vma] else s[k := vma]
  }

  /** The walk refuses exactly the areas that share an address with one in the list. */
  lemma RefusedIff(s: seq<Area>, vma: Area)
    requires Ordered(s) && Bounded(vma)
    ensures Refused(s, vma) <==> exists i, x :: 0 <= i < |s| && Contains(s[i], x) && Contains(vma, x)
  {
    forall i | 0 <= i < |s|
      ensures Overlap(s[i], vma) <==> exists x :: Contains(s[i], x) && Contains(vma, x)
    {
      OverlapIff(s[i], vma);
    }
    if i, x :| 0 <= i < |s| && Contains(s[i], x) && Contains(vma, x) {
      var k := FirstAbove(s, vma.addr);
      if i > k {
        assert Contains(s[k], s[k].addr) && Contains(vma, s[k].addr);
        assert Overlap(s[k], vma);
      } else {
        assert Overlap(s[i], vma);
      }
    }
  }

  lemma LinkedOrdered(s: seq<Area>, vma: Area)
    requires Ordered(s) && Bounded(vma) && !Refused(s, vma)
    ensures Ordered(Linked(s, vma)) && vma in Linked(s, vma)
  {
    var k := FirstAbove(s, vma.addr);
    forall i | 0 <= i < |s| && i <= k
      ensures s[i].addr + s[i].size <= vma.addr || vma.addr + vma.size <= s[i].addr
    {
      OverlapIff(s[i], vma);
    }
    assert Linked(s, vma)[k] == vma;
    LinkedBetween(s, vma, k);
  }

  lemma LinkedBetween(s: seq<Area>, vma: Area, k: nat)
    requires Ordered(s) && Bounded(vma) && k <= |s|
    requires forall i :: 0 <= i < k ==> s[i].addr + s[i].size <= vma.addr
    requires k < |s| ==> vma.addr + vma.size <= s[k].addr
    ensures Ordered(if k == |s| then s + [vma] else s[k := vma])
  {
  }

  /** The old areas are all still there exactly when none of them starts above the new one. */
  lemma SurviveIff(s: seq<Area>, vma: Area)
    requires Ordered(s) && Bounded(vma) && !Refused(s, vma)
    ensures (forall i :: 0 <= i < |s| ==> s[i] in Linked(s, vma))
            <==> (forall i :: 0 <= i < |s| ==> s[i].addr <= vma.addr)
  {
    var k := FirstAbove(s, vma.addr);
    if k < |s| {
      assert s[k].addr > vma.addr;
      forall j | 0 <= j < |s|
        ensures Linked(s, vma)[j] != s[k]
      {
      }
    }
  }

  // ----- mmap -----

  /** `do_mmap` of an anonymous region. */
  function MmapAt(s: seq<Area>, pgd: nat, addr: u32, length: u32): (r: (seq<Area>, Outcome)) {
    if length == 0 then (s, Failed(EINVAL))
    else if addr + length >= TWO32 then (s, Failed(EOVERFLOW))
    else if addr + length > VIRT_BASE then (s, Failed(EEXIST))
    else if addr % 4096 != 0 then (s, Failed(EINVAL))
    else
      var vma := NewArea(pgd, addr, RoundUp(length));
      if Refused(s, vma) then (s, Failed(ENOMEM)) else (Linked(s, vma), Mapped(vma))
  }

  /** An address of the region is taken. */
  ghost predicate TakenIn(s: seq<Area>, from: int, to: int) {
    exists i, x :: 0 <= i < |s| && Contains(s[i], x) && from <= x < to
  }

  /** What a mapping at a given address answers, and which region it makes. */
  lemma MmapAnswers(s: seq<Area>, pgd: nat, addr: u32, length: u32)
    requires Ordered(s)
    ensures var (s', r) := MmapAt(s, pgd, addr, length);
            && (r == Failed(EOVERFLOW) <==> length > 0 && addr + length >= 0x1_0000_0000)
            && (r == Failed(EEXIST) <==> length > 0 && 0xC000_0000 < addr + length < 0x1_0000_0000)
            && (r == Failed(EINVAL) <==> length == 0 || (addr + length <= 0xC000_0000 && addr % 4096 != 0))
            && (r == Failed(ENOMEM) || r.Mapped? <==>
                  length > 0 && addr + length <= 0xC000_0000 && addr % 4096 == 0)
            && (r.Failed? ==> s' == s)
            && (r == Failed(ENOMEM) ==> exists size: nat :: PagesOf(length, size) && TakenIn(s, addr, addr + size))
            && (r.Mapped? ==>
                  && r.area.addr == addr && PagesOf(length, r.area.size) && Plain(r.area, pgd)
                  && !TakenIn(s, addr, addr + r.area.size) && r.area in s')
  {
    if length > 0 && addr + length <= VIRT_BASE && addr % 4096 == 0 {
      var vma := NewArea(pgd, addr, RoundUp(length));
      RegionRegular(pgd, addr, length);
      assert PagesOf(length, RoundUp(length));
      RefusedIff(s, vma);
      if !Refused(s, vma) {
        LinkedOrdered(s, vma);
      }
    }
  }

  /** The least number of whole pages that hold `length` bytes. */
  predicate PagesOf(length: nat, size: nat) {
    size % 4096 == 0 && length <= size < length + 4096
  }

  function BumpAddress(bump: u32): u32 {
    Wrap(MMAP_BASE + bump * 4096)
  }

  class Task {
    const pgd: nat
    var areas: seq<Area>
    var bump: u32

    constructor (pgd: nat)
      ensures this.pgd == pgd && areas == [] && bump == 0
    {
      this.pgd, areas, bump := pgd, [], 0;
    }

    /** `vma_create` */
    method Create(addr: u32, size: u32) returns (r: Outcome)
      modifies `areas
      ensures var vma := NewArea(pgd, addr, size);
              r == if addr % 4096 != 0 then Failed(EINVAL)
                   else if Refused(old(areas), vma) then Failed(ENOMEM) else Mapped(vma)
      ensures areas == if r.Mapped? then Linked(old(areas), r.area) else old(areas)
      ensures r.Mapped? ==> r.area.addr == addr && r.area.size == size && Plain(r.area, pgd)
    {
      if addr % 4096 != 0 {
        return Failed(EINVAL);
      }
      var vma := NewArea(pgd, addr, size);
      var i := 0;
      while i < |areas|
        invariant areas == old(areas) && i <= FirstAbove(areas, addr)
        invariant forall j :: 0 <= j < i ==> !Overlap(areas[j], vma)
      {
        if Overlap(areas[i], vma) {
          return Failed(ENOMEM);
        }
        if areas[i].addr > addr {
          areas := areas[i := vma];
          return Mapped(vma);
        }
        i := i + 1;
      }
      areas := areas + [vma];
      return Mapped(vma);
    }

    method DoMmap(addr: u32, length: u32) returns (r: Outcome)
      modifies `areas
      ensures (areas, r) == MmapAt(old(areas), pgd, addr, length)
    {
      if length == 0 {
        return Failed(EINVAL);
      }
      if addr + length >= TWO32 {
        return Failed(EOVERFLOW);
      }
      if addr + length > VIRT_BASE {
        return Failed(EEXIST);
      }
      r := Create(addr, RoundUp(length));
    }

    /** `sys_mmap`; the answer is the address, `-errno`, or `INVALID_ADDR`. */
    method SysMmap(addr: u32, length: u32, fixed: bool) returns (r: Outcome, answer: int)
      modifies this
      ensures addr == 0 && fixed ==> areas == old(areas) && bump == old(bump) && answer == INVALID_ADDR
      ensures addr != 0 ==> bump == old(bump) && (areas, r) == MmapAt(old(areas), pgd, addr, length)
      ensures addr == 0 && !fixed ==> (areas, bump, r) == MmapStep(old(areas), pgd, old(bump), length)
      ensures (addr != 0 || !fixed) && r.Mapped? ==> answer == r.area.addr
      ensures (addr != 0 || !fixed) && r.Failed? ==> answer == -Number(r.errno)
    {
      var at := addr;
      if at == 0 {
        if fixed {
          return Failed(EINVAL), INVALID_ADDR;
        }
        at := Wrap(MMAP_BASE + bump * 4096);
        bump := Wrap(bump + RoundUp(length) / 4096);
      }
      r := DoMmap(at, length);
      if r.Failed? {
        return r, -Number(r.errno);
      }
      answer := at;
    }
  }

  // ----- Runs of address-less mmaps -----

  function MmapStep(s: seq<Area>, pgd: nat, bump: u32, length: u32): (seq<Area>, u32, Outcome) {
    var (s', r) := MmapAt(s, pgd, BumpAddress(bump), length);
    (s', Wrap(bump + RoundUp(length) / 4096), r)
  }

  function Run(s: seq<Area>, pgd: nat, bump: u32, lengths: seq<u32>): (seq<Area>, seq<Outcome>)
    decreases |lengths|
  {
    if lengths == [] then (s, [])
    else
      var (s', bump', r) := MmapStep(s, pgd, bump, lengths[0]);
      var (end, rest) := Run(s', pgd, bump', lengths[1..]);
      (end, [r] + rest)
  }

  /** The pages a call moves the index by: those that hold `length` bytes, none if rounding up wraps. */
  function PageStep(length: u32): nat {
    if length <= 0xFFFF_F000 then (length + 4095) / 4096 else 0
  }

  function PageSum(lengths: seq<u32>): nat {
    if lengths == [] then 0 else PageStep(lengths[0]) + PageSum(lengths[1..])
  }

  /** If the call succeeded, its region is the pages from `at` on that hold `length` bytes. */
  predicate MadeAt(r: Outcome, pgd: nat, at: u32, length: u32) {
    r.Mapped? ==> r.area.addr == at && PagesOf(length, r.area.size) && Plain(r.area, pgd)
  }

  /** `n` pages behind those the index has passed. */
  function Place(bump: u32, n: nat): u32 {
    Wrap(0x4000_0000 + (bump + n) * 4096)
  }

  /** Which region each call of a run answers with: the pages of all calls before it, also of those that failed, lie
      between the base and its address. */
  lemma {:induction false} RunPlaces(s: seq<Area>, pgd: nat, bump: u32, lengths: seq<u32>, i: nat)
    requires Ordered(s) && i < |lengths|
    ensures var rs := Run(s, pgd, bump, lengths).1;
            |rs| == |lengths| && MadeAt(rs[i], pgd, Place(bump, PageSum(lengths[..i])), lengths[i])
    decreases |lengths|
  {
    var (s', bump', r) := MmapStep(s, pgd, bump, lengths[0]);
    var rest := Run(s', pgd, bump', lengths[1..]).1;
    assert Run(s, pgd, bump, lengths).1 == [r] + rest;
    if i > 0 {
      StepOrdered(s, pgd, BumpAddress(bump), lengths[0]);
      RunPlaces(s', pgd, bump', lengths[1..], i - 1);
      PlaceNext(bump, lengths, i, bump');
      assert ([r] + rest)[i] == rest[i - 1];
    } else {
      RunLength(s', pgd, bump', lengths[1..]);
      FirstMade(s, pgd, bump, lengths[0]);
    }
  }

  lemma PlaceNext(bump: u32, lengths: seq<u32>, i: nat, bump': u32)
    requires 0 < i < |lengths| && bump' == Wrap(bump + RoundUp(lengths[0]) / 4096)
    ensures lengths[1..][i - 1] == lengths[i]
    ensures Place(bump', PageSum(lengths[1..][..i - 1])) == Place(bump, PageSum(lengths[..i]))
  {
    assert lengths[..i][1..] == lengths[1..][..i - 1] && lengths[..i][0] == lengths[0];
    Stepped(bump, lengths[0], PageSum(lengths[1..][..i - 1]));
  }

  lemma FirstMade(s: seq<Area>, pgd: nat, bump: u32, length: u32)
    requires Ordered(s)
    ensures MadeAt(MmapStep(s, pgd, bump, length).2, pgd, Place(bump, 0), length)
  {
    MmapAnswers(s, pgd, BumpAddress(bump), length);
  }

  lemma {:induction false} RunLength(s: seq<Area>, pgd: nat, bump: u32, lengths: seq<u32>)
    ensures |Run(s, pgd, bump, lengths).1| == |lengths|
    decreases |lengths|
  {
    if lengths != [] {
      var (s', bump', r) := MmapStep(s, pgd, bump, lengths[0]);
      RunLength(s', pgd, bump', lengths[1..]);
    }
  }

  lemma StepOrdered(s: seq<Area>, pgd: nat, addr: u32, length: u32)
    requires Ordered(s)
    ensures Ordered(MmapAt(s, pgd, addr, length).0)
  {
    if length > 0 && addr + length <= VIRT_BASE && addr % 4096 == 0 {
      var vma := NewArea(pgd, addr, RoundUp(length));
      RegionRegular(pgd, addr, length);
      RefusedIff(s, vma);
      if !Refused(s, vma) {
        LinkedOrdered(s, vma);
      }
    }
  }

  lemma Stepped(bump: u32, length: u32, rest: nat)
    ensures Place(Wrap(bump + RoundUp(length) / 4096), rest) == Place(bump, PageStep(length) + rest)
  {
    assert RoundUp(length) / 4096 == PageStep(length);
    var x := bump + PageStep(length);
    if x >= TWO32 {
      assert Wrap(x) == x - TWO32;
      WrapDown(0x4000_0000 + (x - TWO32 + rest) * 4096, 4096);
    }
  }

  lemma {:induction false} WrapDown(x: nat, k: nat)
    ensures Wrap(x + k * TWO32) == Wrap(x)
  {
    if k > 0 {
      WrapDown(x, k - 1);
    }
  }

  /** The areas the calls answered with, in order. */
  function Answered(rs: seq<Outcome>): seq<Area> {
    if rs == [] then [] else (if rs[0].Mapped? then [rs[0].area] else []) + Answered(rs[1..])
  }

  /** The bump index has not carried an address around the end of the address space. */
  predicate NoWrap(bump: nat, lengths: seq<u32>)
    decreases |lengths|
  {
    lengths == [] || (bump < 0xC_0000 && NoWrap(bump + RoundUp(lengths[0]) / 4096, lengths[1..]))
  }

  /** All areas come from the bump allocator and lie below its index. */
  ghost predicate Bumped(s: seq<Area>, bump: nat) {
    && Ordered(s)
    && forall i :: 0 <= i < |s| ==>
         && MMAP_BASE <= s[i].addr && s[i].addr + s[i].size <= MMAP_BASE + bump * 4096
              && s[i].addr + s[i].size <= VIRT_BASE
         && s[i].addr % 4096 == 0 && s[i].size % 4096 == 0
  }

  /** One call succeeds exactly when the region fits below the kernel, and then appends it. */
  lemma MmapStepKeeps(s: seq<Area>, pgd: nat, bump: u32, length: u32)
    requires Bumped(s, bump) && bump < 0xC_0000
    ensures var (s', bump', r) := MmapStep(s, pgd, bump, length);
            && Bumped(s', bump') && bump' == bump + RoundUp(length) / 4096
            && (r.Mapped? <==> 0 < length && MMAP_BASE + bump * 4096 + length <= VIRT_BASE)
            && (r.Mapped? ==> r.area == NewArea(pgd, MMAP_BASE + bump * 4096, RoundUp(length)) && s' == s + [r.area])
            && (r.Failed? ==> s' == s)
  {
    var addr, pages := MMAP_BASE + bump * 4096, RoundUp(length) / 4096;
    BumpFacts(bump, length);
    if 0 < length && addr + length <= VIRT_BASE {
      BumpAppends(s, NewArea(pgd, addr, RoundUp(length)), bump, pages);
    } else {
      BumpMore(s, bump, bump + pages);
    }
  }

  lemma BumpMore(s: seq<Area>, bump: nat, bump': nat)
    requires Bumped(s, bump) && bump <= bump'
    ensures Bumped(s, bump')
  {
  }

  lemma BumpFacts(bump: u32, length: u32)
    requires bump < 0xC_0000
    ensures var addr := MMAP_BASE + bump * 4096;
            && BumpAddress(bump) == addr && addr % 4096 == 0 && RoundUp(length) == RoundUp(length) / 4096 * 4096
            && Wrap(bump + RoundUp(length) / 4096) == bump + RoundUp(length) / 4096
            && (0 < length && addr + length <= VIRT_BASE ==>
                 length <= RoundUp(length) && addr + RoundUp(length) <= VIRT_BASE)
  {
  }

  lemma BumpAppends(s: seq<Area>, vma: Area, bump: nat, pages: nat)
    requires Bumped(s, bump) && vma.addr == MMAP_BASE + bump * 4096 && Bounded(vma)
    requires vma.size == pages * 4096 && vma.addr + vma.size <= VIRT_BASE
    ensures !Refused(s, vma) && Linked(s, vma) == s + [vma] && Bumped(s + [vma], bump + pages)
  {
    AboveAppends(s, vma);
    BumpMore(s, bump, bump + pages);
    BumpedAdd(s, vma, bump + pages);
  }

  /** An area above all others is appended. */
  lemma AboveAppends(s: seq<Area>, vma: Area)
    requires Ordered(s) && Bounded(vma) && forall i :: 0 <= i < |s| ==> s[i].addr + s[i].size <= vma.addr
    ensures !Refused(s, vma) && Linked(s, vma) == s + [vma] && Ordered(s + [vma])
  {
    forall i | 0 <= i < |s|
      ensures s[i].addr < vma.addr && !Overlap(s[i], vma)
    {
      OverlapIff(s[i], vma);
    }
    var k := FirstAbove(s, vma.addr);
    assert k == |s|;
  }

  lemma BumpedAdd(s: seq<Area>, vma: Area, bump: nat)
    requires Bumped(s, bump) && Ordered(s + [vma]) && vma.addr % 4096 == 0 && vma.size % 4096 == 0
    requires MMAP_BASE <= vma.addr && vma.addr + vma.size <= MMAP_BASE + bump * 4096
    requires vma.addr + vma.size <= VIRT_BASE
    ensures Bumped(s + [vma], bump)
  {
  }

  /** From a list the bump allocator made, a run that does not wrap adds exactly what it answers. */
  lemma {:induction false} RunKeeps(s: seq<Area>, pgd: nat, bump: u32, lengths: seq<u32>)
    requires Bumped(s, bump) && NoWrap(bump, lengths)
    ensures NeverBelow(s, pgd, bump, lengths)
    decreases |lengths|
  {
    if lengths != [] {
      var (s', bump', r) := MmapStep(s, pgd, bump, lengths[0]);
      MmapStepKeeps(s, pgd, bump, lengths[0]);
      assert BumpAddress(bump) == MMAP_BASE + bump * 4096;
      RunKeeps(s', pgd, bump', lengths[1..]);
    }
  }

  /** No call of the run maps below an area that is there already: the guard of the walk is never true. */
  predicate NeverBelow(s: seq<Area>, pgd: nat, bump: u32, lengths: seq<u32>)
    decreases |lengths|
  {
    lengths == []
    || (var (s', bump', r) := MmapStep(s, pgd, bump, lengths[0]);
        (r.Mapped? ==> FirstAbove(s, BumpAddress(bump)) == |s|) && NeverBelow(s', pgd, bump', lengths[1..]))
  }

  /** A call makes the list longer by one exactly when it maps and nothing starts above the new area. */
  lemma MmapStepLength(s: seq<Area>, pgd: nat, bump: u32, length: u32)
    ensures var (s', bump', r) := MmapStep(s, pgd, bump, length);
            && (r.Failed? ==> s' == s)
            && (r.Mapped? ==> if FirstAbove(s, BumpAddress(bump)) == |s| then s' == s + [r.area] else |s'| == |s|)
  {
  }

  lemma {:induction false} RunShorter(s: seq<Area>, pgd: nat, bump: u32, lengths: seq<u32>)
    ensures var (end, rs) := Run(s, pgd, bump, lengths); |end| <= |s| + |Answered(rs)|
    decreases |lengths|
  {
    if lengths != [] {
      var (s', bump', r) := MmapStep(s, pgd, bump, lengths[0]);
      MmapStepLength(s, pgd, bump, lengths[0]);
      RunShorter(s', pgd, bump', lengths[1..]);
      AnsweredCons(r, Run(s', pgd, bump', lengths[1..]).1);
    }
  }

  lemma AnsweredCons(r: Outcome, rest: seq<Outcome>)
    ensures Answered([r] + rest) == (if r.Mapped? then [r.area] else []) + Answered(rest)
  {
    assert ([r] + rest)[1..] == rest;
  }

  /** From any list: a run leaves the old areas and then exactly the answered regions, in order, if and
      only if no call of it maps below an area that is there already. */
  lemma {:induction false} RunExactIff(s: seq<Area>, pgd: nat, bump: u32, lengths: seq<u32>)
    ensures var (end, rs) := Run(s, pgd, bump, lengths); end == s + Answered(rs) <==> NeverBelow(s, pgd, bump, lengths)
    decreases |lengths|
  {
    if lengths != [] {
      var (s', bump', r) := MmapStep(s, pgd, bump, lengths[0]);
      var (end, rest) := Run(s', pgd, bump', lengths[1..]);
      MmapStepLength(s, pgd, bump, lengths[0]);
      RunExactIff(s', pgd, bump', lengths[1..]);
      RunShorter(s', pgd, bump', lengths[1..]);
      AnsweredCons(r, rest);
      StepExact(s, s', r, end, Answered(rest), FirstAbove(s, BumpAddress(bump)));
    }
  }

  /** One call of a run whose later calls leave at most `added` behind what they found. */
  lemma StepExact(s: seq<Area>, s': seq<Area>, r: Outcome, end: seq<Area>, added: seq<Area>, k: nat)
    requires k <= |s| && |end| <= |s'| + |added| && (r.Failed? ==> s' == s)
    requires r.Mapped? ==> if k == |s| then s' == s + [r.area] else |s'| == |s|
    ensures end == s + ((if r.Mapped? then [r.area] else []) + added)
            <==> (r.Mapped? ==> k == |s|) && end == s' + added
  {
    if r.Mapped? && k == |s| {
      assert s + ([r.area] + added) == s' + added;
    } else if r.Failed? {
      assert [] + added == added;
    }
  }

  /** Regions that mappings make: page-aligned, below the kernel. */
  predicate Regular(a: Area) {
    Bounded(a) && a.addr % 4096 == 0 && a.size % 4096 == 0 && a.addr + a.size <= VIRT_BASE
  }

  ghost predicate AllRegular(s: seq<Area>) {
    Ordered(s) && forall i :: 0 <= i < |s| ==> Regular(s[i])
  }

  lemma MmapStepRegular(s: seq<Area>, pgd: nat, bump: u32, length: u32)
    requires AllRegular(s)
    ensures AllRegular(MmapStep(s, pgd, bump, length).0)
  {
    var addr := BumpAddress(bump);
    var vma := NewArea(pgd, addr, RoundUp(length));
    if MmapStep(s, pgd, bump, length).2.Mapped? {
      RegionRegular(pgd, addr, length);
      LinkedOrdered(s, vma);
    }
  }

  lemma RegionRegular(pgd: nat, addr: u32, length: u32)
    requires 0 < length && addr + length <= VIRT_BASE && addr % 4096 == 0
    ensures Regular(NewArea(pgd, addr, RoundUp(length)))
  {
    assert RoundUp(length) == (length + 4095) / 4096 * 4096;
  }

  /** Whatever the run does, the list stays ordered and disjoint, page-aligned and below the kernel. */
  lemma {:induction false} RunRegular(s: seq<Area>, pgd: nat, bump: u32, lengths: seq<u32>)
    requires AllRegular(s)
    ensures AllRegular(Run(s, pgd, bump, lengths).0)
    decreases |lengths|
  {
    if lengths != [] {
      var (s', bump', r) := MmapStep(s, pgd, bump, lengths[0]);
      MmapStepRegular(s, pgd, bump, lengths[0]);
      RunRegular(s', pgd, bump', lengths[1..]);
    }
  }

  /** From an empty list: always ordered, disjoint, page-aligned regions below the kernel, and exactly
      the answered ones if and only if no call maps below another; while the index has not carried
      an address around the address space, none does. */
  lemma MmapRunExact(pgd: nat, lengths: seq<u32>)
    ensures var (end, rs) := Run([], pgd, 0, lengths);
            && AllRegular(end) && (end == Answered(rs) <==> NeverBelow([], pgd, 0, lengths))
            && (NoWrap(0, lengths) ==> end == Answered(rs))
  {
    RunRegular([], pgd, 0, lengths);
    RunExactIff([], pgd, 0, lengths);
    var (end, rs) := Run([], pgd, 0, lengths);
    assert [] + Answered(rs) == Answered(rs);
    if NoWrap(0, lengths) {
      RunKeeps([], pgd, 0, lengths);
    }
  }

  /** A run for which it fails: a refused call still moves the index, the next address wraps to 0,
      and the area mapped there replaces the first one. */
  lemma MmapRunLosesArea()
    ensures var (end, rs) := Run([], 0, 0, [4096] + ([0xBFFF_F000] + ([4096] + [])));
            && rs == [Mapped(NewArea(0, MMAP_BASE, 4096))]
                     + ([Failed(EOVERFLOW)] + ([Mapped(NewArea(0, 0, 4096))] + []))
            && end == [NewArea(0, 0, 4096)]
  {
    var a, b := NewArea(0, MMAP_BASE, 4096), NewArea(0, 0, 4096);
    FirstMmap(a);
    LongMmap(a);
    WrappedMmap(a, b);
    RunCons([a], 0, 0xC_0000, 4096, []);
    RunCons([a], 0, 1, 0xBFFF_F000, [4096] + []);
    RunCons([], 0, 0, 4096, [0xBFFF_F000] + ([4096] + []));
  }

  lemma FirstMmap(a: Area)
    requires a == NewArea(0, MMAP_BASE, 4096)
    ensures MmapStep([], 0, 0, 4096) == ([a], 1, Mapped(a))
  {
    assert FirstAbove([], MMAP_BASE) == 0 && !Refused([], a) && Linked([], a) == [a];
  }

  lemma LongMmap(a: Area)
    ensures MmapStep([a], 0, 1, 0xBFFF_F000) == ([a], 0xC_0000, Failed(EOVERFLOW))
  {
  }

  lemma WrappedMmap(a: Area, b: Area)
    requires a == NewArea(0, MMAP_BASE, 4096) && b == NewArea(0, 0, 4096)
    ensures MmapStep([a], 0, 0xC_0000, 4096) == ([b], 0xC_0001, Mapped(b))
  {
    OverlapIff(a, b);
    assert FirstAbove([a], 0) == 0 && !Refused([a], b) && Linked([a], b) == [b];
  }

  lemma RunCons(s: seq<Area>, pgd: nat, bump: u32, length: u32, rest: seq<u32>)
    ensures var (s', bump', r) := MmapStep(s, pgd, bump, length);
            var (end, rs) := Run(s', pgd, bump', rest);
            Run(s, pgd, bump, [length] + rest) == (end, [r] + rs)
  {
    assert ([length] + rest)[1..] == rest;
  }

  // ----- The pages an area covers -----

  /** The page count is the number of pages of the size exactly for sizes below 2 GiB. */
  lemma PageCountIff(x: u32)
    requires 0 < x <= VIRT_BASE
    ensures CeilDiv(x) == (x + 4095) / 4096 <==> x < 0x8000_0000
  {
  }
}
