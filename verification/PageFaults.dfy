/**
 Demand paging: `vma_map_file` with the two kinds of `mmap` a file can have, and
 `vma_pagefault_handler` (mm/vmm.c), `generic_file_load_mapped_page` (fs/file.c) and
 `multiboot_fb_mmap` (kernel/multiboot.c).  The build maps whole areas (CONFIG_VMA_MAP_WHOLE).
 Stores of the handler itself go through the directory that faulted.
 */
module PageFaults {
  import opened Words
  import opened Common
  import opened PageEntry
  import opened PageTables
  import opened Paging
  import opened Bitmaps
  import opened PhysicalFrames
  import opened Areas

  /** What the handler answers; `Again` stands for a store of its own that faults, on the same address. */
  datatype Kind = Ignore | Crash | BusError | Again

  // ----- vma_map_file -----

  /** A mapped frame buffer of `limit` bytes; the page count is capped by the area's size. */
  function MapFramebuffer(a: Area, phys: u32, limit: u32): Area {
    a.(phys := phys, limit := limit,
         nPages := if CeilDiv(limit) > RoundUp(a.size) / 4096 then RoundUp(a.size) / 4096 else CeilDiv(limit))
  }

  /** A mapped ext2 file. */
  function MapExt2(a: Area, offset: u32): Area {
    a.(loads := true, fileOff := offset,
       nPages := if a.nPages > RoundUp(a.size) / 4096 then RoundUp(a.size) / 4096 else a.nPages)
  }

  // ----- Where faults make progress -----

  /** The first area of the list that holds the address, or the length of the list. */
  function FirstHit(s: seq<Area>, cr2: u32): (k: nat)
    ensures k <= |s| && (k < |s| ==> s[k].addr <= cr2 < Wrap(s[k].addr + s[k].size))
    ensures forall i :: 0 <= i < k ==> !(s[i].addr <= cr2 < Wrap(s[i].addr + s[i].size))
  {
    if s == [] || s[0].addr <= cr2 < Wrap(s[0].addr + s[0].size) then 0 else FirstHit(s[1..], cr2) + 1
  }

  /** The area occupies whole user pages, has no more of them than its size needs, and its first
      table can be made. */
  ghost predicate Placed(m: Mem, dir: nat, a: Area)
    requires WellFormed(m, dir)
  {
    && Bounded(a) && a.addr % 4096 == 0 && a.addr + a.size <= VIRT_BASE && a.nPages <= RoundUp(a.size) / 4096
    && a.fileOff % 4096 == 0 && (0x40_0000 <= a.addr || Table(m, dir, 0) != 0)
  }

  predicate InArea(a: Area, page: int) {
    a.addr / 4096 <= page < (a.addr + RoundUp(a.size)) / 4096
  }

  predicate OverLimit(a: Area, cr2: u32) {
    a.limit != 0 && cr2 >= Wrap(a.addr + a.limit)
  }

  /** The fault is for a page the handler will map. */
  predicate Progresses(a: Area, cr2: u32) {
    (a.phys == 0 && a.loads) || cr2 / 4096 - a.addr / 4096 < a.nPages
  }

  /** No address of the area that passes the limit check is out of reach of the mapped pages; none passes if
      the end of the limit wraps. */
  predicate Reachable(a: Area) {
    var end := if a.limit == 0 then a.size else if a.addr + a.limit >= TWO32 then 0 else Min(a.limit, a.size);
    end <= a.nPages * 4096
  }

  /** Every fault on the area makes progress exactly when its pages reach its limit. */
  lemma ProgressIff(a: Area)
    requires Bounded(a) && a.addr % 4096 == 0 && (a.phys != 0 || !a.loads)
    ensures (forall cr2: u32 :: Contains(a, cr2) && !OverLimit(a, cr2) ==> Progresses(a, cr2)) <==> Reachable(a)
  {
    if a.addr + a.limit >= TWO32 {
      assert Wrap(a.addr + a.limit) == a.addr + a.limit - TWO32;
    } else {
      assert Wrap(a.addr + a.limit) == a.addr + a.limit;
      if !Reachable(a) {
        var cr2: u32 := a.addr + a.nPages * 4096;
        assert Contains(a, cr2) && !OverLimit(a, cr2) && !Progresses(a, cr2);
      }
    }
  }

  /** Areas as `vma_create` makes them, below 2 GiB. */
  lemma NewAreaReachable(pgd: nat, addr: u32, size: u32)
    requires size < 0x8000_0000
    ensures var a := NewArea(pgd, addr, size); Reachable(a) && a.nPages <= RoundUp(size) / 4096
  {
  }

  /** A frame buffer area is reachable exactly when the buffer is not empty, except that the signed division
      goes wrong within two pages of 4 GiB, unless the end of the limit wraps. */
  lemma FramebufferReachableIff(a: Area, phys: u32, limit: u32)
    requires 0 < a.size < VIRT_BASE
    ensures Reachable(MapFramebuffer(a, phys, limit)) <==>
              limit != 0 && (|| limit <= 0xFFFF_E000 || limit == 0xFFFF_F000 || a.addr + limit >= TWO32
                             || (limit > 0xFFFF_F000 && a.size <= 4096))
  {
    assert RoundUp(a.size) == (a.size + 4095) / 4096 * 4096;
  }

  /** What a file's `mmap` makes of a placed area is placed. */
  lemma MappedStaysPlaced(m: Mem, dir: nat, a: Area, offset: u32, phys: u32, limit: u32)
    requires WellFormed(m, dir) && Placed(m, dir, a) && offset % 4096 == 0
    ensures Placed(m, dir, MapExt2(a, offset)) && MapExt2(a, offset).loads && MapExt2(a, offset).nPages == a.nPages
    ensures Placed(m, dir, MapFramebuffer(a, phys, limit))
  {
  }

  /** All fields of a mapped file's area: an ext2 file is loaded from the offset given, and a frame buffer below 2 GiB
      has the pages of its own that the area has room for. */
  lemma MappedFields(a: Area, offset: u32, phys: u32, limit: u32)
    requires Bounded(a) && a.addr + a.size <= VIRT_BASE && limit < 0x8000_0000
    ensures var e := MapExt2(a, offset);
            && e.addr == a.addr && e.size == a.size && e.limit == a.limit && e.phys == a.phys && e.pgd == a.pgd
            && e.loads && e.fileOff == offset && e.nPages == Min(a.nPages, (a.size + 4095) / 4096)
    ensures var f := MapFramebuffer(a, phys, limit);
            && f.addr == a.addr && f.size == a.size && f.limit == limit && f.phys == phys && f.pgd == a.pgd
            && f.loads == a.loads && f.fileOff == a.fileOff
            && f.nPages == Min((limit + 4095) / 4096, (a.size + 4095) / 4096)
  {
    assert RoundUp(a.size) == (a.size + 4095) / 4096 * 4096;
    assert CeilDiv(limit) == (limit + 4095) / 4096;
  }

  // ----- Two address spaces -----

  /** A directory that shares no user table with `dir`, nor is one of its pages. */
  ghost predicate Apart(m: Mem, dir: nat, other: nat)
    requires WellFormed(m, dir) && WellFormed(m, other)
  {
    && !Owns(m, dir, other)
    && !Owns(m, other, dir)
    && forall s: nat, t: nat :: s < USER_SLOTS && t < ENTRIES && Table(m, other, t) != 0 ==>
         Table(m, dir, s) != Table(m, other, t)
  }

  /** Mapping user pages in one leaves the other's view alone. */
  lemma OtherViewKept(m: Mem, m': Mem, dir: nat, other: nat, pool: set<nat>)
    requires WellFormed(m, dir) && WellFormed(m', dir) && WellFormed(m, other) && Apart(m, dir, other) && Sized(m')
    requires Grown(m, m', dir, pool)
    requires forall q :: 0xC_0000 <= q < PAGES ==> View(m', dir)[q] == View(m, dir)[q]
    ensures WellFormed(m', other) && View(m', other) == View(m, other)
  {
    assert m'[other] == m[other];
    assert forall t: nat :: t < ENTRIES ==> Table(m', other, t) == Table(m, other, t);
    forall t: nat | t < ENTRIES && Table(m, other, t) != 0
      ensures Table(m, other, t) in m' && m'[Table(m, other, t)] == m[Table(m, other, t)]
    {
      SharedTableKept(m, m', dir, other, pool, t);
    }
    KeepsWellFormed(m, other, m', other);
    forall q: nat | q < PAGES
      ensures Entry(m', other, q) == Entry(m, other, q)
    {
      assert q / 1024 < ENTRIES;
    }
  }

  lemma SharedTableKept(m: Mem, m': Mem, dir: nat, other: nat, pool: set<nat>, t: nat)
    requires WellFormed(m, dir) && WellFormed(m', dir) && WellFormed(m, other) && Apart(m, dir, other)
    requires Grown(m, m', dir, pool) && t < ENTRIES && Table(m, other, t) != 0
    requires forall q :: 0xC_0000 <= q < PAGES ==> View(m', dir)[q] == View(m, dir)[q]
    ensures Table(m, other, t) in m' && m'[Table(m, other, t)] == m[Table(m, other, t)]
  {
    var a := Table(m, other, t);
    if Owns(m, dir, a) {
      var s: nat :| s < ENTRIES && Table(m, dir, s) == a;
      assert s >= USER_SLOTS && Table(m', dir, s) == a;
      forall i | 0 <= i < ENTRIES
        ensures m'[a][i] == m[a][i]
      {
        var q := s * 1024 + i;
        assert q / 1024 == s && q % 1024 == i;
        assert View(m', dir)[q] == Entry(m', dir, q) && View(m, dir)[q] == Entry(m, dir, q);
      }
      assert m'[a] == m[a];
    }
  }

  // ----- The handler -----

  /** Bit 9 of an entry. */
  predicate CopyOnWrite(e: u32) {
    e / 512 % 2 == 1
  }

  /** The `read` of a file: the bytes it returns for 4096 bytes at an offset, which it then moves by their number. */
  type Reader = u32 -> seq<byte>

  function Aligned(x: u32): u32 {
    x - x % 4096
  }

  /** The answer of `load_page`; `file` is `None` if the file has no `read`. */
  function LoadKind(a: Area, dir: nat, offset: u32, file: Option<Reader>): Kind {
    match file
    case None => Crash
    case Some(read) =>
      if Wrap(Aligned(offset) + |read(Aligned(offset))|) <= offset then BusError
      else if a.pgd == dir then Ignore else Again
  }

  /** Where in the file the page of an address is. */
  function FileOffset(a: Area, cr2: u32): u32 {
    Wrap(Aligned(cr2) - a.addr + a.fileOff)
  }

  /** What `load_page` read. */
  function FileBytes(offset: u32, file: Option<Reader>): seq<byte> {
    match file
    case None => []
    case Some(read) => read(Aligned(offset))
  }

  /** The answer to a fault on a page that is not present. */
  function FaultKind(a: Area, dir: nat, cr2: u32, file: Option<Reader>): Kind {
    if OverLimit(a, cr2) then BusError
    else if a.phys == 0 && a.loads then LoadKind(a, dir, FileOffset(a, cr2), file) else Ignore
  }

  /** What a fault does to the faulting directory's view when the answer is Ignore. */
  ghost predicate Resolved(a: Area, cr2: u32, v: seq<u32>, v': seq<u32>)
    requires |v| == |v'| == PAGES
  {
    && (Present(v'[cr2 / 4096]) <==> Progresses(a, cr2))
    && forall q :: 0 <= q < PAGES && !InArea(a, q) ==> v'[q] == v[q]
  }

  // ----- The contents of frames -----

  type Ram = map<nat, seq<byte>>

  /** The frame bitmap, the pages the current task sees, and the contents of the frames. */
  datatype Memory = Memory(bits: seq<bool>, view: seq<u32>, ram: Ram)

  /** `data` at the start of frame `f`; an address without memory behind it takes no store. */
  function StoredIn(ram: Ram, f: nat, data: seq<byte>): Ram {
    if f in ram && |data| <= |ram[f]| then ram[f := data + ram[f][|data|..]] else ram
  }

  /** A page of `n` pages from `from` on is mapped to frame `f`. */
  ghost predicate Backs(v: seq<u32>, from: nat, n: nat, f: nat) {
    exists q :: from <= q < from + n && q < |v| && Address(v[q]) == f
  }

  function ZeroBytes(n: nat): seq<byte> {
    seq(n, _ => 0)
  }

  /** All frames behind those pages are zero, the others as they were. */
  ghost predicate ZeroedIn(ram: Ram, ram': Ram, v: seq<u32>, from: nat, n: nat) {
    && ram'.Keys == ram.Keys
    && forall f :: f in ram ==> ram'[f] == if Backs(v, from, n, f) then ZeroBytes(|ram[f]|) else ram[f]
  }

  /** Without a run of free frames the second page of an anonymous area is mapped to physical page 0. */
  lemma NoRunMapsPageZero(bits: seq<bool>, v: seq<u32>, from: nat, n: u32, user: bool)
    requires 2 <= n && from + n <= |v| && FirstRun(bits, n, false) < 0
    ensures Address(MapRange(v, from, AllocAddr(bits, n), n, user, true)[from + 1]) == 0
  {
    NoRunAddr(bits, n);
    EntryRoundTrip(0, true, user);
    assert Wrap(0xFFFF_F000 + 1 * 4096) == 0;
  }

  class FaultHandler {
    const pages: Pages
    const frames: Frames
    const kernelPgd: nat
    /** The current task. */
    const pgd: nat
    var areas: seq<Area>
    var ram: Ram

    constructor (pages: Pages, frames: Frames, kernelPgd: nat, pgd: nat, areas: seq<Area>, ram: Ram)
      ensures this.pages == pages && this.frames == frames && this.kernelPgd == kernelPgd && this.pgd == pgd
      ensures this.areas == areas && this.ram == ram
    {
      this.pages, this.frames, this.kernelPgd, this.pgd := pages, frames, kernelPgd, pgd;
      this.areas, this.ram := areas, ram;
    }

    /** The area lies where it can be mapped, in a directory that is the task's own or apart from it. */
    ghost predicate Usable(a: Area)
      reads this, pages
    {
      && frames.Valid() && pages.Ready(pgd) && pages.Ready(a.pgd)
      && Placed(pages.mem, pgd, a) && Placed(pages.mem, a.pgd, a) && (a.pgd != pgd ==> Apart(pages.mem, a.pgd, pgd))
    }

    ghost function Now(): (s: Memory)
      requires frames.Valid() && pages.Ready(pgd)
      reads this, pages, frames.bitmap.bits
    {
      Memory(frames.bitmap.Bits(), View(pages.mem, pgd), ram)
    }

    /** `map_addr`: `n` frames in a row, if there are; false stands for the panic without table memory. */
    method MapAddr(dir: nat, vaddr: u32, n: u32, user: bool, overwrite: bool) returns (phys: u32, ok: bool)
      requires frames.Valid() && pages.Ready(dir) && vaddr / 4096 + n <= PAGES
      requires (PdeIndex(vaddr) != 0 || Table(pages.mem, dir, 0) != 0)
      modifies pages, frames.bitmap.bits
      ensures frames.Valid() && frames.bitmap.Bits() == AllocBits(old(frames.bitmap.Bits()), n)
      ensures phys == AllocAddr(old(frames.bitmap.Bits()), n)
      ensures pages.Ready(dir) && Grown(old(pages.mem), pages.mem, dir, old(pages.pool))
      ensures ok ==> View(pages.mem, dir) == MapRange(old(View(pages.mem, dir)), vaddr / 4096, phys, n, user, overwrite)
    {
      phys := frames.Alloc(n);
      ok := pages.MapAddrFixed(dir, vaddr, phys, n, user, overwrite);
    }

    /** The page of `vaddr` gets a frame, in the directory of the area. */
    method MapLoaded(a: Area, vaddr: u32) returns (phys: u32, ok: bool)
      requires Usable(a) && vaddr < VIRT_BASE && (PdeIndex(vaddr) != 0 || Table(pages.mem, a.pgd, 0) != 0)
      modifies pages, frames.bitmap.bits
      ensures phys == AllocAddr(old(frames.bitmap.Bits()), 1) && (ok ==> pages.Ready(pgd))
      ensures frames.Valid() && frames.bitmap.Bits() == AllocBits(old(frames.bitmap.Bits()), 1)
      ensures ok ==> View(pages.mem, pgd) == if a.pgd != pgd then old(View(pages.mem, pgd))
                     else old(View(pages.mem, pgd))[vaddr / 4096 := MakeEntry(phys, true, pgd != kernelPgd)]
    {
      ghost var m, pool, v, p := pages.mem, pages.pool, View(pages.mem, a.pgd), vaddr / 4096;
      var user := a.pgd != kernelPgd;
      phys, ok := MapAddr(a.pgd, vaddr, 1, user, true);
      if ok {
        OnePage(v, p, phys, user);
        if a.pgd != pgd {
          OtherViewKept(m, pages.mem, a.pgd, pgd, pool);
        }
      }
    }

    /** `memcpy` to user memory: a store through the directory that faulted; false if it faults. */
    method CopyOut(vaddr: u32, data: seq<byte>) returns (stored: bool)
      requires pages.Ready(pgd)
      modifies `ram
      ensures stored <==> Present(View(pages.mem, pgd)[vaddr / 4096])
      ensures ram == if stored then StoredIn(old(ram), Address(View(pages.mem, pgd)[vaddr / 4096]), data) else old(ram)
    {
      assert vaddr / 4096 / 1024 == PdeIndex(vaddr)
             && View(pages.mem, pgd)[vaddr / 4096] == Entry(pages.mem, pgd, vaddr / 4096);
      var t := Table(pages.mem, pgd, PdeIndex(vaddr));
      if t == 0 {
        assert !Present(0);
        return false;
      }
      var e := pages.mem[t][PteIndex(vaddr)];
      stored := Present(e);
      if stored {
        ram := StoredIn(ram, Address(e), data);
      }
    }

    /** `generic_file_load_mapped_page` for a page that is absent where the fault was. */
    method LoadPage(a: Area, vaddr: u32, offset: u32, file: Option<Reader>) returns (k: Kind, ok: bool)
      requires Usable(a) && vaddr < VIRT_BASE && (PdeIndex(vaddr) != 0 || Table(pages.mem, a.pgd, 0) != 0)
      requires !Present(View(pages.mem, pgd)[vaddr / 4096])
      modifies pages, frames.bitmap.bits, `ram
      ensures ok ==> k == LoadKind(a, pgd, offset, file) && frames.Valid() && pages.Ready(pgd)
      ensures k == Crash || k == BusError ==> ok && pages.mem == old(pages.mem) && Now() == old(Now())
      ensures ok && k == Again ==> Now() == old(Now()).(bits := AllocBits(old(Now()).bits, 1))
      ensures ok && k == Ignore ==> Loaded(pgd != kernelPgd, vaddr, FileBytes(offset, file), old(Now()), Now())
    {
      if file.None? {
        return Crash, true;
      }
      var aligned := Aligned(offset);
      var buf := file.value(aligned);
      aligned := Wrap(aligned + |buf|);
      if aligned <= offset {
        return BusError, true;
      }
      var phys;
      phys, ok := MapLoaded(a, vaddr);
      if !ok {
        return Again, false;
      }
      EntryRoundTrip(phys, true, pgd != kernelPgd);
      var stored := CopyOut(vaddr, buf);
      k := if stored then Ignore else Again;
    }

    /** The walk over the areas. */
    method FindArea(cr2: u32) returns (k: nat)
      ensures k == FirstHit(areas, cr2)
    {
      k := 0;
      while k < |areas|
        invariant k <= FirstHit(areas, cr2)
      {
        if areas[k].addr <= cr2 < Wrap(areas[k].addr + areas[k].size) {
          return;
        }
        k := k + 1;
      }
    }

    /** `vma_pagefault_handler`; `present` and `write` are the fault's error bits, `anon` the MAP_ANON flag of
        the area that is hit. */
    method PageFault(cr2: u32, present: bool, write: bool, anon: bool, file: Option<Reader>)
      returns (k: Kind, ok: bool)
      requires frames.Valid() && pages.Ready(pgd) && (present <==> Present(View(pages.mem, pgd)[cr2 / 4096]))
      requires FirstHit(areas, cr2) < |areas| ==> Usable(areas[FirstHit(areas, cr2)])
      requires FirstHit(areas, cr2) < |areas| && anon ==> !areas[FirstHit(areas, cr2)].loads
      modifies pages, frames.bitmap.bits, `ram
      ensures ok ==> frames.Valid() && pages.Ready(pgd)
      ensures ok && !present ==>
                k == if FirstHit(areas, cr2) == |areas| then Crash
                     else FaultKind(areas[FirstHit(areas, cr2)], pgd, cr2, file)
      ensures present || k == Crash || k == BusError ==> ok && pages.mem == old(pages.mem) && Now() == old(Now())
      ensures ok && k == Again ==> Now() == old(Now()).(bits := AllocBits(old(Now()).bits, 1))
      ensures ok && !present && k == Ignore ==>
                Served(areas[FirstHit(areas, cr2)], pgd != kernelPgd, cr2, anon, file, old(Now()), Now())
      ensures present ==> k == if FirstHit(areas, cr2) < |areas| && write
              && CopyOnWrite(old(View(pages.mem, pgd))[cr2 / 4096]) then Ignore else Crash
    {
      var i := FindArea(cr2);
      if i == |areas| {
        return Crash, true;
      }
      if present {
        k := Violation(cr2, write);
        return k, true;
      }
      k, ok := AbsentPage(areas[i], cr2, anon, file);
    }

    /** The part for a page that is not present, in the area that is hit. */
    method AbsentPage(a: Area, cr2: u32, anon: bool, file: Option<Reader>) returns (k: Kind, ok: bool)
      requires Usable(a) && Contains(a, cr2) && !Present(View(pages.mem, pgd)[cr2 / 4096]) && (anon ==> !a.loads)
      modifies pages, frames.bitmap.bits, `ram
      ensures ok ==> k == FaultKind(a, pgd, cr2, file) && frames.Valid() && pages.Ready(pgd)
      ensures k == Crash || k == BusError ==> ok && pages.mem == old(pages.mem) && Now() == old(Now())
      ensures ok && k == Again ==> Now() == old(Now()).(bits := AllocBits(old(Now()).bits, 1))
      ensures ok && k == Ignore ==> Served(a, pgd != kernelPgd, cr2, anon, file, old(Now()), Now())
    {
      if OverLimit(a, cr2) {
        return BusError, true;
      }
      if a.phys == 0 && a.loads {
        k, ok := LoadFault(a, cr2, file);
      } else {
        ok := MapWhole(a, cr2, anon);
        k := Ignore;
      }
    }

    /** A fault on a present page: nothing is mapped, and only a write to a page marked copy-on-write is let go. */
    method Violation(cr2: u32, write: bool) returns (k: Kind)
      requires pages.Ready(pgd) && Present(View(pages.mem, pgd)[cr2 / 4096])
      ensures k == if write && CopyOnWrite(View(pages.mem, pgd)[cr2 / 4096]) then Ignore else Crash
    {
      if !write {
        return Crash;
      }
      assert cr2 / 4096 / 1024 == PdeIndex(cr2)
           && View(pages.mem, pgd)[cr2 / 4096] == Entry(pages.mem, pgd, cr2 / 4096);
      var t := Table(pages.mem, pgd, PdeIndex(cr2));
      k := if CopyOnWrite(pages.mem[t][PteIndex(cr2)]) then Ignore else Crash;
    }

    /** The branches that map the whole area: at its physical address, or in fresh frames, which are cleared if
        the area is anonymous. */
    method MapWhole(a: Area, cr2: u32, anon: bool) returns (ok: bool)
      requires Usable(a)
      requires (a.phys != 0 || !a.loads) && Contains(a, cr2) && !Present(View(pages.mem, pgd)[cr2 / 4096])
      modifies pages, frames.bitmap.bits, `ram
      ensures frames.Valid() && pages.Ready(pgd)
      ensures ok ==> Resolved(a, cr2, old(Now()).view, Now().view)
      ensures ok ==> WholeMapped(a, pgd != kernelPgd, old(Now()), Now()) && Cleared(a, anon, old(Now()), Now())
    {
      var user, phys := pgd != kernelPgd, a.phys;
      AreaRange(a);
      if phys != 0 {
        ok := pages.MapAddrFixed(pgd, a.addr, phys, a.nPages, user, true);
      } else {
        phys, ok := MapAddr(pgd, a.addr, a.nPages, user, true);
      }
      if ok {
        RangeResolved(a, cr2, old(View(pages.mem, pgd)), phys, user);
        if anon {
          RangePresent(old(View(pages.mem, pgd)), a.addr / 4096, phys, a.nPages, user);
          Zero(a.addr / 4096, a.nPages);
        }
      }
    }

    /** `memset` over mapped pages, through the directory that faulted. */
    method Zero(from: nat, n: nat)
      requires pages.Ready(pgd) && from + n <= PAGES
      requires forall q :: from <= q < from + n ==> Present(View(pages.mem, pgd)[q])
      modifies `ram
      ensures ZeroedIn(old(ram), ram, View(pages.mem, pgd), from, n)
    {
      ghost var v := View(pages.mem, pgd);
      for i := 0 to n
        invariant ZeroedIn(old(ram), ram, v, from, i)
      {
        assert v[from + i] == Entry(pages.mem, pgd, from + i) && Present(v[from + i]) && !Present(0);
        var t := Table(pages.mem, pgd, (from + i) / 1024);
        var f := Address(pages.mem[t][(from + i) % 1024]);
        ZeroedMore(old(ram), ram, v, from, i);
        if f in ram {
          ram := ram[f := ZeroBytes(|ram[f]|)];
        }
      }
    }

    /** The branch for areas whose pages come from a file. */
    method LoadFault(a: Area, cr2: u32, file: Option<Reader>) returns (k: Kind, ok: bool)
      requires Usable(a) && a.phys == 0 && a.loads && Contains(a, cr2)
      requires !Present(View(pages.mem, pgd)[cr2 / 4096])
      modifies pages, frames.bitmap.bits, `ram
      ensures ok ==> k == LoadKind(a, pgd, FileOffset(a, cr2), file) && frames.Valid() && pages.Ready(pgd)
      ensures k == Crash || k == BusError ==> ok && pages.mem == old(pages.mem) && Now() == old(Now())
      ensures ok && k == Again ==> Now() == old(Now()).(bits := AllocBits(old(Now()).bits, 1))
      ensures ok && k == Ignore ==>
                && Resolved(a, cr2, old(Now()).view, Now().view)
                && Loaded(pgd != kernelPgd, cr2, FileBytes(FileOffset(a, cr2), file), old(Now()), Now())
    {
      var aligned := Aligned(cr2);
      LoadedPage(a, cr2);
      k, ok := LoadPage(a, aligned, Wrap(aligned - a.addr + a.fileOff), file);
      if ok && k == Ignore {
        LoadedResolves(a, pgd != kernelPgd, cr2, aligned, FileBytes(FileOffset(a, cr2), file), old(Now()), Now());
      }
    }
  }

  /** The page of the address has a frame, the one `pmm_alloc` answered with, and the bytes read are in it. */
  ghost predicate Loaded(user: bool, cr2: u32, data: seq<byte>, s: Memory, s': Memory)
    requires |s.view| == |s'.view| == PAGES
  {
    && s'.bits == AllocBits(s.bits, 1) && Present(s'.view[cr2 / 4096])
    && s'.view == s.view[cr2 / 4096 := MakeEntry(AllocAddr(s.bits, 1), true, user)]
    && s'.ram == StoredIn(s.ram, Address(s'.view[cr2 / 4096]), data)
  }

  lemma LoadedResolves(a: Area, user: bool, cr2: u32, aligned: u32, data: seq<byte>, s: Memory, s': Memory)
    requires |s.view| == |s'.view| == PAGES && Loaded(user, aligned, data, s, s') && aligned / 4096 == cr2 / 4096
    requires InArea(a, cr2 / 4096) && a.phys == 0 && a.loads
    ensures Loaded(user, cr2, data, s, s') && Resolved(a, cr2, s.view, s'.view)
  {
  }

  /** All pages of the area are mapped, to its physical address or the frames `pmm_alloc` answered with. */
  ghost predicate WholeMapped(a: Area, user: bool, s: Memory, s': Memory)
    requires |s.view| == |s'.view| == PAGES
  {
    && a.addr / 4096 + a.nPages <= PAGES
    && s'.bits == (if a.phys != 0 then s.bits else AllocBits(s.bits, a.nPages))
    && s'.view == MapRange(s.view, a.addr / 4096, if a.phys != 0 then a.phys else AllocAddr(s.bits, a.nPages),
                           a.nPages, user, true)
  }

  ghost predicate Cleared(a: Area, anon: bool, s: Memory, s': Memory) {
    if anon then ZeroedIn(s.ram, s'.ram, s'.view, a.addr / 4096, a.nPages) else s'.ram == s.ram
  }

  /** What an answer Ignore means for a page that was not present. */
  ghost predicate Served(a: Area, user: bool, cr2: u32, anon: bool, file: Option<Reader>, s: Memory, s': Memory)
    requires |s.view| == |s'.view| == PAGES
  {
    && Resolved(a, cr2, s.view, s'.view)
    && if a.phys == 0 && a.loads then Loaded(user, cr2, FileBytes(FileOffset(a, cr2), file), s, s')
       else WholeMapped(a, user, s, s') && Cleared(a, anon, s, s')
  }

  /** The frames of an anonymous area were free exactly if there was a run of that many. */
  lemma MappedFramesFreeIff(a: Area, user: bool, s: Memory, s': Memory)
    requires |s.view| == |s'.view| == PAGES && WholeMapped(a, user, s, s') && a.phys == 0 && 0 < a.nPages
    requires |s.bits| <= PAGES && (|s.bits| > 0 && !s.bits[0] ==> |s.bits| < PAGES)
    ensures (forall q :: a.addr / 4096 <= q < a.addr / 4096 + a.nPages ==>
               IsFree(s.bits, Address(s'.view[q]) / 4096))
            <==> FirstRun(s.bits, a.nPages, false) >= 0
  {
    var bits, v, v' := s.bits, s.view, s'.view;
    var phys, n, from := AllocAddr(bits, a.nPages), a.nPages, a.addr / 4096;
    AllocFreeIff(bits, n);
    forall q | from <= q < from + n
      ensures Address(v'[q]) / 4096 == FrameAt(phys, q - from)
    {
      FrameOf(v, from, phys, n, user, q - from);
    }
    FramesOfView(bits, phys, n, v', from);
  }

  lemma FramesOfView(bits: seq<bool>, phys: u32, n: nat, v: seq<u32>, from: nat)
    requires from + n <= |v| && forall q :: from <= q < from + n ==> Address(v[q]) / 4096 == FrameAt(phys, q - from)
    ensures FramesFree(bits, phys, n) <==> forall q :: from <= q < from + n ==> IsFree(bits, Address(v[q]) / 4096)
  {
    if forall q :: from <= q < from + n ==> IsFree(bits, Address(v[q]) / 4096) {
      forall i: nat | i < n
        ensures IsFree(bits, FrameAt(phys, i))
      {
        assert Address(v[from + i]) / 4096 == FrameAt(phys, (from + i) - from);
      }
    }
  }

  lemma FrameOf(v: seq<u32>, from: nat, phys: u32, n: nat, user: bool, i: nat)
    requires from + n <= |v| && i < n
    ensures var e := MapRange(v, from, phys, n, user, true)[from + i];
            Present(e) && Address(e) / 4096 == FrameAt(phys, i)
  {
    EntryRoundTrip(Wrap(phys + i * 4096), true, user);
  }

  lemma RangePresent(v: seq<u32>, from: nat, phys: u32, n: nat, user: bool)
    requires from + n <= |v|
    ensures forall q :: from <= q < from + n ==> Present(MapRange(v, from, phys, n, user, true)[q])
  {
    forall q | from <= q < from + n
      ensures Present(MapRange(v, from, phys, n, user, true)[q])
    {
      FrameOf(v, from, phys, n, user, q - from);
    }
  }

  /** One more page of the range. */
  lemma ZeroedMore(ram: Ram, ram': Ram, v: seq<u32>, from: nat, i: nat)
    requires ZeroedIn(ram, ram', v, from, i) && from + i < |v|
    ensures var f := Address(v[from + i]);
            ZeroedIn(ram, if f in ram' then ram'[f := ZeroBytes(|ram'[f]|)] else ram', v, from, i + 1)
  {
    var f := Address(v[from + i]);
    forall g | g in ram
      ensures Backs(v, from, i + 1, g) <==> Backs(v, from, i, g) || g == f
    {
      if Backs(v, from, i + 1, g) {
        var q :| from <= q < from + (i + 1) && q < |v| && Address(v[q]) == g;
        assert q == from + i || Backs(v, from, i, g);
      }
      if g == f {
        assert Address(v[from + i]) == g;
      }
      if Backs(v, from, i, g) {
        var q :| from <= q < from + i && q < |v| && Address(v[q]) == g;
        assert Backs(v, from, i + 1, g);
      }
    }
  }

  lemma AreaRange(a: Area)
    requires a.addr % 4096 == 0 && a.addr + a.size <= VIRT_BASE && a.nPages <= RoundUp(a.size) / 4096
    ensures a.addr / 4096 + a.nPages <= PAGES && (0x40_0000 <= a.addr ==> PdeIndex(a.addr) != 0)
  {
  }

  lemma OnePage(v: seq<u32>, p: nat, phys: u32, user: bool)
    requires p < |v|
    ensures MapRange(v, p, phys, 1, user, true) == v[p := MakeEntry(phys, true, user)]
  {
    assert Wrap(phys) == phys;
  }

  lemma LoadedPage(a: Area, cr2: u32)
    requires Bounded(a) && a.addr % 4096 == 0 && a.addr + a.size <= VIRT_BASE && Contains(a, cr2)
    ensures InArea(a, cr2 / 4096) && cr2 < VIRT_BASE && (cr2 - cr2 % 4096) / 4096 == cr2 / 4096
    ensures a.addr <= cr2 - cr2 % 4096
  {
  }

  lemma RangeResolved(a: Area, cr2: u32, v: seq<u32>, phys: u32, user: bool)
    requires |v| == PAGES && Bounded(a) && a.addr % 4096 == 0 && a.addr + a.size <= VIRT_BASE
    requires a.nPages <= RoundUp(a.size) / 4096
    requires (a.phys != 0 || !a.loads) && Contains(a, cr2) && !Present(v[cr2 / 4096])
    ensures a.addr / 4096 + a.nPages <= PAGES
    ensures Resolved(a, cr2, v, MapRange(v, a.addr / 4096, phys, a.nPages, user, true))
  {
    var v' := MapRange(v, a.addr / 4096, phys, a.nPages, user, true);
    var p := cr2 / 4096;
    EntryRoundTrip(Wrap(phys + (p - a.addr / 4096) * 4096), true, user);
  }
}
