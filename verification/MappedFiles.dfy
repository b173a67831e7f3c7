/**
 Demand-loaded pages stated by the file's contents: where the bytes of a page come from, what
 `vma_pagefault_handler` (mm/vmm.c) answers and what `generic_file_load_mapped_page` (fs/file.c)
 leaves in the frame, for any file and for files of fs/ext2.c from the bytes on the disk.
 */
module MappedFiles {
  import opened Words
  import opened Common
  import opened PageEntry
  import opened PageTables
  import opened Bitmaps
  import opened PhysicalFrames
  import opened Areas
  import opened PageFaults
  import E = Ext2
  import F = Ext2File
  import D = Ext2Disk

  /** The bytes a file has for a page at offset `from`. */
  function Piece(contents: seq<byte>, from: nat): seq<byte> {
    if from >= |contents| then [] else contents[from..Min(from + 4096, |contents|)]
  }

  /** `from` is the file offset of the page of `cr2`, in 32 bits. */
  predicate PageFrom(a: Area, cr2: u32, from: u32) {
    var at := cr2 / 4096 * 4096 - a.addr + a.fileOff;
    a.addr % 4096 == 0 && a.fileOff % 4096 == 0 && (from == at || from + TWO32 == at)
  }

  /** The address is at or behind the end of the area's limit, in 32 bits. */
  predicate Limited(a: Area, cr2: u32) {
    a.limit != 0 && (if a.addr + a.limit < TWO32 then cr2 >= a.addr + a.limit else cr2 >= a.addr + a.limit - TWO32)
  }

  predicate FromFile(a: Area) {
    a.phys == 0 && a.loads
  }

  lemma OffsetIs(a: Area, cr2: u32, from: u32)
    requires PageFrom(a, cr2, from)
    ensures FileOffset(a, cr2) == from && Aligned(from) == from
  {
    var at := Aligned(cr2) - a.addr + a.fileOff;
    assert Aligned(cr2) == cr2 / 4096 * 4096;
    WholePages(cr2 / 4096, a.addr, a.fileOff, from);
  }

  lemma WholePages(p: nat, addr: u32, off: u32, from: u32)
    requires addr % 4096 == 0 && off % 4096 == 0
    requires from == p * 4096 - addr + off || from + TWO32 == p * 4096 - addr + off
    ensures from % 4096 == 0
  {
    var k := p - addr / 4096 + off / 4096;
    assert k * 4096 == p * 4096 - addr + off;
  }

  lemma LimitIs(a: Area, cr2: u32)
    ensures OverLimit(a, cr2) <==> Limited(a, cr2)
  {
    if a.addr + a.limit < TWO32 {
      assert Wrap(a.addr + a.limit) == a.addr + a.limit;
    } else {
      assert Wrap(a.addr + a.limit) == a.addr + a.limit - TWO32;
    }
  }

  /** Whatever at most 4096 bytes `read` returns: a bus error exactly if there are none or the offset behind them
      wraps. */
  lemma LoadIs(a: Area, dir: nat, cr2: u32, file: Option<Reader>, from: u32)
    requires PageFrom(a, cr2, from) && (file.Some? ==> |file.value(from)| <= 4096)
    ensures var k := LoadKind(a, dir, FileOffset(a, cr2), file);
            && (k == Crash <==> file.None?)
            && (k == BusError <==> file.Some? && (file.value(from) == [] || from + |file.value(from)| >= TWO32))
            && (k == Again ==> a.pgd != dir) && (k == Ignore ==> a.pgd == dir)
  {
    OffsetIs(a, cr2, from);
    if file.Some? {
      var n := |file.value(from)|;
      assert Wrap(from + n) == if from + n < TWO32 then from + n else from + n - TWO32;
    }
  }

  /** All answers to a fault on a page that is not present, for a file with these contents. */
  lemma FaultIs(a: Area, dir: nat, cr2: u32, file: Option<Reader>, contents: seq<byte>, from: u32)
    requires PageFrom(a, cr2, from) && |contents| < TWO32
    requires file.Some? ==> file.value(from) == Piece(contents, from)
    ensures var k := FaultKind(a, dir, cr2, file);
            && (k == Crash <==> !Limited(a, cr2) && FromFile(a) && file.None?)
            && (k == BusError <==> Limited(a, cr2) || (FromFile(a) && file.Some? && from >= |contents|))
            && (k == Again <==>
                  !Limited(a, cr2) && FromFile(a) && file.Some? && from < |contents| && a.pgd != dir)
  {
    LimitIs(a, cr2);
    LoadIs(a, dir, cr2, file, from);
  }

  // ----- What a loaded page holds -----

  /** Memory after a fault that loaded a page into frame `f`: the file's bytes from `from` on, the rest of the
      frame and all other frames as they were. */
  ghost predicate Shows(contents: seq<byte>, from: nat, f: nat, ram: Ram, ram': Ram) {
    && ram'.Keys == ram.Keys
    && (forall g :: g in ram && g != f ==> ram'[g] == ram[g])
    && (f in ram && |ram[f]| == 4096 ==>
          && |ram'[f]| == 4096
          && forall i :: 0 <= i < 4096 ==>
               ram'[f][i] == if from + i < |contents| then contents[from + i] else ram[f][i])
  }

  lemma StoredShows(contents: seq<byte>, from: nat, f: nat, ram: Ram)
    requires from < |contents|
    ensures Shows(contents, from, f, ram, StoredIn(ram, f, Piece(contents, from)))
  {
  }

  /** A page that is present, may be written, and belongs to the user or not. */
  predicate EntryIs(e: u32, frame: nat, user: bool) {
    Present(e) && Writable(e) && (ForUser(e) <==> user) && Address(e) == frame
  }

  /** What the answer Ignore means for a page from a file. */
  lemma ServedShows(a: Area, user: bool, cr2: u32, anon: bool, file: Option<Reader>, contents: seq<byte>, from: u32,
                    s: Memory, s': Memory)
    requires |s.view| == |s'.view| == PAGES && PageFrom(a, cr2, from) && FromFile(a) && from < |contents|
    requires file.Some? && file.value(from) == Piece(contents, from)
    requires Served(a, user, cr2, anon, file, s, s')
    ensures s' == Step(a, user, contents, s, Touch(cr2 / 4096))
    ensures EntryIs(s'.view[cr2 / 4096], AllocAddr(s.bits, 1), user)
    ensures forall q :: 0 <= q < PAGES && q != cr2 / 4096 ==> s'.view[q] == s.view[q]
    ensures Shows(contents, from, AllocAddr(s.bits, 1), s.ram, s'.ram)
  {
    OffsetIs(a, cr2, from);
    LoadedIs(user, cr2, Piece(contents, from), s, s');
    StoredShows(contents, from, AllocAddr(s.bits, 1), s.ram);
  }

  lemma LoadedIs(user: bool, cr2: u32, data: seq<byte>, s: Memory, s': Memory)
    requires |s.view| == |s'.view| == PAGES && Loaded(user, cr2, data, s, s')
    ensures s' == Load(s, cr2 / 4096, user, data) && s'.ram == StoredIn(s.ram, AllocAddr(s.bits, 1), data)
    ensures EntryIs(s'.view[cr2 / 4096], AllocAddr(s.bits, 1), user)
  {
    EntryRoundTrip(AllocAddr(s.bits, 1), true, user);
    WholeFrame(s.bits);
  }

  lemma WholeFrame(bits: seq<bool>)
    ensures AllocAddr(bits, 1) % 4096 == 0
  {
    WrapPages(Wrap(FirstRun(bits, 1, false)));
  }

  lemma WrapPages(k: u32)
    ensures Wrap(k * 4096) % 4096 == 0
  {
    var high, low := k / 0x10_0000, k % 0x10_0000;
    assert k * 4096 == high * 0x1_0000_0000 + low * 4096;
    assert Wrap(k * 4096) == low * 4096;
  }

  // ----- What a whole mapping shows -----

  /** What the answer Ignore means for an area mapped as a whole: its pages are at consecutive frames from `base` on,
      the area's physical address or else what `pmm_alloc` answered, and no other page changes. */
  lemma ServedWhole(a: Area, user: bool, cr2: u32, anon: bool, file: Option<Reader>, s: Memory, s': Memory, base: u32,
                    i: nat)
    requires |s.view| == |s'.view| == PAGES && !FromFile(a) && Served(a, user, cr2, anon, file, s, s')
    requires base == if a.phys != 0 then a.phys else AllocAddr(s.bits, a.nPages)
    requires i < a.nPages
    ensures a.addr / 4096 + i < PAGES && EntryIs(s'.view[a.addr / 4096 + i], Aligned(Wrap(base + i * 4096)), user)
    ensures forall q :: 0 <= q < a.addr / 4096 || a.addr / 4096 + a.nPages <= q < PAGES ==> s'.view[q] == s.view[q]
  {
    EntryRoundTrip(Wrap(base + i * 4096), true, user);
  }

  /** A new anonymous mapping reads as zeros wherever there is memory behind it. */
  lemma AnonymousZero(a: Area, user: bool, cr2: u32, file: Option<Reader>, s: Memory, s': Memory, x: u32)
    requires |s.view| == |s'.view| == PAGES && !FromFile(a) && Served(a, user, cr2, true, file, s, s')
    requires a.addr / 4096 <= x / 4096 < a.addr / 4096 + a.nPages
    ensures var f := Address(s'.view[x / 4096]);
            f in s.ram && x % 4096 < |s.ram[f]| && Present(s'.view[x / 4096]) ==> ByteAt(s', x) == Some(0)
  {
    var q, f := x / 4096, Address(s'.view[x / 4096]);
    assert Backs(s'.view, a.addr / 4096, a.nPages, f);
  }

  // ----- Runs of faults -----

  /** A page that got a frame with `data` in it. */
  function Load(s: Memory, page: nat, user: bool, data: seq<byte>): Memory {
    var f := AllocAddr(s.bits, 1);
    Memory(AllocBits(s.bits, 1), if page < |s.view| then s.view[page := MakeEntry(f, true, user)] else s.view,
           StoredIn(s.ram, f, data))
  }

  /** A fault of the task on the mapping, or frames taken for something else. */
  datatype Event = Touch(page: nat) | Taken(n: u32)

  function Step(a: Area, user: bool, contents: seq<byte>, s: Memory, e: Event): Memory {
    match e
    case Touch(page) => Load(s, page, user, Piece(contents, FileAt(a, page * 4096)))
    case Taken(n) => s.(bits := AllocBits(s.bits, n))
  }

  /** The byte of the file that belongs to address `x` of the area. */
  function FileAt(a: Area, x: nat): nat {
    var at := x - a.addr + a.fileOff;
    if at < 0 then 0 else if at < TWO32 then at else at - TWO32
  }

  /** An absent page of the area, not behind the end of the file, with a frame left for it; or a run that is found. */
  ghost predicate CanGo(a: Area, contents: seq<byte>, s: Memory, e: Event) {
    match e
    case Touch(page) =>
      && InArea(a, page) && page < |s.view| && !Present(s.view[page])
      && FileAt(a, page * 4096) < |contents| && FirstRun(s.bits, 1, false) >= 0
    case Taken(n) => FirstRun(s.bits, n, false) >= 0
  }

  ghost function After(a: Area, user: bool, contents: seq<byte>, s: Memory, events: seq<Event>): Memory
    decreases |events|
  {
    if events == [] then s else After(a, user, contents, Step(a, user, contents, s, events[0]), events[1..])
  }

  ghost predicate AllGo(a: Area, user: bool, contents: seq<byte>, s: Memory, events: seq<Event>)
    decreases |events|
  {
    events == []
    || (CanGo(a, contents, s, events[0])
        && AllGo(a, user, contents, Step(a, user, contents, s, events[0]), events[1..]))
  }

  predicate IsFrame(ram: Ram, f: nat) {
    f * 4096 in ram && |ram[f * 4096]| == 4096
  }

  /** Every page frame the bitmap knows is there. */
  ghost predicate Backed(s: Memory) {
    |s.view| == PAGES && |s.bits| <= PAGES && forall f: nat :: f < |s.bits| ==> IsFrame(s.ram, f)
  }

  function FrameNo(s: Memory, page: nat): nat
    requires page < |s.view|
  {
    s.view[page] / 4096
  }

  ghost predicate Mapped(a: Area, s: Memory, page: nat) {
    InArea(a, page) && page < |s.view| && Present(s.view[page])
  }

  /** The frame of a mapped page is taken and holds the file's bytes. */
  ghost predicate PageShown(a: Area, contents: seq<byte>, s: Memory, page: nat)
    requires Backed(s) && page < |s.view|
  {
    var f := FrameNo(s, page);
    && f < |s.bits| && s.bits[f] && IsFrame(s.ram, f)
    && forall i :: 0 <= i < 4096 && FileAt(a, page * 4096) + i < |contents| ==>
         s.ram[f * 4096][i] == contents[FileAt(a, page * 4096) + i]
  }

  /** Every page of the mapping that is present shows the file. */
  ghost predicate Shown(a: Area, contents: seq<byte>, s: Memory) {
    Backed(s) && forall p: nat {:trigger Mapped(a, s, p)} :: Mapped(a, s, p) ==> PageShown(a, contents, s, p)
  }

  /** The first free frame. */
  lemma OneFrame(s: Memory, r: nat)
    requires Backed(s) && FirstRun(s.bits, 1, false) == r
    ensures r < |s.bits| && !s.bits[r] && AllocAddr(s.bits, 1) == r * 4096
    ensures AllocBits(s.bits, 1) == s.bits[r := true]
  {
    AddrOfRun(s.bits, 1);
    ScanFlipFound(s.bits, 1, false);
    assert IsRun(s.bits, 1, false, r);
  }

  /** The frames after one of them was stored to. */
  lemma StoreBacked(s: Memory, s': Memory, contents: seq<byte>, from: nat, f: nat)
    requires Backed(s) && |s'.view| == PAGES && |s'.bits| == |s.bits| && Shows(contents, from, f, s.ram, s'.ram)
    ensures Backed(s')
  {
    forall g: nat | g < |s'.bits|
      ensures IsFrame(s'.ram, g)
    {
      assert IsFrame(s.ram, g);
    }
  }

  /** The page that was touched. */
  lemma NewShown(a: Area, contents: seq<byte>, s: Memory, s': Memory, page: nat, from: nat, r: nat)
    requires Backed(s) && Backed(s') && from == FileAt(a, page * 4096) && r < |s.bits| == |s'.bits|
    requires page < PAGES && FrameNo(s', page) == r && s'.bits[r] && Shows(contents, from, r * 4096, s.ram, s'.ram)
    ensures PageShown(a, contents, s', page)
  {
    assert IsFrame(s.ram, r) && IsFrame(s'.ram, r);
  }

  /** The pages that were shown before. */
  lemma OldShown(a: Area, contents: seq<byte>, s: Memory, s': Memory, page: nat, from: nat, r: nat)
    requires Backed(s) && Backed(s') && page < PAGES && PageShown(a, contents, s, page) && r < |s.bits| && !s.bits[r]
    requires s'.view[page] == s.view[page] && s'.bits == s.bits[r := true]
    requires Shows(contents, from, r * 4096, s.ram, s'.ram)
    ensures PageShown(a, contents, s', page)
  {
    var f := FrameNo(s, page);
    assert IsFrame(s.ram, f) && IsFrame(s'.ram, f) && f != r;
    assert s'.ram[f * 4096] == s.ram[f * 4096];
  }

  lemma TouchShown(a: Area, user: bool, contents: seq<byte>, s: Memory, page: nat, from: nat, r: nat, s': Memory)
    requires Shown(a, contents, s) && CanGo(a, contents, s, Touch(page)) && from == FileAt(a, page * 4096)
    requires r == FirstRun(s.bits, 1, false) && s' == Step(a, user, contents, s, Touch(page))
    ensures Shown(a, contents, s') && Mapped(a, s', page)
  {
    OneFrame(s, r);
    EntryRoundTrip(r * 4096, true, user);
    StoredShows(contents, from, r * 4096, s.ram);
    StoreBacked(s, s', contents, from, r * 4096);
    forall p: nat | Mapped(a, s', p)
      ensures PageShown(a, contents, s', p)
    {
      if p == page {
        NewShown(a, contents, s, s', p, from, r);
      } else {
        assert Mapped(a, s, p);
        OldShown(a, contents, s, s', p, from, r);
      }
    }
  }

  lemma TakeShown(a: Area, user: bool, contents: seq<byte>, s: Memory, n: u32)
    requires Shown(a, contents, s) && FirstRun(s.bits, n, false) >= 0
    ensures Shown(a, contents, Step(a, user, contents, s, Taken(n)))
  {
    var s' := Step(a, user, contents, s, Taken(n));
    ScanFlipFound(s.bits, n, false);
    assert Backed(s');
    forall p: nat | Mapped(a, s', p)
      ensures PageShown(a, contents, s', p)
    {
      assert Mapped(a, s, p) && PageShown(a, contents, s, p);
    }
  }

  /** Over every run every page that is present shows the file. */
  lemma {:induction false} RunShown(a: Area, user: bool, contents: seq<byte>, s: Memory, events: seq<Event>)
    requires Shown(a, contents, s) && AllGo(a, user, contents, s, events)
    ensures Shown(a, contents, After(a, user, contents, s, events))
    decreases |events|
  {
    if events != [] {
      match events[0] {
        case Touch(page) =>
          TouchShown(a, user, contents, s, page, FileAt(a, page * 4096), FirstRun(s.bits, 1, false),
                     Step(a, user, contents, s, events[0]));
        case Taken(n) => TakeShown(a, user, contents, s, n);
      }
      RunShown(a, user, contents, Step(a, user, contents, s, events[0]), events[1..]);
    }
  }

  /** The byte the task sees at an address. */
  function ByteAt(s: Memory, x: nat): Option<byte> {
    if x / 4096 < |s.view| && Present(s.view[x / 4096]) then
      var f := Address(s.view[x / 4096]);
      if f in s.ram && x % 4096 < |s.ram[f]| then Some(s.ram[f][x % 4096]) else None
    else None
  }

  /** Reading through the mapping is reading the file: whatever pages were touched and whatever frames were taken
      in between, a present address of the area holds the byte of the file that belongs to it. */
  lemma MappingShowsFile(a: Area, user: bool, contents: seq<byte>, s: Memory, events: seq<Event>, x: u32)
    requires Backed(s) && a.addr % 4096 == 0 && a.fileOff % 4096 == 0 && Bounded(a) && |contents| < TWO32
    requires a.addr + a.size <= VIRT_BASE
    requires forall p: nat {:trigger Mapped(a, s, p)} :: !Mapped(a, s, p)
    requires AllGo(a, user, contents, s, events) && Contains(a, x)
    ensures var s' := After(a, user, contents, s, events);
            x / 4096 < |s'.view| && Present(s'.view[x / 4096]) && FileAt(a, x) < |contents|
            ==> ByteAt(s', x) == Some(contents[FileAt(a, x)])
  {
    RunShown(a, user, contents, s, events);
    SeenIs(a, contents, After(a, user, contents, s, events), x, x / 4096, x % 4096);
  }

  lemma SeenIs(a: Area, contents: seq<byte>, s: Memory, x: u32, p: nat, i: nat)
    requires Shown(a, contents, s) && a.addr % 4096 == 0 && a.fileOff % 4096 == 0 && Bounded(a) && Contains(a, x)
    requires p == x / 4096 && i == x % 4096 && |contents| < TWO32 && a.addr + a.size <= VIRT_BASE
    ensures p < |s.view| && Present(s.view[p]) && FileAt(a, x) < |contents|
            ==> ByteAt(s, x) == Some(contents[FileAt(a, x)])
  {
    assert InArea(a, p);
    assert FileAt(a, x) == FileAt(a, p * 4096) + i;
    if p < |s.view| && Present(s.view[p]) {
      assert Mapped(a, s, p);
      assert Address(s.view[p]) == FrameNo(s, p) * 4096;
    }
  }

  // ----- Files of ext2 -----

  /** `ext2_read` of a page. */
  function Ext2Reader(v: E.Volume, ino: F.Inode): Reader
    requires E.ValidVolume(v) && |ino.direct| == 12
  {
    (off: u32) => F.InodeResult(v, ino, off, 4096)
  }

  /** The file's bytes, found by following the words on the disk. */
  function Contents(disk: seq<byte>, fanout: nat, ino: F.Inode): seq<byte>
    requires |ino.direct| == 12 && 0 < fanout
  {
    seq(ino.size, x requires 0 <= x => D.DiskByte(disk, fanout, ino, x))
  }

  lemma LargeSpan(fanout: nat)
    requires 256 <= fanout
    ensures 4096 <= Times(fanout, 4 * fanout)
  {
    TimesIs(fanout, 4 * fanout);
    assert 256 * (4 * fanout) <= fanout * (4 * fanout);
  }

  /** A page read delivers that piece of the file, unless it is the last page below 4 GiB. */
  lemma PageReadIs(disk: seq<byte>, fanout: nat, sectorSize: nat, stale: seq<byte>, v: E.Volume, ino: F.Inode,
                   from: u32)
    requires D.OnVolume(disk, fanout, sectorSize, stale, v, ino) && 256 <= fanout
    requires from < 0xFFFF_F000 || from >= ino.size
    ensures E.ValidVolume(v) && F.InodeResult(v, ino, from, 4096) == Piece(Contents(disk, fanout, ino), from)
  {
    assert E.ValidVolume(v);
    var data, contents := F.InodeResult(v, ino, from, 4096), Contents(disk, fanout, ino);
    PageReadLength(disk, fanout, sectorSize, stale, v, ino, from);
    forall i: nat | i < |data|
      ensures from + i < |contents| && data[i] == contents[from + i]
    {
      D.ReadIsDisk(disk, fanout, sectorSize, stale, v, ino, from, 4096, i);
    }
    PieceIs(contents, from, data);
  }

  lemma PieceIs(contents: seq<byte>, from: nat, data: seq<byte>)
    requires |data| == if from >= |contents| then 0 else Min(4096, |contents| - from)
    requires forall i: nat :: i < |data| ==> from + i < |contents| && data[i] == contents[from + i]
    ensures data == Piece(contents, from)
  {
  }

  lemma PageReadLength(disk: seq<byte>, fanout: nat, sectorSize: nat, stale: seq<byte>, v: E.Volume, ino: F.Inode,
                       from: u32)
    requires D.OnVolume(disk, fanout, sectorSize, stale, v, ino) && 256 <= fanout
    requires from < 0xFFFF_F000 || from >= ino.size
    ensures E.ValidVolume(v) && F.NoWrap(ino, from, 4096)
    ensures var n := F.ReadLength(v, ino, from, 4096);
            |F.InodeResult(v, ino, from, 4096)| == n == if from >= ino.size then 0 else Min(4096, ino.size - from)
  {
    D.StoredAllocated(disk, fanout, sectorSize, stale, v, ino);
    D.ReadIsSlice(v, ino, from, 4096, F.ReadLength(v, ino, from, 4096));
    LargeSpan(fanout);
    F.ReadCompleteIff(v, ino, from, 4096);
  }

  /** A fault on a mapped ext2 file, apart from that page: a bus error exactly behind the end of the file, and
      otherwise the page is the disk's. */
  lemma MappedIsDisk(disk: seq<byte>, fanout: nat, sectorSize: nat, stale: seq<byte>, v: E.Volume, ino: F.Inode,
                     a: Area, dir: nat, cr2: u32, from: u32)
    requires D.OnVolume(disk, fanout, sectorSize, stale, v, ino) && 256 <= fanout && E.ValidVolume(v)
    requires PageFrom(a, cr2, from) && FromFile(a) && (from < 0xFFFF_F000 || from >= ino.size)
    ensures var k := FaultKind(a, dir, cr2, Some(Ext2Reader(v, ino)));
            && (k == BusError <==> Limited(a, cr2) || from >= ino.size) && k != Crash
            && (k == Again <==> !Limited(a, cr2) && from < ino.size && a.pgd != dir)
    ensures FileBytes(FileOffset(a, cr2), Some(Ext2Reader(v, ino))) == Piece(Contents(disk, fanout, ino), from)
  {
    PageReadIs(disk, fanout, sectorSize, stale, v, ino, from);
    FaultIs(a, dir, cr2, Some(Ext2Reader(v, ino)), Contents(disk, fanout, ino), from);
    OffsetIs(a, cr2, from);
  }
}
