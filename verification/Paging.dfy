/** mm/paging.c in place, each operation tied to the flat view of its directory. */
module Paging {
  import opened Words
  import opened Common
  import opened PageEntry
  import opened PageTables

  /** Mapping `n` pages from page `from` on: frames in order, present entries kept unless overwritten. */
  function MapRange(v: seq<u32>, from: nat, frame: u32, n: nat, user: bool, overwrite: bool): (r: seq<u32>)
    requires from + n <= |v|
    ensures |r| == |v|
  {
    seq(|v|, q requires 0 <= q < |v| =>
      if from <= q < from + n
           && (overwrite || v[q] == 0) then MakeEntry(Wrap(frame + (q - from) * 4096), true, user) else v[q])
  }

  ghost predicate Owns(m: Mem, dir: nat, a: nat)
    requires WellFormed(m, dir)
  {
    a == dir || (a != 0 && exists s: nat :: s < ENTRIES && Table(m, dir, s) == a)
  }

  /** Every page that is neither the directory nor one of its tables is left alone. */
  ghost predicate OnlyOwn(m: Mem, m': Mem, dir: nat)
    requires WellFormed(m, dir)
  {
    forall a {:trigger a in m'} {:trigger m'[a]} :: a in m && !Owns(m, dir, a) ==> a in m' && m'[a] == m[a]
  }

  /** New tables come from `pool`; nothing else about the directory's slots changes. */
  ghost predicate Grown(m: Mem, m': Mem, dir: nat, pool: set<nat>)
    requires WellFormed(m, dir) && WellFormed(m', dir)
  {
    && OnlyOwn(m, m', dir)
    && (forall a :: a in m ==> a !in pool)
    && forall s: nat {:trigger Table(m', dir, s)} :: s < ENTRIES ==>
         Table(m', dir, s) == Table(m, dir, s) || (Table(m, dir, s) == 0 && Table(m', dir, s) in pool)
  }

  lemma GrownTrans(m0: Mem, m1: Mem, m2: Mem, dir: nat, pool0: set<nat>, pool1: set<nat>)
    requires WellFormed(m0, dir) && WellFormed(m1, dir) && WellFormed(m2, dir)
    requires Grown(m0, m1, dir, pool0) && Grown(m1, m2, dir, pool1) && pool1 <= pool0
    ensures Grown(m0, m2, dir, pool0)
  {
    forall a | a in m0 && !Owns(m0, dir, a)
      ensures a in m2 && m2[a] == m0[a]
    {
      assert !Owns(m1, dir, a);
    }
  }

  lemma WordsGrownTrans(w0: seq<u32>, w1: seq<u32>, w2: seq<u32>, user: bool)
    requires WordsGrown(w0, w1, user) && WordsGrown(w1, w2, user)
    ensures WordsGrown(w0, w2, user)
  {
  }

  ghost predicate SameTables(m: Mem, m': Mem, dir: nat)
    requires WellFormed(m, dir) && WellFormed(m', dir)
  {
    && OnlyOwn(m, m', dir)
    && forall s: nat {:trigger Table(m', dir, s)} :: s < ENTRIES ==> Table(m', dir, s) == Table(m, dir, s)
  }

  lemma SameTablesTrans(m0: Mem, m1: Mem, m2: Mem, dir: nat)
    requires WellFormed(m0, dir) && WellFormed(m1, dir) && WellFormed(m2, dir)
    requires SameTables(m0, m1, dir) && SameTables(m1, m2, dir)
    ensures SameTables(m0, m2, dir)
  {
    forall a | a in m0 && !Owns(m0, dir, a)
      ensures a in m2 && m2[a] == m0[a]
    {
      assert !Owns(m1, dir, a);
    }
  }

  /** Slots may lose their tables; nothing else about them changes. */
  ghost predicate Shrunk(m: Mem, m': Mem, dir: nat)
    requires WellFormed(m, dir) && WellFormed(m', dir)
  {
    && OnlyOwn(m, m', dir)
    && forall s: nat {:trigger Table(m', dir, s)} :: s < ENTRIES ==>
         Table(m', dir, s) == Table(m, dir, s) || Table(m', dir, s) == 0
  }

  lemma ShrunkTrans(m0: Mem, m1: Mem, m2: Mem, dir: nat)
    requires WellFormed(m0, dir) && WellFormed(m1, dir) && WellFormed(m2, dir)
    requires Shrunk(m0, m1, dir) && Shrunk(m1, m2, dir)
    ensures Shrunk(m0, m2, dir)
  {
    forall a | a in m0 && !Owns(m0, dir, a)
      ensures a in m2 && m2[a] == m0[a]
    {
      assert !Owns(m1, dir, a);
    }
  }

  /** The slots whose 4 MiB lie wholly between pages `from` and `end`. */
  predicate Whole(slot: nat, from: nat, end: nat) {
    from <= slot * 1024 && slot * 1024 + 1024 <= end
  }

  ghost function WholeTables(m: Mem, dir: nat, from: nat, end: nat): set<nat>
    requires WellFormed(m, dir)
  {
    set s: nat | s < ENTRIES && Whole(s, from, end) && Table(m, dir, s) != 0 :: Table(m, dir, s) as nat
  }

  /** The tables of slots `lo` up to `hi`. */
  ghost function TablesOf(m: Mem, dir: nat, lo: nat, hi: nat): set<nat>
    requires WellFormed(m, dir) && hi <= ENTRIES
  {
    if hi <= lo then {}
    else TablesOf(m, dir, lo, hi - 1) + TableOf(m, dir, hi - 1)
  }

  ghost function TableOf(m: Mem, dir: nat, slot: nat): set<nat>
    requires WellFormed(m, dir) && slot < ENTRIES
  {
    if Table(m, dir, slot) == 0 then {} else {Table(m, dir, slot) as nat}
  }

  class Pages {
    var mem: Mem
    /** The physical pages `kmalloc` can still hand out for tables. */
    var pool: set<nat>

    ghost predicate Ready(dir: nat)
      reads this
    {
      && WellFormed(mem, dir)
      && forall t :: t in pool ==> t !in mem && t % 4096 == 0 && 0 < t < TWO32
    }

    /** `get_phys_addr`; before paging is enabled, kernel addresses are a fixed distance from physical ones. */
    method GetPhysAddr(dir: nat, v: u32, pagingEnabled: bool) returns (r: u32)
      requires Ready(dir)
      ensures r == if pagingEnabled then PhysAddr(mem, dir, v) else Wrap(v - VIRT_BASE)
    {
      if !pagingEnabled {
        return Wrap(v - VIRT_BASE);
      }
      var t := Table(mem, dir, PdeIndex(v));
      if t == 0 {
        return INVALID_ADDR;
      }
      r := Wrap(Address(mem[t][PteIndex(v)]) + v % 4096);
    }

    /** `map_page`; false stands for the panic when no table can be allocated. */
    method MapPage(dir: nat, v: u32, phys: u32, user: bool) returns (ok: bool)
      requires Ready(dir) && (PdeIndex(v) != 0 || Table(mem, dir, 0) != 0)
      modifies this
      ensures Ready(dir) && pool <= old(pool)
      ensures ok ==> View(mem, dir) == old(View(mem, dir))[v / 4096 := MakeEntry(phys, true, user)]
      ensures !ok ==> mem == old(mem) && pool == old(pool) == {}
      ensures Grown(old(mem), mem, dir, old(pool))
      ensures WordsGrown(old(mem[dir]), mem[dir], user)
      ensures forall s :: 0 <= s < ENTRIES && s != PdeIndex(v) ==> mem[dir][s] == old(mem[dir])[s]
    {
      var ti := PdeIndex(v);
      if ti != 0 && Table(mem, dir, ti) == 0 {
        if pool == {} {
          return false;
        }
        var tb :| tb in pool;
        AddTableView(mem, dir, ti, tb, user);
        mem, pool := AddTable(mem, dir, ti, tb, user), pool - {tb};
      }
      assert v / 4096 / 1024 == ti;
      PutView(mem, dir, v / 4096, MakeEntry(phys, true, user));
      mem := Put(mem, Table(mem, dir, ti), PteIndex(v), MakeEntry(phys, true, user));
      ok := true;
    }

    method UnmapPage(dir: nat, v: u32)
      requires Ready(dir)
      modifies `mem
      ensures Ready(dir) && mem.Keys == old(mem.Keys)
      ensures View(mem, dir) == ClearRange(old(View(mem, dir)), v / 4096, 1)
      ensures SameTables(old(mem), mem, dir) && mem[dir] == old(mem[dir])
    {
      assert v / 4096 / 1024 == PdeIndex(v);
      if Table(mem, dir, PdeIndex(v)) != 0 {
        PutView(mem, dir, v / 4096, 0);
        mem := PageTables.UnmapPage(mem, dir, v);
      } else {
        assert Entry(mem, dir, v / 4096) == 0;
      }
    }

    /** `map_addr_fixed` */
    method MapAddrFixed(dir: nat, vaddr: u32, pstart: u32, npages: nat, user: bool, overwrite: bool) returns (ok: bool)
      requires Ready(dir) && vaddr / 4096 + npages <= PAGES && (PdeIndex(vaddr) != 0 || Table(mem, dir, 0) != 0)
      modifies this
      ensures Ready(dir) && pool <= old(pool) && (!ok ==> pool == {})
      ensures ok ==> View(mem, dir) == MapRange(old(View(mem, dir)), vaddr / 4096, pstart, npages, user, overwrite)
      ensures Grown(old(mem), mem, dir, old(pool)) && WordsGrown(old(mem[dir]), mem[dir], user)
    {
      ghost var view, p := View(mem, dir), vaddr / 4096;
      for i := 0 to npages
        invariant Ready(dir) && pool <= old(pool)
        invariant View(mem, dir) == MapRange(view, p, pstart, i, user, overwrite)
        invariant Grown(old(mem), mem, dir, old(pool)) && WordsGrown(old(mem[dir]), mem[dir], user)
      {
        ok := MapNext(dir, vaddr, pstart, i, user, overwrite, old(mem), old(pool), view, p);
        if !ok {
          return;
        }
      }
      ok := true;
    }

    /** Round `i` of that loop. */
    method MapNext(dir: nat, vaddr: u32, pstart: u32, i: nat, user: bool, overwrite: bool, ghost m0: Mem,
                   ghost pool0: set<nat>, ghost view: seq<u32>, ghost p: nat)
      returns (ok: bool)
      requires Ready(dir) && p == vaddr / 4096 && p + i < PAGES && (PdeIndex(vaddr) != 0 || Table(mem, dir, 0) != 0)
      requires WellFormed(m0, dir) && pool <= pool0 && Grown(m0, mem, dir, pool0)
      requires |view| == PAGES && View(mem, dir) == MapRange(view, p, pstart, i, user, overwrite)
      requires WordsGrown(m0[dir], mem[dir], user)
      modifies this
      ensures Ready(dir) && pool <= pool0 && Grown(m0, mem, dir, pool0) && (!ok ==> pool == {})
      ensures WordsGrown(m0[dir], mem[dir], user)
      ensures ok ==> View(mem, dir) == MapRange(view, p, pstart, i + 1, user, overwrite)
    {
      ghost var m, pool1 := mem, pool;
      PageStep(vaddr, i);
      MapRangeStep(view, p, pstart, i, user, overwrite);
      ok := MapOne(dir, vaddr - vaddr % 4096 + i * 4096, p + i, Wrap(pstart + i * 4096), user, overwrite);
      GrownTrans(m0, m, mem, dir, pool0, pool1);
      WordsGrownTrans(m0[dir], m[dir], mem[dir], user);
    }

    /** An entry that is there and not to be overwritten stays. */
    method MapOne(dir: nat, v: u32, ghost page: nat, phys: u32, user: bool, overwrite: bool) returns (ok: bool)
      requires Ready(dir) && page == v / 4096 && (PdeIndex(v) != 0 || Table(mem, dir, 0) != 0)
      modifies this
      ensures Ready(dir) && pool <= old(pool) && (!ok ==> pool == {})
      ensures ok ==> var w := old(View(mem, dir));
                     View(mem, dir) == if overwrite || w[page] == 0 then w[page := MakeEntry(phys, true, user)] else w
      ensures Grown(old(mem), mem, dir, old(pool)) && WordsGrown(old(mem[dir]), mem[dir], user)
    {
      var t := Table(mem, dir, PdeIndex(v));
      assert View(mem, dir)[page] == if t == 0 then 0 else mem[t][PteIndex(v)] by {
        assert v / 4096 / 1024 == PdeIndex(v);
      }
      if t != 0 && mem[t][PteIndex(v)] != 0 && !overwrite {
        return true;
      }
      ok := MapPage(dir, v, phys, user);
    }

    /** `unmap_table`: the table's page goes back to the heap. */
    method UnmapTable(dir: nat, v: u32)
      requires Ready(dir)
      modifies this
      ensures Ready(dir)
      ensures mem == DropTable(old(mem), dir, PdeIndex(v))
      ensures View(mem, dir) == ClearRange(old(View(mem, dir)), PdeIndex(v) * 1024, 1024)
      ensures var t := old(Table(mem, dir, PdeIndex(v))); pool == old(pool) + if t == 0 then {} else {t as nat}
    {
      var ti := PdeIndex(v);
      var t := Table(mem, dir, ti);
      DropTableView(mem, dir, ti);
      if t != 0 {
        mem, pool := DropTable(mem, dir, ti), pool + {t as nat};
      }
    }

    /** `unmap_addr`: single pages up to a table boundary, whole tables, single pages again. */
    method UnmapAddr(dir: nat, vaddr: u32, npages: nat, freetbl: bool)
      requires Ready(dir) && vaddr % 4096 == 0 && vaddr + npages * 4096 <= VIRT_BASE
      modifies this
      ensures Ready(dir)
      ensures View(mem, dir) == ClearRange(old(View(mem, dir)), vaddr / 4096, npages)
      ensures var freed := if freetbl then old(WholeTables(mem, dir, vaddr / 4096, vaddr / 4096 + npages)) else {};
              mem.Keys == old(mem.Keys) - freed && pool == old(pool) + freed
      ensures Shrunk(old(mem), mem, dir)
    {
      var cur, end := vaddr, vaddr + npages * 4096;
      if freetbl {
        cur := UnmapWithTables(dir, vaddr, end);
      }
      ghost var m := mem;
      ClearTwice(old(View(mem, dir)), vaddr / 4096, (cur - vaddr) / 4096, (end - cur) / 4096);
      var last := UnmapPages(dir, cur, end);
      ShrunkTrans(old(mem), m, mem, dir);
    }

    /** The page loop and the whole-table loop of `unmap_addr` with table freeing. */
    method UnmapWithTables(dir: nat, vaddr: nat, end: nat) returns (cur: nat)
      requires Ready(dir) && vaddr % 4096 == 0 && end % 4096 == 0 && vaddr <= end <= VIRT_BASE
      modifies this
      ensures Ready(dir) && vaddr <= cur <= end && cur % 4096 == 0
      ensures View(mem, dir) == ClearRange(old(View(mem, dir)), vaddr / 4096, (cur - vaddr) / 4096)
      ensures var freed := old(WholeTables(mem, dir, vaddr / 4096, end / 4096));
              mem.Keys == old(mem.Keys) - freed && pool == old(pool) + freed
      ensures Shrunk(old(mem), mem, dir)
    {
      HeadEnd(vaddr, end);
      cur := UnmapPages(dir, vaddr, Min((vaddr + 0x3F_FFFF) / 0x40_0000 * 0x40_0000, end));
      ghost var m, start, hi, freed: set<nat> := mem, cur, 0, {};
      TailEnd(cur, end);
      cur, hi, freed := UnmapTables(dir, cur, end - end % 0x40_0000, end, cur / 0x40_0000, end / 0x40_0000);
      WholeFreed(old(mem), m, dir, vaddr, start, cur, end, hi);
      ClearedOn(old(View(mem, dir)), View(m, dir), View(mem, dir), vaddr, start, cur, end, start / 0x40_0000, hi);
      ShrunkTrans(old(mem), m, mem, dir);
    }

    /** The tables `freed` of slots `lo` up to `hi` are dropped since memory was `m0` and the pool `pool0`. */
    ghost predicate Freed(dir: nat, m0: Mem, pool0: set<nat>, lo: nat, hi: nat, freed: set<nat>)
      reads this
    {
      && Ready(dir) && WellFormed(m0, dir) && lo <= hi <= ENTRIES && freed == TablesOf(m0, dir, lo, hi)
      && Dropped(m0, mem, dir, lo * 1024, hi * 1024, freed) && pool == pool0 + freed
    }

    /** The whole-table loop up to `stop`, the last table boundary before `end`. */
    method UnmapTables(dir: nat, start: nat, stop: nat, end: nat, ghost lo: nat, ghost top: nat)
      returns (cur: nat, ghost hi: nat, ghost freed: set<nat>)
      requires Ready(dir) && start <= end && lo < ENTRIES && (start == end || start == lo * 0x40_0000)
      requires stop == top * 0x40_0000 <= end && top < ENTRIES
      modifies this
      ensures Freed(dir, old(mem), old(pool), lo, hi, freed) && start <= cur <= end && (cur >= stop || cur == end)
      ensures if start == end then cur == end && hi == lo else cur == hi * 0x40_0000 <= end
    {
      cur, hi, freed := start, lo, {};
      DropNone(mem, dir, lo * 1024);
      while cur < stop && cur < end
        invariant Freed(dir, old(mem), old(pool), lo, hi, freed) && start <= cur <= end
        invariant if start == end then cur == end && hi == lo else cur == hi * 0x40_0000
      {
        SlotAt(hi);
        freed := DropOne(dir, old(mem), old(pool), lo, hi, freed, cur);
        cur, hi := cur + 0x40_0000, hi + 1;
      }
    }

    method DropOne(dir: nat, ghost m0: Mem, ghost pool0: set<nat>, ghost lo: nat, ghost hi: nat, ghost freed: set<nat>,
                   cur: u32)
      returns (ghost freed': set<nat>)
      requires Freed(dir, m0, pool0, lo, hi, freed) && hi < ENTRIES && hi == PdeIndex(cur)
      modifies this
      ensures Freed(dir, m0, pool0, lo, hi + 1, freed')
    {
      DropStep(m0, mem, dir, lo * 1024, hi, freed);
      UnmapTable(dir, cur);
      freed' := freed + TableOf(m0, dir, hi);
    }

    /** A run of `unmap_page` calls from `cur` up to `end`. */
    method UnmapPages(dir: nat, cur: nat, end: nat) returns (last: nat)
      requires Ready(dir) && cur % 4096 == 0 && end % 4096 == 0 && cur <= end <= TWO32
      modifies `mem
      ensures Ready(dir) && last == end && mem.Keys == old(mem.Keys)
      ensures View(mem, dir) == ClearRange(old(View(mem, dir)), cur / 4096, (end - cur) / 4096)
      ensures SameTables(old(mem), mem, dir)
    {
      last := cur;
      ghost var view, p, n := View(mem, dir), cur / 4096, 0;
      while last < end
        invariant last == cur + 4096 * n && last <= end && Ready(dir) && mem.Keys == old(mem.Keys) && p + n <= PAGES
        invariant View(mem, dir) == ClearRange(view, p, n)
        invariant SameTables(old(mem), mem, dir)
      {
        PageAt(cur, n, end);
        ClearTwice(view, p, n, 1);
        ghost var m := mem;
        UnmapPage(dir, last);
        SameTablesTrans(old(mem), m, mem, dir);
        last, n := last + 4096, n + 1;
      }
    }
  }

  lemma PageAt(cur: nat, n: nat, end: nat)
    requires cur % 4096 == 0 && end % 4096 == 0 && cur + 4096 * n < end <= TWO32
    ensures (cur + 4096 * n) / 4096 == cur / 4096 + n && cur / 4096 + n < PAGES && cur + 4096 * n + 4096 <= end
  {
  }

  lemma SlotAt(slot: nat)
    requires slot < ENTRIES
    ensures slot * 0x40_0000 < TWO32 && PdeIndex(slot * 0x40_0000) == slot
  {
  }

  /** Where the page loop in front of the first whole table stops. */
  lemma HeadEnd(vaddr: nat, end: nat)
    requires vaddr % 4096 == 0 && vaddr <= end <= VIRT_BASE && end % 4096 == 0
    ensures var h := Min((vaddr + 0x3F_FFFF) / 0x40_0000 * 0x40_0000, end);
            && vaddr <= h <= end && h % 4096 == 0 && (h < end ==> h % 0x40_0000 == 0)
  {
    var q := (vaddr / 4096 + 1023) / 1024;
    NextSlot(vaddr / 4096);
    assert 1024 * q >= vaddr / 4096 && q * 1024 * 4096 == q * 0x40_0000;
    DivIs(q * 0x40_0000, 4096, q * 1024);
    DivIs(q * 0x40_0000, 0x40_0000, q);
  }

  lemma NextSlot(p: nat)
    ensures (4096 * p + 0x3F_FFFF) / 0x40_0000 == (p + 1023) / 1024
  {
    var q := (p + 1023) / 1024;
    assert 1024 * q <= p + 1023 < 1024 * q + 1024;
    DivIs(4096 * p + 0x3F_FFFF, 0x40_0000, q);
  }

  lemma TailEnd(start: nat, end: nat)
    requires start <= end <= VIRT_BASE && (start < end ==> start % 0x40_0000 == 0)
    ensures end - end % 0x40_0000 == end / 0x40_0000 * 0x40_0000 <= end
    ensures start / 0x40_0000 <= end / 0x40_0000 < ENTRIES && (start == end || start == start / 0x40_0000 * 0x40_0000)
  {
  }

  /** Pages cleared up to `start` and whole tables from there to `cur` make one cleared range. */
  lemma ClearedOn(v0: seq<u32>, v: seq<u32>, v': seq<u32>, vaddr: nat, start: nat, cur: nat, end: nat, lo: nat, hi: nat)
    requires |v0| == |v| == PAGES && lo <= hi < ENTRIES
    requires vaddr % 4096 == 0 && end % 4096 == 0 && vaddr <= start <= cur <= end <= VIRT_BASE
    requires if start == end then cur == end && hi == lo else cur == hi * 0x40_0000 && start == lo * 0x40_0000
    requires vaddr / 4096 + (start - vaddr) / 4096 <= PAGES
    requires v == ClearRange(v0, vaddr / 4096, (start - vaddr) / 4096)
    requires v' == ClearRange(v, lo * 1024, (hi - lo) * 1024)
    ensures cur % 4096 == 0 && vaddr / 4096 + (cur - vaddr) / 4096 <= PAGES
    ensures v' == ClearRange(v0, vaddr / 4096, (cur - vaddr) / 4096)
  {
    var p := vaddr / 4096;
    assert vaddr == 4096 * p;
    if start == end {
      ClearNothing(v, lo * 1024);
    } else {
      assert start - vaddr == 4096 * (lo * 1024 - p) && cur - vaddr == 4096 * (hi * 1024 - p);
      ClearTwice(v0, p, lo * 1024 - p, (hi - lo) * 1024);
    }
  }

  lemma ClearNothing(v: seq<u32>, from: nat)
    requires from <= |v|
    ensures ClearRange(v, from, 0) == v
  {
  }

  lemma WholeNone(m: Mem, dir: nat, from: nat, end: nat)
    requires WellFormed(m, dir) && end <= (from + 1023) / 1024 * 1024
    ensures WholeTables(m, dir, from, end) == {}
  {
    forall s: nat | s < ENTRIES
      ensures !Whole(s, from, end)
    {
    }
  }

  lemma WholeSame(m: Mem, m': Mem, dir: nat, from: nat, end: nat)
    requires WellFormed(m, dir) && WellFormed(m', dir) && SameTables(m, m', dir)
    ensures WholeTables(m', dir, from, end) == WholeTables(m, dir, from, end)
  {
  }

  lemma WholeStep(m: Mem, dir: nat, from: nat, slot: nat)
    requires WellFormed(m, dir) && from <= slot * 1024 && slot < ENTRIES
    ensures WholeTables(m, dir, from, (slot + 1) * 1024)
            == WholeTables(m, dir, from, slot * 1024) + TableOf(m, dir, slot)
  {
    forall s: nat | s < ENTRIES
      ensures Whole(s, from, (slot + 1) * 1024) <==> Whole(s, from, slot * 1024) || s == slot
    {
    }
  }

  lemma WholeLast(m: Mem, dir: nat, from: nat, c: nat, end: nat)
    requires WellFormed(m, dir) && c <= end && (end - end % 1024 <= c || c == end)
    ensures WholeTables(m, dir, from, end) == WholeTables(m, dir, from, c)
  {
    forall s: nat | s < ENTRIES
      ensures Whole(s, from, end) <==> Whole(s, from, c)
    {
    }
  }

  /** What the whole-table loop frees are the tables wholly inside the range. */
  lemma FreedAreWhole(m: Mem, dir: nat, vaddr: nat, start: nat, cur: nat, end: nat, lo: nat, hi: nat)
    requires WellFormed(m, dir) && vaddr % 4096 == 0 && end % 4096 == 0 && vaddr <= start <= cur <= end <= VIRT_BASE
    requires start == Min((vaddr + 0x3F_FFFF) / 0x40_0000 * 0x40_0000, end) && lo == start / 0x40_0000
    requires (cur >= end - end % 0x40_0000 || cur == end) && hi < ENTRIES
    requires if start == end then hi == lo else cur == hi * 0x40_0000
    ensures WholeTables(m, dir, vaddr / 4096, end / 4096) == TablesOf(m, dir, lo, hi)
  {
    var from, last := vaddr / 4096, end / 4096;
    NextSlot(from);
    if start == end {
      assert last <= (from + 1023) / 1024 * 1024;
      WholeNone(m, dir, from, last);
    } else {
      assert lo == (from + 1023) / 1024 && start == lo * 0x40_0000;
      WholeLast(m, dir, from, hi * 1024, last);
      TablesAreWhole(m, dir, from, lo, hi);
    }
  }

  lemma WholeFreed(m0: Mem, m: Mem, dir: nat, vaddr: nat, start: nat, cur: nat, end: nat, hi: nat)
    requires WellFormed(m0, dir) && WellFormed(m, dir) && SameTables(m0, m, dir)
    requires vaddr % 4096 == 0 && end % 4096 == 0 && vaddr <= start <= cur <= end <= VIRT_BASE
    requires start == Min((vaddr + 0x3F_FFFF) / 0x40_0000 * 0x40_0000, end)
    requires (cur >= end - end % 0x40_0000 || cur == end) && hi < ENTRIES
    requires if start == end then hi == start / 0x40_0000 else cur == hi * 0x40_0000
    ensures WholeTables(m0, dir, vaddr / 4096, end / 4096) == TablesOf(m, dir, start / 0x40_0000, hi)
  {
    FreedAreWhole(m, dir, vaddr, start, cur, end, start / 0x40_0000, hi);
    WholeSame(m0, m, dir, vaddr / 4096, end / 4096);
  }

  lemma {:induction false} TablesAreWhole(m: Mem, dir: nat, from: nat, lo: nat, hi: nat)
    requires WellFormed(m, dir) && lo == (from + 1023) / 1024 && lo <= hi <= ENTRIES
    ensures WholeTables(m, dir, from, hi * 1024) == TablesOf(m, dir, lo, hi)
    decreases hi
  {
    if lo == hi {
      WholeNone(m, dir, from, hi * 1024);
    } else {
      TablesAreWhole(m, dir, from, lo, hi - 1);
      WholeStep(m, dir, from, hi - 1);
    }
  }

  /** The state of the whole-table loop at page `c`, with the tables `freed` given back. */
  ghost predicate Dropped(m0: Mem, m: Mem, dir: nat, start: nat, c: nat, freed: set<nat>)
    requires WellFormed(m0, dir) && WellFormed(m, dir) && start <= c <= PAGES
  {
    && View(m, dir) == ClearRange(View(m0, dir), start, c - start)
    && Shrunk(m0, m, dir)
    && (forall s: nat {:trigger Table(m, dir, s)} :: s < ENTRIES && c <= s * 1024 ==>
          Table(m, dir, s) == Table(m0, dir, s))
    && m.Keys == m0.Keys - freed
  }

  lemma DropNone(m: Mem, dir: nat, start: nat)
    requires WellFormed(m, dir) && start <= PAGES
    ensures Dropped(m, m, dir, start, start, {})
  {
  }

  lemma DropStep(m0: Mem, m: Mem, dir: nat, start: nat, hi: nat, freed: set<nat>)
    requires WellFormed(m0, dir) && WellFormed(m, dir) && start <= hi * 1024 && hi < ENTRIES
    requires Dropped(m0, m, dir, start, hi * 1024, freed)
    ensures var m' := DropTable(m, dir, hi);
            && Table(m, dir, hi) == Table(m0, dir, hi) && WellFormed(m', dir)
            && Dropped(m0, m', dir, start, (hi + 1) * 1024, freed + TableOf(m0, dir, hi))
  {
    var m' := DropTable(m, dir, hi);
    DropTableView(m, dir, hi);
    ClearTwice(View(m0, dir), start, hi * 1024 - start, 1024);
    DropShrinks(m, dir, hi);
    ShrunkTrans(m0, m, m', dir);
  }

  lemma DropShrinks(m: Mem, dir: nat, ti: nat)
    requires WellFormed(m, dir) && ti < ENTRIES && WellFormed(DropTable(m, dir, ti), dir)
    ensures Shrunk(m, DropTable(m, dir, ti), dir)
    ensures forall s: nat :: s < ENTRIES && s != ti ==> Table(DropTable(m, dir, ti), dir, s) == Table(m, dir, s)
  {
  }

  lemma ClearTwice(v: seq<u32>, from: nat, n: nat, k: nat)
    requires from + n + k <= |v|
    ensures ClearRange(ClearRange(v, from, n), from + n, k) == ClearRange(v, from, n + k)
  {
  }

  /** The `i`-th page of a range that starts at `vaddr`. */
  lemma PageStep(vaddr: u32, i: nat)
    requires vaddr / 4096 + i < PAGES
    ensures var v := vaddr - vaddr % 4096 + i * 4096;
            && v < TWO32 && v / 4096 == vaddr / 4096 + i && v / 4096 / 1024 == PdeIndex(v)
                 && v / 4096 % 1024 == PteIndex(v)
            && PdeIndex(vaddr) <= PdeIndex(v)
  {
  }

  lemma MapRangeStep(v: seq<u32>, from: nat, frame: u32, i: nat, user: bool, overwrite: bool)
    requires from + i < |v|
    ensures var m, m' := MapRange(v, from, frame, i, user, overwrite), MapRange(v, from, frame, i + 1, user, overwrite);
            && m[from + i] == v[from + i]
            && (overwrite || v[from + i] == 0 ==> m' == m[from + i := MakeEntry(Wrap(frame + i * 4096), true, user)])
            && (!overwrite && v[from + i] != 0 ==> m' == m)
  {
  }
}
