/**
 The two-level page tables of mm/paging.c.  Physical memory is a map from page-aligned
 addresses to pages of 1024 words; directories, tables and user frames are such pages.
 `View` is the flat map a directory stands for: one entry per page of the 4 GiB space.
 */
module PageTables {
  import opened Words
  import opened PageEntry

  const PAGES := 0x10_0000
  const ENTRIES := 1024
  const INVALID_ADDR := 0xFFFF_FFFF
  const VIRT_BASE := 0xC000_0000
  const USER_SLOTS := 768

  type Mem = map<nat, seq<u32>>

  function PdeIndex(v: u32): nat {
    v / 0x40_0000
  }

  function PteIndex(v: u32): nat {
    v / 4096 % 1024
  }

  ghost predicate Sized(m: Mem) {
    forall a :: a in m ==> |m[a]| == ENTRIES
  }

  function Table(m: Mem, dir: nat, slot: nat): u32
    requires dir in m && |m[dir]| == ENTRIES && slot < ENTRIES
  {
    Address(m[dir][slot])
  }

  predicate Share(m: Mem, dir: nat, s: nat, t: nat)
    requires dir in m && |m[dir]| == ENTRIES && s < ENTRIES && t < ENTRIES
  {
    Table(m, dir, s) == Table(m, dir, t)
  }

  /** Directory `dir` is well formed: its tables are pages of their own, no two slots share one. */
  ghost predicate WellFormed(m: Mem, dir: nat) {
    && Sized(m) && dir in m
    && (forall s: nat :: s < ENTRIES && Table(m, dir, s) != 0 ==> Table(m, dir, s) in m && Table(m, dir, s) != dir)
    && (forall s: nat, t: nat {:trigger Share(m, dir, s, t)} :: s < t < ENTRIES && Table(m, dir, s) != 0 ==>
          !Share(m, dir, s, t))
  }

  /** No two slots of a well-formed directory have the same table. */
  lemma OwnTables(m: Mem, dir: nat, s: nat, t: nat)
    requires WellFormed(m, dir) && s < ENTRIES && t < ENTRIES && s != t && Table(m, dir, s) != 0
    ensures Table(m, dir, s) != Table(m, dir, t)
  {
    assert !Share(m, dir, s, t) || !Share(m, dir, t, s);
  }

  /** A directory whose slots have the tables of a well-formed one, or none, is well formed. */
  lemma KeepsWellFormed(m: Mem, dir: nat, m': Mem, dir': nat)
    requires WellFormed(m, dir) && Sized(m') && dir' in m'
    requires forall s: nat :: s < ENTRIES ==>
            || Table(m', dir', s) == 0
            || (Table(m', dir', s) == Table(m, dir, s) && Table(m, dir, s) in m' && Table(m, dir, s) != dir')
    ensures WellFormed(m', dir')
  {
    forall s: nat, t: nat | s < t < ENTRIES && Table(m', dir', s) != 0
      ensures !Share(m', dir', s, t)
    {
      OwnTables(m, dir, s, t);
    }
  }

  /** So does one that gets a new page as the table of slot `ti`. */
  lemma AddsWellFormed(m: Mem, m': Mem, dir: nat, ti: nat, tb: nat)
    requires WellFormed(m, dir) && Sized(m') && m'.Keys == m.Keys + {tb} && tb !in m && tb != 0
    requires forall s: nat :: s < ENTRIES ==> Table(m', dir, s) == if s == ti then tb else Table(m, dir, s)
    ensures WellFormed(m', dir)
  {
    forall s: nat, t: nat | s < t < ENTRIES && Table(m', dir, s) != 0
      ensures !Share(m', dir, s, t)
    {
      if s != ti {
        OwnTables(m, dir, s, t);
      }
    }
  }

  /** `*get_page(dir, p << 12)`, or 0 when there is no table. */
  ghost function Entry(m: Mem, dir: nat, p: nat): u32
    requires WellFormed(m, dir) && p < PAGES
  {
    var t := Table(m, dir, p / 1024);
    if t == 0 then 0 else m[t][p % 1024]
  }

  ghost function View(m: Mem, dir: nat): (v: seq<u32>)
    requires WellFormed(m, dir)
    ensures |v| == PAGES
  {
    seq(PAGES, p requires 0 <= p < PAGES => Entry(m, dir, p))
  }

  /** `get_phys_addr` with paging on. */
  ghost function PhysAddr(m: Mem, dir: nat, v: u32): (r: u32)
    requires WellFormed(m, dir)
  {
    if Table(m, dir, PdeIndex(v)) == 0 then INVALID_ADDR
    else Wrap(Address(Entry(m, dir, v / 4096)) + v % 4096)
  }

  /** A mapped address translates to its frame plus the page offset. */
  lemma PhysAddrOfMapped(m: Mem, dir: nat, v: u32, frame: u32, write: bool, user: bool)
    requires WellFormed(m, dir) && frame % 4096 == 0 && View(m, dir)[v / 4096] == MakeEntry(frame, write, user)
    ensures PhysAddr(m, dir, v) == frame + v % 4096
  {
    EntryRoundTrip(frame, write, user);
    assert Entry(m, dir, v / 4096) != 0;
    assert v / 4096 / 1024 == PdeIndex(v);
  }

  // ----- Single updates -----

  function Zeros(): (z: seq<u32>)
    ensures |z| == ENTRIES && forall i :: 0 <= i < ENTRIES ==> z[i] == 0
  {
    seq(ENTRIES, _ => 0)
  }

  /** Overwrites word `i` of page `a`. */
  function Put(m: Mem, a: nat, i: nat, e: u32): Mem
    requires a in m && i < |m[a]|
  {
    var page: seq<u32> := m[a][i := e];
    m[a := page]
  }

  function UnmapPage(m: Mem, dir: nat, v: u32): Mem
    requires dir in m && |m[dir]| == ENTRIES
    requires var t := Table(m, dir, PdeIndex(v)); t != 0 ==> t in m && |m[t]| == ENTRIES
  {
    var t := Table(m, dir, PdeIndex(v));
    if t == 0 then m else Put(m, t, PteIndex(v), 0)
  }

  /** A fresh, zeroed table at `tb` is entered in slot `ti`. */
  function AddTable(m: Mem, dir: nat, ti: nat, tb: u32, user: bool): Mem
    requires dir in m && ti < |m[dir]|
  {
    Put(m, dir, ti, MakeEntry(tb, true, user))[tb := Zeros()]
  }

  /** `unmap_table`: the slot is cleared and the table goes back to the heap. */
  function DropTable(m: Mem, dir: nat, ti: nat): Mem
    requires dir in m && ti < |m[dir]| == ENTRIES
  {
    var t := Table(m, dir, ti);
    if t == 0 then m else Put(m, dir, ti, 0) - {t}
  }

  /** Writing one entry of one table changes one entry of the view. */
  lemma PutView(m: Mem, dir: nat, p: nat, e: u32)
    requires WellFormed(m, dir) && p < PAGES && Table(m, dir, p / 1024) != 0
    ensures var m' := Put(m, Table(m, dir, p / 1024), p % 1024, e);
            WellFormed(m', dir) && View(m', dir) == View(m, dir)[p := e]
  {
    var t := Table(m, dir, p / 1024);
    var m' := Put(m, t, p % 1024, e);
    assert forall s: nat :: s < ENTRIES ==> Table(m', dir, s) == Table(m, dir, s);
    KeepsWellFormed(m, dir, m', dir);
    forall q: nat | q < PAGES
      ensures Entry(m', dir, q) == if q == p then e else Entry(m, dir, q)
    {
      SamePage(p, q);
      if q / 1024 != p / 1024 {
        OwnTables(m, dir, p / 1024, q / 1024);
      }
    }
  }

  lemma SamePage(p: nat, q: nat)
    ensures p / 1024 == q / 1024 && p % 1024 == q % 1024 ==> p == q
  {
  }

  /** A directory word that lets its table's own entries decide, for user programs only if `user`. */
  predicate OpenWord(w: u32, user: bool) {
    Present(w) && Writable(w) && (ForUser(w) <==> user)
  }

  /** Directory words stay, except that slots without a table may get one. */
  ghost predicate WordsGrown(words: seq<u32>, words': seq<u32>, user: bool) {
    && |words'| == |words|
    && forall s :: 0 <= s < |words| ==> words'[s] == words[s] || (Address(words[s]) == 0 && OpenWord(words'[s], user))
  }

  lemma AddTableView(m: Mem, dir: nat, ti: nat, tb: u32, user: bool)
    requires WellFormed(m, dir) && ti < ENTRIES && Table(m, dir, ti) == 0
    requires tb !in m && tb % 4096 == 0 && tb != 0
    ensures var m' := AddTable(m, dir, ti, tb, user);
            && WellFormed(m', dir) && View(m', dir) == View(m, dir) && Table(m', dir, ti) == tb
            && OpenWord(m'[dir][ti], user) && forall s :: 0 <= s < ENTRIES && s != ti ==> m'[dir][s] == m[dir][s]
  {
    var m' := AddTable(m, dir, ti, tb, user);
    EntryRoundTrip(tb, true, user);
    assert forall s: nat :: s < ENTRIES ==> Table(m', dir, s) == if s == ti then tb else Table(m, dir, s);
    AddsWellFormed(m, m', dir, ti, tb);
    forall q: nat | q < PAGES
      ensures Entry(m', dir, q) == Entry(m, dir, q)
    {
    }
  }

  function ClearRange(v: seq<u32>, from: nat, n: nat): (r: seq<u32>)
    requires from + n <= |v|
    ensures |r| == |v|
  {
    seq(|v|, q requires 0 <= q < |v| => if from <= q < from + n then 0 else v[q])
  }

  lemma DropTableView(m: Mem, dir: nat, ti: nat)
    requires WellFormed(m, dir) && ti < ENTRIES
    ensures var m' := DropTable(m, dir, ti);
            && WellFormed(m', dir) && View(m', dir) == ClearRange(View(m, dir), ti * 1024, 1024)
            && m'[dir] == if Table(m, dir, ti) == 0 then m[dir] else m[dir][ti := 0]
  {
    var m' := DropTable(m, dir, ti);
    assert Address(0) == 0;
    forall s: nat | s < ENTRIES
      ensures Table(m', dir, s) == if s == ti then 0 else Table(m, dir, s)
      ensures s != ti && Table(m, dir, s) != 0 ==> Table(m, dir, s) in m'
    {
      if s != ti && Table(m, dir, s) != 0 {
        OwnTables(m, dir, s, ti);
      }
    }
    KeepsWellFormed(m, dir, m', dir);
    forall q: nat | q < PAGES
      ensures Entry(m', dir, q) == if ti * 1024 <= q < ti * 1024 + 1024 then 0 else Entry(m, dir, q)
    {
      assert q / 1024 == ti <==> ti * 1024 <= q < ti * 1024 + 1024;
    }
  }
}
