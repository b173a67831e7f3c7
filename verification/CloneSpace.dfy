/**
 `clone_pgd` of mm/paging.c: the address space a forked process gets.  `frames` records,
 for each page copied so far, the frame `pmm_alloc` gave it.
 */
module CloneSpace {
  import opened Words
  import opened Common
  import opened Bitmaps
  import opened PageEntry
  import opened PageTables
  import opened PhysicalFrames

  const USER_PAGES := 0xC_0000

  /** The page allocator will not hand out the page at `a`. */
  predicate Busy(bits: seq<bool>, a: nat) {
    a / 4096 < |bits| ==> bits[a / 4096]
  }

  ghost predicate AllBusy(bits: seq<bool>, pages: set<nat>) {
    |bits| <= PAGES && forall a :: a in pages ==> Busy(bits, a)
  }

  /** Every page a user entry points to is physical memory, and a nonzero directory word has a table. */
  ghost predicate UserMapped(m: Mem, dir: nat)
    requires WellFormed(m, dir)
  {
    && (forall p: nat :: p < USER_PAGES && Entry(m, dir, p) != 0 ==> Address(Entry(m, dir, p)) in m)
    && (forall s: nat :: s < USER_SLOTS && m[dir][s] != 0 ==> Table(m, dir, s) != 0)
  }

  ghost predicate Extends(m0: Mem, m: Mem) {
    forall a :: a in m0 ==> a in m && m[a] == m0[a]
  }

  /** Page `p` of the copy: same flags, a page of its own with the same words. */
  ghost predicate CopiedTo(m0: Mem, m: Mem, orig: nat, copy: nat, p: nat, f: nat)
    requires WellFormed(m0, orig) && WellFormed(m, copy) && p < PAGES
  {
    var e := Entry(m0, orig, p);
    && e != 0 && f < TWO32 && f % 4096 == 0 && Address(e) in m0
    && Entry(m, copy, p) == MakeEntry(f, Writable(e), ForUser(e))
    && f in m && m[f] == m0[Address(e)]
  }

  /** The frames in use are fresh -- free before, taken now -- and no two pages share one. */
  ghost predicate FreshFrames(b0: seq<bool>, bits: seq<bool>, frames: map<nat, nat>) {
    && (forall p :: p in frames ==> !Busy(b0, frames[p]) && Busy(bits, frames[p]))
    && (forall p, q :: p in frames && q in frames && p != q ==> frames[p] != frames[q])
  }

  ghost predicate NoTable(m: Mem, dir: nat, f: nat)
    requires WellFormed(m, dir)
  {
    f != dir && forall s: nat :: s < ENTRIES && Table(m, dir, s) != 0 ==> Table(m, dir, s) != f
  }

  /** A present directory word with the RW and USER bits of another. */
  predicate SameRights(w: u32, w0: u32) {
    Present(w) && (Writable(w) <==> Writable(w0)) && (ForUser(w) <==> ForUser(w0))
  }

  /** Slots below `hi` have their new tables, pages below `c` are copied. */
  ghost predicate Copying(m0: Mem, m: Mem, orig: nat, copy: nat, frames: map<nat, nat>, hi: nat, c: nat)
    requires WellFormed(m0, orig) && WellFormed(m, copy)
  {
    && hi <= USER_SLOTS && c <= hi * 1024 && copy !in m0 && Extends(m0, m)
    && (forall s: nat :: hi <= s < ENTRIES ==> m[copy][s] == m0[orig][s])
    && (forall s: nat :: s < hi && m0[orig][s] == 0 ==> m[copy][s] == 0)
    && (forall s: nat :: s < hi && m0[orig][s] != 0 ==>
          Table(m, copy, s) != 0 && Table(m, copy, s) !in m0 && SameRights(m[copy][s], m0[orig][s]))
    && (forall p :: p in frames ==> p < c && CopiedTo(m0, m, orig, copy, p, frames[p]) && NoTable(m, copy, frames[p]))
    && (forall p: nat :: p < c && Entry(m0, orig, p) != 0 ==> p in frames)
    && (forall p: nat :: p < hi * 1024 && p !in frames ==> Entry(m, copy, p) == 0)
  }

  // ----- Frames -----

  function FreeSet(bits: seq<bool>): set<nat> {
    set i: nat | i < |bits| && !bits[i]
  }

  /** With a free frame left, `pmm_alloc(1)` takes the first one. */
  lemma FrameTaken(bits: seq<bool>) returns (r: nat)
    requires |bits| <= PAGES && FreeSet(bits) != {}
    ensures r < |bits| && !bits[r] && AllocBits(bits, 1) == bits[r := true] && AllocAddr(bits, 1) == r * 4096
  {
    var i :| i in FreeSet(bits);
    assert IsRun(bits, 1, false, i);
    r := FirstRun(bits, 1, false);
    assert IsRun(bits, 1, false, r);
    OneFlipped(bits, r);
    FrameAddress(r);
  }

  lemma OneFlipped(bits: seq<bool>, r: nat)
    requires |bits| <= PAGES && FirstRun(bits, 1, false) == r < |bits|
    ensures AllocBits(bits, 1) == bits[r := true]
  {
    ScanFlipFound(bits, 1, false);
    var flipped := ScanFlipped(bits, 1, false);
    assert |flipped| == |bits| && forall j :: 0 <= j < |bits| ==> flipped[j] == bits[r := true][j];
  }

  lemma FrameAddress(r: nat)
    requires r < PAGES
    ensures Wrap(Wrap(r) * 4096) == r * 4096
  {
  }

  /** That frame is nobody's, and taking it makes nothing else available. */
  lemma FrameFound(bits: seq<bool>, pages: set<nat>)
    requires AllBusy(bits, pages) && FreeSet(bits) != {}
    ensures var f := AllocAddr(bits, 1);
            && !Busy(bits, f) && f !in pages && f % 4096 == 0
            && AllBusy(AllocBits(bits, 1), pages + {f as nat})
            && (forall a: nat :: Busy(bits, a) ==> Busy(AllocBits(bits, 1), a))
            && |FreeSet(AllocBits(bits, 1))| == |FreeSet(bits)| - 1
  {
    var r := FrameTaken(bits);
    var f: nat := AllocAddr(bits, 1);
    assert f / 4096 == r;
    assert FreeSet(bits[r := true]) == FreeSet(bits) - {r};
  }

  // ----- Steps of the copy -----

  /** `dup_pgd` into a new page. */
  lemma DupStart(m0: Mem, orig: nat, copy: nat)
    requires WellFormed(m0, orig) && copy !in m0
    ensures var m := m0[copy := m0[orig]]; WellFormed(m, copy) && Copying(m0, m, orig, copy, map[], 0, 0)
  {
    var m := m0[copy := m0[orig]];
    assert forall s: nat :: s < ENTRIES ==> Table(m, copy, s) == Table(m0, orig, s);
    KeepsWellFormed(m0, orig, m, copy);
  }

  function Install(m: Mem, copy: nat, s: nat, tb: u32, write: bool, user: bool): Mem
    requires copy in m && s < |m[copy]|
  {
    Put(m, copy, s, MakeEntry(tb, write, user))[tb := Zeros()]
  }

  lemma InstallWellFormed(m: Mem, copy: nat, s: nat, tb: u32, write: bool, user: bool)
    requires WellFormed(m, copy) && s < ENTRIES && tb !in m && tb % 4096 == 0 && tb != 0
    ensures var m' := Install(m, copy, s, tb, write, user);
            && WellFormed(m', copy)
            && (forall t: nat :: t < ENTRIES ==> Table(m', copy, t) == if t == s then tb else Table(m, copy, t))
            && (forall p: nat :: p < PAGES ==> Entry(m', copy, p) == if p / 1024 == s then 0 else Entry(m, copy, p))
  {
    var m' := Install(m, copy, s, tb, write, user);
    EntryRoundTrip(tb, write, user);
    assert forall t: nat :: t < ENTRIES ==> Table(m', copy, t) == if t == s then tb else Table(m, copy, t);
    AddsWellFormed(m, m', copy, s, tb);
  }

  lemma InstallStep(m0: Mem, m: Mem, orig: nat, copy: nat, frames: map<nat, nat>, s: nat, tb: u32, write: bool,
                    user: bool)
    requires WellFormed(m0, orig) && WellFormed(m, copy) && Copying(m0, m, orig, copy, frames, s, s * 1024)
    requires s < USER_SLOTS && m0[orig][s] != 0 && tb !in m && tb % 4096 == 0 && tb != 0
    requires write == Writable(m0[orig][s]) && user == ForUser(m0[orig][s])
    ensures var m' := Install(m, copy, s, tb, write, user);
            WellFormed(m', copy) && Copying(m0, m', orig, copy, frames, s + 1, s * 1024)
  {
    var m' := Install(m, copy, s, tb, write, user);
    InstallWellFormed(m, copy, s, tb, write, user);
    EntryRoundTrip(tb, write, user);
    assert SameRights(m'[copy][s], m0[orig][s]);
    forall p | p in frames
      ensures CopiedTo(m0, m', orig, copy, p, frames[p]) && NoTable(m', copy, frames[p])
    {
      assert CopiedTo(m0, m, orig, copy, p, frames[p]) && NoTable(m, copy, frames[p]);
    }
  }

  lemma SkipStep(m0: Mem, m: Mem, orig: nat, copy: nat, frames: map<nat, nat>, s: nat)
    requires WellFormed(m0, orig) && WellFormed(m, copy) && Copying(m0, m, orig, copy, frames, s, s * 1024)
    requires s < USER_SLOTS && m0[orig][s] == 0
    ensures Copying(m0, m, orig, copy, frames, s + 1, s * 1024 + 1024)
  {
    assert Table(m, copy, s) == 0 && Table(m0, orig, s) == 0;
  }

  function CopyPage(m: Mem, copy: nat, p: nat, f: u32, e: u32, words: seq<u32>): Mem
    requires copy in m && |m[copy]| == ENTRIES && p < PAGES && Table(m, copy, p / 1024) in m
    requires |m[Table(m, copy, p / 1024)]| == ENTRIES
  {
    Put(m, Table(m, copy, p / 1024), p % 1024, MakeEntry(f, Writable(e), ForUser(e)))[f := words]
  }

  /** Adding a frame nobody uses changes no directory. */
  lemma AddFrame(m: Mem, dir: nat, f: nat, words: seq<u32>)
    requires WellFormed(m, dir) && f !in m && |words| == ENTRIES
    ensures WellFormed(m[f := words], dir) && View(m[f := words], dir) == View(m, dir)
  {
    var m' := m[f := words];
    assert forall s: nat :: s < ENTRIES ==> Table(m', dir, s) == Table(m, dir, s);
    KeepsWellFormed(m, dir, m', dir);
    forall p: nat | p < PAGES
      ensures Entry(m', dir, p) == Entry(m, dir, p)
    {
    }
  }

  lemma CopyPageView(m: Mem, copy: nat, p: nat, f: u32, e: u32, words: seq<u32>)
    requires WellFormed(m, copy) && p < PAGES && Table(m, copy, p / 1024) != 0 && f !in m && |words| == ENTRIES
    ensures var m' := CopyPage(m, copy, p, f, e, words);
            && WellFormed(m', copy) && m'[copy] == m[copy]
            && (forall s: nat :: s < ENTRIES ==> Table(m', copy, s) == Table(m, copy, s))
            && (forall q: nat :: q < PAGES ==>
                 Entry(m', copy, q) == if q == p then MakeEntry(f, Writable(e), ForUser(e)) else Entry(m, copy, q))
  {
    var t, w := Table(m, copy, p / 1024), MakeEntry(f, Writable(e), ForUser(e));
    PutView(m, copy, p, w);
    var m1 := Put(m, t, p % 1024, w);
    AddFrame(m1, copy, f, words);
    var m' := CopyPage(m, copy, p, f, e, words);
    forall q: nat | q < PAGES
      ensures Entry(m', copy, q) == if q == p then w else Entry(m, copy, q)
    {
      assert View(m', copy)[q] == View(m, copy)[p := w][q];
    }
  }

  lemma CopyStep(m0: Mem, m: Mem, orig: nat, copy: nat, frames: map<nat, nat>, hi: nat, c: nat, f: u32)
    requires WellFormed(m0, orig) && WellFormed(m, copy) && UserMapped(m0, orig)
    requires Copying(m0, m, orig, copy, frames, hi, c)
    requires c < hi * 1024 && Entry(m0, orig, c) != 0 && f !in m && f % 4096 == 0
    ensures Table(m, copy, c / 1024) != 0 && Table(m, copy, c / 1024) in m
    ensures var m' := CopyPage(m, copy, c, f, Entry(m0, orig, c), m0[Address(Entry(m0, orig, c))]);
            WellFormed(m', copy) && Copying(m0, m', orig, copy, frames[c := f], hi, c + 1)
  {
    var e := Entry(m0, orig, c);
    assert m0[orig][c / 1024] != 0 by {
      assert Table(m0, orig, c / 1024) != 0;
    }
    var t := Table(m, copy, c / 1024);
    var words := m0[Address(e)];
    var m' := CopyPage(m, copy, c, f, e, words);
    CopyPageView(m, copy, c, f, e, words);
    forall p | p in frames
      ensures CopiedTo(m0, m', orig, copy, p, frames[p]) && NoTable(m', copy, frames[p])
    {
      CopiedStays(m0, m, m', orig, copy, p, frames[p], t, f);
    }
    JustCopied(m0, m, m', orig, copy, c, f, e);
  }

  lemma JustCopied(m0: Mem, m: Mem, m': Mem, orig: nat, copy: nat, c: nat, f: u32, e: u32)
    requires WellFormed(m0, orig) && WellFormed(m, copy) && WellFormed(m', copy) && c < PAGES && f % 4096 == 0
    requires e == Entry(m0, orig, c) != 0 && Address(e) in m0 && f !in m && f in m' && m'[f] == m0[Address(e)]
    requires Entry(m', copy, c) == MakeEntry(f, Writable(e), ForUser(e))
    requires forall s: nat :: s < ENTRIES ==> Table(m', copy, s) == Table(m, copy, s)
    ensures CopiedTo(m0, m', orig, copy, c, f) && NoTable(m', copy, f)
  {
  }

  lemma CopiedStays(m0: Mem, m: Mem, m': Mem, orig: nat, copy: nat, p: nat, g: nat, t: nat, f: nat)
    requires WellFormed(m0, orig) && WellFormed(m, copy) && WellFormed(m', copy) && p < PAGES
    requires CopiedTo(m0, m, orig, copy, p, g) && NoTable(m, copy, g) && f !in m && g != t
    requires Entry(m', copy, p) == Entry(m, copy, p)
    requires forall s: nat :: s < ENTRIES ==>
            Table(m', copy, s) == Table(m, copy, s)
    requires forall a :: a in m && a != t ==> a in m' && m'[a] == m[a]
    ensures CopiedTo(m0, m', orig, copy, p, g) && NoTable(m', copy, g)
  {
  }

  // ----- The operation -----

  ghost function PageSet(m: Mem, dir: nat, c: nat): set<nat>
    requires WellFormed(m, dir)
  {
    set p: nat | c <= p < USER_PAGES && Entry(m, dir, p) != 0
  }

  function SlotSet(words: seq<u32>, s: nat): set<nat>
    requires |words| == ENTRIES
  {
    set t: nat | s <= t < USER_SLOTS && words[t] != 0
  }

  ghost predicate PoolOk(m: Mem, pool: set<nat>) {
    forall t :: t in pool ==> t !in m && t % 4096 == 0 && 0 < t < TWO32
  }

  /** What the finished copy satisfies. */
  ghost predicate CloneOf(m0: Mem, m: Mem, b0: seq<bool>, bits: seq<bool>, orig: nat, copy: nat,
                          frames: map<nat, nat>) {
    && WellFormed(m0, orig) && WellFormed(m, copy)
    && Copying(m0, m, orig, copy, frames, USER_SLOTS, USER_PAGES) && FreshFrames(b0, bits, frames)
    && AllBusy(b0, m0.Keys)
  }

  /** One call of `clone_pgd`: memory and bitmap at its start, the directory and its copy. */
  datatype Job = Job(m0: Mem, b0: seq<bool>, orig: nat, copy: nat)

  /** The copy in progress: `hi` slots installed, `c` pages copied, enough free frames left. */
  ghost predicate Going(job: Job, m: Mem, pool: set<nat>, bits: seq<bool>, frames: map<nat, nat>, hi: nat, c: nat) {
    match job
    case Job(m0, b0, orig, copy) =>
      && WellFormed(m0, orig) && UserMapped(m0, orig) && WellFormed(m, copy)
      && Copying(m0, m, orig, copy, frames, hi, c) && FreshFrames(b0, bits, frames)
      && PoolOk(m, pool) && AllBusy(bits, m.Keys + pool)
      && (forall a: nat :: Busy(b0, a) ==> Busy(bits, a))
      && |FreeSet(bits)| >= |PageSet(m0, orig, c)|
  }

  /** Exactly one frame was taken for each page copied so far. */
  ghost predicate Taken(job: Job, bits: seq<bool>, c: nat) {
    && WellFormed(job.m0, job.orig)
    && |FreeSet(bits)| + |PageSet(job.m0, job.orig, 0)| == |FreeSet(job.b0)| + |PageSet(job.m0, job.orig, c)|
  }

  lemma OneTaken(bits: seq<bool>)
    requires |bits| <= PAGES && FreeSet(bits) != {}
    ensures |FreeSet(AllocBits(bits, 1))| == |FreeSet(bits)| - 1
  {
    var r := FrameTaken(bits);
    assert FreeSet(AllocBits(bits, 1)) == FreeSet(bits) - {r};
  }

  lemma TakenStep(job: Job, bits: seq<bool>, c: nat, next: nat)
    requires Taken(job, bits, c) && c < USER_PAGES && next == c + 1 && |bits| <= PAGES
    requires |FreeSet(bits)| >= |PageSet(job.m0, job.orig, c)|
    ensures Taken(job, if Entry(job.m0, job.orig, c) == 0 then bits else AllocBits(bits, 1), next)
  {
    PageSetStep(job.m0, job.orig, c);
    if Entry(job.m0, job.orig, c) != 0 {
      OneTaken(bits);
    }
  }

  /** An empty directory slot has no pages. */
  lemma NonePassed(m: Mem, dir: nat, s: nat, c: nat, end: nat)
    requires WellFormed(m, dir) && s < USER_SLOTS && m[dir][s] == 0 && c == s * 1024 && end == c + 1024
    ensures PageSet(m, dir, c) == PageSet(m, dir, end)
  {
    forall p: nat | c <= p < end
      ensures Entry(m, dir, p) == 0
    {
      assert p / 1024 == s;
    }
  }

  lemma ZeroGoes(m0: Mem, b0: seq<bool>, m: Mem, pool: set<nat>, bits: seq<bool>,
                 orig: nat, copy: nat, frames: map<nat, nat>, hi: nat, c: nat)
    requires Going(Job(m0, b0, orig, copy), m, pool, bits, frames, hi, c) && c < hi * 1024 && Entry(m0, orig, c) == 0
    ensures Going(Job(m0, b0, orig, copy), m, pool, bits, frames, hi, c + 1)
  {
    PageSetStep(m0, orig, c);
  }

  lemma CopyGoes(m0: Mem, b0: seq<bool>, m: Mem, pool: set<nat>, bits: seq<bool>,
                 orig: nat, copy: nat, frames: map<nat, nat>, hi: nat, c: nat)
    requires Going(Job(m0, b0, orig, copy), m, pool, bits, frames, hi, c) && c < hi * 1024 && Entry(m0, orig, c) != 0
    ensures var e, f, t := Entry(m0, orig, c), AllocAddr(bits, 1), Table(m, copy, c / 1024);
            && t in m && t != copy && t != Address(e) && Address(e) in m && m[Address(e)] == m0[Address(e)]
                 && f % 4096 == 0
            && Going(Job(m0, b0, orig, copy), CopyPage(m, copy, c, f, e, m0[Address(e)]), pool, AllocBits(bits, 1),
                 frames[c := f], hi, c + 1)
  {
    PageSetStep(m0, orig, c);
    FrameFound(bits, m.Keys + pool);
    var e, f := Entry(m0, orig, c), AllocAddr(bits, 1);
    CopyStep(m0, m, orig, copy, frames, hi, c, f);
    var m' := CopyPage(m, copy, c, f, e, m0[Address(e)]);
    assert m'.Keys == m.Keys + {f as nat};
    FramesStep(b0, bits, frames, c, f);
  }

  lemma StartGoes(m0: Mem, pool: set<nat>, bits: seq<bool>, orig: nat, copy: nat)
    requires WellFormed(m0, orig) && UserMapped(m0, orig) && PoolOk(m0, pool) && AllBusy(bits, m0.Keys + pool)
    requires |FreeSet(bits)| >= |PageSet(m0, orig, 0)| && copy in pool
    ensures Going(Job(m0, bits, orig, copy), m0[copy := m0[orig]], pool - {copy}, bits, map[], 0, 0)
  {
    DupStart(m0, orig, copy);
  }

  lemma InstallGoes(m0: Mem, b0: seq<bool>, m: Mem, pool: set<nat>, bits: seq<bool>,
                    orig: nat, copy: nat, frames: map<nat, nat>, s: nat, hi: nat, c: nat, tb: nat, write: bool,
                         user: bool)
    requires Going(Job(m0, b0, orig, copy), m, pool, bits, frames, s, c) && s < USER_SLOTS && m0[orig][s] != 0
    requires tb in pool && write == Writable(m0[orig][s]) && user == ForUser(m0[orig][s])
    requires hi == s + 1 && c == s * 1024
    ensures Going(Job(m0, b0, orig, copy), Install(m, copy, s, tb, write, user), pool - {tb}, bits, frames, hi, c)
  {
    InstallStep(m0, m, orig, copy, frames, s, tb, write, user);
    assert Install(m, copy, s, tb, write, user).Keys == m.Keys + {tb};
  }

  lemma SkipGoes(m0: Mem, b0: seq<bool>, m: Mem, pool: set<nat>, bits: seq<bool>,
                 orig: nat, copy: nat, frames: map<nat, nat>, s: nat, hi: nat, c: nat, end: nat)
    requires Going(Job(m0, b0, orig, copy), m, pool, bits, frames, s, c) && s < USER_SLOTS && m0[orig][s] == 0
    requires hi == s + 1 && c == s * 1024 && end == c + 1024
    ensures Going(Job(m0, b0, orig, copy), m, pool, bits, frames, hi, end)
  {
    SkipStep(m0, m, orig, copy, frames, s);
    PageSetShrinks(m0, orig, s * 1024, s * 1024 + 1024);
  }

  lemma PageSetShrinks(m: Mem, dir: nat, c: nat, d: nat)
    requires WellFormed(m, dir) && c <= d
    ensures |PageSet(m, dir, d)| <= |PageSet(m, dir, c)|
  {
    SubsetSize(PageSet(m, dir, d), PageSet(m, dir, c));
  }

  lemma {:induction false} SubsetSize(a: set<nat>, b: set<nat>)
    requires a <= b
    ensures |a| <= |b|
  {
    if a != {} {
      var x :| x in a;
      SubsetSize(a - {x}, b - {x});
    }
  }

  lemma SlotSetStep(words: seq<u32>, s: nat)
    requires |words| == ENTRIES && s < USER_SLOTS
    ensures |SlotSet(words, s)| == |SlotSet(words, s + 1)| + if words[s] != 0 then 1 else 0
  {
    if words[s] != 0 {
      assert SlotSet(words, s) == SlotSet(words, s + 1) + {s};
    } else {
      assert SlotSet(words, s) == SlotSet(words, s + 1);
    }
  }

  /** One page was drawn for each slot in use below `k`. */
  ghost predicate Drawn(words: seq<u32>, pool0: set<nat>, pool: set<nat>, k: nat) {
    |words| == ENTRIES && pool <= pool0 && |pool| + |SlotSet(words, 0)| == |pool0| + |SlotSet(words, k)|
  }

  lemma SomeLeft(words: seq<u32>, pool0: set<nat>, pool: set<nat>, k: nat)
    requires Drawn(words, pool0, pool, k) && |pool0| >= |SlotSet(words, 0)| && k < USER_SLOTS
    ensures words[k] != 0 ==> pool != {}
  {
    SlotSetStep(words, k);
  }

  lemma DrawnStep(words: seq<u32>, pool0: set<nat>, pool: set<nat>, rest: set<nat>, k: nat, next: nat)
    requires Drawn(words, pool0, pool, k) && k < USER_SLOTS && next == k + 1
    requires rest <= pool && |rest| == |pool| - if words[k] != 0 then 1 else 0
    ensures Drawn(words, pool0, rest, next)
  {
    SlotSetStep(words, k);
  }

  lemma OriginalWords(m0: Mem, m: Mem, orig: nat)
    requires WellFormed(m0, orig) && Extends(m0, m)
    ensures orig in m && m[orig] == m0[orig] && |m[orig]| == ENTRIES
  {
    assert orig in m0;
  }

  /** Memory that only grew shows the original directory unchanged. */
  lemma SameOriginal(m0: Mem, m: Mem, orig: nat)
    requires WellFormed(m0, orig) && Extends(m0, m) && Sized(m)
    ensures WellFormed(m, orig) && View(m, orig) == View(m0, orig)
  {
    assert orig in m0;
    assert forall s: nat :: s < ENTRIES ==> Table(m, orig, s) == Table(m0, orig, s);
    KeepsWellFormed(m0, orig, m, orig);
    forall p: nat | p < PAGES
      ensures Entry(m, orig, p) == Entry(m0, orig, p)
    {
      OriginalEntry(m0, m, orig, p);
    }
  }

  lemma FramesStep(b0: seq<bool>, bits: seq<bool>, frames: map<nat, nat>, c: nat, f: nat)
    requires FreshFrames(b0, bits, frames) && c !in frames && !Busy(bits, f) && Busy(AllocBits(bits, 1), f)
    requires forall a: nat :: Busy(b0, a) ==> Busy(bits, a)
    requires forall a: nat :: Busy(bits, a) ==> Busy(AllocBits(bits, 1), a)
    ensures FreshFrames(b0, AllocBits(bits, 1), frames[c := f])
  {
  }

  class Spaces {
    var mem: Mem
    /** Pages `kmalloc` can hand out, once the copy buffer is set aside. */
    var pool: set<nat>
    /** The page allocator's bitmap. */
    var bits: seq<bool>

    ghost predicate Cloneable(orig: nat)
      reads this
    {
      && WellFormed(mem, orig) && UserMapped(mem, orig) && PoolOk(mem, pool) && AllBusy(bits, mem.Keys + pool)
      && |pool| >= 1 + |SlotSet(mem[orig], 0)|
      && |FreeSet(bits)| >= |PageSet(mem, orig, 0)|
    }

    method CopyOne(orig: nat, copy: nat, c: nat, ghost next: nat, ghost m0: Mem, ghost b0: seq<bool>,
                   ghost frames: map<nat, nat>, ghost hi: nat)
      returns (ghost frames': map<nat, nat>)
      requires Going(Job(m0, b0, orig, copy), mem, pool, bits, frames, hi, c) && c < hi * 1024 && next == c + 1
      modifies this
      ensures Going(Job(m0, b0, orig, copy), mem, pool, bits, frames', hi, next) && pool == old(pool)
      ensures Taken(Job(m0, b0, orig, copy), old(bits), c) ==> Taken(Job(m0, b0, orig, copy), bits, next)
    {
      if Taken(Job(m0, b0, orig, copy), bits, c) {
        TakenStep(Job(m0, b0, orig, copy), bits, c, next);
      }
      OriginalEntry(m0, mem, orig, c);
      var t := Table(mem, orig, c / 1024);
      if t == 0 || mem[t][c % 1024] == 0 {
        ZeroGoes(m0, b0, mem, pool, bits, orig, copy, frames, hi, c);
        return frames;
      }
      var e := mem[t][c % 1024];
      CopyGoes(m0, b0, mem, pool, bits, orig, copy, frames, hi, c);
      var f := AllocAddr(bits, 1);
      bits := AllocBits(bits, 1);
      mem := CopyOver(orig, copy, c, f, e);
      frames' := frames[c := f as nat];
    }

    /** The pages of one table, in order. */
    method CopyTable(orig: nat, copy: nat, s: nat, ghost hi: nat, ghost from: nat, end: nat, ghost m0: Mem,
                     ghost b0: seq<bool>, ghost frames: map<nat, nat>)
      returns (ghost frames': map<nat, nat>)
      requires s < USER_SLOTS && hi == s + 1 && from == s * 1024 && end == from + 1024
      requires Going(Job(m0, b0, orig, copy), mem, pool, bits, frames, hi, from)
      modifies this
      ensures Going(Job(m0, b0, orig, copy), mem, pool, bits, frames', hi, end) && pool == old(pool)
      ensures Taken(Job(m0, b0, orig, copy), old(bits), from) ==> Taken(Job(m0, b0, orig, copy), bits, end)
    {
      frames' := frames;
      var page := s * 1024;
      while page < end
        invariant from <= page <= end && pool == old(pool)
        invariant Going(Job(m0, b0, orig, copy), mem, pool, bits, frames', hi, page)
        invariant Taken(Job(m0, b0, orig, copy), old(bits), from) ==> Taken(Job(m0, b0, orig, copy), bits, page)
      {
        var next := page + 1;
        frames' := CopyOne(orig, copy, page, next, m0, b0, frames', hi);
        page := next;
      }
    }

    /** One directory slot below the kernel: an empty one stays empty, another gets a table of its own. */
    method CopySlot(orig: nat, copy: nat, i: nat, ghost hi: nat, ghost c: nat, end: nat, ghost m0: Mem,
                    ghost b0: seq<bool>, ghost frames: map<nat, nat>)
      returns (ghost frames': map<nat, nat>)
      requires i < USER_SLOTS && hi == i + 1 && c == i * 1024 && end == c + 1024
      requires Going(Job(m0, b0, orig, copy), mem, pool, bits, frames, i, c) && (m0[orig][i] != 0 ==> pool != {})
      modifies this
      ensures Going(Job(m0, b0, orig, copy), mem, pool, bits, frames', hi, end)
      ensures Taken(Job(m0, b0, orig, copy), old(bits), c) ==> Taken(Job(m0, b0, orig, copy), bits, end)
      ensures pool <= old(pool) && |pool| == |old(pool)| - if m0[orig][i] != 0 then 1 else 0
    {
      OriginalWords(m0, mem, orig);
      if mem[orig][i] == 0 {
        SkipGoes(m0, b0, mem, pool, bits, orig, copy, frames, i, hi, c, end);
        NonePassed(m0, orig, i, c, end);
        return frames;
      }
      var pde := mem[orig][i];
      var table :| table in pool;
      InstallGoes(m0, b0, mem, pool, bits, orig, copy, frames, i, hi, c, table, Writable(pde), ForUser(pde));
      mem, pool := Install(mem, copy, i, table, Writable(pde), ForUser(pde)), pool - {table};
      frames' := CopyTable(orig, copy, i, hi, c, end, m0, b0, frames);
    }

    /** All slots of the directory; those of the kernel are left as they were copied. */
    method CopySlots(orig: nat, copy: nat, ghost m0: Mem, ghost b0: seq<bool>) returns (ghost frames: map<nat, nat>)
      requires Going(Job(m0, b0, orig, copy), mem, pool, bits, map[], 0, 0) && |pool| >= |SlotSet(m0[orig], 0)|
      modifies this
      ensures Going(Job(m0, b0, orig, copy), mem, pool, bits, frames, USER_SLOTS, USER_PAGES)
      ensures Taken(Job(m0, b0, orig, copy), old(bits), 0) ==> Taken(Job(m0, b0, orig, copy), bits, USER_PAGES)
      ensures Drawn(m0[orig], old(pool), pool, USER_SLOTS)
    {
      frames := map[];
      var i, page := 0, 0;
      ghost var k := 0;
      while i < 1024
        invariant i <= 1024 && k == Min(i, USER_SLOTS) && page == k * 1024
        invariant Going(Job(m0, b0, orig, copy), mem, pool, bits, frames, k, page)
        invariant Taken(Job(m0, b0, orig, copy), old(bits), 0) ==> Taken(Job(m0, b0, orig, copy), bits, page)
        invariant Drawn(m0[orig], old(pool), pool, k)
      {
        var next := i + 1;
        if i * 0x40_0000 < VIRT_BASE {
          var end := page + 1024;
          ghost var was := pool;
          SomeLeft(m0[orig], old(pool), pool, i);
          frames := CopySlot(orig, copy, i, next, page, end, m0, b0, frames);
          DrawnStep(m0[orig], old(pool), was, pool, i, next);
          page, k := end, next;
        }
        i := next;
      }
    }

    /** `clone_pgd` */
    method ClonePgd(orig: nat) returns (copy: nat, ghost frames: map<nat, nat>)
      requires Cloneable(orig)
      modifies this
      ensures CloneOf(old(mem), mem, old(bits), bits, orig, copy, frames)
      ensures WellFormed(mem, orig) && View(mem, orig) == old(View(mem, orig))
      ensures |FreeSet(bits)| + |PageSet(old(mem), orig, 0)| == |FreeSet(old(bits))|
      ensures forall a: nat :: Busy(old(bits), a) ==> Busy(bits, a)
      ensures pool <= old(pool) && |pool| + 1 + |SlotSet(old(mem)[orig], 0)| == |old(pool)|
    {
      ghost var m0, b0 := mem, bits;
      assert AllBusy(b0, m0.Keys);
      copy :| copy in pool;
      StartGoes(mem, pool, bits, orig, copy);
      mem, pool := mem[copy := mem[orig]], pool - {copy};
      frames := CopySlots(orig, copy, m0, b0);
      SameOriginal(m0, mem, orig);
      assert PageSet(m0, orig, USER_PAGES) == {} && SlotSet(m0[orig], USER_SLOTS) == {};
    }

    /** Enters the new frame in the copy's table and moves the page through a buffer. */
    method CopyOver(orig: nat, copy: nat, c: nat, f: u32, e: u32) returns (m: Mem)
      requires Sized(mem) && copy in mem && c < PAGES && Address(e) in mem && f % 4096 == 0
      requires var t := Table(mem, copy, c / 1024); t in mem && t != copy && t != Address(e)
      ensures m == CopyPage(mem, copy, c, f, e, mem[Address(e)])
    {
      m := Put(mem, Table(mem, copy, c / 1024), c % 1024, MakeEntry(f, Writable(e), ForUser(e)));
      var buffer := m[Address(e)];
      EntryRoundTrip(f, Writable(e), ForUser(e));
      var target := Address(m[Table(m, copy, c / 1024)][c % 1024]);
      m := m[target := buffer];
    }
  }

  lemma PageSetStep(m: Mem, dir: nat, c: nat)
    requires WellFormed(m, dir) && c < USER_PAGES
    ensures |PageSet(m, dir, c)| == |PageSet(m, dir, c + 1)| + if Entry(m, dir, c) != 0 then 1 else 0
  {
    if Entry(m, dir, c) != 0 {
      assert PageSet(m, dir, c) == PageSet(m, dir, c + 1) + {c};
    } else {
      assert PageSet(m, dir, c) == PageSet(m, dir, c + 1);
    }
  }

  /** The original's entry can be read in any memory that extends the one it was cloned from. */
  lemma OriginalEntry(m0: Mem, m: Mem, orig: nat, c: nat)
    requires WellFormed(m0, orig) && Extends(m0, m) && c < PAGES
    ensures orig in m && |m[orig]| == ENTRIES && Table(m, orig, c / 1024) == Table(m0, orig, c / 1024)
    ensures var t := Table(m, orig, c / 1024);
            && (t != 0 ==> t in m && |m[t]| == ENTRIES)
            && Entry(m0, orig, c) == if t == 0 then 0 else m[t][c % 1024]
  {
    assert orig in m0;
    var t := Table(m0, orig, c / 1024);
    assert t != 0 ==> t in m0;
  }

  // ----- What the copy is -----

  /** A user page of the copy: mapped exactly when the original's is, alike in flags and words, in a frame of its own.
      */
  lemma CloneMeans(m0: Mem, m: Mem, b0: seq<bool>, bits: seq<bool>, orig: nat, copy: nat, frames: map<nat, nat>, p: nat)
    requires CloneOf(m0, m, b0, bits, orig, copy, frames) && p < USER_PAGES
    ensures var e, c := Entry(m0, orig, p), Entry(m, copy, p);
            && (c == 0 <==> e == 0)
            && (e != 0 ==>
                  && Address(c) == frames[p] && Present(c) && (Writable(c) <==> Writable(e))
                       && (ForUser(c) <==> ForUser(e))
                  && Address(c) !in m0 && Address(c) in m && Address(e) in m0 && m[Address(c)] == m0[Address(e)])
  {
    var e := Entry(m0, orig, p);
    if e != 0 {
      assert CopiedTo(m0, m, orig, copy, p, frames[p]);
      EntryRoundTrip(frames[p], Writable(e), ForUser(e));
      assert !Busy(b0, frames[p]);
    }
  }

  /** What the processor lets a user program do with page `p`: directory and table entry together. */
  ghost predicate UserMay(m: Mem, dir: nat, p: nat, write: bool)
    requires WellFormed(m, dir) && p < USER_PAGES
  {
    Grants(m[dir][p / 1024], write) && Table(m, dir, p / 1024) != 0 && Grants(Entry(m, dir, p), write)
  }

  predicate Grants(w: u32, write: bool) {
    Present(w) && Permits(w, write)
  }

  predicate Permits(w: u32, write: bool) {
    ForUser(w) && (write ==> Writable(w))
  }

  /** On every user page the child may do exactly what the parent's two entries permit; that is what the parent
      may do itself wherever those are present. */
  lemma CloneRights(m0: Mem, m: Mem, b0: seq<bool>, bits: seq<bool>, orig: nat, copy: nat, frames: map<nat, nat>,
                    p: nat, write: bool)
    requires CloneOf(m0, m, b0, bits, orig, copy, frames) && p < USER_PAGES
    ensures var d, e := m0[orig][p / 1024], Entry(m0, orig, p);
            && (UserMay(m, copy, p, write) <==> e != 0 && Permits(d, write) && Permits(e, write))
            && (e == 0 || (Present(d) && Present(e)) ==>
                  (UserMay(m, copy, p, write) <==> UserMay(m0, orig, p, write)))
  {
    CloneMeans(m0, m, b0, bits, orig, copy, frames, p);
    var s := p / 1024;
    assert s < USER_SLOTS && !Present(0);
    if Entry(m0, orig, p) != 0 {
      assert Table(m0, orig, s) != 0;
      assert m0[orig][s] != 0;
      assert SameRights(m[copy][s], m0[orig][s]);
    }
  }

  /** Two pages of the copy never share a frame, and the kernel's directory entries are shared with the original. */
  lemma CloneDistinct(m0: Mem, m: Mem, b0: seq<bool>, bits: seq<bool>, orig: nat, copy: nat, frames: map<nat, nat>,
                      p: nat, q: nat, s: nat)
    requires CloneOf(m0, m, b0, bits, orig, copy, frames) && p < USER_PAGES && q < USER_PAGES && p != q
    requires USER_SLOTS <= s < ENTRIES
    ensures Entry(m, copy, p) != 0 && Entry(m, copy, q) != 0 ==>
            Address(Entry(m, copy, p)) != Address(Entry(m, copy, q))
    ensures m[copy][s] == m0[orig][s]
  {
    CloneMeans(m0, m, b0, bits, orig, copy, frames, p);
    CloneMeans(m0, m, b0, bits, orig, copy, frames, q);
  }

  // ----- Isolation -----

  predicate Maps(e: u32, a: nat) {
    e != 0 && Address(e) == a
  }

  /** Frame `a` backs a user page of `dir`. */
  ghost predicate UserFrame(m: Mem, dir: nat, a: nat)
    requires WellFormed(m, dir)
  {
    exists p: nat :: p < USER_PAGES && Maps(Entry(m, dir, p), a)
  }

  /** No frame backs user pages of both directories, and none holds a table of either. */
  ghost predicate Separate(m: Mem, d1: nat, d2: nat) {
    && WellFormed(m, d1) && WellFormed(m, d2)
    && (forall a :: UserFrame(m, d1, a) ==> !UserFrame(m, d2, a))
    && (forall a :: UserFrame(m, d1, a) || UserFrame(m, d2, a) ==> a in m && NoTable(m, d1, a) && NoTable(m, d2, a))
  }

  /** The words of a page through `dir`. */
  ghost function ReadPage(m: Mem, dir: nat, p: nat): seq<u32>
    requires WellFormed(m, dir) && p < USER_PAGES
  {
    var a := Address(Entry(m, dir, p));
    if Entry(m, dir, p) != 0 && a in m then m[a] else []
  }

  datatype Store = Store(page: nat, word: nat, value: u32)

  /** A user store through `dir`; one to an unmapped page faults and stores nothing. */
  ghost function UserStore(m: Mem, dir: nat, st: Store): Mem
    requires WellFormed(m, dir)
  {
    if st.page < USER_PAGES && st.word < ENTRIES && Entry(m, dir, st.page) != 0 && Address(Entry(m, dir, st.page)) in m
    then Put(m, Address(Entry(m, dir, st.page)), st.word, st.value)
    else m
  }

  /** A store into a page that is no table leaves a directory as it is. */
  lemma PutElsewhere(m: Mem, dir: nat, a: nat, w: nat, v: u32)
    requires WellFormed(m, dir) && a in m && w < ENTRIES && NoTable(m, dir, a)
    ensures WellFormed(Put(m, a, w, v), dir) && View(Put(m, a, w, v), dir) == View(m, dir)
  {
    var m' := Put(m, a, w, v);
    assert forall s: nat :: s < ENTRIES ==> Table(m', dir, s) == Table(m, dir, s);
    KeepsWellFormed(m, dir, m', dir);
    forall p: nat | p < PAGES
      ensures Entry(m', dir, p) == Entry(m, dir, p)
    {
    }
  }

  lemma StoreInvisible(m: Mem, d1: nat, d2: nat, st: Store)
    requires Separate(m, d1, d2)
    ensures var m' := UserStore(m, d1, st);
            && Separate(m', d1, d2)
            && forall p: nat :: p < USER_PAGES ==> ReadPage(m', d2, p) == ReadPage(m, d2, p)
  {
    var m' := UserStore(m, d1, st);
    if m' != m {
      var a := Address(Entry(m, d1, st.page));
      assert Maps(Entry(m, d1, st.page), a);
      assert UserFrame(m, d1, a);
      PutElsewhere(m, d1, a, st.word, st.value);
      PutElsewhere(m, d2, a, st.word, st.value);
      SameViews(m, m', d1);
      SameViews(m, m', d2);
      StoreSeparate(m, m', d1, d2, a);
      forall p: nat | p < USER_PAGES
        ensures ReadPage(m', d2, p) == ReadPage(m, d2, p)
      {
        ReadElsewhere(m, m', d2, p, a);
      }
    }
  }

  lemma ReadElsewhere(m: Mem, m': Mem, dir: nat, p: nat, a: nat)
    requires WellFormed(m, dir) && WellFormed(m', dir) && p < USER_PAGES && !UserFrame(m, dir, a)
    requires Entry(m', dir, p) == Entry(m, dir, p) && m'.Keys == m.Keys
    requires forall b :: b in m && b != a ==>
            m'[b] == m[b]
    ensures ReadPage(m', dir, p) == ReadPage(m, dir, p)
  {
    var e := Entry(m, dir, p);
    assert e != 0 ==> Maps(e, Address(e)) && UserFrame(m, dir, Address(e));
  }

  lemma SameViews(m: Mem, m': Mem, dir: nat)
    requires WellFormed(m, dir) && WellFormed(m', dir) && View(m', dir) == View(m, dir)
    ensures forall p: nat :: p < PAGES ==> Entry(m', dir, p) == Entry(m, dir, p)
    ensures forall a :: UserFrame(m', dir, a) <==> UserFrame(m, dir, a)
  {
    forall p: nat | p < PAGES
      ensures Entry(m', dir, p) == Entry(m, dir, p)
    {
      assert View(m', dir)[p] == View(m, dir)[p];
    }
  }

  lemma StoreSeparate(m: Mem, m': Mem, d1: nat, d2: nat, a: nat)
    requires Separate(m, d1, d2) && WellFormed(m', d1) && WellFormed(m', d2) && m'.Keys == m.Keys
    requires m'[d1] == m[d1] && m'[d2] == m[d2]
    requires forall b :: UserFrame(m', d1, b) <==> UserFrame(m, d1, b)
    requires forall b :: UserFrame(m', d2, b) <==> UserFrame(m, d2, b)
    ensures Separate(m', d1, d2)
  {
    forall b | UserFrame(m', d1, b) || UserFrame(m', d2, b)
      ensures b in m' && NoTable(m', d1, b) && NoTable(m', d2, b)
    {
      NoTableSame(m, m', d1, b);
      NoTableSame(m, m', d2, b);
    }
  }

  lemma NoTableSame(m: Mem, m': Mem, dir: nat, b: nat)
    requires WellFormed(m, dir) && WellFormed(m', dir) && m'[dir] == m[dir]
    ensures NoTable(m', dir, b) <==> NoTable(m, dir, b)
  {
    forall s: nat | s < ENTRIES
      ensures Table(m', dir, s) == Table(m, dir, s)
    {
    }
  }

  ghost function UserRun(m: Mem, dir: nat, stores: seq<Store>): Mem
    requires WellFormed(m, dir)
  {
    if stores == [] then m
    else
      var m' := UserStore(m, dir, stores[0]);
      if WellFormed(m', dir) then UserRun(m', dir, stores[1..]) else m'
  }

  /** However much one process stores, the other reads what it read before. */
  lemma {:induction false} RunInvisible(m: Mem, d1: nat, d2: nat, stores: seq<Store>)
    requires Separate(m, d1, d2)
    ensures var m' := UserRun(m, d1, stores);
            && Separate(m', d1, d2)
            && forall p: nat :: p < USER_PAGES ==> ReadPage(m', d2, p) == ReadPage(m, d2, p)
  {
    if stores != [] {
      StoreInvisible(m, d1, d2, stores[0]);
      RunInvisible(UserStore(m, d1, stores[0]), d1, d2, stores[1..]);
    }
  }

  // ----- Both processes at once -----

  /** A store by one of the two: by the first, or by the second. */
  datatype Turn = First(store: Store) | Second(store: Store)

  ghost function Interleaved(m: Mem, d1: nat, d2: nat, turns: seq<Turn>): Mem
    requires Separate(m, d1, d2) && Separate(m, d2, d1)
    decreases |turns|
  {
    if turns == [] then m
    else
      TurnSeparate(m, d1, d2, turns[0]);
      Interleaved(AfterTurn(m, d1, d2, turns[0]), d1, d2, turns[1..])
  }

  ghost function AfterTurn(m: Mem, d1: nat, d2: nat, turn: Turn): Mem
    requires Separate(m, d1, d2)
  {
    match turn
    case First(st) => UserStore(m, d1, st)
    case Second(st) => UserStore(m, d2, st)
  }

  lemma TurnSeparate(m: Mem, d1: nat, d2: nat, turn: Turn)
    requires Separate(m, d1, d2) && Separate(m, d2, d1)
    ensures var m' := AfterTurn(m, d1, d2, turn); Separate(m', d1, d2) && Separate(m', d2, d1)
  {
    match turn
    case First(st) => StoreInvisible(m, d1, d2, st);
    case Second(st) => StoreInvisible(m, d2, d1, st);
  }

  /** The stores of the first process, in order. */
  function Own(turns: seq<Turn>): seq<Store> {
    if turns == [] then [] else (if turns[0].First? then [turns[0].store] else []) + Own(turns[1..])
  }


  /** A process sees the same in both memories: the same entries, and the same pages behind them. */
  ghost predicate SameSight(m: Mem, n: Mem, dir: nat) {
    && WellFormed(m, dir) && WellFormed(n, dir) && View(m, dir) == View(n, dir)
    && (forall a :: UserFrame(m, dir, a) ==>
         a in m && a in n && m[a] == n[a] && NoTable(m, dir, a) && NoTable(n, dir, a))
  }

  /** The same store, where it sees the same, leaves it seeing the same. */
  lemma StoreSameSight(m: Mem, n: Mem, dir: nat, st: Store)
    requires SameSight(m, n, dir)
    ensures SameSight(UserStore(m, dir, st), UserStore(n, dir, st), dir)
  {
    SameEntries(m, n, dir);
    if st.page < USER_PAGES && st.word < ENTRIES && Entry(m, dir, st.page) != 0 {
      var a := Address(Entry(m, dir, st.page));
      assert Maps(Entry(m, dir, st.page), a) && UserFrame(m, dir, a);
      PutElsewhere(m, dir, a, st.word, st.value);
      PutElsewhere(n, dir, a, st.word, st.value);
      var m', n' := Put(m, a, st.word, st.value), Put(n, a, st.word, st.value);
      SameViews(m, m', dir);
      SightAfterPut(m, n, dir, a, st.word, st.value);
    }
  }

  lemma SameEntries(m: Mem, n: Mem, dir: nat)
    requires WellFormed(m, dir) && WellFormed(n, dir) && View(m, dir) == View(n, dir)
    ensures forall p: nat :: p < PAGES ==> Entry(m, dir, p) == Entry(n, dir, p)
  {
    forall p: nat | p < PAGES
      ensures Entry(m, dir, p) == Entry(n, dir, p)
    {
      assert View(m, dir)[p] == View(n, dir)[p];
    }
  }

  lemma SightAfterPut(m: Mem, n: Mem, dir: nat, a: nat, w: nat, v: u32)
    requires SameSight(m, n, dir) && UserFrame(m, dir, a) && w < ENTRIES && |m[a]| == |n[a]| == ENTRIES && a != dir
    requires var m', n' := Put(m, a, w, v), Put(n, a, w, v);
             && WellFormed(m', dir) && WellFormed(n', dir) && View(m', dir) == View(m, dir)
                  && View(n', dir) == View(n, dir)
             && (forall b :: UserFrame(m', dir, b) <==> UserFrame(m, dir, b))
    ensures SameSight(Put(m, a, w, v), Put(n, a, w, v), dir)
  {
    var m', n' := Put(m, a, w, v), Put(n, a, w, v);
    forall b | UserFrame(m', dir, b)
      ensures b in m' && b in n' && m'[b] == n'[b] && NoTable(m', dir, b) && NoTable(n', dir, b)
    {
      NoTableSame(m, m', dir, b);
      NoTableSame(n, n', dir, b);
    }
  }

  /** A store of the other process leaves this one seeing the same. */
  lemma OtherKeepsSight(m: Mem, n: Mem, d1: nat, d2: nat, st: Store)
    requires Separate(m, d1, d2) && Separate(m, d2, d1) && SameSight(m, n, d1)
    ensures SameSight(UserStore(m, d2, st), n, d1)
  {
    var m' := UserStore(m, d2, st);
    if m' != m {
      var a := Address(Entry(m, d2, st.page));
      assert Maps(Entry(m, d2, st.page), a) && UserFrame(m, d2, a);
      PutElsewhere(m, d1, a, st.word, st.value);
      SameViews(m, m', d1);
      forall b | UserFrame(m', d1, b)
        ensures b in m' && b in n && m'[b] == n[b] && NoTable(m', d1, b) && NoTable(n, d1, b)
      {
        NoTableSame(m, m', d1, b);
      }
    }
  }

  /** However the two take turns, the first sees what its own stores alone would have left. */
  lemma {:induction false} OwnStoresOnly(m: Mem, n: Mem, d1: nat, d2: nat, turns: seq<Turn>)
    requires Separate(m, d1, d2) && Separate(m, d2, d1) && SameSight(m, n, d1)
    ensures SameSight(Interleaved(m, d1, d2, turns), UserRun(n, d1, Own(turns)), d1)
    decreases |turns|
  {
    if turns != [] {
      var st := turns[0].store;
      TurnSeparate(m, d1, d2, turns[0]);
      if turns[0].First? {
        StoreSameSight(m, n, d1, st);
        OwnStoresOnly(UserStore(m, d1, st), UserStore(n, d1, st), d1, d2, turns[1..]);
        UserRunCons(n, d1, st, Own(turns[1..]));
      } else {
        OtherKeepsSight(m, n, d1, d2, st);
        OwnStoresOnly(UserStore(m, d2, st), n, d1, d2, turns[1..]);
        assert [] + Own(turns[1..]) == Own(turns[1..]);
      }
    }
  }

  lemma UserRunCons(m: Mem, dir: nat, st: Store, rest: seq<Store>)
    requires WellFormed(m, dir) && WellFormed(UserStore(m, dir, st), dir)
    ensures UserRun(m, dir, [st] + rest) == UserRun(UserStore(m, dir, st), dir, rest)
  {
    assert ([st] + rest)[1..] == rest;
  }

  function Swapped(turns: seq<Turn>): seq<Turn> {
    if turns == [] then []
    else [match turns[0] case First(st) => Second(st) case Second(st) => First(st)] + Swapped(turns[1..])
  }

  /** Which of the two is called the first does not matter. */
  lemma {:induction false} InterleavedSwapped(m: Mem, d1: nat, d2: nat, turns: seq<Turn>)
    requires Separate(m, d1, d2) && Separate(m, d2, d1)
    ensures Interleaved(m, d2, d1, Swapped(turns)) == Interleaved(m, d1, d2, turns)
    decreases |turns|
  {
    if turns != [] {
      TurnSeparate(m, d1, d2, turns[0]);
      InterleavedSwapped(AfterTurn(m, d1, d2, turns[0]), d1, d2, turns[1..]);
      assert Swapped(turns)[1..] == Swapped(turns[1..]);
    }
  }

  /** Whatever turns they take, each of the two reads what its own stores alone would have left. */
  lemma NeitherSeesTheOther(m: Mem, d1: nat, d2: nat, turns: seq<Turn>, p: nat)
    requires Separate(m, d1, d2) && Separate(m, d2, d1) && p < USER_PAGES
    ensures var m', n1, n2 := Interleaved(m, d1, d2, turns), UserRun(m, d1, Own(turns)),
            UserRun(m, d2, Own(Swapped(turns)));
            && WellFormed(m', d1) && WellFormed(n1, d1) && ReadPage(m', d1, p) == ReadPage(n1, d1, p)
            && WellFormed(m', d2) && WellFormed(n2, d2) && ReadPage(m', d2, p) == ReadPage(n2, d2, p)
  {
    InterleavedInvisible(m, d1, d2, turns, p);
    InterleavedInvisible(m, d2, d1, Swapped(turns), p);
    InterleavedSwapped(m, d1, d2, turns);
  }

  /** Page by page, for every interleaving, of the first. */
  lemma InterleavedInvisible(m: Mem, d1: nat, d2: nat, turns: seq<Turn>, p: nat)
    requires Separate(m, d1, d2) && Separate(m, d2, d1) && p < USER_PAGES
    ensures var m', alone := Interleaved(m, d1, d2, turns), UserRun(m, d1, Own(turns));
            WellFormed(m', d1) && WellFormed(alone, d1) && ReadPage(m', d1, p) == ReadPage(alone, d1, p)
  {
    OwnStoresOnly(m, m, d1, d2, turns);
    var m', alone := Interleaved(m, d1, d2, turns), UserRun(m, d1, Own(turns));
    SameEntries(m', alone, d1);
    var e := Entry(m', d1, p);
    assert e != 0 ==> Maps(e, Address(e)) && UserFrame(m', d1, Address(e));
  }

  /** A forked process and its parent are separate, both ways. */
  lemma CloneSeparate(m0: Mem, m: Mem, b0: seq<bool>, bits: seq<bool>, orig: nat, copy: nat, frames: map<nat, nat>)
    requires CloneOf(m0, m, b0, bits, orig, copy, frames) && UserMapped(m0, orig)
    requires forall a :: UserFrame(m0, orig, a) ==> NoTable(m0, orig, a)
    ensures Separate(m, orig, copy) && Separate(m, copy, orig)
  {
    SameOriginal(m0, m, orig);
    SameViews(m0, m, orig);
    forall a | UserFrame(m, copy, a)
      ensures a !in m0 && a in m && NoTable(m, copy, a) && NoTable(m, orig, a)
    {
      var p: nat :| p < USER_PAGES && Maps(Entry(m, copy, p), a);
      CloneMeans(m0, m, b0, bits, orig, copy, frames, p);
      OriginalTables(m0, m, orig, a);
    }
    forall a | UserFrame(m, orig, a)
      ensures a in m0 && NoTable(m, orig, a) && NoTable(m, copy, a)
    {
      var p: nat :| p < USER_PAGES && Maps(Entry(m0, orig, p), a);
      assert UserFrame(m0, orig, a);
      CopyTables(m0, m, orig, copy, frames, a);
      OriginalTables(m0, m, orig, a);
    }
  }

  lemma OriginalTables(m0: Mem, m: Mem, orig: nat, a: nat)
    requires WellFormed(m0, orig) && WellFormed(m, orig) && Extends(m0, m)
    ensures a !in m0 || NoTable(m0, orig, a) ==> NoTable(m, orig, a)
  {
    OriginalWords(m0, m, orig);
    forall s: nat | s < ENTRIES
      ensures Table(m, orig, s) == Table(m0, orig, s)
    {
    }
  }

  lemma CopyTables(m0: Mem, m: Mem, orig: nat, copy: nat, frames: map<nat, nat>, a: nat)
    requires WellFormed(m0, orig) && WellFormed(m, copy) && Copying(m0, m, orig, copy, frames, USER_SLOTS, USER_PAGES)
    requires a in m0 && NoTable(m0, orig, a)
    ensures NoTable(m, copy, a)
  {
    forall s: nat | s < ENTRIES && Table(m, copy, s) != 0
      ensures Table(m, copy, s) != a
    {
      assert s >= USER_SLOTS ==> Table(m, copy, s) == Table(m0, orig, s);
    }
  }

  // ----- Enough frames -----

  lemma {:induction false} InjectionCount(pages: set<nat>, frames: map<nat, nat>, free: set<nat>)
    requires forall p :: p in pages ==> p in frames && frames[p] in free
    requires forall p, q :: p in pages && q in pages && p != q ==> frames[p] != frames[q]
    ensures |pages| <= |free|
    decreases |pages|
  {
    if pages != {} {
      var p :| p in pages;
      InjectionCount(pages - {p}, frames, free - {frames[p]});
    }
  }

  /** The demand for free frames is no more than needed: every such clone takes one for each mapped user page. */
  lemma CloneNeedsFrames(m0: Mem, m: Mem, b0: seq<bool>, bits: seq<bool>, orig: nat, copy: nat, frames: map<nat, nat>)
    requires CloneOf(m0, m, b0, bits, orig, copy, frames)
    ensures |PageSet(m0, orig, 0)| <= |FreeSet(b0)|
  {
    var pages := PageSet(m0, orig, 0);
    var numbers := map p | p in frames :: frames[p] / 4096;
    forall p | p in pages
      ensures p in numbers && numbers[p] in FreeSet(b0) && frames[p] % 4096 == 0
    {
      assert p in frames && CopiedTo(m0, m, orig, copy, p, frames[p]) && !Busy(b0, frames[p]);
    }
    forall p, q | p in pages && q in pages && p != q
      ensures numbers[p] != numbers[q]
    {
      assert frames[p] == 4096 * numbers[p] && frames[q] == 4096 * numbers[q];
    }
    InjectionCount(pages, numbers, FreeSet(b0));
  }

  /** Without a free frame `pmm_alloc(1)` answers with the last page of the address space, for every page alike. */
  lemma OutOfFrames(bits: seq<bool>)
    requires |bits| <= PAGES && FreeSet(bits) == {}
    ensures AllocAddr(bits, 1) == 0xFFFF_F000 && AllocBits(bits, 1) == bits
  {
    var r := FirstRun(bits, 1, false);
    assert r >= 0 ==> r in FreeSet(bits);
    ScanFlipMissed(bits, 1, false);
  }
}
