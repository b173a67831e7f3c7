/** How many block buffers reads of fs/ext2.c keep, and what that does to runs of them. */
module Ext2Buffers {
  import opened Words
  import opened Common
  import opened BlockBuffers
  import opened Ext2
  import opened Ext2File
  import opened Ext2Reads

  // ----- One read -----

  /** `n` buffers are kept, and the last one used is only worked with. */
  predicate Costs(us: seq<Use>, n: int) {
    Kept(us) == n && us != [] && us[|us| - 1].Work?
  }

  /** The pointer blocks behind which the bytes from `x` up to `y` are. */
  function GroupsIn(span: nat, x: nat, y: nat): int
    requires 0 < span && x < y
  {
    Quot(y - 1, span) - Quot(x, span) + 1
  }

  /** The buffers a read of the bytes from `offset` up to `end` keeps: the single-indirect block's if one of them
      is behind it; the double-indirect block's and one for each pointer block if some are behind those. */
  function KeptFor(v: Volume, offset: nat, end: nat): int
    requires 0 < Span(v)
  {
    var d, s := 12 * v.blockSize, 12 * v.blockSize + Span(v);
    (if offset < s && d < end then 1 else 0)
    + (if s < end && offset < end then 1 + GroupsIn(Span(v), if offset < s then 0 else offset - s, end - s) else 0)
  }

  /** A read that starts in the direct blocks and ends in the single-indirect ones goes on for no bytes: it keeps
      a buffer for the double-indirect block, if there is one, and that is the last it uses. */
  predicate GoesOn(v: Volume, ino: Inode, offset: nat, count: nat) {
    var d, n := 12 * v.blockSize, Wanted(ino, offset, count);
    offset < d && d < offset + n <= d + Span(v) && ino.double != 0
  }

  lemma KeptFirst(us: seq<Use>)
    ensures Kept(ThroughPointers() + us) == 1 + Kept(us)
    ensures Kept([Keep] + us) == 1 + Kept(us)
    ensures Kept([Work] + us) == Kept(us)
  {
    assert ThroughPointers() + us == [Keep] + ([Work] + us);
    assert ([Keep] + us)[1..] == us && ([Work] + us)[1..] == us && ([Keep] + ([Work] + us))[1..] == [Work] + us;
  }

  /** Behind two levels of pointers. */
  lemma {:induction false} GroupsCost(read: (nat, nat, nat) -> seq<byte>, group: nat -> seq<byte>, span: nat,
                                      top: seq<u32>, idx: nat, i: nat, from: nat, n: nat)
    requires idx <= i && Served(read, group, top, i, from, n) && forall p :: |group(p)| == span
    requires i < |top| && top[idx] != 0 && from < span && 0 < n && from + n <= Times(|top| - i, span)
    ensures Costs(GroupUses(read, top, idx, i, from, n), Quot(from + n - 1, span) + 1)
    decreases |top| - i
  {
    var left := n - Min(n, span - from);
    var rest := GroupUses(read, top, idx, i + 1, 0, left);
    assert |read(top[i], from, n)| == Min(n, span - from);
    assert GroupUses(read, top, idx, i, from, n) == ThroughPointers() + rest;
    KeptFirst(rest);
    if left > 0 {
      assert Times(|top| - i, span) == Times(|top| - i - 1, span) + span;
      GroupsCost(read, group, span, top, idx, i + 1, 0, left);
    }
  }

  lemma DoubleCosts(v: Volume, pointer: nat, x: nat, y: nat)
    requires ValidVolume(v) && 0 < Span(v) && x < y <= Times(v.fanout, Span(v))
    requires GroupsLead(v, Pointers(v, pointer), 0, y)
    ensures Costs(DoubleUses(v, pointer, x, y - x), 1 + GroupsIn(Span(v), x, y))
  {
    GroupStart(v, x);
    QuotRem(x, Span(v));
    var top, idx, from := Pointers(v, pointer), GroupIndex(v, x), Rem(x, Span(v));
    GroupsFrom(Span(v), |top|, idx, from, x, y);
    CostsFrom(v, top, idx, from, y - x, y);
    KeepThen(GroupUses(IndirectReader(v), top, idx, idx, from, y - x), GroupsIn(Span(v), x, y));
  }

  lemma KeepThen(us: seq<Use>, k: int)
    requires Costs(us, k)
    ensures Costs([Keep] + us, 1 + k)
  {
    KeptFirst(us);
  }

  /** Counted from the first of them. */
  lemma GroupsFrom(span: nat, most: nat, idx: nat, from: nat, x: nat, y: nat)
    requires 0 < span && x < y <= Times(most, span) && x == Times(idx, span) + from && from < span
    ensures idx < most && from + (y - x) <= Times(most - idx, span)
    ensures GroupsIn(span, x, y) == Quot(from + (y - x) - 1, span) + 1
  {
    TimesMono(most, idx, span);
    TimesAdd(idx, most - idx, span);
    QuotShift(from, idx, span);
    QuotShift(from + (y - x) - 1, idx, span);
  }

  lemma CostsFrom(v: Volume, top: seq<u32>, idx: nat, from: nat, n: nat, whole: nat)
    requires ValidVolume(v) && idx < |top| && from < Span(v) && 0 < n && from + n <= Times(|top| - idx, Span(v))
    requires whole == Times(idx, Span(v)) + (from + n) && GroupsLead(v, top, 0, whole)
    ensures Costs(GroupUses(IndirectReader(v), top, idx, idx, from, n), Quot(from + n - 1, Span(v)) + 1)
  {
    GroupsLeadFrom(v, top, idx, from + n, whole);
    LeadsServed(v, top, idx, from, n, from + n);
    GroupsCost(IndirectReader(v), Groups(v), Span(v), top, idx, idx, from, n);
  }

  /** What reads behind the double-indirect block cost. */
  ghost predicate SomeCosts(v: Volume, ino: Inode, rs: Readers)
    requires 0 < Span(v)
  {
    forall x: nat, n: nat {:trigger rs.uses(x, n)} ::
      0 < n && 12 * v.blockSize + Span(v) + x + n <= ino.size ==>
        Costs(rs.uses(x, n), 1 + GroupsIn(Span(v), x, x + n))
  }

  ghost predicate NoneCosts(rs: Readers) {
    forall x: nat {:trigger rs.uses(x, 0)} :: rs.uses(x, 0) == [Keep]
  }

  ghost predicate LastCosts(v: Volume, ino: Inode, rs: Readers)
    requires 0 < Span(v)
  {
    SomeCosts(v, ino, rs) && NoneCosts(rs)
  }

  lemma AllocatedSomeCosts(v: Volume, ino: Inode)
    requires ValidVolume(v) && Allocated(v, ino) && 0 < Span(v)
    ensures SomeCosts(v, ino, ReadersOf(v, ino))
  {
    var rs := ReadersOf(v, ino);
    forall x: nat, n: nat {:trigger rs.uses(x, n)} | 0 < n && 12 * v.blockSize + Span(v) + x + n <= ino.size
      ensures Costs(rs.uses(x, n), 1 + GroupsIn(Span(v), x, x + n))
    {
      LastCost(v, ino, x, n, x + n, ino.size - 12 * v.blockSize - Span(v));
    }
  }

  lemma AllNoneCosts(v: Volume, ino: Inode)
    requires ValidVolume(v)
    ensures NoneCosts(ReadersOf(v, ino))
  {
    var rs := ReadersOf(v, ino);
    forall x: nat {:trigger rs.uses(x, 0)}
      ensures rs.uses(x, 0) == [Keep]
    {
      NoGroups(v, ino.double, x);
    }
  }

  lemma AllocatedLastCosts(v: Volume, ino: Inode)
    requires ValidVolume(v) && Allocated(v, ino) && 0 < Span(v)
    ensures LastCosts(v, ino, ReadersOf(v, ino))
  {
    AllocatedSomeCosts(v, ino);
    AllNoneCosts(v, ino);
  }

  lemma LastCost(v: Volume, ino: Inode, x: nat, n: nat, y: nat, size: nat)
    requires ValidVolume(v) && Allocated(v, ino) && 0 < Span(v) && 0 < n && y == x + n <= size
    requires size == ino.size - 12 * v.blockSize - Span(v)
    ensures Costs(DoubleUses(v, ino.double, x, n), 1 + GroupsIn(Span(v), x, y))
  {
    GroupsLeadLess(v, Pointers(v, ino.double), 0, size, y);
    DoubleCosts(v, ino.double, x, y);
  }

  lemma NoGroups(v: Volume, pointer: nat, x: nat)
    requires ValidVolume(v)
    ensures DoubleUses(v, pointer, x, 0) == [Keep]
  {
    GroupStart(v, x);
    assert [Keep] + [] == [Keep];
  }

  /** Reads that start in the single-indirect blocks or behind them. */
  lemma IndirectCosts(v: Volume, ino: Inode, rs: Readers, a: seq<byte>, b: seq<byte>, c: seq<byte>, block: nat, x: u32,
                      n: nat, d: nat)
    requires Serves(v, ino, rs, a, b, c) && 0 < Span(v) && LastCosts(v, ino, rs) && 0 < n && d == 12 * v.blockSize
    requires d + x + n <= ino.size && block < DIRECT + v.fanout + Times(v.fanout, v.fanout)
    requires block < DIRECT + v.fanout <==> x < Span(v)
    ensures Costs(IndirectUses(rs, v.blockSize, v.fanout, ino, block, x, n, 0), KeptFor(v, d + x, d + x + n))
  {
    if x < Span(v) {
      var s := rs.single(x, n);
      assert |s| == Min(n, Span(v) - x);
      KeptFirst(BehindUses(rs, v.fanout, ino, block, n, 0, s));
    } else {
      assert Wrap(x - Span(v)) == x - Span(v);
    }
  }

  /** Reads that start in the direct blocks; `got` bytes come from there. */
  lemma DirectCosts(v: Volume, ino: Inode, rs: Readers, a: seq<byte>, b: seq<byte>, c: seq<byte>, block: nat,
                    offset: u32, n: nat, got: nat, us: seq<Use>)
    requires Serves(v, ino, rs, a, b, c) && 0 < Span(v) && LastCosts(v, ino, rs) && 0 < n && block < DIRECT
    requires offset < 12 * v.blockSize && offset + n <= ino.size && got == Min(n, 12 * v.blockSize - offset)
    requires us == DirectUses(rs, v.blockSize, v.fanout, ino, block, offset, n)
    ensures n == got ==> us == [Work]
    ensures n == got + Min(n - got, Span(v)) && got < n ==>
              us == [Work] + (ThroughPointers() + (if ino.double != 0 then [Keep] else []))
    ensures n == 2 * got + Span(v) ==> us == [Work] + ThroughPointers()
    ensures got + Span(v) < n && n != 2 * got + Span(v) ==>
              us == [Work] + (ThroughPointers() + rs.uses(0, n - got - Span(v)))
  {
    assert |rs.direct(offset, n)| == got;
    if got < n {
      assert |rs.single(0, n - got)| == Min(n - got, Span(v));
      assert ThroughPointers() + [] == ThroughPointers();
    } else {
      assert [Work] + [] == [Work];
    }
  }

  lemma DirectKept(v: Volume, ino: Inode, rs: Readers, a: seq<byte>, b: seq<byte>, c: seq<byte>, block: nat,
                   offset: u32, count: u32, n: nat, us: seq<Use>)
    requires Serves(v, ino, rs, a, b, c) && 0 < Span(v) && LastCosts(v, ino, rs) && 0 < n && block < DIRECT
    requires offset < 12 * v.blockSize && offset + n <= ino.size && n == Wanted(ino, offset, count)
    requires us == DirectUses(rs, v.blockSize, v.fanout, ino, block, offset, n)
    ensures Spent(v, ino, offset, count, us)
  {
    var got := Min(n, 12 * v.blockSize - offset);
    DirectCosts(v, ino, rs, a, b, c, block, offset, n, got, us);
    FirstUses();
    if got + Span(v) < n && n != 2 * got + Span(v) {
      var last := rs.uses(0, n - got - Span(v));
      ThenLast(last, 1 + GroupsIn(Span(v), 0, n - got - Span(v)));
    }
  }

  lemma FirstUses()
    ensures Costs([Work], 0) && Costs([Work] + ThroughPointers(), 1)
    ensures [Work] + (ThroughPointers() + [Keep]) == [Work, Keep, Work, Keep]
    ensures [Work] + (ThroughPointers() + []) == [Work] + ThroughPointers()
  {
    KeptFirst([]);
    KeptFirst(ThroughPointers());
    assert [Work] + [] == [Work] && ThroughPointers() + [] == ThroughPointers();
  }

  lemma ThenLast(last: seq<Use>, k: int)
    requires Costs(last, k)
    ensures Costs([Work] + (ThroughPointers() + last), 1 + k)
  {
    KeptFirst(last);
    KeptFirst(ThroughPointers() + last);
  }

  /** What a read costs. */
  ghost predicate Spent(v: Volume, ino: Inode, offset: nat, count: nat, us: seq<Use>)
    requires 0 < Span(v)
  {
    var kept := KeptFor(v, offset, offset + ReadLength(v, ino, offset, count));
    if GoesOn(v, ino, offset, count) then us == [Work, Keep, Work, Keep] && kept == 1 else Costs(us, kept)
  }

  /** Of a fully allocated inode: how many buffers any read keeps, exactly. */
  lemma ReadKeeps(v: Volume, ino: Inode, offset: u32, count: u32)
    requires ValidVolume(v) && 0 < Span(v) && Allocated(v, ino) && NoWrap(ino, offset, count)
    requires offset < ino.size && 0 < count
    ensures Spent(v, ino, offset, count, InodeUses(v, ino, offset, count))
  {
    var rs, a, b, c := ReadersOf(v, ino), TableData(v, ino.direct, 0), TableData(v, Pointers(v, ino.single), 0),
                       GroupData(Groups(v), Pointers(v, ino.double), 0);
    AllocatedServes(v, ino);
    AllocatedLastCosts(v, ino);
    ClampedIff(ino, offset, count);
    PhasesKeep(v, ino, rs, a, b, c, offset, count, Wanted(ino, offset, count));
  }

  lemma PhasesKeep(v: Volume, ino: Inode, rs: Readers, a: seq<byte>, b: seq<byte>, c: seq<byte>, offset: u32,
                   count: u32, n: nat)
    requires ValidVolume(v) && Serves(v, ino, rs, a, b, c) && 0 < Span(v) && LastCosts(v, ino, rs)
    requires offset < ino.size && 0 < n == Wanted(ino, offset, count) && Clamped(ino, offset, count) == n
    ensures Spent(v, ino, offset, count, AllUses(rs, v.blockSize, v.fanout, ino, offset, count))
  {
    var block := Quot(offset, v.blockSize);
    BlockTests(v, offset);
    if block < DIRECT {
      DirectKept(v, ino, rs, a, b, c, block, offset, count, n,
                 DirectUses(rs, v.blockSize, v.fanout, ino, block, offset, n));
    } else {
      var x: u32 := offset - 12 * v.blockSize;
      assert Wrap(x) == x;
      IndirectCosts(v, ino, rs, a, b, c, block, x, n, 12 * v.blockSize);
    }
  }

  // ----- Runs -----

  /** Reads of at most one pointer block's worth keep at most three buffers each. */
  ghost predicate KeepsThree(v: Volume, ino: Inode, spend: Spender) {
    forall offset: u32, count: u32 {:trigger spend(offset, count)} ::
      NoWrap(ino, offset, count) && count <= Span(v) ==> Kept(spend(offset, count)) <= 3
  }

  lemma FewGroups(span: nat, x: nat, y: nat)
    requires 0 < span && x < y <= x + span
    ensures 1 <= GroupsIn(span, x, y) <= 2
  {
    QuotRem(x, span);
    QuotShift(Rem(x, span) + (y - 1 - x), Quot(x, span), span);
  }

  lemma FewKept(v: Volume, ino: Inode, offset: u32, count: u32, us: seq<Use>)
    requires 0 < Span(v) && 0 < count <= Span(v) && offset < ino.size && Spent(v, ino, offset, count, us)
    ensures Kept(us) <= 3
  {
    var s, end := 12 * v.blockSize + Span(v), offset + ReadLength(v, ino, offset, count);
    ReadCompleteIff(v, ino, offset, count);
    if s < end {
      FewGroups(Span(v), if offset < s then 0 else offset - s, end - s);
    }
    if GoesOn(v, ino, offset, count) {
      KeptFirst([]);
      KeptFirst([Keep]);
      KeptFirst([Work, Keep]);
      assert [Keep] + [] == [Keep] && [Work, Keep] == [Work] + [Keep];
      assert us == [Work] + ([Keep] + [Work, Keep]);
      KeptFirst([Keep] + [Work, Keep]);
    }
  }

  /** A read of nothing. */
  lemma NothingKept(v: Volume, ino: Inode, offset: u32)
    requires ValidVolume(v) && 0 < Span(v) && Allocated(v, ino)
    ensures Kept(InodeUses(v, ino, offset, 0)) <= 1
  {
    var rs := ReadersOf(v, ino);
    if offset < ino.size {
      AllocatedServes(v, ino);
      AllocatedLastCosts(v, ino);
      EmptyKept(v, ino, rs, TableData(v, ino.direct, 0), TableData(v, Pointers(v, ino.single), 0),
                GroupData(Groups(v), Pointers(v, ino.double), 0), offset);
    }
  }

  lemma EmptyKept(v: Volume, ino: Inode, rs: Readers, a: seq<byte>, b: seq<byte>, c: seq<byte>, offset: u32)
    requires ValidVolume(v) && Serves(v, ino, rs, a, b, c) && 0 < Span(v) && LastCosts(v, ino, rs) && offset < ino.size
    ensures Kept(AllUses(rs, v.blockSize, v.fanout, ino, offset, 0)) <= 1
  {
    assert Wrap(offset) == offset && Clamped(ino, offset, 0) == 0;
    BlockTests(v, offset);
    KeptFirst([]);
    assert [Keep] + [] == [Keep] && [Work] + [] == [Work] && ThroughPointers() + [] == ThroughPointers();
    if Quot(offset, v.blockSize) < DIRECT {
      assert rs.direct(offset, 0) == [];
    } else {
      var x: u32 := offset - 12 * v.blockSize;
      assert Wrap(x) == x;
      if x < Span(v) {
        assert rs.single(x, 0) == [];
      } else {
        assert Wrap(x - Span(v)) == x - Span(v);
      }
    }
  }

  lemma {:induction false} RunKeeps(v: Volume, ino: Inode, read: Reader, spend: Spender, file: seq<byte>, offset: u32,
                                    counts: seq<u32>)
    requires Delivers(v, ino, read, file) && KeepsThree(v, ino, spend) && NoWraps(v, ino, offset, counts)
    requires AtMost(counts, Span(v))
    ensures Kept(Spends(read, spend, offset, counts)) <= 3 * |counts|
    decreases |counts|
  {
    if counts != [] {
      var next := NextOffset(v, ino, read, file, offset, counts[0]);
      RunKeeps(v, ino, read, spend, file, next, counts[1..]);
      KeptBoth(spend(offset, counts[0]), Spends(read, spend, next, counts[1..]));
    }
  }

  /** Where a read leaves the offset. */
  lemma NextOffset(v: Volume, ino: Inode, read: Reader, file: seq<byte>, offset: u32, count: u32) returns (next: u32)
    requires Delivers(v, ino, read, file) && NoWrap(ino, offset, count)
    ensures next == Wrap(offset + |read(offset, count)|) == offset + ReadLength(v, ino, offset, count)
  {
    ReadCompleteIff(v, ino, offset, count);
    assert |read(offset, count)| == ReadLength(v, ino, offset, count);
    next := offset + ReadLength(v, ino, offset, count);
    assert Wrap(next) == next;
  }

  /** Put together for a fully allocated inode: reads of at most one pointer block's worth, in a file that
      ends that far below 4 GiB, return the flat file in order, and then nothing, exactly if the heap has
      room for the buffers they keep and the working one; three for each read and one are enough. */
  lemma ChunkedReads(v: Volume, ino: Inode, room: nat, counts: seq<u32>)
    requires ValidVolume(v) && Allocated(v, ino) && ino.size + Span(v) <= TWO32
    requires AtMost(counts, Span(v))
    ensures var read, spend := InodeReader(v, ino), InodeSpender(v, ino);
            && Delivered(read, spend, room, 0, counts)
               == (if Needs(Spends(read, spend, 0, counts)) <= room
                   then Some(Slice(FileData(v, ino), 0, Min(Sum(counts), ino.size))) else None)
            && (3 * |counts| < room ==> Needs(Spends(read, spend, 0, counts)) <= room)
  {
    var read, spend := InodeReader(v, ino), InodeSpender(v, ino);
    AllocatedDelivers(v, ino);
    AllocatedKeepsThree(v, ino);
    BoundedNeverWrap(v, ino, 0, counts, Span(v));
    SmallReadsComplete(v, ino, read, spend, FileData(v, ino), room, 0, counts);
    RunKeeps(v, ino, read, spend, FileData(v, ino), 0, counts);
  }

  lemma AllocatedKeepsThree(v: Volume, ino: Inode)
    requires ValidVolume(v) && Allocated(v, ino)
    ensures KeepsThree(v, ino, InodeSpender(v, ino))
  {
    var spend := InodeSpender(v, ino);
    SpanPositive(v);
    forall offset: u32, count: u32 {:trigger spend(offset, count)} | NoWrap(ino, offset, count) && count <= Span(v)
      ensures Kept(spend(offset, count)) <= 3
    {
      OneKeeps(v, ino, offset, count);
    }
  }

  lemma OneKeeps(v: Volume, ino: Inode, offset: u32, count: u32)
    requires ValidVolume(v) && 0 < Span(v) && Allocated(v, ino) && NoWrap(ino, offset, count) && count <= Span(v)
    ensures Kept(InodeUses(v, ino, offset, count)) <= 3
  {
    if count == 0 {
      NothingKept(v, ino, offset);
    } else if offset < ino.size {
      ReadKeeps(v, ino, offset, count);
      FewKept(v, ino, offset, count, InodeUses(v, ino, offset, count));
    }
  }

  // ----- Byte by byte -----

  function Ones(k: nat): (counts: seq<u32>)
    ensures |counts| == k
  {
    if k == 0 then [] else [1] + Ones(k - 1)
  }

  /** What one byte costs: a buffer behind the direct blocks, and another behind the single-indirect ones. */
  ghost predicate ByteCosts(ino: Inode, spend: Spender, d: nat, s: nat) {
    forall o: u32 {:trigger spend(o, 1)} :: o < ino.size ==> Costs(spend(o, 1), Behind(o, 1, d) + Behind(o, 1, s))
  }

  /** How many of the `k` bytes from `offset` on are at or behind `d`. */
  function Behind(offset: nat, k: nat, d: nat): nat {
    if offset + k <= d then 0 else if offset < d then offset + k - d else k
  }

  lemma {:induction false} ByteRun(v: Volume, ino: Inode, read: Reader, spend: Spender, file: seq<byte>, d: nat, s: nat,
                                   offset: u32, k: nat)
    requires Delivers(v, ino, read, file) && ByteCosts(ino, spend, d, s) && 0 < Span(v)
    requires 0 < k && offset + k <= ino.size
    ensures Costs(Spends(read, spend, offset, Ones(k)), Behind(offset, k, d) + Behind(offset, k, s))
    decreases k
  {
    var next := ByteRead(v, ino, read, file, offset);
    var rest := Spends(read, spend, next, Ones(k - 1));
    OneMore(read, spend, offset, k, next, rest);
    if k > 1 {
      ByteRun(v, ino, read, spend, file, d, s, next, k - 1);
      CostThen(spend(offset, 1), rest, Behind(offset, 1, d) + Behind(offset, 1, s),
               Behind(next, k - 1, d) + Behind(next, k - 1, s));
    }
  }

  lemma {:induction false} OneMore(read: Reader, spend: Spender, offset: u32, k: nat, next: u32, rest: seq<Use>)
    requires 0 < k && next == Wrap(offset + |read(offset, 1)|) && rest == Spends(read, spend, next, Ones(k - 1))
    ensures Spends(read, spend, offset, Ones(k)) == spend(offset, 1) + rest
    ensures k == 1 ==> Spends(read, spend, offset, Ones(k)) == spend(offset, 1)
  {
    assert Ones(k)[0] == 1 && Ones(k)[1..] == Ones(k - 1);
  }

  lemma ByteRead(v: Volume, ino: Inode, read: Reader, file: seq<byte>, offset: u32) returns (next: u32)
    requires Delivers(v, ino, read, file) && 0 < Span(v) && offset < ino.size
    ensures next == Wrap(offset + |read(offset, 1)|) == offset + 1
  {
    ReadCompleteIff(v, ino, offset, 1);
    next := NextOffset(v, ino, read, file, offset, 1);
  }

  lemma CostThen(first: seq<Use>, rest: seq<Use>, m: int, n: int)
    requires Costs(first, m) && Costs(rest, n)
    ensures Costs(first + rest, m + n)
  {
    KeptBoth(first, rest);
  }

  lemma AllocatedByteCosts(v: Volume, ino: Inode, d: nat, s: nat)
    requires ValidVolume(v) && Allocated(v, ino) && ino.size < TWO32 - 1 && 0 < Span(v)
    requires d == 12 * v.blockSize && s == d + Span(v)
    ensures ByteCosts(ino, InodeSpender(v, ino), d, s)
  {
    var spend := InodeSpender(v, ino);
    forall o: u32 {:trigger spend(o, 1)} | o < ino.size
      ensures Costs(spend(o, 1), Behind(o, 1, d) + Behind(o, 1, s))
    {
      ReadKeeps(v, ino, o, 1);
      ByteSpent(v, ino, o, InodeUses(v, ino, o, 1));
    }
  }

  lemma ByteSpent(v: Volume, ino: Inode, o: u32, us: seq<Use>)
    requires 0 < Span(v) && o < ino.size && Spent(v, ino, o, 1, us)
    ensures Costs(us, Behind(o, 1, 12 * v.blockSize) + Behind(o, 1, 12 * v.blockSize + Span(v)))
  {
    ReadCompleteIff(v, ino, o, 1);
  }

  /** Reading a file byte by byte needs one buffer for each byte behind the direct blocks, another for each behind
      the single-indirect ones, and one more. */
  lemma ByteByByte(v: Volume, ino: Inode)
    requires ValidVolume(v) && Allocated(v, ino) && 0 < ino.size < TWO32 - 1
    ensures var d := 12 * v.blockSize;
            Needs(Spends(InodeReader(v, ino), InodeSpender(v, ino), 0, Ones(ino.size)))
            == Behind(0, ino.size, d) + Behind(0, ino.size, d + Span(v)) + 1
  {
    var d, s := 12 * v.blockSize, 12 * v.blockSize + Span(v);
    AllocatedDelivers(v, ino);
    SpanPositive(v);
    AllocatedByteCosts(v, ino, d, s);
    var read, spend, k := InodeReader(v, ino), InodeSpender(v, ino), ino.size;
    ByteRun(v, ino, read, spend, FileData(v, ino), d, s, 0, k);
    NeedsOf(Spends(read, spend, 0, Ones(k)), Behind(0, k, d) + Behind(0, k, s));
  }

  lemma NeedsOf(us: seq<Use>, k: int)
    requires Costs(us, k)
    ensures Needs(us) == k + 1
  {
  }
}
