/**
 `ext2_sync_inode_data` and `ext2_read` (fs/ext2.c): 12 direct blocks, then a block of
 pointers, then a block of pointers to blocks of pointers, as in the inode table chapter of
 "The Second Extended File System: Internal Layout".  `FileData` is the flat file.
 */
module Ext2File {
  import opened Words
  import opened Common
  import opened Ext2
  import opened BlockBuffers

  const DIRECT := 12

  datatype Inode = Inode(size: u32, direct: seq<u32>, single: u32, double: u32)

  // ----- Tables and the bytes behind them -----

  lemma {:induction false} TableLeadsLess(v: Volume, t: seq<u32>, i: nat, n: nat, m: nat)
    requires |v.stale| == v.blockSize && TableLeads(v, t, i, n) && m <= n
    ensures TableLeads(v, t, i, m)
    decreases |t| - i
  {
    if m > 0 && i < |t| {
      TableLeadsLess(v, t, i + 1, n - Min(n, v.blockSize), m - Min(m, v.blockSize));
    }
  }

  lemma {:induction false} GroupsLeadLess(v: Volume, top: seq<u32>, i: nat, n: nat, m: nat)
    requires ValidVolume(v) && GroupsLead(v, top, i, n) && m <= n
    ensures GroupsLead(v, top, i, m)
    decreases |top| - i
  {
    if m > 0 && i < |top| {
      TableLeadsLess(v, Pointers(v, top[i]), 0, n, m);
      GroupsLeadLess(v, top, i + 1, n - Min(n, Span(v)), m - Min(m, Span(v)));
    }
  }

  /** Reading from entry `i` on is reading the whole behind the blocks before it. */
  lemma {:induction false} TableSlice(v: Volume, t: seq<u32>, i: nat, o: nat, n: nat, from: nat)
    requires ValidVolume(v) && i <= |t| && from == Times(i, v.blockSize) + o
    ensures Slice(TableData(v, t, i), o, n) == Slice(TableData(v, t, 0), from, n)
    decreases i
  {
    if i > 0 {
      TableSlice(v, t, i - 1, v.blockSize + o, n, from);
      SliceBeyond(TableData(v, t, i - 1), Block(v, t[i - 1]), TableData(v, t, i), v.blockSize + o, o, n);
    }
  }

  lemma {:induction false} GroupSlice(group: nat -> seq<byte>, span: nat, top: seq<u32>, i: nat, o: nat, n: nat,
                                      from: nat)
    requires i <= |top| && from == Times(i, span) + o && forall p :: |group(p)| == span
    ensures Slice(GroupData(group, top, i), o, n) == Slice(GroupData(group, top, 0), from, n)
    decreases i
  {
    if i > 0 {
      GroupSlice(group, span, top, i - 1, span + o, n, from);
      SliceBeyond(GroupData(group, top, i - 1), group(top[i - 1]), GroupData(group, top, i), span + o, o, n);
    }
  }

  lemma {:induction false} TableLeadsFrom(v: Volume, t: seq<u32>, i: nat, n: nat, whole: nat)
    requires |v.stale| == v.blockSize && i <= |t| && whole == Times(i, v.blockSize) + n && TableLeads(v, t, 0, whole)
    ensures TableLeads(v, t, i, n)
    decreases i
  {
    if i > 0 {
      TableLeadsFrom(v, t, i - 1, v.blockSize + n, whole);
    }
  }

  lemma {:induction false} GroupsLeadFrom(v: Volume, top: seq<u32>, i: nat, n: nat, whole: nat)
    requires ValidVolume(v) && i <= |top| && whole == Times(i, Span(v)) + n && GroupsLead(v, top, 0, whole)
    ensures GroupsLead(v, top, i, n)
    decreases i
  {
    if i > 0 {
      GroupsLeadFrom(v, top, i - 1, Span(v) + n, whole);
    }
  }

  /** As far as the blocks exist, the loop meets them in order. */
  lemma {:induction false} MetIsTable(v: Volume, t: seq<u32>, i: nat, blockbuf: seq<byte>, k: nat)
    requires ValidVolume(v) && |blockbuf| == v.blockSize && i <= |t| && TableLeads(v, t, i, k)
    ensures Slice(Met(v, t, i, blockbuf), 0, k) == Slice(TableData(v, t, i), 0, k)
    decreases |t| - i
  {
    if k == 0 {
      SliceNone(Met(v, t, i, blockbuf), 0, k);
      SliceNone(TableData(v, t, i), 0, k);
    } else if i < |t| {
      var b, m := Block(v, t[i]), Min(k, v.blockSize);
      MetStep(v, t, i, blockbuf);
      MetIsTable(v, t, i + 1, b, k - m);
      SliceAcross(Met(v, t, i, blockbuf), b, Met(v, t, i + 1, b), 0, k, m, k - m);
      SliceAcross(TableData(v, t, i), b, TableData(v, t, i + 1), 0, k, m, k - m);
    }
  }

  /** Reading a table delivers its bytes from the offset on. */
  lemma DirectIsTable(v: Volume, t: seq<u32>, offset: nat, n: nat)
    requires ValidVolume(v) && TableLeads(v, t, 0, offset + n)
    ensures DirectResult(v, t, offset, n) == Slice(TableData(v, t, 0), offset, n)
  {
    var i, o := Quot(offset, v.blockSize), Rem(offset, v.blockSize);
    QuotRem(offset, v.blockSize);
    if i <= |t| {
      TableLeadsFrom(v, t, i, o + n, offset + n);
      DirectFrom(v, t, i, o, offset, n);
    } else {
      TimesMono(|t|, i, v.blockSize);
      SliceNone(TableData(v, t, 0), offset, n);
    }
  }

  lemma {:induction false} DirectFrom(v: Volume, t: seq<u32>, i: nat, o: nat, offset: nat, n: nat)
    requires ValidVolume(v) && i <= |t| && offset == Times(i, v.blockSize) + o && TableLeads(v, t, i, o + n)
    ensures Slice(Met(v, t, i, v.stale), o, n) == Slice(TableData(v, t, 0), offset, n)
  {
    MetIsTable(v, t, i, v.stale, o + n);
    SliceAgree(Met(v, t, i, v.stale), TableData(v, t, i), o, n, o + n);
    TableSlice(v, t, i, o, n, offset);
  }

  /** As far as `n` bytes need them, the groups from `i` on are read as what `group` says. */
  ghost predicate Served(read: (nat, nat, nat) -> seq<byte>, group: nat -> seq<byte>, top: seq<u32>, i: nat, from: nat,
                         n: nat)
    decreases |top| - i
  {
    n == 0 || i >= |top|
    || (&& from <= |group(top[i])| && read(top[i], from, n) == Slice(group(top[i]), from, n)
        && Served(read, group, top, i + 1, 0, n - Min(n, |group(top[i])| - from)))
  }

  lemma {:induction false} ServedIsData(read: (nat, nat, nat) -> seq<byte>, group: nat -> seq<byte>, top: seq<u32>,
                                        idx: nat, i: nat, from: nat, n: nat)
    requires idx <= i <= |top| && Served(read, group, top, i, from, n) && (n > 0 && i < |top| ==> top[idx] != 0)
    ensures GroupsMet(read, top, idx, i, from, n) == Slice(GroupData(group, top, i), from, n)
    decreases |top| - i
  {
    if n > 0 && i < |top| {
      var g := read(top[i], from, n);
      var left := n - |g|;
      GroupsMetStep(read, top, idx, i, from, n, g, left);
      ServedIsData(read, group, top, idx, i + 1, 0, left);
      SliceAcross(GroupData(group, top, i), group(top[i]), GroupData(group, top, i + 1), from, n, |g|, left);
      SliceLess(group(top[i]), from, n, |g|);
    } else {
      SliceNone(GroupData(group, top, i), from, n);
    }
  }

  lemma {:induction false} GroupsMetStep(read: (nat, nat, nat) -> seq<byte>, top: seq<u32>, idx: nat, i: nat, from: nat,
                                         n: nat, g: seq<byte>, left: nat)
    requires idx <= i < |top| && n > 0 && top[idx] != 0 && g == read(top[i], from, n) && left == n - |g|
    ensures GroupsMet(read, top, idx, i, from, n) == g + GroupsMet(read, top, idx, i + 1, 0, left)
  {
    assert left == n - Min(n, |g|);
  }

  /** Groups whose blocks exist are served. */
  lemma {:induction false} LeadsServed(v: Volume, top: seq<u32>, i: nat, from: nat, n: nat, whole: nat)
    requires ValidVolume(v) && from <= Span(v) && whole == from + n && GroupsLead(v, top, i, whole)
    ensures Served(IndirectReader(v), Groups(v), top, i, from, n)
    decreases |top| - i
  {
    if n > 0 && i < |top| {
      TableServed(v, top[i], from, n, whole);
      var left := n - Min(n, Span(v) - from);
      LeadsServed(v, top, i + 1, 0, left, left);
    }
  }

  lemma {:induction false} TableServed(v: Volume, p: u32, from: nat, n: nat, whole: nat)
    requires ValidVolume(v) && whole == from + n && TableLeads(v, Pointers(v, p), 0, whole)
    ensures |Groups(v)(p)| == Span(v) && IndirectReader(v)(p, from, n) == Slice(Groups(v)(p), from, n)
  {
    DirectIsTable(v, Pointers(v, p), from, n);
  }

  lemma {:induction false} SliceLess(s: seq<byte>, from: nat, n: nat, m: nat)
    requires from <= |s| && m == Min(n, |s| - from)
    ensures Slice(s, from, n) == Slice(s, from, m)
    decreases n
  {
    if n > 0 && from < |s| {
      SliceLess(s, from + 1, n - 1, m - 1);
    }
  }

  /** Reading behind a block of pointer blocks delivers their bytes from the offset on. */
  lemma DoubleIsGroups(v: Volume, pointer: nat, offset: nat, n: nat)
    requires ValidVolume(v) && n > 0 && GroupsLead(v, Pointers(v, pointer), 0, offset + n)
    ensures DoubleResult(v, pointer, offset, n) == Slice(GroupData(Groups(v), Pointers(v, pointer), 0), offset, n)
  {
    var top, idx, from := Pointers(v, pointer), GroupIndex(v, offset), Rem(offset, Span(v));
    GroupStart(v, offset);
    QuotRem(offset, Span(v));
    if idx <= |top| {
      GroupsLeadFrom(v, top, idx, from + n, offset + n);
      LeadsServed(v, top, idx, from, n, from + n);
      ServedIsData(IndirectReader(v), Groups(v), top, idx, idx, from, n);
      GroupSlice(Groups(v), Span(v), top, idx, from, n, offset);
    } else {
      TimesMono(|top|, idx, Span(v));
      GroupDataLength(Groups(v), Span(v), top, 0);
      SliceNone(GroupData(Groups(v), top, 0), offset, n);
    }
  }

  lemma {:induction false} GroupDataLength(group: nat -> seq<byte>, span: nat, top: seq<u32>, i: nat)
    requires i <= |top| && forall p :: |group(p)| == span
    ensures |GroupData(group, top, i)| == Times(|top| - i, span)
    decreases |top| - i
  {
    if i < |top| {
      GroupDataLength(group, span, top, i + 1);
    }
  }

  // ----- The flat file -----

  ghost function FileData(v: Volume, ino: Inode): seq<byte>
    requires ValidVolume(v)
  {
    TableData(v, ino.direct, 0) + IndirectData(v, ino)
  }

  ghost function IndirectData(v: Volume, ino: Inode): seq<byte>
    requires ValidVolume(v)
  {
    TableData(v, Pointers(v, ino.single), 0) + GroupData(Groups(v), Pointers(v, ino.double), 0)
  }

  lemma FileLengths(v: Volume, ino: Inode)
    requires ValidVolume(v) && |ino.direct| == DIRECT
    ensures |TableData(v, ino.direct, 0)| == 12 * v.blockSize && |TableData(v, Pointers(v, ino.single), 0)| == Span(v)
    ensures |GroupData(Groups(v), Pointers(v, ino.double), 0)| == Times(v.fanout, Span(v))
  {
    Twelve(v.blockSize);
    GroupDataLength(Groups(v), Span(v), Pointers(v, ino.double), 0);
  }

  lemma Twelve(d: nat)
    ensures Times(12, d) == 12 * d
  {
    TimesIs(12, d);
  }

  /** Every block below the file size, and every pointer block that leads to one, exists. */
  ghost predicate Allocated(v: Volume, ino: Inode)
    requires ValidVolume(v)
  {
    var d, s := 12 * v.blockSize, 12 * v.blockSize + Span(v);
    && |ino.direct| == DIRECT && ino.size <= s + Times(v.fanout, Span(v))
    && TableLeads(v, ino.direct, 0, ino.size)
    && (d < ino.size ==> Leads(v, ino.single) && TableLeads(v, Pointers(v, ino.single), 0, ino.size - d))
    && (s < ino.size ==> Leads(v, ino.double) && GroupsLead(v, Pointers(v, ino.double), 0, ino.size - s))
  }

  // ----- ext2_sync_inode_data -----

  /** The clamp as the code computes it, in 32 bits, for an offset inside the file. */
  function Clamped(ino: Inode, offset: u32, count: u32): (n: nat)
    requires offset < ino.size
    ensures n <= count
  {
    if Wrap(offset + count) > ino.size then ino.size - offset else count
  }

  /** What reads of each kind of block deliver, by offset and count, and the buffers the last kind uses. */
  datatype Readers = Readers(direct: (nat, nat) -> seq<byte>, single: (nat, nat) -> seq<byte>,
                             double: (nat, nat) -> seq<byte>, uses: (nat, nat) -> seq<Use>)

  function ReadersOf(v: Volume, ino: Inode): Readers
    requires ValidVolume(v)
  {
    Readers((o: nat, n: nat) => DirectResult(v, ino.direct, o, n),
            (o: nat, n: nat) => DirectResult(v, Pointers(v, ino.single), o, n),
            (o: nat, n: nat) => DoubleResult(v, ino.double, o, n),
            (o: nat, n: nat) => DoubleUses(v, ino.double, o, n))
  }

  /** What the double-indirect phase delivers; `b` is the block number the read started with. */
  function LastPhase(rs: Readers, fanout: nat, ino: Inode, b: nat, x: nat, n: nat): seq<byte> {
    if b < DIRECT + fanout + Times(fanout, fanout) && ino.double != 0 then rs.double(x, n) else []
  }

  /** What both indirect phases deliver, `x` bytes behind the direct blocks, after `done` bytes: the
      test after the first is of the total against what was left before it. */
  function IndirectPhases(rs: Readers, bs: nat, fanout: nat, ino: Inode, b: nat, x: u32, n: nat, done: nat): seq<byte> {
    if b < DIRECT + fanout && ino.single != 0 then
      var s := rs.single(x, n);
      if done + |s| == n then s else s + LastPhase(rs, fanout, ino, b, 0, n - Min(n, |s|))
    else LastPhase(rs, fanout, ino, b, Wrap(x - Times(fanout, bs)), n)
  }

  /** What a read that starts in the direct blocks delivers. */
  function DirectPhase(rs: Readers, bs: nat, fanout: nat, ino: Inode, b: nat, offset: u32, n: nat): seq<byte> {
    var a := rs.direct(offset, n);
    if |a| == n then a else a + IndirectPhases(rs, bs, fanout, ino, b, 0, n - Min(n, |a|), |a|)
  }

  function AllPhases(rs: Readers, bs: nat, fanout: nat, ino: Inode, offset: u32, count: u32): seq<byte>
    requires 0 < bs
  {
    if offset >= ino.size then []
    else
      var n, b := Clamped(ino, offset, count), Quot(offset, bs);
      if b < DIRECT then DirectPhase(rs, bs, fanout, ino, b, offset, n)
      else IndirectPhases(rs, bs, fanout, ino, b, Wrap(offset - 12 * bs), n, 0)
  }

  // ----- The block buffers a read uses -----

  function LastUses(rs: Readers, fanout: nat, ino: Inode, b: nat, x: nat, n: nat): seq<Use> {
    if b < DIRECT + fanout + Times(fanout, fanout) && ino.double != 0 then rs.uses(x, n) else []
  }

  function IndirectUses(rs: Readers, bs: nat, fanout: nat, ino: Inode, b: nat, x: u32, n: nat, done: nat): seq<Use> {
    if b < DIRECT + fanout && ino.single != 0 then
      ThroughPointers() + BehindUses(rs, fanout, ino, b, n, done, rs.single(x, n))
    else LastUses(rs, fanout, ino, b, Wrap(x - Times(fanout, bs)), n)
  }

  function BehindUses(rs: Readers, fanout: nat, ino: Inode, b: nat, n: nat, done: nat, s: seq<byte>): seq<Use> {
    if done + |s| == n then [] else LastUses(rs, fanout, ino, b, 0, n - Min(n, |s|))
  }

  function DirectUses(rs: Readers, bs: nat, fanout: nat, ino: Inode, b: nat, offset: u32, n: nat): seq<Use> {
    [Work] + AfterDirectUses(rs, bs, fanout, ino, b, n, rs.direct(offset, n))
  }

  function AfterDirectUses(rs: Readers, bs: nat, fanout: nat, ino: Inode, b: nat, n: nat, a: seq<byte>): seq<Use> {
    if |a| == n then [] else IndirectUses(rs, bs, fanout, ino, b, 0, n - Min(n, |a|), |a|)
  }

  function AllUses(rs: Readers, bs: nat, fanout: nat, ino: Inode, offset: u32, count: u32): seq<Use>
    requires 0 < bs
  {
    if offset >= ino.size then []
    else
      var n, b := Clamped(ino, offset, count), Quot(offset, bs);
      if b < DIRECT then DirectUses(rs, bs, fanout, ino, b, offset, n)
      else IndirectUses(rs, bs, fanout, ino, b, Wrap(offset - 12 * bs), n, 0)
  }

  /** The buffers a read uses, in order, for every inode, offset and count. */
  function InodeUses(v: Volume, ino: Inode, offset: u32, count: u32): seq<Use>
    requires ValidVolume(v)
  {
    AllUses(ReadersOf(v, ino), v.blockSize, v.fanout, ino, offset, count)
  }

  /** The bytes a read delivers, for every inode, offset and count. */
  function InodeResult(v: Volume, ino: Inode, offset: u32, count: u32): seq<byte>
    requires ValidVolume(v)
  {
    AllPhases(ReadersOf(v, ino), v.blockSize, v.fanout, ino, offset, count)
  }

  /** `rs` are the reads of this inode. */
  ghost predicate ReadBy(v: Volume, ino: Inode, rs: Readers)
    requires ValidVolume(v)
  {
    && (forall o, n {:trigger DirectResult(v, ino.direct, o, n)} :: DirectResult(v, ino.direct, o, n)
         == rs.direct(o, n))
    && (forall o, n {:trigger DirectResult(v, Pointers(v, ino.single), o, n)} ::
          DirectResult(v, Pointers(v, ino.single), o, n) == rs.single(o, n))
    && (forall o, n {:trigger DoubleResult(v, ino.double, o, n)} :: DoubleResult(v, ino.double, o, n)
         == rs.double(o, n))
    && (forall o, n {:trigger DoubleUses(v, ino.double, o, n)} :: DoubleUses(v, ino.double, o, n) == rs.uses(o, n))
  }

  lemma ReadByItsReaders(v: Volume, ino: Inode)
    requires ValidVolume(v)
    ensures ReadBy(v, ino, ReadersOf(v, ino))
  {
  }

  method SyncLast(v: Volume, room: nat, ino: Inode, ghost rs: Readers, b: nat, x: nat, buf: array<byte>, at: nat,
                  n: nat)
    returns (left: int, r: nat)
    requires ValidVolume(v) && ReadBy(v, ino, rs) && at + n <= buf.Length
    modifies buf
    ensures left == After(room, LastUses(rs, v.fanout, ino, b, x, n))
    ensures left >= 0 ==> r == |LastPhase(rs, v.fanout, ino, b, x, n)| <= n
    ensures left >= 0 ==> buf[..] == Splice(old(buf[..]), at, LastPhase(rs, v.fanout, ino, b, x, n))
  {
    SpliceNothing(buf[..], at);
    left, r := room, 0;
    if b < DIRECT + v.fanout + Times(v.fanout, v.fanout) && ino.double != 0 {
      left, r := SyncDouble(v, room, ino.double, x, buf, at, n);
    }
  }

  method SyncAfterDirect(v: Volume, room: nat, ino: Inode, ghost rs: Readers, b: nat, x: u32, buf: array<byte>, at: nat,
                         n: nat, done: nat)
    returns (left: int, r: nat)
    requires ValidVolume(v) && ReadBy(v, ino, rs) && at + n <= buf.Length
    modifies buf
    ensures left == After(room, IndirectUses(rs, v.blockSize, v.fanout, ino, b, x, n, done))
    ensures left >= 0 ==> r == |IndirectPhases(rs, v.blockSize, v.fanout, ino, b, x, n, done)| <= n
    ensures left >= 0 ==>
              buf[..] == Splice(old(buf[..]), at, IndirectPhases(rs, v.blockSize, v.fanout, ino, b, x, n, done))
  {
    if b < DIRECT + v.fanout && ino.single != 0 {
      left, r := SyncSingle(v, room, ino, rs, b, x, buf, at, n, done);
    } else {
      left, r := SyncLast(v, room, ino, rs, b, Wrap(x - Times(v.fanout, v.blockSize)), buf, at, n);
    }
  }

  /** The branch that reads through the single-indirect block first. */
  method SyncSingle(v: Volume, room: nat, ino: Inode, ghost rs: Readers, b: nat, x: u32, buf: array<byte>, at: nat,
                    n: nat, done: nat)
    returns (left: int, r: nat)
    requires ValidVolume(v) && ReadBy(v, ino, rs) && at + n <= buf.Length && b < DIRECT + v.fanout && ino.single != 0
    modifies buf
    ensures left == After(room, IndirectUses(rs, v.blockSize, v.fanout, ino, b, x, n, done))
    ensures left >= 0 ==> r == |IndirectPhases(rs, v.blockSize, v.fanout, ino, b, x, n, done)| <= n
    ensures left >= 0 ==>
              buf[..] == Splice(old(buf[..]), at, IndirectPhases(rs, v.blockSize, v.fanout, ino, b, x, n, done))
  {
    ghost var more := BehindUses(rs, v.fanout, ino, b, n, done, rs.single(x, n));
    AfterBoth(room, ThroughPointers(), more);
    left, r := SyncIndirect(v, room, ino.single, x, buf, at, n);
    AfterFirst(left, more);
    if left < 0 || done + r == n {
      return;
    }
    left, r := SyncBehind(v, left, ino, rs, b, x, buf, at, n, r, old(buf[..]));
  }

  /** What follows the `s` bytes read through the single-indirect block. */
  method SyncBehind(v: Volume, room: nat, ino: Inode, ghost rs: Readers, b: nat, ghost x: u32, buf: array<byte>,
                    at: nat,
                    n: nat, s: nat, ghost was: seq<byte>)
    returns (left: int, r: nat)
    requires ValidVolume(v) && ReadBy(v, ino, rs) && at + n <= buf.Length == |was|
    requires s == |rs.single(x, n)| <= n && buf[..] == Splice(was, at, rs.single(x, n))
    modifies buf
    ensures var last := LastPhase(rs, v.fanout, ino, b, 0, n - s);
            && left == After(room, LastUses(rs, v.fanout, ino, b, 0, n - s))
            && (left >= 0 ==> r == s + |last| <= n && buf[..] == Splice(was, at, rs.single(x, n) + last))
  {
    var to, rest := at + s, n - s;
    ghost var mid, one, last := buf[..], rs.single(x, n), LastPhase(rs, v.fanout, ino, b, 0, rest);
    var dr;
    left, dr := SyncLast(v, room, ino, rs, b, 0, buf, to, rest);
    if left >= 0 {
      SpliceBehind(was, at, one, mid, to, last, buf[..], one + last);
    }
    r := s + dr;
  }

  /** `ext2_sync_inode_data` when reading, in a heap with room for `room` block buffers. */
  method SyncInode(v: Volume, room: nat, ino: Inode, offset: u32, buf: array<byte>, at: nat, count: u32)
    returns (left: int, r: nat)
    requires ValidVolume(v) && at + count <= buf.Length
    modifies buf
    ensures left == After(room, InodeUses(v, ino, offset, count))
    ensures left >= 0 ==> r == |InodeResult(v, ino, offset, count)| <= count
    ensures left >= 0 ==> buf[..] == Splice(old(buf[..]), at, InodeResult(v, ino, offset, count))
  {
    ReadByItsReaders(v, ino);
    left, r := SyncPhases(v, room, ino, ReadersOf(v, ino), offset, buf, at, count);
  }

  method SyncPhases(v: Volume, room: nat, ino: Inode, ghost rs: Readers, offset: u32, buf: array<byte>, at: nat,
                    count: u32)
    returns (left: int, r: nat)
    requires ValidVolume(v) && ReadBy(v, ino, rs) && at + count <= buf.Length
    modifies buf
    ensures left == After(room, AllUses(rs, v.blockSize, v.fanout, ino, offset, count))
    ensures left >= 0 ==> r == |AllPhases(rs, v.blockSize, v.fanout, ino, offset, count)| <= count
    ensures left >= 0 ==>
              buf[..] == Splice(old(buf[..]), at, AllPhases(rs, v.blockSize, v.fanout, ino, offset, count))
  {
    SpliceNothing(buf[..], at);
    if offset >= ino.size {
      return room, 0;
    }
    var b, n := Quot(offset, v.blockSize), Clamped(ino, offset, count);
    if b < DIRECT {
      left, r := SyncFromDirect(v, room, ino, rs, b, offset, buf, at, n);
    } else {
      left, r := SyncAfterDirect(v, room, ino, rs, b, Wrap(offset - 12 * v.blockSize), buf, at, n, 0);
    }
  }

  method SyncFromDirect(v: Volume, room: nat, ino: Inode, ghost rs: Readers, b: nat, offset: u32, buf: array<byte>,
                        at: nat, n: nat)
    returns (left: int, r: nat)
    requires ValidVolume(v) && ReadBy(v, ino, rs) && at + n <= buf.Length
    modifies buf
    ensures left == After(room, DirectUses(rs, v.blockSize, v.fanout, ino, b, offset, n))
    ensures left >= 0 ==> r == |DirectPhase(rs, v.blockSize, v.fanout, ino, b, offset, n)| <= n
    ensures left >= 0 ==>
              buf[..] == Splice(old(buf[..]), at, DirectPhase(rs, v.blockSize, v.fanout, ino, b, offset, n))
  {
    ghost var more := AfterDirectUses(rs, v.blockSize, v.fanout, ino, b, n, rs.direct(offset, n));
    AfterBoth(room, [Work], more);
    left, r := SyncDirect(v, room, ino.direct, offset, buf, at, n);
    AfterFirst(left, more);
    if left < 0 || r == n {
      return;
    }
    var to, rest := at + r, n - r;
    ghost var mid, a := buf[..], rs.direct(offset, n);
    ghost var others := IndirectPhases(rs, v.blockSize, v.fanout, ino, b, 0, rest, r);
    var dr;
    left, dr := SyncAfterDirect(v, left, ino, rs, b, 0, buf, to, rest, r);
    if left >= 0 {
      SpliceBehind(old(buf[..]), at, a, mid, to, others, buf[..], a + others);
    }
    r := r + dr;
  }

  // ----- How much a read returns -----

  /** The number of bytes asked for that the file has. */
  function Wanted(ino: Inode, offset: nat, count: nat): nat {
    if offset >= ino.size then 0 else Min(count, ino.size - offset)
  }

  /** The clamp does not miss the end of the file because of a wrapped sum. */
  predicate NoWrap(ino: Inode, offset: u32, count: u32) {
    offset >= ino.size || offset + count < TWO32 || offset + count - TWO32 > ino.size
  }

  lemma ClampedIff(ino: Inode, offset: u32, count: u32)
    requires offset < ino.size
    ensures Clamped(ino, offset, count) == Wanted(ino, offset, count) <==> NoWrap(ino, offset, count)
  {
    if offset + count < TWO32 {
      assert Wrap(offset + count) == offset + count;
    } else {
      assert Wrap(offset + count) == offset + count - TWO32;
    }
  }

  /** The one kind of read that stops early: it starts `d` bytes before the end of the direct
      blocks and wants `d` bytes more than direct and single-indirect blocks give it. */
  predicate StopsEarly(v: Volume, ino: Inode, offset: nat, count: nat) {
    var d := 12 * v.blockSize - offset;
    d > 0 && Wanted(ino, offset, count) == 2 * d + Span(v)
  }

  function ReadLength(v: Volume, ino: Inode, offset: nat, count: nat): nat {
    if StopsEarly(v, ino, offset, count) then 12 * v.blockSize - offset + Span(v) else Wanted(ino, offset, count)
  }

  /** A read returns all there is exactly when it does not stop early; short enough reads never do,
      and every read that wants something returns something. */
  lemma ReadCompleteIff(v: Volume, ino: Inode, offset: nat, count: nat)
    ensures ReadLength(v, ino, offset, count) == Wanted(ino, offset, count) <==> !StopsEarly(v, ino, offset, count)
    ensures count <= Span(v) ==> ReadLength(v, ino, offset, count) == Wanted(ino, offset, count)
    ensures ReadLength(v, ino, offset, count) <= Wanted(ino, offset, count)
    ensures ReadLength(v, ino, offset, count) == 0 <==> count == 0 || offset >= ino.size
  {
  }

  /** Every file that reaches the double-indirect blocks has such a read. */
  lemma LongFileStopsEarly(v: Volume, ino: Inode)
    requires ValidVolume(v) && 12 * v.blockSize + Span(v) < ino.size
    ensures var offset, count := 12 * v.blockSize - 1, Span(v) + 2;
            StopsEarly(v, ino, offset, count) && ReadLength(v, ino, offset, count) == Wanted(ino, offset, count) - 1
  {
  }

  /** The block number against which the code compares, in bytes. */
  lemma BlockTests(v: Volume, offset: nat)
    requires ValidVolume(v)
    ensures var b, n := Quot(offset, v.blockSize), v.fanout;
            && (b < 12 <==> offset < 12 * v.blockSize)
            && (b < 12 + n <==> offset < 12 * v.blockSize + Span(v))
            && (b < 12 + n + Times(n, n) <==> offset < 12 * v.blockSize + Span(v) + Times(n, Span(v)))
  {
    var n, bs := v.fanout, v.blockSize;
    Twelve(bs);
    BlockBelow(offset, bs, 12);
    BlockBelow(offset, bs, 12 + n);
    TimesAdd(12, n, bs);
    BlockBelow(offset, bs, 12 + n + Times(n, n));
    TimesAdd(12 + n, Times(n, n), bs);
    TimesAssoc(n, n, bs);
  }

  /** Byte `x` lies in the first `c` blocks exactly when it lies below their end. */
  lemma BlockBelow(x: nat, d: nat, c: nat)
    requires 0 < d
    ensures Quot(x, d) < c <==> x < Times(c, d)
  {
    QuotRem(x, d);
    TimesMono(Quot(x, d) + 1, c, d);
    TimesMono(c, Quot(x, d), d);
  }

  // ----- A read delivers the flat file -----

  /** Below the file size the reads deliver `a`, then `b`, then `c`. */
  ghost predicate Serves(v: Volume, ino: Inode, rs: Readers, a: seq<byte>, b: seq<byte>, c: seq<byte>) {
    var d, s := 12 * v.blockSize, 12 * v.blockSize + Span(v);
    && |a| == d && |b| == Span(v) && ino.size <= s + Times(v.fanout, Span(v))
    && (d < ino.size ==> ino.single != 0) && (s < ino.size ==> ino.double != 0)
    && (forall o: nat, n: nat {:trigger rs.direct(o, n)} :: o + n <= ino.size ==> rs.direct(o, n) == Slice(a, o, n))
    && (forall o: nat, n: nat {:trigger rs.single(o, n)} ::
          d < ino.size && d + o + n <= ino.size ==> rs.single(o, n) == Slice(b, o, n))
    && (forall o: nat, n: nat {:trigger rs.double(o, n)} ::
          n == 0 || s + o + n <= ino.size ==> rs.double(o, n) == Slice(c, o, n))
  }

  lemma LastIsFile(v: Volume, ino: Inode, rs: Readers, a: seq<byte>, b: seq<byte>, c: seq<byte>, block: nat, x: nat,
                   n: nat)
    requires Serves(v, ino, rs, a, b, c)
    requires n == 0 || (12 * v.blockSize + Span(v) + x + n <= ino.size
            && block < DIRECT + v.fanout + Times(v.fanout, v.fanout))
    ensures LastPhase(rs, v.fanout, ino, block, x, n) == Slice(c, x, n)
  {
    if n == 0 {
      SliceNone(c, x, n);
    }
  }

  /** The two pieces of a read across the end of `b`, the second of which is left out if the test fails. */
  lemma TwoPieces(b: seq<byte>, c: seq<byte>, bc: seq<byte>, x: nat, n: nat, done: nat, length: nat, s: seq<byte>,
                  last: seq<byte>)
    requires bc == b + c && x <= |b| && s == Slice(b, x, n) && (done + |s| != n ==> last == Slice(c, 0, n - |s|))
    requires length == if done + |s| == n then |s| else n
    ensures (if done + |s| == n then s else s + last) == Slice(bc, x, length)
  {
    var m := Min(n, |b| - x);
    SliceLess(b, x, n, m);
    SliceAcross(bc, b, c, x, length, m, length - m);
    if done + |s| == n {
      SliceNone(c, 0, length - m);
    }
  }

  /** The indirect phases deliver `length` bytes of the blocks behind the direct ones. */
  lemma IndirectIsFile(v: Volume, ino: Inode, rs: Readers, a: seq<byte>, b: seq<byte>, c: seq<byte>, bc: seq<byte>,
                       block: nat, x: u32, n: nat, done: nat, length: nat)
    requires Serves(v, ino, rs, a, b, c) && bc == b + c
    requires 12 * v.blockSize < ino.size && 12 * v.blockSize + x + n <= ino.size
    requires block < DIRECT + v.fanout + Times(v.fanout, v.fanout) && (block < DIRECT + v.fanout <==> x < Span(v))
    requires done == 0 || (x == 0 && 0 < Span(v))
    requires length == if 0 < done && n == done + Span(v) then Span(v) else n
    ensures IndirectPhases(rs, v.blockSize, v.fanout, ino, block, x, n, done) == Slice(bc, x, length)
  {
    if x < Span(v) {
      var m := Min(n, Span(v) - x);
      LastIsFile(v, ino, rs, a, b, c, block, 0, n - m);
      SingleFirst(rs, v.blockSize, v.fanout, ino, b, c, bc, block, x, n, done, length, m);
    } else {
      LastIsFile(v, ino, rs, a, b, c, block, x - Span(v), n);
      SingleSkipped(rs, v.blockSize, v.fanout, ino, block, x, n, done, x - Span(v));
      SliceBeyond(bc, b, c, x, x - Span(v), n);
    }
  }

  lemma SingleSkipped(rs: Readers, bs: nat, fanout: nat, ino: Inode, block: nat, x: u32, n: nat, done: nat, x': nat)
    requires block >= DIRECT + fanout && x' + Times(fanout, bs) == x
    ensures IndirectPhases(rs, bs, fanout, ino, block, x, n, done) == LastPhase(rs, fanout, ino, block, x', n)
  {
    assert Wrap(x') == x';
  }

  lemma SingleFirst(rs: Readers, bs: nat, fanout: nat, ino: Inode, b: seq<byte>, c: seq<byte>, bc: seq<byte>,
                    block: nat, x: u32, n: nat, done: nat, length: nat, m: nat)
    requires bc == b + c && x < |b| && m == Min(n, |b| - x) && (done == 0 || x == 0)
    requires block < DIRECT + fanout && ino.single != 0 && rs.single(x, n) == Slice(b, x, n)
    requires LastPhase(rs, fanout, ino, block, 0, n - m) == Slice(c, 0, n - m)
    requires length == if 0 < done && n == done + |b| then |b| else n
    ensures IndirectPhases(rs, bs, fanout, ino, block, x, n, done) == Slice(bc, x, length)
  {
    var s, last := rs.single(x, n), LastPhase(rs, fanout, ino, block, 0, n - m);
    SingleThen(rs, bs, fanout, ino, block, x, n, done, m, s, last);
    TwoPieces(b, c, bc, x, n, done, length, s, last);
  }

  lemma SingleThen(rs: Readers, bs: nat, fanout: nat, ino: Inode, block: nat, x: u32, n: nat, done: nat, m: nat,
                   s: seq<byte>, last: seq<byte>)
    requires block < DIRECT + fanout && ino.single != 0 && s == rs.single(x, n) && |s| == m <= n
    requires last == LastPhase(rs, fanout, ino, block, 0, n - m)
    ensures IndirectPhases(rs, bs, fanout, ino, block, x, n, done) == if done + |s| == n then s else s + last
  {
  }

  /** A read that starts in the direct blocks. */
  lemma DirectIsFile(v: Volume, ino: Inode, rs: Readers, a: seq<byte>, b: seq<byte>, c: seq<byte>, bc: seq<byte>,
                     abc: seq<byte>,
                     block: nat, offset: u32, n: nat, d: nat, length: nat)
    requires 0 < Span(v) && Serves(v, ino, rs, a, b, c) && bc == b + c && abc == a + bc
    requires block < DIRECT && 0 < d == 12 * v.blockSize - offset && offset + n <= ino.size
    requires length == if n == 2 * d + Span(v) then d + Span(v) else n
    ensures DirectPhase(rs, v.blockSize, v.fanout, ino, block, offset, n) == Slice(abc, offset, length)
  {
    if n <= d {
      DirectOnly(rs, v.blockSize, v.fanout, ino, a, bc, abc, block, offset, n, length);
    } else {
      IndirectIsFile(v, ino, rs, a, b, c, bc, block, 0, n - d, d, length - d);
      DirectFirst(rs, v.blockSize, v.fanout, ino, a, bc, abc, block, offset, n, d, length);
    }
  }

  lemma DirectOnly(rs: Readers, bs: nat, fanout: nat, ino: Inode, a: seq<byte>, bc: seq<byte>, abc: seq<byte>,
                   block: nat, offset: u32, n: nat, length: nat)
    requires abc == a + bc && offset + n <= |a| && length == n && rs.direct(offset, n) == Slice(a, offset, n)
    ensures DirectPhase(rs, bs, fanout, ino, block, offset, n) == Slice(abc, offset, length)
  {
    OnePiece(a, bc, abc, offset, n);
  }

  lemma DirectFirst(rs: Readers, bs: nat, fanout: nat, ino: Inode, a: seq<byte>, bc: seq<byte>, abc: seq<byte>,
                    block: nat, offset: u32, n: nat, d: nat, length: nat)
    requires abc == a + bc && |a| == offset + d && d < n && d <= length && rs.direct(offset, n) == Slice(a, offset, n)
    requires IndirectPhases(rs, bs, fanout, ino, block, 0, n - d, d) == Slice(bc, 0, length - d)
    ensures DirectPhase(rs, bs, fanout, ino, block, offset, n) == Slice(abc, offset, length)
  {
    FirstPiece(a, bc, abc, offset, n, d, length, rs.direct(offset, n));
  }

  lemma OnePiece(a: seq<byte>, b: seq<byte>, ab: seq<byte>, from: nat, n: nat)
    requires ab == a + b && from + n <= |a|
    ensures Slice(a, from, n) == Slice(ab, from, n)
  {
    SliceAcross(ab, a, b, from, n, n, 0);
    SliceNone(b, 0, 0);
  }

  lemma FirstPiece(a: seq<byte>, b: seq<byte>, ab: seq<byte>, from: nat, n: nat, d: nat, length: nat, s: seq<byte>)
    requires ab == a + b && |a| == from + d && d <= n && d <= length && s == Slice(a, from, n)
    ensures |s| == d && s + Slice(b, 0, length - d) == Slice(ab, from, length)
  {
    SliceLess(a, from, n, d);
    SliceAcross(ab, a, b, from, length, d, length - d);
  }

  /** In all, the read delivers the flat bytes from its offset on. */
  lemma PhasesAreFile(v: Volume, ino: Inode, rs: Readers, a: seq<byte>, b: seq<byte>, c: seq<byte>, bc: seq<byte>,
                      abc: seq<byte>,
                      offset: u32, count: u32)
    requires ValidVolume(v) && Serves(v, ino, rs, a, b, c) && bc == b + c && abc == a + bc && NoWrap(ino, offset, count)
    ensures AllPhases(rs, v.blockSize, v.fanout, ino, offset, count)
            == Slice(abc, offset, ReadLength(v, ino, offset, count))
  {
    if offset >= ino.size {
      SliceNone(abc, offset, 0);
    } else {
      ClampedIff(ino, offset, count);
      BlockTests(v, offset);
      SpanPositive(v);
      var n, block := Wanted(ino, offset, count), Quot(offset, v.blockSize);
      if block < DIRECT {
        DirectIsFile(v, ino, rs, a, b, c, bc, abc, block, offset, n, 12 * v.blockSize - offset,
             ReadLength(v, ino, offset, count));
      } else {
        BehindIsFile(v, ino, rs, a, b, c, bc, abc, block, offset, n);
      }
    }
  }

  /** A read that starts behind the direct blocks. */
  lemma BehindIsFile(v: Volume, ino: Inode, rs: Readers, a: seq<byte>, b: seq<byte>, c: seq<byte>, bc: seq<byte>,
                     abc: seq<byte>,
                     block: nat, offset: u32, n: nat)
    requires 0 < Span(v) && Serves(v, ino, rs, a, b, c) && bc == b + c && abc == a + bc
    requires 12 * v.blockSize <= offset < ino.size && offset + n <= ino.size
    requires block < DIRECT + v.fanout + Times(v.fanout, v.fanout)
    requires block < DIRECT + v.fanout <==> offset < 12 * v.blockSize + Span(v)
    ensures IndirectPhases(rs, v.blockSize, v.fanout, ino, block, Wrap(offset - 12 * v.blockSize), n, 0)
            == Slice(abc, offset, n)
  {
    var x: u32 := offset - 12 * v.blockSize;
    assert Wrap(x) == x;
    IndirectIsFile(v, ino, rs, a, b, c, bc, block, x, n, 0, n);
    SliceBeyond(abc, a, bc, offset, x, n);
  }

  lemma DirectServed(v: Volume, ino: Inode, o: nat, n: nat)
    requires ValidVolume(v) && TableLeads(v, ino.direct, 0, ino.size) && o + n <= ino.size
    ensures ReadersOf(v, ino).direct(o, n) == Slice(TableData(v, ino.direct, 0), o, n)
  {
    TableLeadsLess(v, ino.direct, 0, ino.size, o + n);
    DirectIsTable(v, ino.direct, o, n);
  }

  lemma SingleServed(v: Volume, ino: Inode, o: nat, n: nat, size: nat)
    requires ValidVolume(v) && TableLeads(v, Pointers(v, ino.single), 0, size) && o + n <= size
    ensures ReadersOf(v, ino).single(o, n) == Slice(TableData(v, Pointers(v, ino.single), 0), o, n)
  {
    TableLeadsLess(v, Pointers(v, ino.single), 0, size, o + n);
    DirectIsTable(v, Pointers(v, ino.single), o, n);
  }

  lemma DoubleServed(v: Volume, ino: Inode, o: nat, n: nat, size: nat)
    requires ValidVolume(v) && (n == 0 || (GroupsLead(v, Pointers(v, ino.double), 0, size) && o + n <= size))
    ensures ReadersOf(v, ino).double(o, n) == Slice(GroupData(Groups(v), Pointers(v, ino.double), 0), o, n)
  {
    if n == 0 {
      SliceNone(GroupData(Groups(v), Pointers(v, ino.double), 0), o, n);
    } else {
      GroupsLeadLess(v, Pointers(v, ino.double), 0, size, o + n);
      DoubleIsGroups(v, ino.double, o, n);
    }
  }

  /** The reads of a fully allocated inode serve its three kinds of blocks. */
  lemma AllocatedServes(v: Volume, ino: Inode)
    requires ValidVolume(v) && Allocated(v, ino)
    ensures Serves(v, ino, ReadersOf(v, ino), TableData(v, ino.direct, 0), TableData(v, Pointers(v, ino.single), 0),
                   GroupData(Groups(v), Pointers(v, ino.double), 0))
  {
    var rs, d, s := ReadersOf(v, ino), 12 * v.blockSize, 12 * v.blockSize + Span(v);
    FileLengths(v, ino);
    forall o: nat, n: nat {:trigger rs.direct(o, n)} | o + n <= ino.size
      ensures rs.direct(o, n) == Slice(TableData(v, ino.direct, 0), o, n)
    {
      DirectServed(v, ino, o, n);
    }
    forall o: nat, n: nat {:trigger rs.single(o, n)} | d < ino.size && d + o + n <= ino.size
      ensures rs.single(o, n) == Slice(TableData(v, Pointers(v, ino.single), 0), o, n)
    {
      SingleServed(v, ino, o, n, ino.size - d);
    }
    forall o: nat, n: nat {:trigger rs.double(o, n)} | n == 0 || s + o + n <= ino.size
      ensures rs.double(o, n) == Slice(GroupData(Groups(v), Pointers(v, ino.double), 0), o, n)
    {
      DoubleServed(v, ino, o, n, if s < ino.size then ino.size - s else 0);
    }
  }

  /** For every fully allocated inode and every offset and count whose sum does not wrap past the
      end: the bytes delivered are the flat file's, exactly as many as `ReadLength` says. */
  lemma InodeIsFile(v: Volume, ino: Inode, offset: u32, count: u32)
    requires ValidVolume(v) && Allocated(v, ino) && NoWrap(ino, offset, count)
    ensures InodeResult(v, ino, offset, count) == Slice(FileData(v, ino), offset, ReadLength(v, ino, offset, count))
    ensures |InodeResult(v, ino, offset, count)| == ReadLength(v, ino, offset, count)
  {
    AllocatedServes(v, ino);
    FileLengths(v, ino);
    PhasesAreFile(v, ino, ReadersOf(v, ino), TableData(v, ino.direct, 0), TableData(v, Pointers(v, ino.single), 0),
                  GroupData(Groups(v), Pointers(v, ino.double), 0), IndirectData(v, ino), FileData(v, ino), offset,
                       count);
    ReadCompleteIff(v, ino, offset, count);
  }

  // ----- Missing blocks -----

  /** The pointers of a table from entry `i` on, without the zeros. */
  function Present(t: seq<u32>, i: nat): seq<u32>
    decreases |t| - i
  {
    if i >= |t| then [] else if t[i] == 0 then Present(t, i + 1) else [t[i]] + Present(t, i + 1)
  }

  /** Every table, with holes or without: what a read finds is the present blocks laid end to end, from
      the table entry of the offset on.  It returns all it asks for exactly if enough of them follow. */
  lemma HolesVanish(v: Volume, t: seq<u32>, offset: nat, n: nat)
    requires ValidVolume(v) && forall j :: 0 <= j < |t| && t[j] != 0 ==> Readable(v, t[j])
    ensures var (i, o) := (Quot(offset, v.blockSize), Rem(offset, v.blockSize));
            && DirectResult(v, t, offset, n) == Slice(TableData(v, Present(t, i), 0), o, n)
            && (|DirectResult(v, t, offset, n)| == n <==> n == 0 || o + n <= Times(|Present(t, i)|, v.blockSize))
  {
    MetIsPresent(v, t, Quot(offset, v.blockSize), v.stale);
  }

  lemma {:induction false} MetIsPresent(v: Volume, t: seq<u32>, i: nat, blockbuf: seq<byte>)
    requires ValidVolume(v) && |blockbuf| == v.blockSize
    requires forall j :: 0 <= j < |t| && t[j] != 0 ==> Readable(v, t[j])
    ensures Met(v, t, i, blockbuf) == TableData(v, Present(t, i), 0)
    decreases |t| - i
  {
    if i < |t| {
      if t[i] == 0 {
        MetIsPresent(v, t, i + 1, blockbuf);
      } else {
        var data := Fetch(v, t[i], blockbuf);
        MetIsPresent(v, t, i + 1, data);
        TableDataTail(v, t[i], Present(t, i + 1), 0);
      }
    }
  }

  lemma {:induction false} TableDataTail(v: Volume, p: u32, t: seq<u32>, i: nat)
    requires ValidVolume(v) && i <= |t|
    ensures TableData(v, [p] + t, i + 1) == TableData(v, t, i)
    decreases |t| - i
  {
    if i < |t| {
      TableDataTail(v, p, t, i + 1);
    }
  }

  /** Why missing blocks are excluded: the code does not fill them in, the next block takes their place. */
  lemma HoleShifts(v: Volume, t: seq<u32>, n: nat)
    requires ValidVolume(v) && |t| >= 2 && t[0] == 0 && t[1] != 0 && n <= v.blockSize
    ensures DirectResult(v, t, 0, n) == Slice(Fetch(v, t[1], v.stale), 0, n)
  {
    var d := Fetch(v, t[1], v.stale);
    assert Met(v, t, 0, v.stale) == Met(v, t, 1, v.stale) == d + Met(v, t, 2, d);
    OnePiece(d, Met(v, t, 2, d), Met(v, t, 0, v.stale), 0, n);
  }

  /** Why a wrapped sum is excluded: the clamp is skipped and the read goes on behind the file. */
  lemma WrapSkipsClamp(ino: Inode)
    requires ino.size == 5000
    ensures !NoWrap(ino, 1, 0xFFFF_FFFF) && Clamped(ino, 1, 0xFFFF_FFFF) == 0xFFFF_FFFF
    ensures Wanted(ino, 1, 0xFFFF_FFFF) == 4999
  {
  }
}
