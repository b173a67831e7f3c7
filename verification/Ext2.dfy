/**
 Reading blocks of an ext2 volume (fs/ext2.c).  The functions ending in `Result` say, for
 every table, offset and count, which bytes the code delivers; `TableData` and `GroupData`
 are the bytes the tables lead to, laid end to end.  Products, quotients and remainders by
 the block size are the functions `Times`, `Quot` and `Rem`.
 */
module Ext2 {
  import opened Words
  import opened Common
  import opened BlockBuffers

  /** The file system's block size, the pointers per block, what a block buffer holds when `kmalloc`
      hands it out, and the device: `device(n, was)` is the buffer after a read of block `n` into one
      that held `was`. */
  datatype Volume = Volume(blockSize: nat, fanout: nat, stale: seq<byte>, device: (nat, seq<byte>) -> seq<byte>)

  predicate ValidVolume(v: Volume) {
    0 < v.fanout && |v.stale| == v.blockSize == 4 * v.fanout && v.blockSize <= 0x1_0000
  }

  /** A read of block `n` into a buffer that held `was`. */
  function Fetch(v: Volume, n: nat, was: seq<byte>): (data: seq<byte>)
    requires |was| == v.blockSize
    ensures |data| == v.blockSize
  {
    if |v.device(n, was)| == v.blockSize then v.device(n, was) else was
  }

  /** The bytes of block `n`. */
  function Block(v: Volume, n: nat): (data: seq<byte>)
    requires |v.stale| == v.blockSize
    ensures |data| == v.blockSize
  {
    Fetch(v, n, v.stale)
  }

  /** The device has block `n`: what a read delivers does not depend on the buffer. */
  ghost predicate Readable(v: Volume, n: nat)
    requires |v.stale| == v.blockSize
  {
    forall was {:trigger Fetch(v, n, was)} :: |was| == v.blockSize ==> Fetch(v, n, was) == Block(v, n)
  }

  // ----- Tables -----

  /** The pointers in a block's bytes. */
  function PointersIn(v: Volume, data: seq<byte>): (t: seq<u32>)
    requires |data| == 4 * v.fanout
    ensures |t| == v.fanout
  {
    seq(v.fanout, i requires 0 <= i < v.fanout => Load32(data, 4 * i))
  }

  /** The table in pointer block `n`. */
  function Pointers(v: Volume, n: nat): (t: seq<u32>)
    requires |v.stale| == v.blockSize == 4 * v.fanout
    ensures |t| == v.fanout
  {
    PointersIn(v, Block(v, n))
  }

  /** The bytes one block of pointers leads to. */
  function Span(v: Volume): nat {
    Times(v.fanout, v.blockSize)
  }

  lemma SpanPositive(v: Volume)
    requires ValidVolume(v)
    ensures v.blockSize <= Span(v)
  {
    TimesMono(1, v.fanout, v.blockSize);
  }

  /** The blocks of a table from entry `i` on, laid end to end. */
  ghost function TableData(v: Volume, t: seq<u32>, i: nat): (d: seq<byte>)
    requires ValidVolume(v) && i <= |t|
    ensures |d| == Times(|t| - i, v.blockSize)
    decreases |t| - i
  {
    if i == |t| then [] else Block(v, t[i]) + TableData(v, t, i + 1)
  }

  /** What pointer block `p` leads to. */
  ghost function Groups(v: Volume): nat -> seq<byte>
    requires ValidVolume(v)
  {
    (p: nat) => TableData(v, Pointers(v, p), 0)
  }

  /** The groups a table of pointer blocks leads to, from entry `i` on, laid end to end. */
  ghost function GroupData(group: nat -> seq<byte>, top: seq<u32>, i: nat): seq<byte>
    requires i <= |top|
    decreases |top| - i
  {
    if i == |top| then [] else group(top[i]) + GroupData(group, top, i + 1)
  }

  /** A pointer that leads to a block. */
  ghost predicate Leads(v: Volume, pointer: u32)
    requires |v.stale| == v.blockSize
  {
    pointer != 0 && Readable(v, pointer)
  }

  /** The blocks that hold the first `n` bytes from entry `i` on exist. */
  ghost predicate TableLeads(v: Volume, t: seq<u32>, i: nat, n: nat)
    requires |v.stale| == v.blockSize
    decreases |t| - i
  {
    n == 0 || i >= |t| || (Leads(v, t[i]) && TableLeads(v, t, i + 1, n - Min(n, v.blockSize)))
  }

  /** The blocks that hold the first `n` bytes behind the pointer blocks from entry `i` on exist, and so do those. */
  ghost predicate GroupsLead(v: Volume, top: seq<u32>, i: nat, n: nat)
    requires ValidVolume(v)
    decreases |top| - i
  {
    n == 0 || i >= |top|
    || (&& Leads(v, top[i]) && TableLeads(v, Pointers(v, top[i]), 0, n)
        && GroupsLead(v, top, i + 1, n - Min(n, Span(v))))
  }

  // ----- ext2_sync_direct_blocks -----

  /** The blocks from index `i` on as the loop meets them: missing ones are passed over. */
  function Met(v: Volume, t: seq<u32>, i: nat, blockbuf: seq<byte>): seq<byte>
    requires ValidVolume(v) && |blockbuf| == v.blockSize
    decreases |t| - i
  {
    if i >= |t| then []
    else if t[i] == 0 then Met(v, t, i + 1, blockbuf)
    else
      var data := Fetch(v, t[i], blockbuf);
      data + Met(v, t, i + 1, data)
  }

  function DirectResult(v: Volume, t: seq<u32>, offset: nat, n: nat): (r: seq<byte>)
    requires ValidVolume(v)
    ensures |r| <= n
  {
    Slice(Met(v, t, Quot(offset, v.blockSize), v.stale), Rem(offset, v.blockSize), n)
  }

  /** memcpy */
  method CopyTo(buf: array<byte>, at: nat, data: seq<byte>)
    requires at + |data| <= buf.Length
    modifies buf
    ensures buf[..] == Splice(old(buf[..]), at, data)
  {
    for k := 0 to |data|
      invariant forall j :: 0 <= j < buf.Length ==>
                              buf[j] == if at <= j < at + k then data[j - at] else old(buf[..])[j]
    {
      buf[at + k] := data[k];
    }
  }

  /** Puts `data` behind the bytes `got` that went to `at`. */
  method Append(buf: array<byte>, to: nat, data: seq<byte>, ghost was: seq<byte>, ghost at: nat, ghost got: seq<byte>)
    requires |was| == buf.Length && to == at + |got| && to + |data| <= buf.Length && buf[..] == Splice(was, at, got)
    modifies buf
    ensures buf[..] == Splice(was, at, got + data)
  {
    ghost var mid := buf[..];
    CopyTo(buf, to, data);
    SpliceBehind(was, at, got, mid, to, data, buf[..], got + data);
  }

  /** The loop over blocks at index `i`: `got` so far, the rest of `result` still ahead. */
  ghost predicate Reading(v: Volume, t: seq<u32>, i: nat, blockbuf: seq<byte>, byteOffset: nat, n: nat,
                          result: seq<byte>, got: seq<byte>)
    requires ValidVolume(v)
  {
    && |blockbuf| == v.blockSize && byteOffset < v.blockSize && |got| <= n
    && result == got + Slice(Met(v, t, i, blockbuf), byteOffset, n - |got|)
  }

  lemma {:induction false} ReadingStep(v: Volume, t: seq<u32>, i: nat, blockbuf: seq<byte>, byteOffset: nat, n: nat,
                    result: seq<byte>, got: seq<byte>, data: seq<byte>, m: nat)
    requires ValidVolume(v) && Reading(v, t, i, blockbuf, byteOffset, n, result, got)
    requires i < |t| && t[i] != 0 && data == Fetch(v, t[i], blockbuf)
    requires m == Min(n - |got|, v.blockSize - byteOffset)
    ensures Reading(v, t, i + 1, data, 0, n, result, got + data[byteOffset..byteOffset + m])
  {
    MetStep(v, t, i, blockbuf);
    ReadAhead(got, Met(v, t, i, blockbuf), data, Met(v, t, i + 1, data), byteOffset, n - |got|, m);
  }

  lemma {:induction false} ReadingSkips(v: Volume, t: seq<u32>, i: nat, blockbuf: seq<byte>, byteOffset: nat, n: nat,
                                        result: seq<byte>, got: seq<byte>)
    requires ValidVolume(v) && Reading(v, t, i, blockbuf, byteOffset, n, result, got)
    ensures i < |t| && t[i] == 0 ==> Reading(v, t, i + 1, blockbuf, byteOffset, n, result, got)
  {
  }

  lemma {:induction false} ReadingEnds(v: Volume, t: seq<u32>, i: nat, blockbuf: seq<byte>, byteOffset: nat, n: nat,
                                       result: seq<byte>, got: seq<byte>, was: seq<byte>, at: nat)
    requires ValidVolume(v) && Reading(v, t, i, blockbuf, byteOffset, n, result, got)
    requires i >= |t| && at + n <= |was|
    ensures result == got && Splice(was, at, got) == Splice(was, at, result)
  {
  }

  lemma {:induction false} ReadingStarts(v: Volume, t: seq<u32>, offset: nat, n: nat)
    requires ValidVolume(v)
    ensures Reading(v, t, Quot(offset, v.blockSize), v.stale, Rem(offset, v.blockSize), n,
            DirectResult(v, t, offset, n), [])
  {
    QuotRem(offset, v.blockSize);
  }

  lemma {:induction false} MetStep(v: Volume, t: seq<u32>, i: nat, blockbuf: seq<byte>)
    requires ValidVolume(v) && |blockbuf| == v.blockSize && i < |t| && t[i] != 0
    ensures var data := Fetch(v, t[i], blockbuf); Met(v, t, i, blockbuf) == data + Met(v, t, i + 1, data)
  {
  }

  /** `ext2_sync_direct_blocks`, in a heap with room for `room` block buffers; it leaves room for `left`,
      or answers -1 when `kmalloc` had no buffer for it. */
  method SyncDirect(v: Volume, room: nat, t: seq<u32>, offset: nat, buf: array<byte>, at: nat, n: nat)
    returns (left: int, r: nat)
    requires ValidVolume(v) && at + n <= buf.Length
    modifies buf
    ensures left == After(room, [Work])
    ensures left >= 0 ==> r == |DirectResult(v, t, offset, n)|
    ensures left >= 0 ==> buf[..] == Splice(old(buf[..]), at, DirectResult(v, t, offset, n))
  {
    AfterFirst(room, []);
    if room == 0 {
      return -1, 0;
    }
    r := CopyBlocks(v, t, offset, buf, at, n);
    left := room;
  }

  /** The loop of `ext2_sync_direct_blocks`. */
  method CopyBlocks(v: Volume, t: seq<u32>, offset: nat, buf: array<byte>, at: nat, n: nat) returns (r: nat)
    requires ValidVolume(v) && at + n <= buf.Length
    modifies buf
    ensures r == |DirectResult(v, t, offset, n)|
    ensures buf[..] == Splice(old(buf[..]), at, DirectResult(v, t, offset, n))
  {
    r := 0;
    ReadingStarts(v, t, offset, n);
    var blockbuf := v.stale;
    var i: nat, byteOffset: nat := Quot(offset, v.blockSize), Rem(offset, v.blockSize);
    ghost var result, got: seq<byte> := DirectResult(v, t, offset, n), [];
    SpliceNothing(buf[..], at);
    while i < |t| && r <= n
      invariant r == |got| && Reading(v, t, i, blockbuf, byteOffset, n, result, got)
      invariant buf[..] == Splice(old(buf[..]), at, got)
    {
      var m;
      m, blockbuf, byteOffset, got :=
        SyncEntry(v, t, i, blockbuf, byteOffset, buf, at, n, r, old(buf[..]), result, got);
      r, i := r + m, i + 1;
    }
    ReadingEnds(v, t, i, blockbuf, byteOffset, n, result, got, old(buf[..]), at);
  }

  /** One round of that loop: a zero pointer is passed over. */
  method SyncEntry(v: Volume, t: seq<u32>, i: nat, blockbuf: seq<byte>, byteOffset: nat, buf: array<byte>, at: nat,
                   n: nat, r: nat, ghost was: seq<byte>, ghost result: seq<byte>, ghost got: seq<byte>)
    returns (m: nat, data: seq<byte>, next: nat, ghost got': seq<byte>)
    requires ValidVolume(v) && Reading(v, t, i, blockbuf, byteOffset, n, result, got)
    requires i < |t| && r == |got|
    requires |was| == buf.Length && at + n <= buf.Length && buf[..] == Splice(was, at, got)
    modifies buf
    ensures Reading(v, t, i + 1, data, next, n, result, got') && |got'| == r + m && buf[..] == Splice(was, at, got')
  {
    if t[i] == 0 {
      ReadingSkips(v, t, i, blockbuf, byteOffset, n, result, got);
      return 0, blockbuf, byteOffset, got;
    }
    m, data, got' := SyncBlock(v, t, i, blockbuf, byteOffset, buf, at, n, r, was, result, got);
    next := 0;
  }

  /** One block. */
  method SyncBlock(v: Volume, t: seq<u32>, i: nat, blockbuf: seq<byte>, byteOffset: nat, buf: array<byte>, at: nat,
                   n: nat, r: nat, ghost was: seq<byte>, ghost result: seq<byte>, ghost got: seq<byte>)
    returns (m: nat, data: seq<byte>, ghost got': seq<byte>)
    requires ValidVolume(v) && Reading(v, t, i, blockbuf, byteOffset, n, result, got)
    requires i < |t| && t[i] != 0 && r == |got|
    requires |was| == buf.Length && at + n <= buf.Length && buf[..] == Splice(was, at, got)
    modifies buf
    ensures Reading(v, t, i + 1, data, 0, n, result, got') && |got'| == r + m && buf[..] == Splice(was, at, got')
  {
    m := Min(n - r, v.blockSize - byteOffset);
    data := Fetch(v, t[i], blockbuf);
    ReadingStep(v, t, i, blockbuf, byteOffset, n, result, got, data, m);
    var slice := data[byteOffset..byteOffset + m];
    Append(buf, at + r, slice, was, at, got);
    got' := got + slice;
  }

  // ----- ext2_sync_indirect_blocks -----

  /** The buffer for the pointers is not given back. */
  method SyncIndirect(v: Volume, room: nat, pointer: u32, offset: nat, buf: array<byte>, at: nat, n: nat)
    returns (left: int, r: nat)
    requires ValidVolume(v) && at + n <= buf.Length
    modifies buf
    ensures left == After(room, ThroughPointers())
    ensures left >= 0 ==> left == room - 1 && r == |DirectResult(v, Pointers(v, pointer), offset, n)|
    ensures left >= 0 ==> buf[..] == Splice(old(buf[..]), at, DirectResult(v, Pointers(v, pointer), offset, n))
  {
    AfterFirst(room, []);
    if room == 0 {
      return -1, 0;
    }
    AfterFirst(room - 1, []);
    var data := Fetch(v, pointer, v.stale);
    left, r := SyncDirect(v, room - 1, PointersIn(v, data), offset, buf, at, n);
  }

  // ----- ext2_sync_doubly_indirect_blocks -----

  /** What a read through pointer block `p` delivers. */
  function IndirectReader(v: Volume): (nat, nat, nat) -> seq<byte>
    requires ValidVolume(v)
  {
    (p: nat, from: nat, n: nat) => DirectResult(v, Pointers(v, p), from, n)
  }

  /** The groups from `i` on as the loop meets them; what it tests each time is group `idx`. */
  function GroupsMet(read: (nat, nat, nat) -> seq<byte>, top: seq<u32>, idx: nat, i: nat, from: nat, n: nat): seq<byte>
    requires idx <= i
    decreases |top| - i
  {
    if i >= |top| || n == 0 || top[idx] == 0 then []
    else
      var g := read(top[i], from, n);
      g + GroupsMet(read, top, idx, i + 1, 0, n - Min(n, |g|))
  }

  /** The buffers that loop uses. */
  function GroupUses(read: (nat, nat, nat) -> seq<byte>, top: seq<u32>, idx: nat, i: nat, from: nat, n: nat): seq<Use>
    requires idx <= i
    decreases |top| - i
  {
    if i >= |top| || n == 0 || top[idx] == 0 then []
    else ThroughPointers() + GroupUses(read, top, idx, i + 1, 0, n - Min(n, |read(top[i], from, n)|))
  }

  function GroupIndex(v: Volume, offset: nat): nat
    requires ValidVolume(v)
  {
    Quot(Quot(offset, v.blockSize), v.fanout)
  }

  /** The group's start is subtracted from the offset. */
  lemma GroupStart(v: Volume, offset: nat)
    requires ValidVolume(v)
    ensures 0 < Span(v) && GroupIndex(v, offset) == Quot(offset, Span(v))
    ensures offset - Times(Times(GroupIndex(v, offset), v.fanout), v.blockSize) == Rem(offset, Span(v))
  {
    SpanPositive(v);
    GroupOf(offset, v.fanout, v.blockSize);
    TimesAssoc(GroupIndex(v, offset), v.fanout, v.blockSize);
    QuotRem(offset, Span(v));
  }

  /** Dividing twice is dividing by the product. */
  lemma GroupOf(x: nat, n: nat, bs: nat)
    requires 0 < n && 0 < bs && 0 < Times(n, bs)
    ensures Quot(x, Times(n, bs)) == Quot(Quot(x, bs), n)
  {
    var b := Quot(x, bs);
    QuotRem(x, bs);
    QuotRem(b, n);
    GroupSplit(Quot(b, n), n, Rem(b, n), bs, Rem(x, bs));
    QuotIs(x, Times(n, bs), Quot(b, n));
  }

  lemma GroupSplit(g: nat, n: nat, j: nat, bs: nat, o: nat)
    requires j < n && o < bs
    ensures Times(Times(g, n) + j, bs) == Times(g, Times(n, bs)) + Times(j, bs) && Times(j, bs) + o < Times(n, bs)
  {
    TimesAdd(Times(g, n), j, bs);
    TimesAssoc(g, n, bs);
    TimesApart(j, n, bs);
  }

  function DoubleResult(v: Volume, pointer: nat, offset: nat, n: nat): seq<byte>
    requires ValidVolume(v)
  {
    GroupStart(v, offset);
    var idx := GroupIndex(v, offset);
    GroupsMet(IndirectReader(v), Pointers(v, pointer), idx, idx, Rem(offset, Span(v)), n)
  }

  function DoubleUses(v: Volume, pointer: nat, offset: nat, n: nat): seq<Use>
    requires ValidVolume(v)
  {
    GroupStart(v, offset);
    var idx := GroupIndex(v, offset);
    [Keep] + GroupUses(IndirectReader(v), Pointers(v, pointer), idx, idx, Rem(offset, Span(v)), n)
  }

  /** The loop over groups at index `i`, with room for `left` buffers: it will leave room for `all`. */
  ghost predicate Using(read: (nat, nat, nat) -> seq<byte>, top: seq<u32>, idx: nat, i: nat, from: nat, n: nat,
                        got: seq<byte>, left: int, all: int) {
    idx <= i && |got| <= n && all == After(left, GroupUses(read, top, idx, i, from, n - |got|))
  }

  lemma {:induction false} UsingStep(read: (nat, nat, nat) -> seq<byte>, top: seq<u32>, idx: nat, i: nat, from: nat,
                                     n: nat, got: seq<byte>, g: seq<byte>, left: int, left': int, all: int)
    requires Using(read, top, idx, i, from, n, got, left, all) && i < |top| && |got| < n && top[idx] != 0
    requires g == read(top[i], from, n - |got|) && |g| <= n - |got| && left' == After(left, ThroughPointers())
    ensures Using(read, top, idx, i + 1, 0, n, got + g, left', all)
  {
    var rest := GroupUses(read, top, idx, i + 1, 0, n - |got| - |g|);
    assert GroupUses(read, top, idx, i, from, n - |got|) == ThroughPointers() + rest;
    AfterBoth(left, ThroughPointers(), rest);
  }

  lemma {:induction false} UsingEnds(read: (nat, nat, nat) -> seq<byte>, top: seq<u32>, idx: nat, i: nat, from: nat,
                                     n: nat, got: seq<byte>, left: int, all: int)
    requires Using(read, top, idx, i, from, n, got, left, all)
    ensures left < 0 ==> all == -1
    ensures left >= 0 && (i >= |top| || |got| == n || top[idx] == 0) ==> all == left
  {
    AfterFirst(left, GroupUses(read, top, idx, i, from, n - |got|));
  }

  /** The loop over groups at index `i`: `got` so far, the rest of `result` still ahead. */
  ghost predicate Gathering(read: (nat, nat, nat) -> seq<byte>, top: seq<u32>, idx: nat, i: nat, from: nat, n: nat,
                            result: seq<byte>, got: seq<byte>) {
    idx <= i && |got| <= n && result == got + GroupsMet(read, top, idx, i, from, n - |got|)
  }

  lemma {:induction false} GatheringStep(read: (nat, nat, nat) -> seq<byte>, top: seq<u32>, idx: nat, i: nat, from: nat,
                                         n: nat, result: seq<byte>, got: seq<byte>, g: seq<byte>)
    requires Gathering(read, top, idx, i, from, n, result, got) && i < |top| && |got| < n && top[idx] != 0
    requires g == read(top[i], from, n - |got|) && |g| <= n - |got|
    ensures Gathering(read, top, idx, i + 1, 0, n, result, got + g)
  {
    Regroup(got, g, GroupsMet(read, top, idx, i + 1, 0, n - |got| - |g|));
  }

  lemma {:induction false} GatheringEnds(read: (nat, nat, nat) -> seq<byte>, top: seq<u32>, idx: nat, i: nat, from: nat,
                                         n: nat, result: seq<byte>, got: seq<byte>)
    requires Gathering(read, top, idx, i, from, n, result, got)
    ensures i >= |top| || |got| == n || top[idx] == 0 ==> result == got
  {
  }

  /** `read` is the reading through pointer blocks. */
  ghost predicate ReadsThrough(v: Volume, read: (nat, nat, nat) -> seq<byte>)
    requires ValidVolume(v)
  {
    forall p, from, n {:trigger DirectResult(v, Pointers(v, p), from, n)} ::
      DirectResult(v, Pointers(v, p), from, n) == read(p, from, n)
  }

  /** Neither is the one for the pointers to pointer blocks. */
  method SyncDouble(v: Volume, room: nat, pointer: u32, offset: nat, buf: array<byte>, at: nat, n: nat)
    returns (left: int, r: nat)
    requires ValidVolume(v) && at + n <= buf.Length
    modifies buf
    ensures left == After(room, DoubleUses(v, pointer, offset, n))
    ensures left >= 0 ==> r == |DoubleResult(v, pointer, offset, n)| <= n
    ensures left >= 0 ==> buf[..] == Splice(old(buf[..]), at, DoubleResult(v, pointer, offset, n))
  {
    GroupStart(v, offset);
    var idx := Quot(Quot(offset, v.blockSize), v.fanout);
    var from: nat := offset - Times(Times(idx, v.fanout), v.blockSize);
    AfterFirst(room, GroupUses(IndirectReader(v), Pointers(v, pointer), idx, idx, from, n));
    if room == 0 {
      return -1, 0;
    }
    var data := Fetch(v, pointer, v.stale);
    var top := PointersIn(v, data);
    DoubleIs(v, pointer, offset, n, idx, from);
    left, r := Gather(v, room - 1, IndirectReader(v), top, idx, from, buf, at, n);
  }

  lemma {:induction false} DoubleIs(v: Volume, pointer: u32, offset: nat, n: nat, idx: nat, from: nat)
    requires ValidVolume(v) && 0 < Span(v) && idx == GroupIndex(v, offset) && from == Rem(offset, Span(v))
    ensures DoubleResult(v, pointer, offset, n) == GroupsMet(IndirectReader(v), Pointers(v, pointer), idx, idx, from, n)
    ensures ReadsThrough(v, IndirectReader(v))
  {
  }

  method Gather(v: Volume, room: nat, ghost read: (nat, nat, nat) -> seq<byte>, top: seq<u32>, idx: nat, start: nat,
                buf: array<byte>, at: nat, n: nat)
    returns (left: int, r: nat)
    requires ValidVolume(v) && ReadsThrough(v, read) && at + n <= buf.Length
    modifies buf
    ensures left == After(room, GroupUses(read, top, idx, idx, start, n))
    ensures left >= 0 ==> r == |GroupsMet(read, top, idx, idx, start, n)| <= n
    ensures left >= 0 ==> buf[..] == Splice(old(buf[..]), at, GroupsMet(read, top, idx, idx, start, n))
  {
    left, r := room, 0;
    var i, from := idx, start;
    ghost var result, got: seq<byte> := GroupsMet(read, top, idx, idx, start, n), [];
    ghost var all := After(room, GroupUses(read, top, idx, idx, start, n));
    SpliceNothing(buf[..], at);
    while i < |top| && n - r > 0
      invariant left >= 0 && r == |got| && Gathering(read, top, idx, i, from, n, result, got)
      invariant Using(read, top, idx, i, from, n, got, left, all)
      invariant buf[..] == Splice(old(buf[..]), at, got)
    {
      if top[idx] == 0 {
        break;
      }
      var dr;
      left, dr, got := GatherGroup(v, left, read, top, idx, i, from, buf, at, n, r, old(buf[..]), result, got, all);
      r, from, i := r + dr, 0, i + 1;
      if left < 0 {
        UsingEnds(read, top, idx, i, from, n, got, left, all);
        return;
      }
    }
    GatheringEnds(read, top, idx, i, from, n, result, got);
    UsingEnds(read, top, idx, i, from, n, got, left, all);
  }

  /** One group of that loop. */
  method GatherGroup(v: Volume, room: nat, ghost read: (nat, nat, nat) -> seq<byte>, top: seq<u32>, ghost idx: nat,
                     i: nat, from: nat, buf: array<byte>, at: nat, n: nat, r: nat,
                     ghost was: seq<byte>, ghost result: seq<byte>, ghost got: seq<byte>, ghost all: int)
    returns (left: int, dr: nat, ghost got': seq<byte>)
    requires ValidVolume(v) && ReadsThrough(v, read) && Gathering(read, top, idx, i, from, n, result, got)
    requires i < |top| && |got| == r < n && top[idx] != 0 && Using(read, top, idx, i, from, n, got, room, all)
    requires |was| == buf.Length && at + n <= buf.Length && buf[..] == Splice(was, at, got)
    modifies buf
    ensures Gathering(read, top, idx, i + 1, 0, n, result, got') && Using(read, top, idx, i + 1, 0, n, got', left, all)
    ensures left >= -1 && (left >= 0 ==> |got'| == r + dr && buf[..] == Splice(was, at, got'))
  {
    ghost var g := DirectResult(v, Pointers(v, top[i]), from, n - r);
    GatheringStep(read, top, idx, i, from, n, result, got, g);
    ghost var mid := buf[..];
    var to := at + r;
    left, dr := SyncIndirect(v, room, top[i], from, buf, to, n - r);
    UsingStep(read, top, idx, i, from, n, got, g, room, left, all);
    got' := got + g;
    if left >= 0 {
      SpliceBehind(was, at, got, mid, to, g, buf[..], got');
    }
  }
}
