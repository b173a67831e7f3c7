/** `ext2_read` (fs/ext2.c) and runs of it. */
module Ext2Reads {
  import opened Words
  import opened Common
  import opened Ext2
  import opened Ext2File
  import opened BlockBuffers

  /** What one read delivers, by offset and count. */
  type Reader = (u32, u32) -> seq<byte>

  function InodeReader(v: Volume, ino: Inode): Reader
    requires ValidVolume(v)
  {
    (offset: u32, count: u32) => InodeResult(v, ino, offset, count)
  }

  /** The block buffers one read uses, by offset and count. */
  type Spender = (u32, u32) -> seq<Use>

  function InodeSpender(v: Volume, ino: Inode): Spender
    requires ValidVolume(v)
  {
    (offset: u32, count: u32) => InodeUses(v, ino, offset, count)
  }

  /** `read` and `spend` are the reading of this inode. */
  ghost predicate ReadsInode(v: Volume, ino: Inode, read: Reader, spend: Spender)
    requires ValidVolume(v)
  {
    && (forall offset: u32, count: u32 {:trigger InodeResult(v, ino, offset, count)} ::
          InodeResult(v, ino, offset, count) == read(offset, count))
    && (forall offset: u32, count: u32 {:trigger InodeUses(v, ino, offset, count)} ::
          InodeUses(v, ino, offset, count) == spend(offset, count))
  }

  lemma ReaderReads(v: Volume, ino: Inode)
    requires ValidVolume(v)
    ensures ReadsInode(v, ino, InodeReader(v, ino), InodeSpender(v, ino))
  {
  }

  /** `ext2_sync_inode_data` by such a reader. */
  method Sync(v: Volume, room: nat, ino: Inode, ghost read: Reader, ghost spend: Spender, offset: u32, buf: array<byte>,
              n: u32)
    returns (left: int, r: nat)
    requires ValidVolume(v) && ReadsInode(v, ino, read, spend) && n <= buf.Length
    modifies buf
    ensures left == After(room, spend(offset, n))
    ensures left >= 0 ==> r == |read(offset, n)| <= n && buf[..] == Splice(old(buf[..]), 0, read(offset, n))
  {
    left, r := SyncInode(v, room, ino, offset, buf, 0, n);
  }

  class OpenFile {
    const v: Volume
    const ino: Inode
    ghost const read: Reader
    ghost const spend: Spender
    var offset: u32
    var eof: bool

    ghost predicate Valid() {
      ValidVolume(v) && ReadsInode(v, ino, read, spend)
    }

    constructor (v: Volume, ino: Inode)
      requires ValidVolume(v)
      ensures Valid() && this.v == v && this.ino == ino && offset == 0 && !eof
      ensures read == InodeReader(v, ino) && spend == InodeSpender(v, ino)
    {
      this.v, this.ino, this.offset, this.eof := v, ino, 0, false;
      this.read, this.spend := InodeReader(v, ino), InodeSpender(v, ino);
      new;
      ReaderReads(v, ino);
    }

    /** In a heap with room for `room` block buffers; -1 for `left` when that was not enough. */
    method Read(room: nat, buf: array<byte>, n: u32) returns (left: int, r: nat)
      requires Valid() && n <= buf.Length
      modifies this, buf
      ensures left == After(room, spend(old(offset), n))
      ensures left >= 0 ==> r == |read(old(offset), n)| <= n && offset == Wrap(old(offset) + r)
      ensures left >= 0 ==> eof == (old(eof) || Wrap(old(offset) + n) == ino.size)
      ensures left >= 0 ==> buf[..r] == read(old(offset), n) && buf[r..] == old(buf[..])[r..]
    {
      ghost var was := buf[..];
      left, r := Sync(v, room, ino, read, spend, offset, buf, n);
      if left < 0 {
        return;
      }
      SpliceFront(was, read(offset, n), buf[..]);
      if Wrap(offset + n) == ino.size {
        eof := true;
      }
      offset := Wrap(offset + r);
    }
  }

  // ----- Runs -----

  /** What a run of reads of the given sizes returns, put together. */
  ghost function Reads(read: Reader, offset: u32, counts: seq<u32>): seq<byte>
    decreases |counts|
  {
    if counts == [] then []
    else
      var r := read(offset, counts[0]);
      r + Reads(read, Wrap(offset + |r|), counts[1..])
  }

  /** The block buffers the run uses, in order. */
  ghost function Spends(read: Reader, spend: Spender, offset: u32, counts: seq<u32>): seq<Use>
    decreases |counts|
  {
    if counts == [] then []
    else spend(offset, counts[0]) + Spends(read, spend, Wrap(offset + |read(offset, counts[0])|), counts[1..])
  }

  /** What the run delivers, if the heap has room for the buffers it keeps and the working one. */
  ghost function Delivered(read: Reader, spend: Spender, room: nat, offset: u32, counts: seq<u32>): Option<seq<byte>> {
    if Needs(Spends(read, spend, offset, counts)) <= room then Some(Reads(read, offset, counts)) else None
  }

  /** After `i` reads of the run that began at `start`: `got` so far, the rest of the run still ahead. */
  ghost predicate Running(read: Reader, start: u32, counts: seq<u32>, i: nat, offset: u32, got: seq<byte>) {
    && i <= |counts| && offset == Wrap(start + |got|)
    && Reads(read, start, counts) == got + Reads(read, offset, counts[i..])
  }

  /** With room for `left` buffers now, the run will leave room for `all`. */
  ghost predicate Spending(read: Reader, spend: Spender, counts: seq<u32>, i: nat, offset: u32, left: int, all: int) {
    i <= |counts| && all == After(left, Spends(read, spend, offset, counts[i..]))
  }

  /** A caller that reads on and on, as long as the heap serves the reads. */
  method ReadRun(f: OpenFile, room: nat, counts: seq<u32>) returns (left: int, got: seq<byte>)
    requires f.Valid()
    modifies f
    ensures Delivered(f.read, f.spend, room, old(f.offset), counts) == if left >= 0 then Some(got) else None
    ensures left >= 0 ==> left == room - Kept(Spends(f.read, f.spend, old(f.offset), counts))
    ensures left >= 0 ==> f.offset == Wrap(old(f.offset) + |got|)
  {
    left, got := room, [];
    ghost var all := After(room, Spends(f.read, f.spend, f.offset, counts));
    ServedIff(room, Spends(f.read, f.spend, f.offset, counts));
    RunStarts(f.read, f.spend, f.offset, counts, room);
    for i := 0 to |counts|
      invariant left >= 0 && Running(f.read, old(f.offset), counts, i, f.offset, got)
      invariant Spending(f.read, f.spend, counts, i, f.offset, left, all)
    {
      ghost var was, before, had := f.offset, got, left;
      var data;
      left, data := ReadOne(f, left, counts[i]);
      SpendingGoesOn(f.read, f.spend, counts, i, was, had, left, all);
      if left < 0 {
        return;
      }
      got := got + data;
      RunGoesOn(f.read, old(f.offset), counts, i, was, before, data, f.offset, got);
    }
    RunEnds(f.read, f.spend, old(f.offset), counts, f.offset, got, left, all);
  }

  lemma {:induction false} SpendingGoesOn(read: Reader, spend: Spender, counts: seq<u32>, i: nat, offset: u32,
                                          left: int,
                                          left': int, all: int)
    requires i < |counts| && Spending(read, spend, counts, i, offset, left, all)
    requires left' == After(left, spend(offset, counts[i]))
    ensures Spending(read, spend, counts, i + 1, Wrap(offset + |read(offset, counts[i])|), left', all)
    ensures left' < 0 ==> all == -1
  {
    assert counts[i..][0] == counts[i] && counts[i..][1..] == counts[i + 1..];
    var rest := Spends(read, spend, Wrap(offset + |read(offset, counts[i])|), counts[i + 1..]);
    assert Spends(read, spend, offset, counts[i..]) == spend(offset, counts[i]) + rest;
    AfterBoth(left, spend(offset, counts[i]), rest);
    AfterFirst(left', rest);
  }

  lemma RunStarts(read: Reader, spend: Spender, offset: u32, counts: seq<u32>, room: int)
    ensures Running(read, offset, counts, 0, offset, [])
    ensures Spending(read, spend, counts, 0, offset, room, After(room, Spends(read, spend, offset, counts)))
  {
    assert counts[0..] == counts && Wrap(offset) == offset;
  }

  lemma RunGoesOn(read: Reader, start: u32, counts: seq<u32>, i: nat, offset: u32, got: seq<byte>, data: seq<byte>,
                  offset': u32, got': seq<byte>)
    requires i < |counts| && Running(read, start, counts, i, offset, got) && data == read(offset, counts[i])
    requires offset' == Wrap(offset + |data|) && got' == got + data
    ensures Running(read, start, counts, i + 1, offset', got')
  {
    assert counts[i..][0] == counts[i] && counts[i..][1..] == counts[i + 1..];
    ReadsCons(read, offset, counts[i..], data, offset', counts[i + 1..]);
    Regroup(got, data, Reads(read, offset', counts[i + 1..]));
  }

  lemma RunEnds(read: Reader, spend: Spender, start: u32, counts: seq<u32>, offset: u32, got: seq<byte>, left: int,
                all: int)
    requires Running(read, start, counts, |counts|, offset, got)
    requires left >= 0 && Spending(read, spend, counts, |counts|, offset, left, all)
    ensures Reads(read, start, counts) == got && all == left
  {
  }

  method ReadOne(f: OpenFile, room: nat, n: u32) returns (left: int, data: seq<byte>)
    requires f.Valid()
    modifies f
    ensures left == After(room, f.spend(old(f.offset), n))
    ensures left >= 0 ==> data == f.read(old(f.offset), n) && f.offset == Wrap(old(f.offset) + |data|)
  {
    var buf, r := new byte[n](_ => 0), 0;
    left, r := f.Read(room, buf, n);
    data := if left >= 0 then buf[..r] else [];
  }

  /** No read of the run has a sum that wraps past the end of the file, at the offset it starts from. */
  ghost predicate NoWraps(v: Volume, ino: Inode, offset: nat, counts: seq<u32>)
    decreases |counts|
  {
    counts == []
    || (&& offset < TWO32 && NoWrap(ino, offset, counts[0])
        && NoWraps(v, ino, offset + ReadLength(v, ino, offset, counts[0]), counts[1..]))
  }

  predicate AtMost(counts: seq<u32>, bound: nat) {
    counts == [] || (counts[0] <= bound && AtMost(counts[1..], bound))
  }

  predicate Positive(counts: seq<u32>) {
    counts == [] || (0 < counts[0] && Positive(counts[1..]))
  }

  /** Reads of at most `bound` bytes never do, in files that end that far below 4 GiB. */
  lemma {:induction false} BoundedNeverWrap(v: Volume, ino: Inode, offset: nat, counts: seq<u32>, bound: nat)
    requires offset < TWO32 && ino.size + bound <= TWO32 && AtMost(counts, bound)
    ensures NoWraps(v, ino, offset, counts)
    decreases |counts|
  {
    if counts != [] {
      ReadCompleteIff(v, ino, offset, counts[0]);
      BoundedNeverWrap(v, ino, offset + ReadLength(v, ino, offset, counts[0]), counts[1..], bound);
    }
  }

  /** Unless its sum wraps, a read delivers `file` as far as `ReadLength` says; the file is all there. */
  ghost predicate Delivers(v: Volume, ino: Inode, read: Reader, file: seq<byte>) {
    && ino.size <= |file|
    && (forall offset: u32, count: u32 {:trigger read(offset, count)} ::
          NoWrap(ino, offset, count) ==> read(offset, count) == Slice(file, offset, ReadLength(v, ino, offset, count)))
  }

  lemma AllocatedDelivers(v: Volume, ino: Inode)
    requires ValidVolume(v) && Allocated(v, ino)
    ensures Delivers(v, ino, InodeReader(v, ino), FileData(v, ino))
  {
    var read := InodeReader(v, ino);
    FileLengths(v, ino);
    forall offset: u32, count: u32 {:trigger read(offset, count)} | NoWrap(ino, offset, count)
      ensures read(offset, count) == Slice(FileData(v, ino), offset, ReadLength(v, ino, offset, count))
    {
      InodeIsFile(v, ino, offset, count);
    }
  }

  function Sum(counts: seq<u32>): nat {
    if counts == [] then 0 else counts[0] + Sum(counts[1..])
  }

  lemma {:induction false} ReadsCons(read: Reader, offset: u32, counts: seq<u32>, data: seq<byte>, next: u32,
                                     rest: seq<u32>)
    requires counts != [] && data == read(offset, counts[0]) && next == Wrap(offset + |data|) && rest == counts[1..]
    ensures Reads(read, offset, counts) == data + Reads(read, next, rest)
  {
  }

  /** The first read of a run, and where it leaves the others. */
  lemma {:induction false} FirstRead(v: Volume, ino: Inode, read: Reader, file: seq<byte>, offset: u32,
                                     counts: seq<u32>,
                                     r: nat, next: nat, rest: seq<u32>)
    requires Delivers(v, ino, read, file) && counts != [] && NoWraps(v, ino, offset, counts)
    requires r == ReadLength(v, ino, offset, counts[0]) && next == offset + r && rest == counts[1..]
    ensures next < TWO32 && NoWraps(v, ino, next, rest) && (r == 0 || next <= |file|)
    ensures Reads(read, offset, counts) == Slice(file, offset, r) + Reads(read, next, rest)
  {
    ReadCompleteIff(v, ino, offset, counts[0]);
    assert Wrap(next) == next;
    ReadsCons(read, offset, counts, Slice(file, offset, r), next, rest);
  }

  /** Two pieces of the file in a row. */
  lemma Joined(file: seq<byte>, offset: nat, r: nat, mid: nat, m: nat, n: nat)
    requires mid == offset + r && n == r + m && (r == 0 || mid <= |file|)
    ensures Slice(file, offset, r) + Slice(file, mid, m) == Slice(file, offset, n)
  {
    if r == 0 {
      SliceNone(file, offset, 0);
    } else {
      SliceTwice(file, offset, r, mid, m, n);
    }
  }

  lemma {:induction false} PieceRead(v: Volume, ino: Inode, read: Reader, file: seq<byte>, offset: u32,
                                           counts: seq<u32>)
    requires Delivers(v, ino, read, file) && NoWraps(v, ino, offset, counts)
    ensures var got := Reads(read, offset, counts);
            got == Slice(file, offset, |got|) && |got| <= Wanted(ino, offset, Sum(counts))
    decreases |counts|
  {
    if counts == [] {
      SliceNone(file, offset, |Reads(read, offset, counts)|);
    } else {
      var r, rest := ReadLength(v, ino, offset, counts[0]), counts[1..];
      var next := offset + r;
      FirstRead(v, ino, read, file, offset, counts, r, next, rest);
      PieceRead(v, ino, read, file, next, rest);
      var m, n := |Reads(read, next, rest)|, |Reads(read, offset, counts)|;
      WantedAtLeast(v, ino, offset, counts[0], r, m, Sum(rest), Sum(counts));
      Joined(file, offset, r, next, m, n);
    }
  }

  lemma WantedAtLeast(v: Volume, ino: Inode, offset: u32, count: u32, r: nat, m: nat, others: nat, sum: nat)
    requires r == ReadLength(v, ino, offset, count) && sum == count + others && m <= Wanted(ino, offset + r, others)
    ensures r + m <= Wanted(ino, offset, sum)
  {
    ReadCompleteIff(v, ino, offset, count);
  }

  lemma {:induction false} AskedRead(v: Volume, ino: Inode, read: Reader, file: seq<byte>, offset: u32,
                                              counts: seq<u32>)
    requires Delivers(v, ino, read, file) && NoWraps(v, ino, offset, counts)
    requires AtMost(counts, Span(v))
    ensures Reads(read, offset, counts) == Slice(file, offset, Wanted(ino, offset, Sum(counts)))
    decreases |counts|
  {
    if counts == [] {
      NothingLeft(read, file, offset, counts, Wanted(ino, offset, Sum(counts)));
    } else {
      var r, rest := ReadLength(v, ino, offset, counts[0]), counts[1..];
      var next := offset + r;
      FirstRead(v, ino, read, file, offset, counts, r, next, rest);
      AskedRead(v, ino, read, file, next, rest);
      WantedSplit(v, ino, offset, counts[0], r, Sum(rest), Sum(counts));
      ReadOn(read, file, offset, counts, r, next, rest, Wanted(ino, next, Sum(rest)),
             Wanted(ino, offset, Sum(counts)));
    }
  }

  lemma WantedSplit(v: Volume, ino: Inode, offset: u32, count: u32, r: nat, others: nat, sum: nat)
    requires count <= Span(v) && r == ReadLength(v, ino, offset, count) && sum == count + others
    ensures Wanted(ino, offset, sum) == r + Wanted(ino, offset + r, others)
  {
    ReadCompleteIff(v, ino, offset, count);
  }

  /** What is left of the file from `offset` on. */
  function Left(ino: Inode, offset: nat): nat {
    if offset < ino.size then ino.size - offset else 0
  }

  lemma {:induction false} RestRead(v: Volume, ino: Inode, read: Reader, file: seq<byte>, offset: u32,
                                               counts: seq<u32>)
    requires Delivers(v, ino, read, file) && NoWraps(v, ino, offset, counts)
    requires Left(ino, offset) <= |counts| && Positive(counts)
    ensures Reads(read, offset, counts) == Slice(file, offset, Left(ino, offset))
    decreases |counts|
  {
    if counts == [] {
      NothingLeft(read, file, offset, counts, Left(ino, offset));
    } else {
      var r, rest := ReadLength(v, ino, offset, counts[0]), counts[1..];
      var next := offset + r;
      FirstRead(v, ino, read, file, offset, counts, r, next, rest);
      SomeRead(v, ino, offset, counts[0], r);
      RestRead(v, ino, read, file, next, rest);
      ReadOn(read, file, offset, counts, r, next, rest, Left(ino, next), Left(ino, offset));
    }
  }

  lemma {:induction false} NothingLeft(read: Reader, file: seq<byte>, offset: u32, counts: seq<u32>, left: nat)
    requires counts == [] && left == 0
    ensures Reads(read, offset, counts) == Slice(file, offset, left)
  {
    SliceNone(file, offset, left);
  }

  /** What the first read leaves, the others bring. */
  lemma {:induction false} ReadOn(read: Reader, file: seq<byte>, offset: u32, counts: seq<u32>, r: nat, next: u32,
                                  rest: seq<u32>, more: nat, left: nat)
    requires Reads(read, offset, counts) == Slice(file, offset, r) + Reads(read, next, rest)
    requires Reads(read, next, rest) == Slice(file, next, more)
    requires next == offset + r && left == r + more && (r == 0 || next <= |file|)
    ensures Reads(read, offset, counts) == Slice(file, offset, left)
  {
    Joined(file, offset, r, next, more, left);
  }

  lemma SomeRead(v: Volume, ino: Inode, offset: u32, count: u32, r: nat)
    requires 0 < count && r == ReadLength(v, ino, offset, count)
    ensures Left(ino, offset) == r + Left(ino, offset + r) && (Left(ino, offset) > 0 ==> r > 0)
  {
    ReadCompleteIff(v, ino, offset, count);
  }

  // ----- What a run delivers, given room in the heap -----

  /** A run of reads returns a piece of the file without gap or repetition, exactly if the heap has room. */
  lemma ReadsAreTheFile(v: Volume, ino: Inode, read: Reader, spend: Spender, file: seq<byte>, room: nat, offset: u32,
                        counts: seq<u32>)
    requires Delivers(v, ino, read, file) && NoWraps(v, ino, offset, counts)
    ensures var got := Delivered(read, spend, room, offset, counts);
            && (got.Some? <==> Needs(Spends(read, spend, offset, counts)) <= room)
            && (got.Some? ==> got.value == Slice(file, offset, |got.value|)
                              && |got.value| <= Wanted(ino, offset, Sum(counts)))
  {
    PieceRead(v, ino, read, file, offset, counts);
  }

  /** Reads of at most one pointer block's worth return all they ask for, up to the end of the file. */
  lemma SmallReadsComplete(v: Volume, ino: Inode, read: Reader, spend: Spender, file: seq<byte>, room: nat, offset: u32,
                           counts: seq<u32>)
    requires Delivers(v, ino, read, file) && NoWraps(v, ino, offset, counts) && AtMost(counts, Span(v))
    ensures Delivered(read, spend, room, offset, counts)
            == if Needs(Spends(read, spend, offset, counts)) <= room
               then Some(Slice(file, offset, Wanted(ino, offset, Sum(counts)))) else None
  {
    AskedRead(v, ino, read, file, offset, counts);
  }

  /** With sizes above zero, enough reads return the whole rest of the file, then nothing. */
  lemma EnoughReadsComplete(v: Volume, ino: Inode, read: Reader, spend: Spender, file: seq<byte>, room: nat,
                            offset: u32, counts: seq<u32>)
    requires Delivers(v, ino, read, file) && NoWraps(v, ino, offset, counts)
    requires Left(ino, offset) <= |counts| && Positive(counts)
    ensures Delivered(read, spend, room, offset, counts)
            == if Needs(Spends(read, spend, offset, counts)) <= room
               then Some(Slice(file, offset, Left(ino, offset))) else None
  {
    RestRead(v, ino, read, file, offset, counts);
  }
}
