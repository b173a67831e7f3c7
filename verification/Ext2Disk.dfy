/**
 Files of fs/ext2.c stated from the bytes on the disk: which block holds byte `x`, found by following
 little-endian words, and that reads deliver exactly those bytes.
 */
module Ext2Disk {
  import opened Words
  import opened Common
  import opened Ext2
  import opened Ext2Device
  import opened Ext2File

  // ----- The layout -----

  function Over(x: nat, d: nat): nat
    requires 0 < d
  {
    x / d
  }

  function Modulo(x: nat, d: nat): nat
    requires 0 < d
  {
    x % d
  }

  /** The little-endian word at a byte address. */
  function WordAt(disk: seq<byte>, at: nat): nat {
    if at + 4 <= |disk| then
      disk[at] as int + 256 * disk[at + 1] as int + 65536 * disk[at + 2] as int + 16777216 * disk[at + 3] as int
    else 0
  }

  /** Entry `j` of the pointer block in block `b`: bytes 4j to 4j + 3. */
  function Entry(disk: seq<byte>, fanout: nat, b: nat, j: nat): nat {
    WordAt(disk, Times(b, 4 * fanout) + 4 * j)
  }

  /** The block that holds block `n` of the file: a direct one, one behind the single-indirect block, or one
      behind the pointer blocks behind the double-indirect block. */
  function BlockOf(disk: seq<byte>, fanout: nat, ino: Inode, n: nat): nat
    requires |ino.direct| == 12 && 0 < fanout
  {
    if n < 12 then ino.direct[n]
    else if n - 12 < fanout then Entry(disk, fanout, ino.single, n - 12)
    else
      var m := n - 12 - fanout;
      Entry(disk, fanout, Entry(disk, fanout, ino.double, Over(m, fanout)), Modulo(m, fanout))
  }

  /** A pointer to a block of the disk. */
  predicate Good(disk: seq<byte>, fanout: nat, b: nat) {
    b != 0 && OnDisk(disk, 4 * fanout, b)
  }

  /** Every block below the file's size is on the disk, and so is every pointer block that leads to one. */
  ghost predicate Stored(disk: seq<byte>, fanout: nat, ino: Inode) {
    && |ino.direct| == 12 && 0 < fanout
    && ino.size <= Times(12 + fanout + Times(fanout, fanout), 4 * fanout)
    && forall n: nat {:trigger BlockOf(disk, fanout, ino, n)} :: Times(n, 4 * fanout) < ino.size ==>
         && Good(disk, fanout, BlockOf(disk, fanout, ino, n))
         && (12 <= n < 12 + fanout ==> Good(disk, fanout, ino.single))
         && (12 + fanout <= n ==>
               && Good(disk, fanout, ino.double)
               && Good(disk, fanout, Entry(disk, fanout, ino.double, Over(n - 12 - fanout, fanout))))
  }

  // ----- Blocks and pointers of the volume -----

  lemma BlockByte(disk: seq<byte>, fanout: nat, sectorSize: nat, stale: seq<byte>, v: Volume, b: nat, k: nat)
    requires 0 < fanout <= 0x4000 && |stale| == 4 * fanout && Fits(disk, 4 * fanout, sectorSize)
    requires v == VolumeOn(disk, fanout, sectorSize, stale) && OnDisk(disk, 4 * fanout, b) && k < 4 * fanout
    ensures ValidVolume(v) && Readable(v, b) && Block(v, b)[k] == disk[Times(b, 4 * fanout) + k]
  {
    BlocksReadable(disk, fanout, sectorSize, stale, b);
  }

  /** Entry `j` of a pointer block is the word at bytes 4j to 4j + 3. */
  lemma PointerIs(disk: seq<byte>, fanout: nat, sectorSize: nat, stale: seq<byte>, v: Volume, b: nat, j: nat)
    requires 0 < fanout <= 0x4000 && |stale| == 4 * fanout && Fits(disk, 4 * fanout, sectorSize)
    requires v == VolumeOn(disk, fanout, sectorSize, stale) && OnDisk(disk, 4 * fanout, b) && j < fanout
    ensures ValidVolume(v) && Pointers(v, b)[j] == Entry(disk, fanout, b, j)
  {
    BlockByte(disk, fanout, sectorSize, stale, v, b, 4 * j);
    BlockByte(disk, fanout, sectorSize, stale, v, b, 4 * j + 1);
    BlockByte(disk, fanout, sectorSize, stale, v, b, 4 * j + 2);
    BlockByte(disk, fanout, sectorSize, stale, v, b, 4 * j + 3);
  }

  // ----- Bytes of the flat file -----

  lemma {:induction false} TableByte(v: Volume, t: seq<u32>, i: nat, x: nat)
    requires ValidVolume(v) && i <= |t| && x < Times(|t| - i, v.blockSize)
    ensures i + Quot(x, v.blockSize) < |t| && Rem(x, v.blockSize) < v.blockSize
    ensures TableData(v, t, i)[x] == Block(v, t[i + Quot(x, v.blockSize)])[Rem(x, v.blockSize)]
    decreases |t| - i
  {
    if x >= v.blockSize {
      TableByte(v, t, i + 1, x - v.blockSize);
    }
  }

  lemma {:induction false} GroupByte(group: nat -> seq<byte>, span: nat, top: seq<u32>, i: nat, y: nat)
    requires 0 < span && i <= |top| && y < Times(|top| - i, span) && forall p :: |group(p)| == span
    ensures i + Quot(y, span) < |top| && Rem(y, span) < span && y < |GroupData(group, top, i)|
    ensures GroupData(group, top, i)[y] == group(top[i + Quot(y, span)])[Rem(y, span)]
    decreases |top| - i
  {
    if y >= span {
      GroupByte(group, span, top, i + 1, y - span);
    }
  }

  /** Group, entry and byte of byte `y` behind two levels of pointers, by its block number. */
  lemma GroupParts(y: nat, fanout: nat, bs: nat, span: nat)
    requires 0 < fanout && 0 < bs && span == Times(fanout, bs) && 0 < span
    ensures var m := Quot(y, bs);
            && Quot(y, span) == Quot(m, fanout) && Quot(Rem(y, span), bs) == Rem(m, fanout)
            && Rem(Rem(y, span), bs) == Rem(y, bs)
  {
    var g, z := Quot(y, span), Rem(y, span);
    QuotRem(y, span);
    TimesAssoc(g, fanout, bs);
    QuotShift(z, Times(g, fanout), bs);
    BlockBelow(z, bs, fanout);
    QuotIs(Quot(y, bs), fanout, g);
  }

  /** The pointer to block `n` of the file, through the volume's pointer blocks. */
  function FileBlock(v: Volume, ino: Inode, n: nat): nat
    requires ValidVolume(v) && |ino.direct| == 12 && n < 12 + v.fanout + Times(v.fanout, v.fanout)
  {
    if n < 12 then ino.direct[n]
    else if n - 12 < v.fanout then Pointers(v, ino.single)[n - 12]
    else
      var m := n - 12 - v.fanout;
      InTable(m, v.fanout);
      Pointers(v, Pointers(v, ino.double)[Quot(m, v.fanout)])[Rem(m, v.fanout)]
  }

  lemma InTable(m: nat, fanout: nat)
    requires m < Times(fanout, fanout) && 0 < fanout
    ensures Quot(m, fanout) < fanout && Rem(m, fanout) < fanout
  {
    QuotRem(m, fanout);
    BlockBelow(m, fanout, fanout);
  }

  lemma DirectByte(v: Volume, ino: Inode, x: nat)
    requires ValidVolume(v) && |ino.direct| == 12 && x < 12 * v.blockSize
    ensures Quot(x, v.blockSize) < 12 && Rem(x, v.blockSize) < v.blockSize && x < |FileData(v, ino)|
    ensures FileData(v, ino)[x] == Block(v, FileBlock(v, ino, Quot(x, v.blockSize)))[Rem(x, v.blockSize)]
  {
    FileLengths(v, ino);
    Twelve(v.blockSize);
    TableByte(v, ino.direct, 0, x);
  }

  lemma SingleByte(v: Volume, ino: Inode, x: nat, z: nat)
    requires ValidVolume(v) && |ino.direct| == 12 && x == 12 * v.blockSize + z && z < Span(v)
    ensures 12 <= Quot(x, v.blockSize) < 12 + v.fanout && Rem(x, v.blockSize) < v.blockSize && x < |FileData(v, ino)|
    ensures FileData(v, ino)[x] == Block(v, FileBlock(v, ino, Quot(x, v.blockSize)))[Rem(x, v.blockSize)]
  {
    FileLengths(v, ino);
    Twelve(v.blockSize);
    TableByte(v, Pointers(v, ino.single), 0, z);
    QuotShift(z, 12, v.blockSize);
  }

  /** A byte behind two levels of pointers. */
  lemma BehindByte(v: Volume, top: seq<u32>, y: nat)
    requires ValidVolume(v) && |top| == v.fanout && y < Times(v.fanout, Span(v))
    ensures var m := Quot(y, v.blockSize);
            && Quot(m, v.fanout) < v.fanout && Rem(m, v.fanout) < v.fanout && Rem(y, v.blockSize) < v.blockSize
            && y < |GroupData(Groups(v), top, 0)|
            && GroupData(Groups(v), top, 0)[y]
               == Block(v, Pointers(v, top[Quot(m, v.fanout)])[Rem(m, v.fanout)])[Rem(y, v.blockSize)]
  {
    SpanPositive(v);
    GroupParts(y, v.fanout, v.blockSize, Span(v));
    QuotRem(y, Span(v));
    var g, z := Quot(y, Span(v)), Rem(y, Span(v));
    InGroup(v, top, y, g, z, Quot(z, v.blockSize), Rem(z, v.blockSize));
  }

  lemma InGroup(v: Volume, top: seq<u32>, y: nat, g: nat, z: nat, j: nat, o: nat)
    requires ValidVolume(v) && |top| == v.fanout && y < Times(v.fanout, Span(v)) && 0 < Span(v)
    requires g == Quot(y, Span(v)) && z == Rem(y, Span(v)) < Span(v)
    requires j == Quot(z, v.blockSize) && o == Rem(z, v.blockSize)
    ensures g < v.fanout && j < v.fanout && o < v.blockSize && y < |GroupData(Groups(v), top, 0)|
    ensures GroupData(Groups(v), top, 0)[y] == Block(v, Pointers(v, top[g])[j])[o]
  {
    GroupByte(Groups(v), Span(v), top, 0, y);
    TableByte(v, Pointers(v, top[g]), 0, z);
  }

  /** Where a byte of the third part is. */
  lemma ThirdPart(fanout: nat, bs: nat, span: nat, x: nat, y: nat)
    requires 0 < bs && span == Times(fanout, bs) && x == 12 * bs + span + y && y < Times(fanout, span)
    ensures Quot(x, bs) == 12 + fanout + Quot(y, bs) && Rem(x, bs) == Rem(y, bs)
    ensures Quot(y, bs) < Times(fanout, fanout)
  {
    Behind(fanout, bs, span, x, y, 12 + fanout);
    TimesAssoc(fanout, fanout, bs);
    BlockBelow(y, bs, Times(fanout, fanout));
  }

  lemma Behind(fanout: nat, bs: nat, span: nat, x: nat, y: nat, k: nat)
    requires 0 < bs && span == Times(fanout, bs) && x == 12 * bs + span + y && k == 12 + fanout
    ensures Quot(x, bs) == k + Quot(y, bs) && Rem(x, bs) == Rem(y, bs)
  {
    Twelve(bs);
    TimesAdd(12, fanout, bs);
    QuotShift(y, k, bs);
  }

  lemma FileParts(v: Volume, ino: Inode, x: nat, y: nat)
    requires ValidVolume(v) && |ino.direct| == 12 && x == 12 * v.blockSize + Span(v) + y
    requires y < |GroupData(Groups(v), Pointers(v, ino.double), 0)|
    ensures x < |FileData(v, ino)| && FileData(v, ino)[x] == GroupData(Groups(v), Pointers(v, ino.double), 0)[y]
  {
    FileLengths(v, ino);
  }

  lemma DoubleByte(v: Volume, ino: Inode, x: nat, y: nat)
    requires ValidVolume(v) && |ino.direct| == 12 && x == 12 * v.blockSize + Span(v) + y
    requires y < Times(v.fanout, Span(v))
    ensures 12 + v.fanout <= Quot(x, v.blockSize) < 12 + v.fanout + Times(v.fanout, v.fanout)
    ensures Rem(x, v.blockSize) < v.blockSize && x < |FileData(v, ino)|
    ensures FileData(v, ino)[x] == Block(v, FileBlock(v, ino, Quot(x, v.blockSize)))[Rem(x, v.blockSize)]
  {
    BehindByte(v, Pointers(v, ino.double), y);
    ThirdPart(v.fanout, v.blockSize, Span(v), x, y);
    FileParts(v, ino, x, y);
  }

  /** Byte `x` of the flat file is byte `x` modulo the block size of its block. */
  lemma FileByte(v: Volume, ino: Inode, x: nat)
    requires ValidVolume(v) && |ino.direct| == 12
    requires x < 12 * v.blockSize + Span(v) + Times(v.fanout, Span(v))
    ensures Quot(x, v.blockSize) < 12 + v.fanout + Times(v.fanout, v.fanout)
    ensures Rem(x, v.blockSize) < v.blockSize && x < |FileData(v, ino)|
    ensures FileData(v, ino)[x] == Block(v, FileBlock(v, ino, Quot(x, v.blockSize)))[Rem(x, v.blockSize)]
  {
    var d := 12 * v.blockSize;
    if x < d {
      DirectByte(v, ino, x);
    } else if x - d < Span(v) {
      SingleByte(v, ino, x, x - d);
    } else {
      DoubleByte(v, ino, x, x - d - Span(v));
    }
  }

  // ----- Following the words on the disk -----

  /** Two levels of words. */
  lemma WordsBehind(disk: seq<byte>, fanout: nat, sectorSize: nat, stale: seq<byte>, v: Volume, double: u32, m: nat,
                    g: nat, j: nat)
    requires 0 < fanout <= 0x4000 && |stale| == 4 * fanout && Fits(disk, 4 * fanout, sectorSize)
    requires v == VolumeOn(disk, fanout, sectorSize, stale) && m < Times(fanout, fanout)
    requires g == Over(m, fanout) && j == Modulo(m, fanout)
    requires OnDisk(disk, 4 * fanout, double) && OnDisk(disk, 4 * fanout, Entry(disk, fanout, double, g))
    ensures ValidVolume(v) && Quot(m, fanout) == g < fanout && Rem(m, fanout) == j < fanout
    ensures Pointers(v, Pointers(v, double)[g])[j] == Entry(disk, fanout, Entry(disk, fanout, double, g), j)
  {
    InTable(m, fanout);
    QuotIsDiv(m, fanout);
    PointerIs(disk, fanout, sectorSize, stale, v, double, g);
    PointerIs(disk, fanout, sectorSize, stale, v, Entry(disk, fanout, double, g), j);
  }

  lemma FileBlockIs(disk: seq<byte>, fanout: nat, sectorSize: nat, stale: seq<byte>, v: Volume, ino: Inode, n: nat)
    requires 0 < fanout <= 0x4000 && |stale| == 4 * fanout && Fits(disk, 4 * fanout, sectorSize)
    requires v == VolumeOn(disk, fanout, sectorSize, stale) && Stored(disk, fanout, ino)
    requires n < 12 + fanout + Times(fanout, fanout) && Times(n, 4 * fanout) < ino.size
    ensures ValidVolume(v) && FileBlock(v, ino, n) == BlockOf(disk, fanout, ino, n)
    ensures OnDisk(disk, 4 * fanout, BlockOf(disk, fanout, ino, n))
  {
    assert Good(disk, fanout, BlockOf(disk, fanout, ino, n));
    if n >= 12 + fanout {
      var m := n - 12 - fanout;
      WordsBehind(disk, fanout, sectorSize, stale, v, ino.double, m, Over(m, fanout), Modulo(m, fanout));
    } else if n >= 12 {
      PointerIs(disk, fanout, sectorSize, stale, v, ino.single, n - 12);
    }
  }

  /** Byte `x` of the file: byte `x` modulo the block size of the block its number leads to. */
  function DiskByte(disk: seq<byte>, fanout: nat, ino: Inode, x: nat): byte
    requires |ino.direct| == 12 && 0 < fanout
  {
    ByteIn(disk, BlockOf(disk, fanout, ino, Over(x, 4 * fanout)), 4 * fanout, Modulo(x, 4 * fanout))
  }

  /** Byte `o` of block `b`. */
  function ByteIn(disk: seq<byte>, b: nat, bs: nat, o: nat): byte {
    if 0 <= b * bs + o < |disk| then disk[b * bs + o] else 0
  }

  lemma FileIsDisk(disk: seq<byte>, fanout: nat, sectorSize: nat, stale: seq<byte>, v: Volume, ino: Inode, x: nat)
    requires 0 < fanout <= 0x4000 && |stale| == 4 * fanout && Fits(disk, 4 * fanout, sectorSize)
    requires v == VolumeOn(disk, fanout, sectorSize, stale) && Stored(disk, fanout, ino) && x < ino.size
    ensures ValidVolume(v) && x < |FileData(v, ino)| && FileData(v, ino)[x] == DiskByte(disk, fanout, ino, x)
  {
    var bs := 4 * fanout;
    var n, o := Quot(x, bs), Rem(x, bs);
    assert ValidVolume(v);
    SizeLimit(v);
    FileByte(v, ino, x);
    QuotRem(x, bs);
    FileBlockIs(disk, fanout, sectorSize, stale, v, ino, n);
    var b := BlockOf(disk, fanout, ino, n);
    BlockByte(disk, fanout, sectorSize, stale, v, b, o);
    QuotIsDiv(x, bs);
    TimesIs(b, bs);
  }

  // ----- Stored files are allocated -----

  lemma {:induction false} LeadsAll(v: Volume, t: seq<u32>, i: nat, n: nat)
    requires ValidVolume(v) && i <= |t|
    requires forall k: nat :: i <= k < |t| && Times(k - i, v.blockSize) < n ==> Leads(v, t[k])
    ensures TableLeads(v, t, i, n)
    decreases |t| - i
  {
    if n > 0 && i < |t| {
      assert Times(0, v.blockSize) == 0;
      assert Leads(v, t[i]);
      forall k: nat | i + 1 <= k < |t| && Times(k - (i + 1), v.blockSize) < n - Min(n, v.blockSize)
        ensures Leads(v, t[k])
      {
        assert Times(k - i, v.blockSize) == Times(k - (i + 1), v.blockSize) + v.blockSize;
      }
      LeadsAll(v, t, i + 1, n - Min(n, v.blockSize));
    }
  }

  /** A stored file on a disk, with the volume it is read through. */
  ghost predicate OnVolume(disk: seq<byte>, fanout: nat, sectorSize: nat, stale: seq<byte>, v: Volume, ino: Inode) {
    && 0 < fanout <= 0x4000 && |stale| == 4 * fanout && Fits(disk, 4 * fanout, sectorSize)
    && v == VolumeOn(disk, fanout, sectorSize, stale) && Stored(disk, fanout, ino)
  }

  lemma GoodLeads(disk: seq<byte>, fanout: nat, sectorSize: nat, stale: seq<byte>, v: Volume, ino: Inode, b: u32)
    requires OnVolume(disk, fanout, sectorSize, stale, v, ino) && Good(disk, fanout, b)
    ensures ValidVolume(v) && Leads(v, b)
  {
    BlockByte(disk, fanout, sectorSize, stale, v, b, 0);
  }

  lemma DirectStored(disk: seq<byte>, fanout: nat, sectorSize: nat, stale: seq<byte>, v: Volume, ino: Inode)
    requires OnVolume(disk, fanout, sectorSize, stale, v, ino)
    ensures ValidVolume(v) && TableLeads(v, ino.direct, 0, ino.size)
  {
    assert ValidVolume(v);
    forall k: nat | k < 12 && Times(k - 0, v.blockSize) < ino.size
      ensures Leads(v, ino.direct[k])
    {
      assert Good(disk, fanout, BlockOf(disk, fanout, ino, k));
      GoodLeads(disk, fanout, sectorSize, stale, v, ino, ino.direct[k]);
    }
    LeadsAll(v, ino.direct, 0, ino.size);
  }

  lemma SingleStored(disk: seq<byte>, fanout: nat, sectorSize: nat, stale: seq<byte>, v: Volume, ino: Inode)
    requires OnVolume(disk, fanout, sectorSize, stale, v, ino) && 12 * v.blockSize < ino.size
    ensures ValidVolume(v) && Leads(v, ino.single)
    ensures TableLeads(v, Pointers(v, ino.single), 0, ino.size - 12 * v.blockSize)
  {
    var bs, d := v.blockSize, 12 * v.blockSize;
    assert ValidVolume(v);
    Twelve(bs);
    assert Good(disk, fanout, BlockOf(disk, fanout, ino, 12)) && Good(disk, fanout, ino.single);
    GoodLeads(disk, fanout, sectorSize, stale, v, ino, ino.single);
    forall k: nat | k < fanout && Times(k - 0, bs) < ino.size - d
      ensures Leads(v, Pointers(v, ino.single)[k])
    {
      TimesAdd(12, k, bs);
      assert Good(disk, fanout, BlockOf(disk, fanout, ino, 12 + k));
      PointerIs(disk, fanout, sectorSize, stale, v, ino.single, k);
      GoodLeads(disk, fanout, sectorSize, stale, v, ino, Pointers(v, ino.single)[k]);
    }
    LeadsAll(v, Pointers(v, ino.single), 0, ino.size - d);
  }

  /** The words that lead to block `j` of group `k` behind the double-indirect block. */
  lemma GroupWords(disk: seq<byte>, fanout: nat, ino: Inode, bs: nat, k: nat, j: nat)
    requires Stored(disk, fanout, ino) && j < fanout && bs == 4 * fanout
    requires 12 * bs + Times(fanout, bs) + Times(k, Times(fanout, bs)) + Times(j, bs) < ino.size
    ensures var b := Entry(disk, fanout, ino.double, k);
            Good(disk, fanout, ino.double) && Good(disk, fanout, b) && Good(disk, fanout, Entry(disk, fanout, b, j))
  {
    var m := Times(k, fanout) + j;
    GroupNumber(bs, fanout, k, j, m);
    assert Good(disk, fanout, BlockOf(disk, fanout, ino, 12 + fanout + m));
  }

  /** A good entry of a good pointer block. */
  lemma EntryLeads(disk: seq<byte>, fanout: nat, sectorSize: nat, stale: seq<byte>, v: Volume, ino: Inode, b: u32,
                   j: nat)
    requires OnVolume(disk, fanout, sectorSize, stale, v, ino) && j < fanout
    requires Good(disk, fanout, b) && Good(disk, fanout, Entry(disk, fanout, b, j))
    ensures ValidVolume(v) && Leads(v, b) && Pointers(v, b)[j] == Entry(disk, fanout, b, j)
    ensures Leads(v, Pointers(v, b)[j])
  {
    GoodLeads(disk, fanout, sectorSize, stale, v, ino, b);
    PointerIs(disk, fanout, sectorSize, stale, v, b, j);
    GoodLeads(disk, fanout, sectorSize, stale, v, ino, Pointers(v, b)[j]);
  }

  lemma GroupBlock(disk: seq<byte>, fanout: nat, sectorSize: nat, stale: seq<byte>, v: Volume, ino: Inode, k: nat,
                   j: nat)
    requires OnVolume(disk, fanout, sectorSize, stale, v, ino) && k < fanout && j < fanout
    requires 12 * v.blockSize + Span(v) + Times(k, Span(v)) + Times(j, v.blockSize) < ino.size
    ensures ValidVolume(v) && Leads(v, ino.double)
    ensures Leads(v, Pointers(v, ino.double)[k]) && Leads(v, Pointers(v, Pointers(v, ino.double)[k])[j])
  {
    GroupWords(disk, fanout, ino, v.blockSize, k, j);
    EntryLeads(disk, fanout, sectorSize, stale, v, ino, ino.double, k);
    EntryLeads(disk, fanout, sectorSize, stale, v, ino, Pointers(v, ino.double)[k], j);
  }

  lemma GroupNumber(bs: nat, fanout: nat, k: nat, j: nat, m: nat)
    requires 0 < fanout && j < fanout && m == Times(k, fanout) + j
    ensures Over(m, fanout) == k && Modulo(m, fanout) == j
    ensures Times(12 + fanout + m, bs) == 12 * bs + Times(fanout, bs) + Times(k, Times(fanout, bs)) + Times(j, bs)
  {
    QuotIs(m, fanout, k);
    QuotIsDiv(m, fanout);
    Twelve(bs);
    TimesAdd(12 + fanout, m, bs);
    TimesAdd(12, fanout, bs);
    TimesAdd(Times(k, fanout), j, bs);
    TimesAssoc(k, fanout, bs);
  }

  lemma DoubleStored(disk: seq<byte>, fanout: nat, sectorSize: nat, stale: seq<byte>, v: Volume, ino: Inode,
                     left: nat)
    requires OnVolume(disk, fanout, sectorSize, stale, v, ino) && 12 * v.blockSize + Span(v) + left == ino.size
    requires 0 < left
    ensures ValidVolume(v) && Leads(v, ino.double) && GroupsLead(v, Pointers(v, ino.double), 0, left)
  {
    assert ValidVolume(v) && Times(0, Span(v)) == 0 && Times(0, v.blockSize) == 0;
    GroupBlock(disk, fanout, sectorSize, stale, v, ino, 0, 0);
    GroupsStored(disk, fanout, sectorSize, stale, v, ino, 0, left);
  }

  /** The groups from `k` on. */
  lemma {:induction false} GroupsStored(disk: seq<byte>, fanout: nat, sectorSize: nat, stale: seq<byte>, v: Volume,
                                        ino: Inode, k: nat, left: nat)
    requires OnVolume(disk, fanout, sectorSize, stale, v, ino) && k <= fanout
    requires left > 0 ==> 12 * v.blockSize + Span(v) + Times(k, Span(v)) + left == ino.size
    ensures ValidVolume(v) && GroupsLead(v, Pointers(v, ino.double), k, left)
    decreases fanout - k
  {
    assert ValidVolume(v);
    if k < fanout && left > 0 {
      GroupStored(disk, fanout, sectorSize, stale, v, ino, k, left);
      GroupsStored(disk, fanout, sectorSize, stale, v, ino, k + 1, left - Min(left, Span(v)));
    }
  }

  lemma GroupStored(disk: seq<byte>, fanout: nat, sectorSize: nat, stale: seq<byte>, v: Volume, ino: Inode, k: nat,
                    left: nat)
    requires OnVolume(disk, fanout, sectorSize, stale, v, ino) && k < fanout && 0 < left
    requires 12 * v.blockSize + Span(v) + Times(k, Span(v)) + left == ino.size
    ensures ValidVolume(v) && Leads(v, Pointers(v, ino.double)[k])
    ensures TableLeads(v, Pointers(v, Pointers(v, ino.double)[k]), 0, left)
  {
    assert ValidVolume(v) && Times(0, v.blockSize) == 0;
    GroupBlock(disk, fanout, sectorSize, stale, v, ino, k, 0);
    var t := Pointers(v, Pointers(v, ino.double)[k]);
    forall j: nat | j < fanout && Times(j - 0, v.blockSize) < left
      ensures Leads(v, t[j])
    {
      GroupBlock(disk, fanout, sectorSize, stale, v, ino, k, j);
    }
    LeadsAll(v, t, 0, left);
  }

  lemma StoredAllocated(disk: seq<byte>, fanout: nat, sectorSize: nat, stale: seq<byte>, v: Volume, ino: Inode)
    requires OnVolume(disk, fanout, sectorSize, stale, v, ino)
    ensures ValidVolume(v) && Allocated(v, ino)
  {
    assert ValidVolume(v);
    SizeLimit(v);
    DirectStored(disk, fanout, sectorSize, stale, v, ino);
    if 12 * v.blockSize < ino.size {
      SingleStored(disk, fanout, sectorSize, stale, v, ino);
    }
    if 12 * v.blockSize + Span(v) < ino.size {
      DoubleStored(disk, fanout, sectorSize, stale, v, ino, ino.size - 12 * v.blockSize - Span(v));
    }
  }

  lemma SizeLimit(v: Volume)
    requires ValidVolume(v)
    ensures Times(12 + v.fanout + Times(v.fanout, v.fanout), v.blockSize)
            == 12 * v.blockSize + Span(v) + Times(v.fanout, Span(v))
  {
    Twelve(v.blockSize);
    TimesAdd(12 + v.fanout, Times(v.fanout, v.fanout), v.blockSize);
    TimesAdd(12, v.fanout, v.blockSize);
    TimesAssoc(v.fanout, v.fanout, v.blockSize);
  }

  // ----- What a read delivers -----

  /** For every stored file and every offset and count whose sum does not wrap past the end: byte `i` of what a read
      delivers is the disk's byte that the words of the pointer blocks lead to, and there are `ReadLength` of them. */
  lemma ReadIsDisk(disk: seq<byte>, fanout: nat, sectorSize: nat, stale: seq<byte>, v: Volume, ino: Inode,
                   offset: u32, count: u32, i: nat)
    requires OnVolume(disk, fanout, sectorSize, stale, v, ino) && NoWrap(ino, offset, count)
    requires i < ReadLength(v, ino, offset, count)
    ensures ValidVolume(v) && |InodeResult(v, ino, offset, count)| == ReadLength(v, ino, offset, count)
    ensures offset + i < ino.size
    ensures InodeResult(v, ino, offset, count)[i] == DiskByte(disk, fanout, ino, offset + i)
  {
    StoredAllocated(disk, fanout, sectorSize, stale, v, ino);
    var n := ReadLength(v, ino, offset, count);
    ReadIsSlice(v, ino, offset, count, n);
    FileIsDisk(disk, fanout, sectorSize, stale, v, ino, offset + i);
    SliceByte(FileData(v, ino), offset, n, i);
  }

  lemma ReadIsSlice(v: Volume, ino: Inode, offset: u32, count: u32, n: nat)
    requires ValidVolume(v) && Allocated(v, ino) && NoWrap(ino, offset, count)
    requires n == ReadLength(v, ino, offset, count)
    ensures |InodeResult(v, ino, offset, count)| == n && (n > 0 ==> offset + n <= ino.size)
    ensures InodeResult(v, ino, offset, count) == Slice(FileData(v, ino), offset, n)
  {
    InodeIsFile(v, ino, offset, count);
    ReadCompleteIff(v, ino, offset, count);
  }

  lemma {:induction false} SliceByte(s: seq<byte>, from: nat, n: nat, i: nat)
    requires i < n && from + i < |s|
    ensures i < |Slice(s, from, n)| && Slice(s, from, n)[i] == s[from + i]
    decreases n
  {
    if i > 0 {
      SliceByte(s, from + 1, n - 1, i - 1);
    }
  }
}
