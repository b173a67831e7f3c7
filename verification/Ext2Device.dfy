/** `ext2_read_block` (fs/ext2.c) over a disk of sectors: a device in the sense of `Volume`. */
module Ext2Device {
  import opened Words
  import opened Ext2

  /** A disk of sectors that divide the file system's blocks. */
  predicate Fits(disk: seq<byte>, blockSize: nat, sectorSize: nat) {
    0 < sectorSize && Rem(blockSize, sectorSize) == 0 && |disk| <= TWO32
  }

  predicate OnDisk(disk: seq<byte>, blockSize: nat, n: nat) {
    Times(n, blockSize) + blockSize <= |disk|
  }

  /** The buffer after a read: the byte address is a 32-bit product, and sectors that are not on the
      disk leave the buffer as it was. */
  function Transfer(disk: seq<byte>, blockSize: nat, sectorSize: nat, n: nat, was: seq<byte>): seq<byte>
    requires 0 < sectorSize
  {
    var start := Times(Quot(Wrap(Times(n, blockSize)), sectorSize), sectorSize);
    if start + blockSize <= |disk| then disk[start..start + blockSize] else was
  }

  function VolumeOn(disk: seq<byte>, fanout: nat, sectorSize: nat, stale: seq<byte>): Volume
    requires 0 < sectorSize
  {
    Volume(4 * fanout, fanout, stale, (n: nat, was: seq<byte>) => Transfer(disk, 4 * fanout, sectorSize, n, was))
  }

  method ReadBlock(disk: seq<byte>, blockSize: nat, sectorSize: nat, n: nat, was: seq<byte>) returns (data: seq<byte>)
    requires Fits(disk, blockSize, sectorSize)
    ensures data == Transfer(disk, blockSize, sectorSize, n, was)
  {
    var sector := Quot(Wrap(Times(n, blockSize)), sectorSize);
    var count := Quot(blockSize, sectorSize) + (if Rem(blockSize, sectorSize) != 0 then 1 else 0);
    QuotRem(blockSize, sectorSize);
    var start, length := Times(sector, sectorSize), Times(count, sectorSize);
    if start + length > |disk| {
      return was;
    }
    data := disk[start..start + length];
  }

  /** The sector arithmetic reaches exactly the block's bytes, whatever the buffer held. */
  lemma TransferIsBlock(disk: seq<byte>, blockSize: nat, sectorSize: nat, n: nat, was: seq<byte>)
    requires Fits(disk, blockSize, sectorSize) && 0 < blockSize && OnDisk(disk, blockSize, n)
    ensures Transfer(disk, blockSize, sectorSize, n, was) == disk[Times(n, blockSize)..Times(n, blockSize) + blockSize]
  {
    SectorsReach(n, blockSize, sectorSize);
  }

  lemma SectorsReach(n: nat, blockSize: nat, sectorSize: nat)
    requires 0 < sectorSize && Rem(blockSize, sectorSize) == 0 && Times(n, blockSize) < TWO32
    ensures Times(Quot(Wrap(Times(n, blockSize)), sectorSize), sectorSize) == Times(n, blockSize)
  {
    var at, k := Times(n, blockSize), Quot(blockSize, sectorSize);
    QuotRem(blockSize, sectorSize);
    TimesAssoc(n, k, sectorSize);
    QuotIs(at, sectorSize, Times(n, k));
    assert Wrap(at) == at;
  }

  /** Blocks on the disk are readable, and are what the disk holds. */
  lemma BlocksReadable(disk: seq<byte>, fanout: nat, sectorSize: nat, stale: seq<byte>, n: nat)
    requires 0 < fanout <= 0x4000 && |stale| == 4 * fanout && Fits(disk, 4 * fanout, sectorSize)
    requires OnDisk(disk, 4 * fanout, n)
    ensures var v := VolumeOn(disk, fanout, sectorSize, stale);
            && ValidVolume(v) && Readable(v, n)
            && Block(v, n) == disk[Times(n, 4 * fanout)..Times(n, 4 * fanout) + 4 * fanout]
  {
    var v := VolumeOn(disk, fanout, sectorSize, stale);
    forall was | |was| == v.blockSize
      ensures Fetch(v, n, was) == disk[Times(n, 4 * fanout)..Times(n, 4 * fanout) + 4 * fanout]
    {
      TransferIsBlock(disk, 4 * fanout, sectorSize, n, was);
    }
  }
}
