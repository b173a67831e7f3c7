/** Runs of ext2 reads on the kernel heap: the buffers that fs/ext2.c keeps use it up. */
module Ext2Exhaustion {
  import opened Words
  import opened Common
  import opened BlockBuffers
  import opened Ext2
  import opened Ext2File
  import opened Ext2Reads
  import Ext2Buffers
  import SlabHeap
  import HeapRuns
  import BufferHeap

  /** From boot, with nobody else allocating: the kernel heap serves a run of reads of any inode, and the run
      delivers its bytes, exactly if the buffers it keeps and the working one are no more than `BufferRoom`. */
  lemma RunOnKernelHeap(v: Volume, ino: Inode, offset: u32, counts: seq<u32>, mem: seq<byte>, data: seq<seq<byte>>)
    requires ValidVolume(v) && SlabHeap.LARGE_FROM <= v.blockSize && |mem| == SlabHeap.HEAP_BYTES
    requires var us := Spends(InodeReader(v, ino), InodeSpender(v, ino), offset, counts);
             |data| == |us| && BufferHeap.Filling(v.blockSize, data)
    ensures var read, spend, room := InodeReader(v, ino), InodeSpender(v, ino), BufferHeap.BufferRoom(v.blockSize);
            var us := Spends(read, spend, offset, counts);
            && (BufferHeap.Used(SlabHeap.Booted(mem), v.blockSize, us, data).Some? <==> Needs(us) <= room)
            && (Delivered(read, spend, room, offset, counts).Some? <==> Needs(us) <= room)
  {
    var us := Spends(InodeReader(v, ino), InodeSpender(v, ino), offset, counts);
    BufferHeap.HeapServesIff(mem, v.blockSize, us, data);
  }

  /** A file of 15 KiB in blocks of 1 KiB, read byte by byte: 3072 pointer buffers are kept. The kernel heap
      of any state, whoever else allocates, does not serve the run, and nothing is delivered. */
  lemma ByteByByteFails(v: Volume, ino: Inode, h: SlabHeap.Heap, blocks: map<int, nat>, data: seq<seq<byte>>)
    requires ValidVolume(v) && v.blockSize == 1024 && Allocated(v, ino) && ino.size == 15360
    requires HeapRuns.Sound(h, blocks) && BufferHeap.Filling(v.blockSize, data)
    requires |data| == |Spends(InodeReader(v, ino), InodeSpender(v, ino), 0, Ext2Buffers.Ones(ino.size))|
    ensures var read, spend, counts := InodeReader(v, ino), InodeSpender(v, ino), Ext2Buffers.Ones(ino.size);
            var us := Spends(read, spend, 0, counts);
            && Needs(us) == 3073 && BufferHeap.BufferRoom(1024) == 2040
            && Delivered(read, spend, BufferHeap.BufferRoom(1024), 0, counts) == None
            && BufferHeap.Used(h, v.blockSize, us, data) == None
  {
    var us := Spends(InodeReader(v, ino), InodeSpender(v, ino), 0, Ext2Buffers.Ones(ino.size));
    SpanIs(v);
    Ext2Buffers.ByteByByte(v, ino);
    BufferHeap.PageBuffers(1024);
    BufferHeap.TooMany(h, blocks, v.blockSize, us, data);
  }

  lemma SpanIs(v: Volume)
    requires ValidVolume(v) && v.blockSize == 1024
    ensures Span(v) == 0x4_0000
  {
    TimesIs(v.fanout, v.blockSize);
  }
}
