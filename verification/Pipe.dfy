/**
 Pipes (fs/pipe.c).  Kernel code is not preempted, so a read or a write is one step, taken
 when the condition its waiting loop tests allows it.
 */
module Pipes {
  import opened Words
  import opened Common
  import opened RingBuffers

  const PIPE_SIZE := 4096

  /** What a pipe has seen: everything written, everything read, and its buffer. */
  datatype Pipe = Pipe(written: seq<byte>, read: seq<byte>, ring: Ring<byte>)

  datatype Op = Read(count: u32) | Write(bytes: seq<byte>)

  /** The condition on which the waiting loop ends; the sum is a `size_t`. */
  predicate Enabled(size: nat, op: Op) {
    match op
    case Read(count) => size > 0
    case Write(bytes) => Wrap(size + |bytes|) <= PIPE_SIZE
  }

  /** A write that gets through leaves no more than the capacity exactly when the sum does not wrap. */
  lemma EnabledFitsIff(size: nat, bytes: seq<byte>)
    requires size <= PIPE_SIZE && |bytes| < TWO32 && Enabled(size, Write(bytes))
    ensures size + |bytes| <= PIPE_SIZE <==> size + |bytes| < TWO32
  {
  }

  /** A full pipe lets a write of 4 GiB less one page through at once. */
  lemma WrappedWriteEnabled(bytes: seq<byte>)
    requires |bytes| == 0xFFFF_F000
    ensures Enabled(PIPE_SIZE, Write(bytes)) && !(PIPE_SIZE + |bytes| < TWO32)
  {
    EnabledFitsIff(PIPE_SIZE, bytes);
  }

  function Step(p: Pipe, op: Op): Pipe
    requires Shaped(p.ring)
  {
    match op
    case Read(count) =>
      var k := Min(count, p.ring.size);
      p.(read := p.read + Front(p.ring, k), ring := Popped(p.ring, k))
    case Write(bytes) => p.(written := p.written + bytes, ring := PushedAll(p.ring, bytes))
  }

  /** A first-in first-out stream: what was read, then what is buffered, is what was written. */
  ghost predicate Inv(p: Pipe) {
    Consistent(p.ring) && |p.ring.slots| == PIPE_SIZE && p.read + Queue(p.ring) == p.written
  }

  /** The count is a `size_t`, and the waiting loop has ended. */
  predicate Taken(p: Pipe, op: Op) {
    Enabled(p.ring.size, op) && (op.Write? ==> |op.bytes| < TWO32)
  }

  /** What a writer can test: the sum does not wrap. */
  predicate Unwrapped(p: Pipe, op: Op) {
    op.Write? ==> p.ring.size + |op.bytes| < TWO32
  }

  /** A step that gets past the wait keeps the stream exactly if its sum does not wrap. */
  lemma StepKeepsIff(p: Pipe, op: Op)
    requires Inv(p) && Taken(p, op)
    ensures Inv(Step(p, op)) <==> Unwrapped(p, op)
    ensures op.Read? && op.count > 0 ==> |Step(p, op).read| > |p.read|
  {
    match op
    case Read(count) =>
      var k := Min(count, p.ring.size);
      PopTakes(p.ring, k);
      Regroup(p.read, Front(p.ring, k), Queue(Popped(p.ring, k)));
    case Write(bytes) =>
      EnabledFitsIff(p.ring.size, bytes);
      PushedAllIff(p.ring, bytes);
      WrittenIff(p, bytes);
  }

  lemma WrittenIff(p: Pipe, bytes: seq<byte>)
    requires Inv(p)
    ensures Inv(Step(p, Write(bytes))) <==> p.ring.size + |bytes| <= PIPE_SIZE
  {
    PushedAllIff(p.ring, bytes);
    if p.ring.size + |bytes| <= PIPE_SIZE {
      Regroup(p.read, Queue(p.ring), bytes);
    } else {
      assert |p.read + Queue(PushedAll(p.ring, bytes))| != |p.written + bytes|;
    }
  }

  /** Every interleaving: each step is taken in a state that enables it. */
  ghost predicate AllTaken(p: Pipe, ops: seq<Op>)
    decreases |ops|
  {
    ops == [] || (Shaped(p.ring) && Taken(p, ops[0]) && AllTaken(Step(p, ops[0]), ops[1..]))
  }

  function Run(p: Pipe, ops: seq<Op>): Pipe
    requires Shaped(p.ring)
    decreases |ops|
  {
    if ops == [] then p else Run(Step(p, ops[0]), ops[1..])
  }

  ghost predicate AllUnwrapped(p: Pipe, ops: seq<Op>)
    requires Shaped(p.ring)
    decreases |ops|
  {
    ops == [] || (Unwrapped(p, ops[0]) && AllUnwrapped(Step(p, ops[0]), ops[1..]))
  }

  ghost predicate AlwaysInv(p: Pipe, ops: seq<Op>)
    requires Shaped(p.ring)
    decreases |ops|
  {
    Inv(p) && (ops == [] || AlwaysInv(Step(p, ops[0]), ops[1..]))
  }

  /** The bytes all writes of a run put in. */
  function Sent(ops: seq<Op>): seq<byte> {
    if ops == [] then [] else (if ops[0].Write? then ops[0].bytes else []) + Sent(ops[1..])
  }

  /** Over every interleaving, the stream is kept at every point if and only if no sum wraps. */
  lemma {:induction false} RunKeepsIff(p: Pipe, ops: seq<Op>)
    requires Inv(p) && AllTaken(p, ops)
    ensures AlwaysInv(p, ops) <==> AllUnwrapped(p, ops)
    ensures AllUnwrapped(p, ops) ==> Inv(Run(p, ops))
    decreases |ops|
  {
    if ops != [] {
      StepKeepsIff(p, ops[0]);
      if Unwrapped(p, ops[0]) {
        RunKeepsIff(Step(p, ops[0]), ops[1..]);
      } else {
        NotAlways(Step(p, ops[0]), ops[1..]);
      }
    }
  }

  lemma NotAlways(p: Pipe, ops: seq<Op>)
    requires Shaped(p.ring) && !Inv(p)
    ensures !AlwaysInv(p, ops)
  {
  }

  lemma {:induction false} RunWrites(p: Pipe, ops: seq<Op>)
    requires Shaped(p.ring)
    ensures Run(p, ops).written == p.written + Sent(ops)
    decreases |ops|
  {
    if ops != [] {
      RunWrites(Step(p, ops[0]), ops[1..]);
      Regroup(p.written, if ops[0].Write? then ops[0].bytes else [], Sent(ops[1..]));
    }
  }

  /** A new pipe. */
  predicate IsNew(p: Pipe) {
    Consistent(p.ring) && |p.ring.slots| == PIPE_SIZE && p.ring.size == 0 && p.written == [] && p.read == []
  }

  /** A lossless stream within the capacity, from a new pipe over every interleaving without a wrapped sum. */
  lemma PipeLossless(p: Pipe, ops: seq<Op>)
    requires IsNew(p) && AllTaken(p, ops) && AllUnwrapped(p, ops)
    ensures var q := Run(p, ops); Inv(q) && q.read + Queue(q.ring) == Sent(ops) && q.ring.size <= PIPE_SIZE
  {
    assert Queue(p.ring) == [];
    RunKeepsIff(p, ops);
    RunWrites(p, ops);
  }

  /** A write is enabled in some state of the buffer if and only if it is no longer than the capacity, or so
      long that the sum wraps: others wait for ever.  One that fits can go once a reader emptied the pipe. */
  lemma WriteGetsThroughIff(bytes: seq<byte>)
    requires |bytes| < TWO32
    ensures (exists size: nat :: size <= PIPE_SIZE && Enabled(size, Write(bytes)))
            <==> |bytes| <= PIPE_SIZE || PIPE_SIZE + |bytes| >= TWO32
    ensures |bytes| <= PIPE_SIZE ==> forall p :: Inv(p) ==> Enabled(Step(p, Read(4096)).ring.size, Write(bytes))
  {
    if |bytes| <= PIPE_SIZE {
      assert Enabled(0, Write(bytes));
    } else if PIPE_SIZE + |bytes| >= TWO32 {
      assert Enabled(PIPE_SIZE, Write(bytes));
    } else {
      forall size: nat | size <= PIPE_SIZE
        ensures !Enabled(size, Write(bytes))
      {
        assert Wrap(size + |bytes|) == size + |bytes|;
      }
    }
  }

  class PipeFile {
    const buf: RingBuffer<byte>
    var readOffset: nat
    var writeOffset: nat

    ghost predicate Valid()
      reads this, buf, buf.data
    {
      buf.Valid() && buf.maxSize == PIPE_SIZE
    }

    constructor ()
      ensures Valid() && fresh(buf) && fresh(buf.data) && readOffset == 0 && writeOffset == 0
      ensures Consistent(buf.State()) && Queue(buf.State()) == []
    {
      buf := new RingBuffer<byte>(PIPE_SIZE);
      readOffset, writeOffset := 0, 0;
    }

    /** `pipe_file_read` at the end of the file, or once the buffer is not empty. */
    method Read(buffer: array<byte>, count: u32, eof: bool) returns (i: nat)
      requires Valid() && (eof || Enabled(buf.size, Op.Read(count))) && count <= buffer.Length && buffer != buf.data
      modifies this`readOffset, buf, buffer
      ensures Valid() && i == (if eof then 0 else Min(count, old(buf.size))) && readOffset == old(readOffset) + i
      ensures buffer[..i] == old(Front(buf.State(), i)) && buffer[i..] == old(buffer[..])[i..]
      ensures buf.State() == old(Popped(buf.State(), i))
    {
      i := 0;
      if eof {
        return;
      }
      ghost var was, r := buffer[..], buf.State();
      while i < count
        invariant i <= count && i <= r.size && Valid() && readOffset == old(readOffset) && buf.State() == Popped(r, i)
        invariant buffer[..i] == Front(r, i) && buffer[i..] == was[i..]
      {
        if buf.size == 0 {
          break;
        }
        PoppedNext(r, i);
        var ok, e := buf.Pop();
        buffer[i] := e;
        i := i + 1;
      }
      readOffset := readOffset + i;
    }

    /** `pipe_file_write` once its waiting loop has ended. */
    method Write(bytes: seq<byte>)
      requires Valid() && |bytes| < TWO32 && Enabled(buf.size, Op.Write(bytes))
      modifies this`writeOffset, buf, buf.data
      ensures Valid() && buf.State() == PushedAll(old(buf.State()), bytes) && writeOffset == old(writeOffset) + |bytes|
      ensures old(Consistent(buf.State())) ==>
                (Consistent(buf.State()) && Queue(buf.State()) == old(Queue(buf.State())) + bytes
                 <==> old(buf.size) + |bytes| < TWO32)
    {
      EnabledFitsIff(buf.size, bytes);
      ghost var r := buf.State();
      buf.PushN(bytes);
      if Consistent(r) {
        PushedAllIff(r, bytes);
      }
      writeOffset := writeOffset + |bytes|;
    }

    /** `pipe_file_poll`: readable when a read is enabled, writable when a write of one byte is. */
    method Poll() returns (pollIn: bool, pollOut: bool)
      requires Valid()
      ensures pollIn <==> forall n: u32 :: Enabled(buf.size, Op.Read(n))
      ensures pollOut <==> forall b: byte :: Enabled(buf.size, Op.Write([b]))
    {
      pollIn := buf.size > 0;
      pollOut := buf.size < buf.maxSize;
      assert Enabled(buf.size, Op.Read(0)) <==> pollIn;
      assert Enabled(buf.size, Op.Write([0])) <==> pollOut;
    }
  }

  /** The next element after `i` pops. */
  lemma PoppedNext(r: Ring<byte>, i: nat)
    requires Shaped(r) && i < r.size
    ensures Front(r, i + 1) == Front(r, i) + [Queue(Popped(r, i))[0]]
    ensures Popped(Popped(r, i), 1) == Popped(r, i + 1)
  {
  }
}
