/**
 The message queue of local sockets (net/local_socket.c).  A queued message is a pointer
 to the sender's bytes and a count; the receiver follows it in its own address space, which is
 the sender's only when both are threads of one process.
 */
module LocalSockets {
  import opened Words
  import opened Common

  datatype Message = Message(at: nat, size: nat)

  predicate Placed(n: nat, q: seq<Message>) {
    forall i :: 0 <= i < |q| ==> q[i].at + q[i].size <= n
  }

  function Bytes(mem: seq<byte>, m: Message): seq<byte>
    requires m.at + m.size <= |mem|
  {
    mem[m.at..m.at + m.size]
  }

  /** The bytes of all queued messages, in order. */
  function Queued(mem: seq<byte>, q: seq<Message>): seq<byte>
    requires Placed(|mem|, q)
  {
    if q == [] then [] else Bytes(mem, q[0]) + Queued(mem, q[1..])
  }

  predicate Within(m: Message, a: int) {
    m.at <= a < m.at + m.size
  }

  /** Address `a` belongs to a message still in the queue. */
  predicate InFlight(q: seq<Message>, a: int) {
    exists i :: 0 <= i < |q| && Within(q[i], a)
  }

  // ----- The operations on values -----

  function Sent(q: seq<Message>, at: nat, size: nat): seq<Message> {
    q + [Message(at, size)]
  }

  /** The queue after a receive of `size` bytes: a longer message goes back to the front, shortened. */
  function Received(q: seq<Message>, size: nat): seq<Message>
    requires q != []
  {
    var m := q[0];
    if size < m.size then [Message(m.at + size, m.size - size)] + q[1..] else q[1..]
  }

  // ----- What each does to the stream -----

  lemma {:induction false} SendAppends(mem: seq<byte>, q: seq<Message>, at: nat, size: nat)
    requires Placed(|mem|, q) && at + size <= |mem|
    ensures Placed(|mem|, Sent(q, at, size)) && Queued(mem, Sent(q, at, size)) == Queued(mem, q) + mem[at..at + size]
  {
    var q' := Sent(q, at, size);
    if q != [] {
      assert q'[1..] == Sent(q[1..], at, size);
      SendAppends(mem, q[1..], at, size);
    } else {
      assert q'[1..] == [];
    }
  }

  /** A receive takes the front of the stream. */
  lemma {:induction false} ReceiveTakes(mem: seq<byte>, q: seq<Message>, size: nat)
    requires Placed(|mem|, q) && q != []
    ensures var k := Min(size, q[0].size);
            && Placed(|mem|, Received(q, size))
            && mem[q[0].at..q[0].at + k] + Queued(mem, Received(q, size)) == Queued(mem, q)
  {
    if size < q[0].size {
      PartTaken(mem, q, size, Min(size, q[0].size));
    } else {
      WholeTaken(mem, q, size, Min(size, q[0].size));
    }
  }

  lemma {:induction false} WholeTaken(mem: seq<byte>, q: seq<Message>, size: nat, k: nat)
    requires Placed(|mem|, q) && q != [] && q[0].size <= size && k == q[0].size
    ensures Placed(|mem|, Received(q, size))
    ensures mem[q[0].at..q[0].at + k] + Queued(mem, Received(q, size)) == Queued(mem, q)
  {
    assert Received(q, size) == q[1..];
  }

  lemma {:induction false} PartTaken(mem: seq<byte>, q: seq<Message>, size: nat, k: nat)
    requires Placed(|mem|, q) && q != [] && k == size < q[0].size
    ensures Placed(|mem|, Received(q, size))
    ensures mem[q[0].at..q[0].at + k] + Queued(mem, Received(q, size)) == Queued(mem, q)
  {
    var m, rest, q' := q[0], q[1..], Received(q, size);
    var m' := Message(m.at + size, m.size - size);
    QueuedCons(mem, m', rest, q');
    CutInTwo(mem, m, k, m', Queued(mem, rest));
  }

  lemma CutInTwo(mem: seq<byte>, m: Message, k: nat, m': Message, z: seq<byte>)
    requires k <= m.size && m.at + m.size <= |mem| && m' == Message(m.at + k, m.size - k)
    ensures mem[m.at..m.at + k] + (Bytes(mem, m') + z) == Bytes(mem, m) + z
  {
    assert Bytes(mem, m) == mem[m.at..m.at + k] + Bytes(mem, m');
  }

  lemma {:induction false} QueuedCons(mem: seq<byte>, m: Message, rest: seq<Message>, q: seq<Message>)
    requires Placed(|mem|, rest) && m.at + m.size <= |mem| && q == [m] + rest
    ensures Placed(|mem|, q) && Queued(mem, q) == Bytes(mem, m) + Queued(mem, rest)
  {
    assert q[1..] == rest;
  }

  lemma {:induction false} QueuedFrame(mem: seq<byte>, mem': seq<byte>, q: seq<Message>)
    requires Placed(|mem|, q) && |mem| == |mem'|
    requires forall a :: 0 <= a < |mem| && InFlight(q, a) ==> mem'[a] == mem[a]
    ensures Queued(mem', q) == Queued(mem, q)
  {
    if q != [] {
      var m, rest := q[0], q[1..];
      forall a | 0 <= a < |mem| && InFlight(rest, a)
        ensures mem'[a] == mem[a]
      {
        var i :| 0 <= i < |rest| && Within(rest[i], a);
        assert Within(q[i + 1], a);
      }
      QueuedFrame(mem, mem', rest);
      var x, x' := mem[m.at..m.at + m.size], mem'[m.at..m.at + m.size];
      forall k | 0 <= k < m.size
        ensures x'[k] == x[k]
      {
        assert Within(q[0], m.at + k);
      }
      assert x' == x;
    }
  }

  lemma {:induction false} QueuedLength(mem: seq<byte>, mem': seq<byte>, q: seq<Message>)
    requires Placed(|mem|, q) && |mem| == |mem'|
    ensures |Queued(mem', q)| == |Queued(mem, q)|
  {
    if q != [] {
      QueuedLength(mem, mem', q[1..]);
    }
  }

  /** Two memories hold the same stream exactly when they agree on every byte in flight. */
  lemma {:induction false} SameStreamIff(mem: seq<byte>, mem': seq<byte>, q: seq<Message>)
    requires Placed(|mem|, q) && |mem| == |mem'|
    ensures Queued(mem', q) == Queued(mem, q) <==> forall a :: 0 <= a < |mem| && InFlight(q, a) ==> mem'[a] == mem[a]
  {
    if Queued(mem', q) == Queued(mem, q) {
      forall a | 0 <= a < |mem| && InFlight(q, a)
        ensures mem'[a] == mem[a]
      {
        ByteInStream(mem, mem', q, a);
      }
    } else {
      if forall a :: 0 <= a < |mem| && InFlight(q, a) ==> mem'[a] == mem[a] {
        QueuedFrame(mem, mem', q);
      }
    }
  }

  lemma {:induction false} ByteInStream(mem: seq<byte>, mem': seq<byte>, q: seq<Message>, a: nat)
    requires Placed(|mem|, q) && |mem| == |mem'| && a < |mem| && InFlight(q, a)
    requires Queued(mem', q) == Queued(mem, q)
    ensures mem'[a] == mem[a]
    decreases |q|
  {
    var m, rest := q[0], q[1..];
    var x, x' := Bytes(mem, m), Bytes(mem', m);
    SameParts(x, Queued(mem, rest), x', Queued(mem', rest));
    if Within(m, a) {
      assert x[a - m.at] == mem[a] && x'[a - m.at] == mem'[a];
    } else {
      var i :| 0 <= i < |q| && Within(q[i], a);
      assert Within(rest[i - 1], a);
      ByteInStream(mem, mem', rest, a);
    }
  }

  lemma SameParts(a: seq<byte>, b: seq<byte>, c: seq<byte>, d: seq<byte>)
    requires |a| == |c|
    ensures a + b == c + d <==> a == c && b == d
  {
    if a + b == c + d {
      assert a == (a + b)[..|a|] && c == (c + d)[..|a|];
      assert b == (a + b)[|a|..] && d == (c + d)[|a|..];
    }
  }

  /** A client's write leaves the stream alone exactly when it misses every message in flight or
      writes the byte that is there. */
  lemma WriteKeepsIff(mem: seq<byte>, q: seq<Message>, a: nat, v: byte)
    requires Placed(|mem|, q) && a < |mem|
    ensures Queued(mem[a := v], q) == Queued(mem, q) <==> !InFlight(q, a) || v == mem[a]
  {
    SameStreamIff(mem, mem[a := v], q);
  }

  // ----- Every run -----

  datatype Op =
    | Send(at: nat, size: nat)
    | Receive(dst: nat, size: nat)
    | StoreHere(a: nat, v: byte)    // a thread of the sender writes a byte of memory
    | StoreThere(a: nat, v: byte)   // a thread of the receiver does

  /** The memory of sender and receiver, one and the same if they share it, the queue, and all that was
      ever sent and received. */
  datatype Socket = Socket(sender: seq<byte>, receiver: seq<byte>, shared: bool, queue: seq<Message>, sent: seq<byte>,
                           received: seq<byte>)

  ghost predicate Valid(s: Socket) {
    Placed(|s.sender|, s.queue) && |s.receiver| == |s.sender| && (s.shared ==> s.receiver == s.sender)
  }

  /** Ranges lie in memory, a receive waits for a message, and its buffer does not overlap the bytes copied. */
  predicate Possible(s: Socket, op: Op) {
    match op
    case Send(at, size) => at + size <= |s.sender|
    case Receive(dst, size) =>
      && s.queue != [] && dst + Taken(s, size) <= |s.receiver|
      && (dst + Taken(s, size) <= s.queue[0].at || s.queue[0].at + Taken(s, size) <= dst)
    case StoreHere(a, _) => a < |s.sender|
    case StoreThere(a, _) => a < |s.receiver|
  }

  function Taken(s: Socket, size: nat): nat
    requires s.queue != []
  {
    Min(size, s.queue[0].size)
  }

  /** What a receive copies: the bytes at the message's address in the receiver's memory. */
  function Copied(s: Socket, size: nat): seq<byte>
    requires s.queue != [] && s.queue[0].at + s.queue[0].size <= |s.receiver|
  {
    s.receiver[s.queue[0].at..s.queue[0].at + Taken(s, size)]
  }

  function Step(s: Socket, op: Op): Socket
    requires Valid(s) && Possible(s, op)
  {
    match op
    case Send(at, size) => s.(queue := Sent(s.queue, at, size), sent := s.sent + s.sender[at..at + size])
    case Receive(dst, size) =>
      var to := Splice(s.receiver, dst, Copied(s, size));
      Socket(if s.shared then to else s.sender, to, s.shared, Received(s.queue, size), s.sent,
             s.received + Copied(s, size))
    case StoreHere(a, v) =>
      s.(sender := s.sender[a := v], receiver := if s.shared then s.receiver[a := v] else s.receiver)
    case StoreThere(a, v) =>
      s.(receiver := s.receiver[a := v], sender := if s.shared then s.sender[a := v] else s.sender)
  }

  /** The two memories agree on the bytes a receive takes. */
  ghost predicate Agree(s: Socket, size: nat)
    requires Valid(s) && s.queue != []
  {
    forall i :: s.queue[0].at <= i < s.queue[0].at + Taken(s, size) ==> s.receiver[i] == s.sender[i]
  }

  /** Data written at `dst` changes no byte in flight. */
  ghost predicate Harmless(mem: seq<byte>, dst: nat, data: seq<byte>, q: seq<Message>)
    requires dst + |data| <= |mem|
  {
    forall a :: dst <= a < dst + |data| && InFlight(q, a) ==> data[a - dst] == mem[a]
  }

  /** What a client can test before each step: the receiver has the sender's bytes, and a store into the
      sender's memory misses every message in flight or stores the byte that is there. */
  ghost predicate Faithful(s: Socket, op: Op)
    requires Valid(s) && Possible(s, op)
  {
    match op
    case Send(_, _) => true
    case Receive(dst, size) =>
      && Agree(s, size)
      && (s.shared ==> Harmless(s.sender, dst, Copied(s, size), Received(s.queue, size)))
    case StoreHere(a, v) => !InFlight(s.queue, a) || v == s.sender[a]
    case StoreThere(a, v) => !s.shared || !InFlight(s.queue, a) || v == s.sender[a]
  }

  /** What was received, followed by what the sender's memory holds for the queue, is what was sent. */
  ghost predicate Conserved(s: Socket) {
    Valid(s) && s.received + Queued(s.sender, s.queue) == s.sent
  }

  /** A step keeps that up exactly if it is faithful. */
  lemma StepConservesIff(s: Socket, op: Op)
    requires Conserved(s) && Possible(s, op)
    ensures Valid(Step(s, op)) && (Conserved(Step(s, op)) <==> Faithful(s, op))
  {
    match op
    case Send(at, size) =>
      SendAppends(s.sender, s.queue, at, size);
      Regroup(s.received, Queued(s.sender, s.queue), s.sender[at..at + size]);
    case Receive(dst, size) => ReceiveIff(s, dst, size);
    case StoreHere(a, v) =>
      WriteKeepsIff(s.sender, s.queue, a, v);
      SameParts(s.received, Queued(s.sender, s.queue), s.received, Queued(s.sender[a := v], s.queue));
    case StoreThere(a, v) =>
      WriteKeepsIff(s.sender, s.queue, a, v);
      SameParts(s.received, Queued(s.sender, s.queue), s.received, Queued(s.sender[a := v], s.queue));
  }

  lemma ReceiveIff(s: Socket, dst: nat, size: nat)
    requires Conserved(s) && Possible(s, Receive(dst, size))
    ensures var s' := Step(s, Receive(dst, size));
            Valid(s') && (Conserved(s') <==> Faithful(s, Receive(dst, size)))
  {
    var s', q', d := Step(s, Receive(dst, size)), Received(s.queue, size), Copied(s, size);
    var a := Front(s, size, d, q');
    StreamsIff(s.received, s.sent, Queued(s.sender, s.queue), a, Queued(s.sender, q'), d, Queued(s'.sender, q'));
    if s.shared {
      WrittenIff(s.sender, dst, d, q');
    }
  }

  /** The front of the stream, and when a receive copies it. */
  lemma Front(s: Socket, size: nat, d: seq<byte>, q': seq<Message>) returns (a: seq<byte>)
    requires Valid(s) && s.queue != [] && d == Copied(s, size) && q' == Received(s.queue, size)
    ensures Placed(|s.sender|, q') && a + Queued(s.sender, q') == Queued(s.sender, s.queue)
    ensures |d| == |a| == Taken(s, size) && (d == a <==> Agree(s, size))
  {
    var m, k := s.queue[0], Taken(s, size);
    a := s.sender[m.at..m.at + k];
    ReceiveTakes(s.sender, s.queue, size);
    SameSlice(s.receiver, s.sender, m.at, m.at + k);
  }

  /** Taking `d` off a stream that starts with `a`. */
  lemma StreamsIff(r: seq<byte>, sent: seq<byte>, queued: seq<byte>, a: seq<byte>, y: seq<byte>, d: seq<byte>,
                   x: seq<byte>)
    requires r + queued == sent && a + y == queued && |d| == |a|
    ensures r + d + x == sent <==> d == a && x == y
  {
    Swapped(r, a, y, d, x);
  }

  lemma SameSlice(x: seq<byte>, y: seq<byte>, from: nat, to: nat)
    requires from <= to <= |x| == |y|
    ensures x[from..to] == y[from..to] <==> forall i :: from <= i < to ==> x[i] == y[i]
  {
    if x[from..to] == y[from..to] {
      forall i | from <= i < to
        ensures x[i] == y[i]
      {
        assert x[i] == x[from..to][i - from] && y[i] == y[from..to][i - from];
      }
    }
  }

  lemma Swapped(r: seq<byte>, a: seq<byte>, y: seq<byte>, d: seq<byte>, x: seq<byte>)
    requires |d| == |a|
    ensures r + d + x == r + (a + y) <==> d == a && x == y
  {
    Regroup(r, d, x);
    SameParts(r, d + x, r, a + y);
    SameParts(d, x, a, y);
  }

  /** Writing over memory keeps the stream exactly if it changes no byte in flight. */
  lemma WrittenIff(mem: seq<byte>, dst: nat, data: seq<byte>, q: seq<Message>)
    requires Placed(|mem|, q) && dst + |data| <= |mem|
    ensures Queued(Splice(mem, dst, data), q) == Queued(mem, q) <==> Harmless(mem, dst, data, q)
  {
    SplicedBytes(mem, dst, data);
    ChangedIff(mem, dst, data, Splice(mem, dst, data), q);
  }

  lemma SplicedBytes(mem: seq<byte>, dst: nat, data: seq<byte>)
    requires dst + |data| <= |mem|
    ensures forall a :: 0 <= a < |mem| ==>
              Splice(mem, dst, data)[a] == if dst <= a < dst + |data| then data[a - dst] else mem[a]
  {
  }

  lemma ChangedIff(mem: seq<byte>, dst: nat, data: seq<byte>, mem': seq<byte>, q: seq<Message>)
    requires Placed(|mem|, q) && dst + |data| <= |mem| == |mem'|
    requires forall a :: 0 <= a < |mem| ==> mem'[a] == if dst <= a < dst + |data| then data[a - dst] else mem[a]
    ensures Queued(mem', q) == Queued(mem, q) <==> Harmless(mem, dst, data, q)
  {
    SameStreamIff(mem, mem', q);
    if Harmless(mem, dst, data, q) {
      QueuedFrame(mem, mem', q);
    } else {
      var a :| dst <= a < dst + |data| && InFlight(q, a) && data[a - dst] != mem[a];
      assert mem'[a] != mem[a];
    }
  }

  ghost predicate AllPossible(s: Socket, ops: seq<Op>)
    requires Valid(s)
    decreases |ops|
  {
    ops == [] || (Possible(s, ops[0]) && Valid(Step(s, ops[0])) && AllPossible(Step(s, ops[0]), ops[1..]))
  }

  ghost predicate AllFaithful(s: Socket, ops: seq<Op>)
    requires Valid(s) && AllPossible(s, ops)
    decreases |ops|
  {
    ops == [] || (Faithful(s, ops[0]) && AllFaithful(Step(s, ops[0]), ops[1..]))
  }

  ghost predicate AlwaysConserved(s: Socket, ops: seq<Op>)
    requires Valid(s) && AllPossible(s, ops)
    decreases |ops|
  {
    Conserved(s) && (ops == [] || AlwaysConserved(Step(s, ops[0]), ops[1..]))
  }

  ghost function Run(s: Socket, ops: seq<Op>): Socket
    requires Valid(s) && AllPossible(s, ops)
    decreases |ops|
  {
    if ops == [] then s else Run(Step(s, ops[0]), ops[1..])
  }

  /** Over every run: what was received followed by what is queued is what was sent, at every point of it,
      if and only if every step is faithful. */
  lemma {:induction false} RunConservesIff(s: Socket, ops: seq<Op>)
    requires Conserved(s) && AllPossible(s, ops)
    ensures AlwaysConserved(s, ops) <==> AllFaithful(s, ops)
    ensures AllFaithful(s, ops) ==> Conserved(Run(s, ops))
    decreases |ops|
  {
    if ops != [] {
      var s' := Step(s, ops[0]);
      StepConservesIff(s, ops[0]);
      if Faithful(s, ops[0]) {
        RunConservesIff(s', ops[1..]);
      } else {
        NotAlways(s', ops[1..]);
      }
    }
  }

  lemma NotAlways(s: Socket, ops: seq<Op>)
    requires Valid(s) && AllPossible(s, ops) && !Conserved(s)
    ensures !AlwaysConserved(s, ops)
  {
  }

  // ----- Threads of one process -----

  /** Receive buffers and stores stay off the messages in flight. */
  ghost predicate Careful(s: Socket, op: Op) {
    match op
    case Send(_, _) => true
    case Receive(dst, size) =>
      s.queue != [] && forall a :: dst <= a < dst + Taken(s, size) ==> !InFlight(s.queue, a)
    case StoreHere(a, _) => !InFlight(s.queue, a)
    case StoreThere(a, _) => !InFlight(s.queue, a)
  }

  ghost predicate AllCareful(s: Socket, ops: seq<Op>)
    requires Valid(s) && AllPossible(s, ops)
    decreases |ops|
  {
    ops == [] || (Careful(s, ops[0]) && AllCareful(Step(s, ops[0]), ops[1..]))
  }

  /** In one address space, nothing is lost while nobody writes over messages in flight. */
  lemma {:induction false} RunConserves(s: Socket, ops: seq<Op>)
    requires Conserved(s) && s.shared && AllPossible(s, ops) && AllCareful(s, ops)
    ensures Conserved(Run(s, ops))
    decreases |ops|
  {
    if ops != [] {
      CarefulIsFaithful(s, ops[0]);
      StepConservesIff(s, ops[0]);
      RunConserves(Step(s, ops[0]), ops[1..]);
    }
  }

  lemma CarefulIsFaithful(s: Socket, op: Op)
    requires Valid(s) && s.shared && Possible(s, op) && Careful(s, op)
    ensures Faithful(s, op)
  {
    if op.Receive? {
      forall a | op.dst <= a < op.dst + Taken(s, op.size) && InFlight(Received(s.queue, op.size), a)
        ensures InFlight(s.queue, a)
      {
        StillInFlight(s.queue, op.size, a);
      }
    }
  }

  lemma StillInFlight(q: seq<Message>, size: nat, a: int)
    requires q != [] && InFlight(Received(q, size), a)
    ensures InFlight(q, a)
  {
    var q' := Received(q, size);
    var i :| 0 <= i < |q'| && Within(q'[i], a);
    if size < q[0].size {
      assert i > 0 ==> q'[i] == q[i];
      assert Within(q[i], a);
    } else {
      assert q'[i] == q[i + 1];
    }
  }

  // ----- Two processes -----

  /** One byte, 7, sent and received by two processes that nobody disturbs: the receiver reads its own byte. */
  lemma OwnByteReceived()
    ensures var s := Socket([7, 0], [0, 0], false, [], [], []);
            var s1 := Step(s, Send(0, 1));
            && Conserved(s) && Conserved(s1) && Possible(s1, Receive(1, 1)) && !Faithful(s1, Receive(1, 1))
            && Step(s1, Receive(1, 1)).sent == [7] && Step(s1, Receive(1, 1)).received == [0]
  {
    var s := Socket([7, 0], [0, 0], false, [], [], []);
    StepConservesIff(s, Send(0, 1));
    var s1 := Step(s, Send(0, 1));
    assert s1.queue == [Message(0, 1)] && s1.sent == [7];
    assert s1.receiver[0] != s1.sender[0];
    assert Copied(s1, 1) == [0];
  }

  // ----- In place -----

  class LocalSocket {
    const sender: array<byte>
    const receiver: array<byte>
    var messages: seq<Message>

    /** The two memories are one array for threads of one process. */
    constructor (sender: array<byte>, receiver: array<byte>)
      ensures this.sender == sender && this.receiver == receiver && messages == []
    {
      this.sender, this.receiver, messages := sender, receiver, [];
    }

    /** `local_socket_send` to this socket's queue. */
    method Send(at: nat, size: nat)
      modifies `messages
      ensures messages == Sent(old(messages), at, size)
    {
      messages := messages + [Message(at, size)];
    }

    /** `local_socket_recv` once there is a message; `memcpy` demands that source and buffer do not overlap. */
    method Receive(dst: nat, size: nat) returns (n: nat)
      requires messages != [] && Placed(receiver.Length, messages)
      requires dst + Min(size, messages[0].size) <= receiver.Length
      requires dst + Min(size, messages[0].size) <= messages[0].at
              || messages[0].at + Min(size, messages[0].size) <= dst
      modifies this`messages, receiver
      ensures n == Min(size, old(messages)[0].size) && messages == Received(old(messages), size)
      ensures receiver[..]
              == Splice(old(receiver[..]), dst, old(receiver[..])[old(messages)[0].at..old(messages)[0].at + n])
      ensures sender != receiver ==> sender[..] == old(sender[..])
    {
      var m := messages[0];
      n := if size < m.size then size else m.size;
      messages := messages[1..];
      Copy(dst, m.at, n);
      if size < m.size {
        messages := [Message(m.at + size, m.size - size)] + messages;
      }
    }

    method Copy(dst: nat, at: nat, n: nat)
      requires at + n <= receiver.Length && dst + n <= receiver.Length && (dst + n <= at || at + n <= dst)
      modifies receiver
      ensures receiver[..] == Splice(old(receiver[..]), dst, old(receiver[..])[at..at + n])
    {
      ghost var was := receiver[..];
      for i := 0 to n
        invariant receiver[..] == Splice(was, dst, was[at..at + i])
      {
        SpliceStep(was, dst, at, i);
        assert receiver[..][at + i] == was[at + i];
        receiver[dst + i] := receiver[at + i];
      }
    }
  }

  lemma SpliceStep(was: seq<byte>, dst: nat, at: nat, i: nat)
    requires dst + i < |was| && at + i < |was|
    ensures var s := Splice(was, dst, was[at..at + i]);
            && Splice(was, dst, was[at..at + i + 1]) == s[dst + i := was[at + i]]
            && forall a :: 0 <= a < |was| && !(dst <= a < dst + i) ==> s[a] == was[a]
  {
  }
}
