/** The ring buffer of lib/ringbuffer.c and include/depthos/ringbuffer.h, refined to a queue. */
module RingBuffers {

  /** Slot `i` after `r`, for `r` and `i` no larger than the number of slots. */
  function Slot(max: nat, r: nat, i: nat): int {
    if r + i < max then r + i else r + i - max
  }

  // ----- The buffer as a value -----

  datatype Ring<T> = Ring(slots: seq<T>, readIdx: nat, writeIdx: nat, size: nat)

  /** Indices and size in their ranges: true of every state the operations can lead to. */
  predicate Shaped<T>(r: Ring<T>) {
    r.readIdx < |r.slots| && r.writeIdx < |r.slots| && r.size <= |r.slots|
  }

  /** The write index is where the contents end. */
  predicate Consistent<T>(r: Ring<T>) {
    Shaped(r) && r.writeIdx == Slot(|r.slots|, r.readIdx, r.size)
  }

  /** The first `k` elements a reader gets. */
  function Front<T>(r: Ring<T>, k: nat): (s: seq<T>)
    requires Shaped(r) && k <= |r.slots|
    ensures |s| == k
  {
    seq(k, i requires 0 <= i < k => r.slots[Slot(|r.slots|, r.readIdx, i)])
  }

  function Queue<T>(r: Ring<T>): (s: seq<T>)
    requires Shaped(r)
    ensures |s| == r.size
  {
    Front(r, r.size)
  }

  /** `ringbuffer_push`: a full buffer wraps its size to 0. */
  function Pushed<T>(r: Ring<T>, v: T): (r': Ring<T>)
    requires Shaped(r)
    ensures Shaped(r') && |r'.slots| == |r.slots|
  {
    Ring(r.slots[r.writeIdx := v], r.readIdx, if r.writeIdx + 1 == |r.slots| then 0 else r.writeIdx + 1,
         if r.size == |r.slots| then 0 else r.size + 1)
  }

  function PushedAll<T>(r: Ring<T>, vs: seq<T>): (r': Ring<T>)
    requires Shaped(r)
    ensures Shaped(r') && |r'.slots| == |r.slots|
    decreases |vs|
  {
    if vs == [] then r else PushedAll(Pushed(r, vs[0]), vs[1..])
  }

  /** `ringbuffer_pop`, `k` times. */
  function Popped<T>(r: Ring<T>, k: nat): (r': Ring<T>)
    requires Shaped(r) && k <= r.size
    ensures Shaped(r')
  {
    r.(readIdx := Slot(|r.slots|, r.readIdx, k), size := r.size - k)
  }

  lemma PushAppends<T>(r: Ring<T>, v: T)
    requires Consistent(r) && r.size < |r.slots|
    ensures Consistent(Pushed(r, v)) && Queue(Pushed(r, v)) == Queue(r) + [v]
  {
  }

  /** A push on a full buffer empties it, and leaves the indices apart unless there is one slot only. */
  lemma PushOnFull<T>(r: Ring<T>, v: T)
    requires Consistent(r) && r.size == |r.slots|
    ensures Pushed(r, v).size == 0 && (Consistent(Pushed(r, v)) <==> |r.slots| == 1)
  {
  }

  /** Pushes that fit append; others make the size say less than was pushed. */
  lemma {:induction false} PushedAllIff<T>(r: Ring<T>, vs: seq<T>)
    requires Consistent(r)
    ensures r.size + |vs| <= |r.slots| ==>
              Consistent(PushedAll(r, vs)) && Queue(PushedAll(r, vs)) == Queue(r) + vs
    ensures PushedAll(r, vs).size == r.size + |vs| <==> r.size + |vs| <= |r.slots|
    decreases |vs|
  {
    if vs != [] && r.size + |vs| <= |r.slots| {
      PushAppends(r, vs[0]);
      PushedAllIff(Pushed(r, vs[0]), vs[1..]);
      assert Queue(r) + vs == Queue(r) + [vs[0]] + vs[1..];
    } else if vs == [] {
      assert Queue(r) + vs == Queue(r);
    }
  }

  lemma PopTakes<T>(r: Ring<T>, k: nat)
    requires Consistent(r) && k <= r.size
    ensures Consistent(Popped(r, k)) && Queue(r) == Front(r, k) + Queue(Popped(r, k))
  {
  }

  // ----- In place -----

  class RingBuffer<T(0)> {
    const data: array<T>
    const maxSize: nat
    var readIdx: nat
    var writeIdx: nat
    var size: nat

    ghost function State(): Ring<T>
      reads this, data
    {
      Ring(data[..], readIdx, writeIdx, size)
    }

    ghost predicate Valid()
      reads this, data
    {
      maxSize == data.Length && Shaped(State())
    }

    /** `ringbuffer_create` and `ringbuffer_init` */
    constructor (maxSize: nat)
      requires 0 < maxSize
      ensures Valid() && fresh(data) && this.maxSize == maxSize && Consistent(State()) && Queue(State()) == []
    {
      this.maxSize := maxSize;
      data := new T[maxSize];
      readIdx, writeIdx, size := 0, 0, 0;
    }

    method Push(v: T)
      requires Valid()
      modifies this`writeIdx, this`size, data
      ensures Valid() && State() == Pushed(old(State()), v)
    {
      data[writeIdx] := v;
      writeIdx := writeIdx + 1;
      writeIdx := if writeIdx == maxSize then 0 else writeIdx;
      size := if size == maxSize then 0 else size + 1;
    }

    /** `ringbuffer_pushn` */
    method PushN(vs: seq<T>)
      requires Valid()
      modifies this`writeIdx, this`size, data
      ensures Valid() && State() == PushedAll(old(State()), vs)
    {
      var i := 0;
      ghost var all := PushedAll(State(), vs);
      assert vs[0..] == vs;
      while i < |vs|
        invariant i <= |vs| && Valid() && all == PushedAll(State(), vs[i..])
      {
        Push(vs[i]);
        assert vs[i..][0] == vs[i] && vs[i..][1..] == vs[i + 1..];
        i := i + 1;
      }
    }

    /** `ringbuffer_pop` of a buffer that is not empty; an empty one is left alone. */
    method Pop() returns (ok: bool, v: T)
      requires Valid()
      modifies this`readIdx, this`size
      ensures Valid() && ok == (old(size) > 0)
      ensures ok ==> v == old(Queue(State()))[0] && State() == Popped(old(State()), 1)
      ensures !ok ==> State() == old(State())
    {
      v := data[readIdx];
      if size == 0 {
        return false, v;
      }
      readIdx := if readIdx + 1 == maxSize then 0 else readIdx + 1;
      size := size - 1;
      ok := true;
    }
  }
}
