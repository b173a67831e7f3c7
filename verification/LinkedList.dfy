/**
 The doubly linked list of lib/list.c, refined to a sequence: the task list, the area
 lists, the socket queues and the free PIDs are such lists.
 */
module LinkedList {
  import opened Common

  class Node {
    var value: int
    var prev: Node?
    var next: Node?

    constructor (value: int)
      ensures this.value == value && prev == null && next == null
    {
      this.value, prev, next := value, null, null;
    }
  }

  /** Node `i` of the chain, or null on either side of it. */
  function At(nodes: seq<Node>, i: int): Node? {
    if 0 <= i < |nodes| then nodes[i] else null
  }

  lemma OneNode(nodes: seq<Node>, i: nat, k: int)
    requires Distinct(nodes) && i < |nodes|
    ensures nodes[i] == At(nodes, k) <==> i == k
  {
    if 0 <= k < |nodes| {
      OnePlace(nodes, i, k);
    }
  }

  ghost predicate InPlace(nodes: seq<Node>, i: nat)
    reads nodes
    requires i < |nodes|
  {
    nodes[i].prev == At(nodes, i - 1) && nodes[i].next == At(nodes, i + 1)
  }

  ghost predicate Chained(nodes: seq<Node>)
    reads nodes
  {
    forall i: nat :: i < |nodes| ==> InPlace(nodes, i)
  }

  ghost function ValuesOf(nodes: seq<Node>): (s: seq<int>)
    reads nodes
    ensures |s| == |nodes|
  {
    seq(|nodes|, i requires 0 <= i < |nodes| reads nodes => nodes[i].value)
  }

  lemma SpliceDistinct(s: seq<Node>, p: int, q: int, entry: Node, t: seq<Node>)
    requires Distinct(s) && entry !in s && -1 <= p < q <= |s| && t == s[..p + 1] + [entry] + s[q..]
    ensures Distinct(t)
    ensures forall i {:trigger t[i]} :: 0 <= i < |t| ==>
            t[i] == if i <= p then s[i] else if i == p + 1 then entry else s[i - (p + 2) + q]
  {
    forall i: nat, j: nat | i < j < |t|
      ensures Differ(t, i, j)
    {
      var i', j' := if i <= p then i else i - (p + 2) + q, if j <= p then j else j - (p + 2) + q;
      if i != p + 1 && j != p + 1 {
        assert Differ(s, i', j');
      }
    }
  }

  /** The links of old node `i` after an insertion between `p` and `q`. */
  ghost predicate Relinked(s: seq<Node>, i: nat, p: int, q: int, entry: Node)
    reads s
    requires i < |s|
  {
    s[i].prev == (if i == q then entry else At(s, i - 1)) && s[i].next == (if i == p then entry else At(s, i + 1))
  }

  lemma SpliceChained(s: seq<Node>, p: int, q: int, entry: Node, t: seq<Node>)
    requires -1 <= p < q <= |s| && |t| == p + 2 + |s| - q
    requires forall i {:trigger t[i]} :: 0 <= i < |t| ==>
            t[i] == if i <= p then s[i] else if i == p + 1 then entry else s[i - (p + 2) + q]
    requires entry.prev == At(s, p) && entry.next == At(s, q)
    requires forall i: nat :: i < |s| ==>
            Relinked(s, i, p, q, entry)
    ensures Chained(t)
  {
    forall i: nat | i < |t|
      ensures InPlace(t, i)
    {
      assert At(t, i) == t[i];
      if i <= p {
        assert Relinked(s, i, p, q, entry);
        assert At(t, i - 1) == At(s, i - 1) && At(t, i + 1) == if i == p then entry else At(s, i + 1);
      } else if i > p + 1 {
        var j := i - (p + 2) + q;
        assert Relinked(s, j, p, q, entry);
        assert At(t, i - 1) == (if j == q then entry else At(s, j - 1)) && At(t, i + 1) == At(s, j + 1);
      } else {
        assert At(t, i - 1) == At(s, p) && At(t, i + 1) == At(s, q);
      }
    }
  }

  /** Dropping node `i` drops value `i`. */
  lemma DropValues(s: seq<Node>, i: nat, t: seq<Node>, was: seq<int>)
    requires i < |s| == |was| && t == s[..i] + s[i + 1..] && forall j :: 0 <= j < |s| ==> s[j].value == was[j]
    ensures ValuesOf(t) == was[..i] + was[i + 1..]
  {
    var now := was[..i] + was[i + 1..];
    forall j | 0 <= j < |t|
      ensures ValuesOf(t)[j] == now[j]
    {
      assert t[j] == if j < i then s[j] else s[j + 1];
    }
  }

  lemma SpliceValues(s: seq<Node>, p: int, q: int, entry: Node, t: seq<Node>, was: seq<int>)
    requires -1 <= p < q <= |s| == |was| && t == s[..p + 1] + [entry] + s[q..]
    requires forall j :: 0 <= j < |s| ==> s[j].value == was[j]
    ensures ValuesOf(t) == was[..p + 1] + [entry.value] + was[q..]
  {
    var now := was[..p + 1] + [entry.value] + was[q..];
    forall j | 0 <= j < |t|
      ensures ValuesOf(t)[j] == now[j]
    {
      assert t[j] == if j <= p then s[j] else if j == p + 1 then entry else s[j - (p + 2) + q];
    }
  }

  /** The links of the other node `j` after node `i` is gone. */
  ghost predicate Closed(s: seq<Node>, j: nat, i: nat)
    reads s
    requires j < |s| && i < |s|
  {
    s[j].prev == (if j == i + 1 then At(s, i - 1) else At(s, j - 1))
         && s[j].next == (if j == i - 1 then At(s, i + 1) else At(s, j + 1))
  }

  lemma DropChained(s: seq<Node>, i: nat, t: seq<Node>)
    requires i < |s| && |t| == |s| - 1
    requires forall j {:trigger t[j]} :: 0 <= j < |t| ==>
            t[j] == if j < i then s[j] else s[j + 1]
    requires forall j: nat :: j < |s| && j != i ==> Closed(s, j, i)
    ensures Chained(t)
  {
    forall j: nat | j < |t|
      ensures InPlace(t, j)
    {
      var k := if j < i then j else j + 1;
      assert Closed(s, k, i) && At(t, j) == s[k];
      assert At(t, j - 1) == (if k == i + 1 then At(s, i - 1) else At(s, k - 1))
           && At(t, j + 1) == (if k == i - 1 then At(s, i + 1) else At(s, k + 1));
    }
  }

  /** The chain after node `i` is gone from it. */
  lemma Dropped(s: seq<Node>, i: nat, t: seq<Node>, was: seq<int>)
    requires Distinct(s) && i < |s| == |was| && t == s[..i] + s[i + 1..]
    requires forall j :: 0 <= j < |s| ==> s[j].value == was[j]
    requires forall j: nat :: j < |s| && j != i ==> Closed(s, j, i)
    ensures Distinct(t) && Chained(t) && ValuesOf(t) == was[..i] + was[i + 1..]
    ensures At(t, 0) == if i == 0 then At(s, 1) else At(s, 0)
    ensures At(t, |t| - 1) == if i == |s| - 1 then At(s, i - 1) else At(s, |s| - 1)
  {
    DistinctDrop(s, i, t);
    DropChained(s, i, t);
    DropValues(s, i, t, was);
  }

  class List {
    var first: Node?
    var last: Node?
    var length: int
    ghost var nodes: seq<Node>

    ghost predicate Valid()
      reads this, nodes
    {
      Distinct(nodes) && Chained(nodes) && first == At(nodes, 0) && last == At(nodes, |nodes| - 1)
    }

    /** The length field counts the nodes; kept by every operation except one kind of insertion. */
    ghost predicate Counted()
      reads this
    {
      length == |nodes|
    }

    ghost function Values(): seq<int>
      reads this, nodes
    {
      ValuesOf(nodes)
    }

    /** `list_create` and `list_init` */
    constructor ()
      ensures Valid() && Counted() && nodes == []
    {
      first, last, length, nodes := null, null, 0, [];
    }

    /** The pointer writes of `list_insert`. */
    method Link(prev: Node?, next: Node?, entry: Node)
      requires entry !in nodes && (prev == null || prev in nodes) && (next == null || next in nodes)
      modifies this, entry, nodes
      ensures nodes == old(nodes) && length == old(length) + 1
      ensures first == (if prev == null then entry else old(first))
      ensures last == (if next == null then entry else old(last))
      ensures entry.prev == prev && entry.next == next && entry.value == old(entry.value)
      ensures forall n :: n in nodes ==> && n.prev == (if n == next then entry else old(n.prev))
                                         && n.next == (if n == prev then entry else old(n.next))
                                              && n.value == old(n.value)
    {
      entry.prev := prev;
      entry.next := next;
      if next != null {
        next.prev := entry;
      } else {
        last := entry;
      }
      if prev != null {
        prev.next := entry;
      } else {
        first := entry;
      }
      length := length + 1;
    }

    /** `list_insert`: the entry goes between nodes `p` and `q`, and whatever stood between them
        leaves the list; the length counts the entry all the same. */
    method Insert(prev: Node?, next: Node?, entry: Node, ghost p: int, ghost q: int)
      requires Valid() && entry !in nodes && -1 <= p < q <= |nodes| && prev == At(nodes, p) && next == At(nodes, q)
      modifies this, entry, nodes
      ensures Valid() && nodes == old(nodes)[..p + 1] + [entry] + old(nodes)[q..]
      ensures entry.value == old(entry.value) && forall n :: n in old(nodes) ==> n.value == old(n.value)
      ensures length == old(length) + 1 && (old(Counted()) ==> (Counted() <==> q == p + 1))
    {
      Link(prev, next, entry);
      nodes := nodes[..p + 1] + [entry] + nodes[q..];
      SpliceDistinct(old(nodes), p, q, entry, nodes);
      forall i: nat | i < |old(nodes)|
        ensures Relinked(old(nodes), i, p, q, entry)
      {
        assert old(InPlace(nodes, i));
        OneNode(old(nodes), i, p);
        OneNode(old(nodes), i, q);
      }
      SpliceChained(old(nodes), p, q, entry, nodes);
    }

    method InsertValue(prev: Node?, next: Node?, value: int, ghost p: int, ghost q: int) returns (entry: Node)
      requires Valid() && -1 <= p < q <= |nodes| && prev == At(nodes, p) && next == At(nodes, q)
      modifies this, nodes
      ensures Valid() && fresh(entry) && nodes == old(nodes)[..p + 1] + [entry] + old(nodes)[q..]
      ensures Values() == old(Values())[..p + 1] + [value] + old(Values())[q..]
      ensures length == old(length) + 1 && (old(Counted()) ==> (Counted() <==> q == p + 1))
    {
      entry := new Node(value);
      Insert(prev, next, entry, p, q);
      SpliceValues(old(nodes), p, q, entry, nodes, old(Values()));
    }

    /** The pointer writes of `list_remove`. */
    method Unlink(entry: Node)
      requires entry in nodes && entry.prev != entry && entry.next != entry
      requires (entry.prev == null || entry.prev in nodes) && (entry.next == null || entry.next in nodes)
      modifies this, nodes
      ensures nodes == old(nodes) && length == old(length) - 1
      ensures first == (if old(entry.prev) == null then old(entry.next) else old(first))
      ensures last == (if old(entry.next) == null then old(entry.prev) else old(last))
      ensures forall n :: n in nodes ==> && n.prev == (if n == old(entry.next) then old(entry.prev) else old(n.prev))
                                         && n.next == (if n == old(entry.prev) then old(entry.next) else old(n.next))
                                              && n.value == old(n.value)
    {
      if entry.prev == null {
        first := entry.next;
        if entry.next != null {
          entry.next.prev := null;
        }
      } else {
        entry.prev.next := entry.next;
        if entry.next != null {
          entry.next.prev := entry.prev;
        }
      }
      if entry.next == null {
        last := entry.prev;
      }
      length := length - 1;
    }

    /** The neighbours of node `i` close up around it. */
    method Detach(entry: Node, ghost i: nat)
      requires Valid() && i < |nodes| && nodes[i] == entry
      modifies this, nodes
      ensures nodes == old(nodes) && length == old(length) - 1
      ensures first == (if i == 0 then At(nodes, 1) else At(nodes, 0))
      ensures last == (if i == |nodes| - 1 then At(nodes, i - 1) else At(nodes, |nodes| - 1))
      ensures forall j: nat :: j < |nodes| && j != i ==> Closed(nodes, j, i)
      ensures entry.prev == old(entry.prev) && entry.next == old(entry.next)
      ensures forall j :: 0 <= j < |nodes| ==> nodes[j].value == old(nodes[j].value)
    {
      assert InPlace(nodes, i);
      OneNode(nodes, i, i - 1);
      OneNode(nodes, i, i + 1);
      Unlink(entry);
      forall j: nat | j < |nodes| && j != i
        ensures Closed(nodes, j, i)
      {
        assert old(InPlace(nodes, j));
        OneNode(nodes, j, i - 1);
        OneNode(nodes, j, i + 1);
      }
    }

    /** `list_remove` of node `i`; the removed node keeps its own links. */
    method Remove(entry: Node, ghost i: nat)
      requires Valid() && i < |nodes| && nodes[i] == entry
      modifies this, nodes
      ensures Valid() && nodes == old(nodes)[..i] + old(nodes)[i + 1..]
      ensures forall j :: 0 <= j < |old(nodes)| ==> old(nodes)[j].value == old(nodes[j].value)
      ensures entry.prev == old(entry.prev) && entry.next == old(entry.next)
      ensures Values() == old(Values())[..i] + old(Values())[i + 1..]
      ensures length == old(length) - 1 && (old(Counted()) ==> Counted())
    {
      Detach(entry, i);
      nodes := nodes[..i] + nodes[i + 1..];
      Dropped(old(nodes), i, nodes, old(Values()));
    }

    method Push(value: int) returns (entry: Node)
      requires Valid()
      modifies this, nodes
      ensures Valid() && fresh(entry) && nodes == old(nodes) + [entry] && Values() == old(Values()) + [value]
      ensures length == old(length) + 1
    {
      entry := InsertValue(last, null, value, |nodes| - 1, |nodes|);
    }

    method PushFront(value: int) returns (entry: Node)
      requires Valid()
      modifies this, nodes
      ensures Valid() && fresh(entry) && nodes == [entry] + old(nodes) && Values() == [value] + old(Values())
      ensures length == old(length) + 1
    {
      entry := InsertValue(null, first, value, -1, 0);
    }

    method Pop() returns (entry: Node?)
      requires Valid()
      modifies this, nodes
      ensures Valid() && entry == At(old(nodes), |old(nodes)| - 1)
      ensures old(nodes) == [] ==> nodes == [] && length == old(length)
      ensures old(nodes) != [] ==>
              entry.value == old(Values())[|old(nodes)| - 1] && Values() == old(Values())[..|old(nodes)| - 1]
                   && length == old(length) - 1
    {
      if last == null {
        return null;
      }
      entry := last;
      Remove(last, |nodes| - 1);
    }

    method PopFront() returns (entry: Node?)
      requires Valid()
      modifies this, nodes
      ensures Valid() && entry == At(old(nodes), 0)
      ensures old(nodes) == [] ==> nodes == [] && length == old(length)
      ensures old(nodes) != [] ==>
              entry.value == old(Values())[0] && Values() == old(Values())[1..] && length == old(length) - 1
    {
      if first == null {
        return null;
      }
      entry := first;
      Remove(first, 0);
    }
  }

  /** Walking `next` pointers from node `i` for `k` steps reaches node `i + k`, then null. */
  ghost function Walk(nodes: seq<Node>, n: Node?, k: nat): Node?
    reads nodes
  {
    if k == 0 || n == null || n !in nodes then n else Walk(nodes, n.next, k - 1)
  }

  lemma {:induction false} WalkVisits(nodes: seq<Node>, i: nat, k: nat)
    requires Distinct(nodes) && Chained(nodes) && i <= |nodes|
    ensures Walk(nodes, At(nodes, i), k) == At(nodes, i + k)
    decreases k
  {
    if k > 0 && i < |nodes| {
      assert InPlace(nodes, i);
      WalkVisits(nodes, i + 1, k - 1);
    }
  }
}
