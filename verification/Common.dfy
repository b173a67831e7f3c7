/** Small notions that several components share. */
module Common {
  import opened Words

  datatype Option<T> = None | Some(value: T)

  function Min(a: int, b: int): int {
    if a < b then a else b
  }

  ghost predicate Differ<T>(s: seq<T>, i: nat, j: nat)
    requires i < |s| && j < |s|
  {
    s[i] != s[j]
  }

  /** Nothing is in `s` twice. */
  ghost predicate Distinct<T>(s: seq<T>) {
    forall i: nat, j: nat {:trigger Differ(s, i, j)} :: i < j < |s| ==> Differ(s, i, j)
  }

  lemma OnePlace<T>(s: seq<T>, i: nat, k: nat)
    requires Distinct(s) && i < |s| && k < |s|
    ensures s[i] == s[k] <==> i == k
  {
    if i != k {
      assert if i < k then Differ(s, i, k) else Differ(s, k, i);
    }
  }

  lemma DistinctAdd<T>(s: seq<T>, x: T)
    requires Distinct(s) && x !in s
    ensures Distinct(s + [x])
  {
    forall i: nat, j: nat | i < j < |s + [x]|
      ensures Differ(s + [x], i, j)
    {
      assert j < |s| ==> Differ(s, i, j);
    }
  }

  lemma DistinctDrop<T>(s: seq<T>, i: nat, t: seq<T>)
    requires Distinct(s) && i < |s| && t == s[..i] + s[i + 1..]
    ensures Distinct(t) && s[i] !in t
    ensures forall j {:trigger t[j]} :: 0 <= j < |t| ==> t[j] == if j < i then s[j] else s[j + 1]
  {
    forall k: nat, l: nat | k < l < |t|
      ensures Differ(t, k, l)
    {
      assert Differ(s, if k < i then k else k + 1, if l < i then l else l + 1);
    }
    forall k | 0 <= k < |t|
      ensures t[k] != s[i]
    {
      OnePlace(s, if k < i then k else k + 1, i);
    }
  }

  // ----- Byte strings -----

  /** `was` with `data` written over it at `at`. */
  function Splice(was: seq<byte>, at: nat, data: seq<byte>): (r: seq<byte>)
    requires at + |data| <= |was|
    ensures |r| == |was|
  {
    was[..at] + data + was[at + |data|..]
  }

  lemma SpliceNothing(was: seq<byte>, at: nat)
    requires at <= |was|
    ensures was == Splice(was, at, [])
  {
  }

  lemma SpliceFront(was: seq<byte>, data: seq<byte>, now: seq<byte>)
    requires |data| <= |was| && now == Splice(was, 0, data)
    ensures now[..|data|] == data && now[|data|..] == was[|data|..]
  {
  }

  lemma SpliceTwice(was: seq<byte>, at: nat, d1: seq<byte>, to: nat, d2: seq<byte>)
    requires to == at + |d1| && to + |d2| <= |was|
    ensures Splice(Splice(was, at, d1), to, d2) == Splice(was, at, d1 + d2)
  {
  }

  /** Writing `d2` behind `d1` writes both. */
  lemma SpliceBehind(was: seq<byte>, at: nat, d1: seq<byte>, mid: seq<byte>, to: nat, d2: seq<byte>, now: seq<byte>,
                     both: seq<byte>)
    requires to == at + |d1| && to + |d2| <= |was| && both == d1 + d2
    requires mid == Splice(was, at, d1) && now == Splice(mid, to, d2)
    ensures now == Splice(was, at, both)
  {
    SpliceTwice(was, at, d1, to, d2);
  }

  /** The bytes from `from` on, `n` of them or as many as there are. */
  function Slice(s: seq<byte>, from: nat, n: nat): (r: seq<byte>)
    ensures |r| == if from <= |s| then Min(n, |s| - from) else 0
    decreases n
  {
    if n == 0 || from >= |s| then [] else [s[from]] + Slice(s, from + 1, n - 1)
  }

  lemma {:induction false} SliceIs(s: seq<byte>, from: nat, n: nat)
    requires from + n <= |s|
    ensures Slice(s, from, n) == s[from..from + n]
    decreases n
  {
    if n > 0 {
      SliceIs(s, from + 1, n - 1);
      assert s[from..from + n] == [s[from]] + s[from + 1..from + n];
    }
  }

  lemma {:induction false} SliceNone(s: seq<byte>, from: nat, n: nat)
    requires n == 0 || |s| <= from
    ensures Slice(s, from, n) == []
  {
  }

  /** Two reads in a row are one. */
  lemma {:induction false} SliceTwice(s: seq<byte>, from: nat, a: nat, mid: nat, b: nat, n: nat)
    requires mid == from + a <= |s| && n == a + b
    ensures Slice(s, from, a) + Slice(s, mid, b) == Slice(s, from, n)
    decreases a
  {
    if a > 0 {
      SliceTwice(s, from + 1, a - 1, mid, b, n - 1);
      Regroup([s[from]], Slice(s, from + 1, a - 1), Slice(s, mid, b));
    }
  }

  /** Behind `a`, reading `a + b` is reading `b`. */
  lemma {:induction false} SliceBeyond(ab: seq<byte>, a: seq<byte>, b: seq<byte>, from: nat, o: nat, n: nat)
    requires ab == a + b && from == |a| + o
    ensures Slice(ab, from, n) == Slice(b, o, n)
    decreases n
  {
    if n > 0 && from < |ab| {
      SliceBeyond(ab, a, b, from + 1, o + 1, n - 1);
    }
  }

  /** Reading `a + b` from inside `a`: first what `a` has, then from the start of `b`. */
  lemma {:induction false} SliceAcross(ab: seq<byte>, a: seq<byte>, b: seq<byte>, from: nat, n: nat, m: nat, k: nat)
    requires ab == a + b && from <= |a| && m == Min(n, |a| - from) && k == n - m
    ensures Slice(ab, from, n) == Slice(a, from, m) + Slice(b, 0, k)
    decreases n
  {
    if from == |a| {
      SliceBeyond(ab, a, b, from, 0, n);
    } else if n > 0 {
      SliceAcross(ab, a, b, from + 1, n - 1, m - 1, k);
      Regroup([a[from]], Slice(a, from + 1, m - 1), Slice(b, 0, k));
    }
  }

  /** Bytes that agree from the start agree from `o` on. */
  lemma {:induction false} SliceAgree(a: seq<byte>, b: seq<byte>, o: nat, n: nat, k: nat)
    requires k == o + n && Slice(a, 0, k) == Slice(b, 0, k)
    ensures Slice(a, o, n) == Slice(b, o, n)
  {
    if o <= |a| && o <= |b| {
      SliceTwice(a, 0, o, o, n, k);
      SliceTwice(b, 0, o, o, n, k);
      SameTails(Slice(a, 0, o), Slice(a, o, n), Slice(b, 0, o), Slice(b, o, n));
    } else {
      SliceNone(a, o, n);
      SliceNone(b, o, n);
    }
  }

  lemma SameTails(a: seq<byte>, b: seq<byte>, c: seq<byte>, d: seq<byte>)
    requires a + b == c + d && |a| == |c|
    ensures b == d
  {
    assert (a + b)[|a|..] == b && (c + d)[|c|..] == d;
  }

  /** Moving what `a` still has from the bytes ahead to the bytes read. */
  lemma ReadAhead(got: seq<byte>, ab: seq<byte>, a: seq<byte>, b: seq<byte>, from: nat, n: nat, m: nat)
    requires ab == a + b && from <= |a| && m == Min(n, |a| - from)
    ensures got + Slice(ab, from, n) == got + a[from..from + m] + Slice(b, 0, n - m)
  {
    SliceAcross(ab, a, b, from, n, m, n - m);
    SliceIs(a, from, m);
    Regroup(got, a[from..from + m], Slice(b, 0, n - m));
  }

  lemma Regroup(a: seq<byte>, b: seq<byte>, c: seq<byte>)
    ensures a + b + c == a + (b + c)
  {
  }
}
