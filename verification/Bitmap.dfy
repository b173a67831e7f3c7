/**
 The byte-packed bitmap of lib/bitmap.c.  `Bits` is what it means: one boolean per
 index.  The scan is specified by the run it finds, the flip by the positions it
 touches, with the 32-bit wrap-around of the indices written out.
 */
module Bitmaps {
  import opened Words

  const EBITMAP := 1

  /** The mask of offset `k` in a byte: 1 shifted left `k` times. */
  function Mask(k: nat): bv8
    requires k < 8
  {
    if k == 0 then 1 else Mask(k - 1) << 1
  }

  lemma MaskTable(k: nat)
    requires k < 8
    ensures Mask(k) == (if k == 0 then 1 else if k == 1 then 2 else if k == 2 then 4 else if k == 3 then 8
                        else if k == 4 then 16 else if k == 5 then 32 else if k == 6 then 64 else 128)
  {
    if k > 0 {
      MaskTable(k - 1);
    }
  }

  predicate OneHot(m: bv8) {
    m != 0 && m & (m - 1) == 0
  }

  lemma MaskOneHot(k: nat, j: nat)
    requires k < 8 && j < 8
    ensures OneHot(Mask(k)) && (Mask(k) == Mask(j) ==> k == j)
  {
    MaskTable(k);
    MaskTable(j);
  }

  lemma OneHotOps(b: bv8, m: bv8, t: bv8)
    requires OneHot(m) && OneHot(t)
    ensures ((b | m) & t != 0) == (m == t || b & t != 0)
    ensures (b & !m & t != 0) == (m != t && b & t != 0)
    ensures ((b ^ m) & t != 0) == ((m == t) != (b & t != 0))
  {
  }

  predicate HasBit(b: bv8, k: nat)
    requires k < 8
  {
    b & Mask(k) != 0
  }

  function ByteBits(b: bv8): (r: seq<bool>)
    ensures |r| == 8
  {
    seq(8, k requires 0 <= k < 8 => HasBit(b, k))
  }

  /** Bytes that differ in bit `k` alone. */
  lemma BitsDiffer(b: bv8, c: bv8, k: nat, v: bool)
    requires k < 8 && forall j: nat :: j < 8 ==> HasBit(c, j) == if j == k then v else HasBit(b, j)
    ensures ByteBits(c) == ByteBits(b)[k := v]
  {
  }

  lemma ByteMarkAt(b: bv8, k: nat, j: nat)
    requires k < 8 && j < 8
    ensures HasBit(b | Mask(k), j) == (j == k || HasBit(b, j))
  {
    MaskOneHot(k, j);
    MaskOneHot(j, k);
    OneHotOps(b, Mask(k), Mask(j));
  }

  lemma ByteMark(b: bv8, k: nat, c: bv8)
    requires k < 8 && c == b | Mask(k)
    ensures ByteBits(c) == ByteBits(b)[k := true]
  {
    forall j: nat | j < 8
      ensures HasBit(c, j) == if j == k then true else HasBit(b, j)
    {
      ByteMarkAt(b, k, j);
    }
    BitsDiffer(b, c, k, true);
  }

  lemma ByteResetAt(b: bv8, k: nat, j: nat)
    requires k < 8 && j < 8
    ensures HasBit(b & !Mask(k), j) == (j != k && HasBit(b, j))
  {
    MaskOneHot(k, j);
    MaskOneHot(j, k);
    OneHotOps(b, Mask(k), Mask(j));
  }

  lemma ByteReset(b: bv8, k: nat, c: bv8)
    requires k < 8 && c == b & !Mask(k)
    ensures ByteBits(c) == ByteBits(b)[k := false]
  {
    forall j: nat | j < 8
      ensures HasBit(c, j) == if j == k then false else HasBit(b, j)
    {
      ByteResetAt(b, k, j);
    }
    BitsDiffer(b, c, k, false);
  }

  lemma ByteFlipAt(b: bv8, k: nat, j: nat)
    requires k < 8 && j < 8
    ensures HasBit(b ^ Mask(k), j) == ((j == k) != HasBit(b, j))
  {
    MaskOneHot(k, j);
    MaskOneHot(j, k);
    OneHotOps(b, Mask(k), Mask(j));
  }

  lemma ByteFlip(b: bv8, k: nat, c: bv8)
    requires k < 8 && c == b ^ Mask(k)
    ensures ByteBits(c) == ByteBits(b)[k := !HasBit(b, k)]
  {
    forall j: nat | j < 8
      ensures HasBit(c, j) == if j == k then !HasBit(b, k) else HasBit(b, j)
    {
      ByteFlipAt(b, k, j);
    }
    BitsDiffer(b, c, k, !HasBit(b, k));
  }

  // ----- What the operations mean, on sequences of booleans -----

  /** A test outside the bitmap reads 0. */
  predicate BitAt(b: seq<bool>, i: int) {
    0 <= i < |b| && b[i]
  }

  /** Whether index `j` is one of `idx, idx + 1, ..., idx + n - 1` in 32-bit arithmetic. */
  predicate InSpan(j: int, idx: u32, n: nat) {
    Wrap(j - idx) < n
  }

  lemma SpanStep(j: u32, idx: u32, i: u32)
    ensures InSpan(j, Wrap(idx + i), 1) <==> Wrap(j - idx) == i
  {
  }

  /** A span that does not reach the end of the numbers is an interval. */
  lemma SpanPlain(j: u32, r: nat, n: nat)
    requires r + n <= TWO32 && r < TWO32
    ensures Wrap(r) == r && (InSpan(j, r, n) <==> r <= j < r + n)
  {
  }

  function SetSpan(b: seq<bool>, idx: u32, n: nat, v: bool): (r: seq<bool>)
    ensures |r| == |b|
  {
    seq(|b|, j requires 0 <= j < |b| => if InSpan(j, idx, n) then v else b[j])
  }

  function FlipSpan(b: seq<bool>, idx: u32, n: nat): (r: seq<bool>)
    ensures |r| == |b|
  {
    seq(|b|, j requires 0 <= j < |b| => if InSpan(j, idx, n) then !b[j] else b[j])
  }

  lemma SetSpanStep(b: seq<bool>, idx: u32, i: u32, at: u32, v: bool)
    requires |b| < TWO32 && at == Wrap(idx + i)
    ensures SetSpan(SetSpan(b, idx, i, v), at, 1, v) == SetSpan(b, idx, i + 1, v)
  {
    var one, two := SetSpan(SetSpan(b, idx, i, v), at, 1, v), SetSpan(b, idx, i + 1, v);
    forall j | 0 <= j < |b|
      ensures one[j] == two[j]
    {
      SpanStep(j, idx, i);
    }
  }

  lemma FlipSpanStep(b: seq<bool>, idx: u32, i: u32, at: u32)
    requires |b| < TWO32 && at == Wrap(idx + i)
    ensures FlipSpan(FlipSpan(b, idx, i), at, 1) == FlipSpan(b, idx, i + 1)
  {
    var one, two := FlipSpan(FlipSpan(b, idx, i), at, 1), FlipSpan(b, idx, i + 1);
    forall j | 0 <= j < |b|
      ensures one[j] == two[j]
    {
      SpanStep(j, idx, i);
    }
  }

  /** The number of positions `bitmap_setmulti` visits. */
  function SetCount(size: nat, idx: u32, c: u32): nat {
    if Wrap(size - idx) < c then Wrap(size - idx) else c
  }

  /** The `n` bits from `q` on all equal `v`. */
  predicate IsRun(b: seq<bool>, n: nat, v: bool, q: int) {
    0 <= q && q + n <= |b| && forall k :: q <= k < q + n ==> b[k] == v
  }

  /** Reference definition of the scan: the least start of a run, or -EBITMAP. */
  function FirstRun(b: seq<bool>, n: nat, v: bool, from: nat := 0): (r: int)
    ensures r == -EBITMAP || (from <= r && IsRun(b, n, v, r))
    ensures forall q :: from <= q && (r == -EBITMAP || q < r) ==> n == 0 || !IsRun(b, n, v, q)
    ensures n == 0 ==> r == -EBITMAP
    decreases |b| - from
  {
    if n == 0 || from + n > |b| then -EBITMAP
    else if IsRun(b, n, v, from) then from
    else FirstRun(b, n, v, from + 1)
  }

  /** Both halves of the scan contract determine its result. */
  lemma FirstRunIs(b: seq<bool>, n: nat, v: bool, q: int)
    requires 0 < n && IsRun(b, n, v, q)
    requires forall p :: 0 <= p < q ==> !IsRun(b, n, v, p)
    ensures FirstRun(b, n, v) == q
  {
  }

  /** The state of the scan before index `i`: the last `rc` bits match and no run has ended yet. */
  ghost predicate Scanned(b: seq<bool>, n: nat, v: bool, i: nat, rc: nat) {
    && rc <= i <= |b|
    && (0 < n ==> rc < n)
    && (forall k :: i - rc <= k < i ==> b[k] == v)
    && (rc < i ==> b[i - rc - 1] != v)
    && (forall q :: 0 <= q && q + n <= i ==> n == 0 || !IsRun(b, n, v, q))
  }

  lemma ScanStep(b: seq<bool>, n: nat, v: bool, i: nat, rc: nat)
    requires Scanned(b, n, v, i, rc) && i < |b|
    ensures b[i] != v ==> Scanned(b, n, v, i + 1, 0)
    ensures b[i] == v && rc + 1 != n ==> Scanned(b, n, v, i + 1, rc + 1)
    ensures b[i] == v && rc + 1 == n ==> FirstRun(b, n, v) == i - rc
  {
    if b[i] == v && rc + 1 == n {
      assert IsRun(b, n, v, i - rc);
      FirstRunIs(b, n, v, i - rc);
    } else {
      forall q | 0 <= q && q + n <= i + 1
        ensures n == 0 || !IsRun(b, n, v, q)
      {
        if n != 0 && q + n == i + 1 {
          assert b[i] != v || (q <= i - rc - 1 < q + n && b[i - rc - 1] != v);
        }
      }
    }
  }

  /** The scan loop from index `i`, with the last `rc` bits matching. */
  function ScanFrom(b: seq<bool>, n: nat, v: bool, i: nat, rc: nat): int
    requires rc <= i <= |b|
    decreases |b| - i
  {
    if i == |b| then -EBITMAP
    else if b[i] != v then ScanFrom(b, n, v, i + 1, 0)
    else if rc + 1 == n then i - rc
    else ScanFrom(b, n, v, i + 1, rc + 1)
  }

  lemma {:induction false} ScanUnfolds(b: seq<bool>, n: nat, v: bool, i: nat, rc: nat)
    requires rc <= i < |b|
    ensures BitAt(b, i) != v ==> ScanFrom(b, n, v, i, rc) == ScanFrom(b, n, v, i + 1, 0)
    ensures BitAt(b, i) == v && rc + 1 == n ==> ScanFrom(b, n, v, i, rc) == i - rc
    ensures BitAt(b, i) == v && rc + 1 != n ==> ScanFrom(b, n, v, i, rc) == ScanFrom(b, n, v, i + 1, rc + 1)
  {
  }

  lemma {:induction false} ScanFindsFirstRun(b: seq<bool>, n: nat, v: bool, i: nat, rc: nat)
    requires Scanned(b, n, v, i, rc)
    ensures ScanFrom(b, n, v, i, rc) == FirstRun(b, n, v)
    decreases |b| - i
  {
    if i < |b| {
      ScanStep(b, n, v, i, rc);
      if b[i] != v {
        ScanFindsFirstRun(b, n, v, i + 1, 0);
      } else if rc + 1 != n {
        ScanFindsFirstRun(b, n, v, i + 1, rc + 1);
      }
    }
  }

  /** What `bitmap_scan_flip` leaves behind: the index of the scan, as `size_t`, drives the flips. */
  function ScanFlipped(b: seq<bool>, n: nat, v: bool): seq<bool> {
    FlipSpan(b, Wrap(FirstRun(b, n, v)), n)
  }

  /** With a run available, exactly that run is inverted. */
  lemma ScanFlipFound(b: seq<bool>, n: nat, v: bool)
    requires |b| < TWO32 && FirstRun(b, n, v) >= 0
    ensures var r := FirstRun(b, n, v);
            forall j :: 0 <= j < |b| ==> ScanFlipped(b, n, v)[j] == if r <= j < r + n then !v else b[j]
  {
    var r := FirstRun(b, n, v);
    forall j | 0 <= j < |b|
      ensures ScanFlipped(b, n, v)[j] == if r <= j < r + n then !v else b[j]
    {
      SpanPlain(j, r, n);
      assert r <= j < r + n ==> b[j] == v;
    }
  }

  /** Without one the scan's -1 survives the unsigned test and bits 0 .. n-2 are inverted instead. */
  lemma ScanFlipMissed(b: seq<bool>, n: u32, v: bool)
    requires |b| < TWO32 && FirstRun(b, n, v) < 0
    ensures forall j :: 0 <= j < |b| ==> ScanFlipped(b, n, v)[j] == if j + 1 < n then !b[j] else b[j]
  {
  }

  /**
   Scan-and-flip is safe -- it changes no bit outside the run it returns -- exactly when
   there is a run to return, or when at most one bit was asked for.
   */
  lemma ScanFlipSafeIff(b: seq<bool>, n: u32, v: bool)
    requires 0 < |b| < TWO32
    ensures var r := FirstRun(b, n, v);
            (forall j :: 0 <= j < |b| && ScanFlipped(b, n, v)[j] != b[j] ==> 0 <= r <= j < r + n)
            <==> (exists q :: 0 < n && IsRun(b, n, v, q)) || n <= 1
  {
    var r := FirstRun(b, n, v);
    if r >= 0 {
      ScanFlipFound(b, n, v);
      assert IsRun(b, n, v, r);
    } else {
      ScanFlipMissed(b, n, v);
      forall q | 0 < n
        ensures !IsRun(b, n, v, q)
      {
        assert 0 <= q ==> !IsRun(b, n, v, q);
      }
      assert n > 1 ==> ScanFlipped(b, n, v)[0] != b[0];
    }
  }

  /** With every bit set there is no run of clear ones. */
  lemma NoneFree(b: seq<bool>, n: nat)
    requires 0 < n && forall q :: 0 <= q < |b| ==> b[q]
    ensures FirstRun(b, n, false) < 0
  {
    forall q
      ensures !IsRun(b, n, false, q)
    {
      assert 0 <= q < |b| ==> b[q];
    }
  }

  /** The smallest case in which it is not: no bit is free, two are asked for, and the first comes back free. */
  lemma ScanFlipAstray()
    ensures FirstRun([true, true], 2, false) < 0 && ScanFlipped([true, true], 2, false) == [false, true]
  {
    NoneFree([true, true], 2);
    ScanFlipMissed([true, true], 2, false);
  }

  /** Setting a span back undoes a successful scan-and-flip. */
  lemma ScanFlipThenSet(b: seq<bool>, n: nat, v: bool)
    requires |b| < TWO32 && FirstRun(b, n, v) >= 0
    ensures var r := FirstRun(b, n, v);
            SetSpan(ScanFlipped(b, n, v), r, SetCount(|b|, r, n), v) == b
  {
    ScanFlipFound(b, n, v);
    var r := FirstRun(b, n, v);
    assert IsRun(b, n, v, r) && SetCount(|b|, r, n) == n;
    var c := SetSpan(ScanFlipped(b, n, v), r, n, v);
    forall j | 0 <= j < |b|
      ensures c[j] == b[j]
    {
      SpanPlain(j, r, n);
      assert r <= j < r + n ==> b[j] == v;
    }
  }

  // ----- The bitmap in memory -----

  function Rows(bytes: seq<bv8>): (r: seq<seq<bool>>)
    ensures |r| == |bytes| && forall k :: 0 <= k < |r| ==> r[k] == ByteBits(bytes[k])
  {
    seq(|bytes|, k requires 0 <= k < |bytes| => ByteBits(bytes[k]))
  }

  function Flatten(rows: seq<seq<bool>>, size: nat): (b: seq<bool>)
    requires size <= 8 * |rows| && forall k :: 0 <= k < |rows| ==> |rows[k]| == 8
    ensures |b| == size
  {
    seq(size, j requires 0 <= j < size => rows[j / 8][j % 8])
  }

  function Decode(bytes: seq<bv8>, size: nat): (b: seq<bool>)
    requires size <= 8 * |bytes|
    ensures |b| == size
  {
    Flatten(Rows(bytes), size)
  }

  lemma FlattenUpdate(rows: seq<seq<bool>>, size: nat, i: nat, v: bool)
    requires size <= 8 * |rows| && forall k :: 0 <= k < |rows| ==> |rows[k]| == 8
    requires i < size
    ensures Flatten(rows[i / 8 := rows[i / 8][i % 8 := v]], size) == Flatten(rows, size)[i := v]
  {
  }

  lemma SpanOfOne(b: seq<bool>, i: u32)
    requires |b| < TWO32
    ensures forall v :: SetSpan(b, i, 1, v) == if i < |b| then b[i := v] else b
    ensures FlipSpan(b, i, 1) == if i < |b| then b[i := !b[i]] else b
  {
  }

  lemma DecodeUpdate(bytes: seq<bv8>, size: nat, i: nat, b: bv8, v: bool)
    requires size <= 8 * |bytes| && i < size
    requires ByteBits(b) == ByteBits(bytes[i / 8])[i % 8 := v]
    ensures Decode(bytes[i / 8 := b], size) == Decode(bytes, size)[i := v]
  {
    assert Rows(bytes[i / 8 := b]) == Rows(bytes)[i / 8 := Rows(bytes)[i / 8][i % 8 := v]];
    FlattenUpdate(Rows(bytes), size, i, v);
  }

  class Bitmap {
    const bits: array<bv8>
    const size: nat

    ghost predicate Valid() {
      0 < size < TWO32 && bits.Length == (size - 1) / 8 + 1
    }

    ghost function Bits(): (b: seq<bool>)
      requires Valid()
      reads bits
      ensures |b| == size
    {
      Decode(bits[..], size)
    }

    /** Storage plus `bitmap_init`. */
    constructor (size: nat)
      requires 0 < size < TWO32
      ensures Valid() && this.size == size && fresh(bits)
      ensures forall j :: 0 <= j < size ==> !Bits()[j]
    {
      this.size := size;
      bits := new bv8[(size - 1) / 8 + 1](_ => 0);
    }

    function Test(i: u32): (r: bool)
      requires Valid()
      reads bits
      ensures r == BitAt(Bits(), i)
    {
      i < size && HasBit(bits[i / 8], i % 8)
    }

    method PutByte(i: nat, b: bv8, ghost v: bool)
      requires Valid() && i < size
      requires ByteBits(b) == ByteBits(bits[i / 8])[i % 8 := v]
      modifies bits
      ensures Bits() == old(Bits())[i := v]
    {
      DecodeUpdate(bits[..], size, i, b, v);
      bits[i / 8] := b;
      assert bits[..] == old(bits[..])[i / 8 := b];
    }

    method Mark(i: u32)
      requires Valid()
      modifies bits
      ensures Bits() == SetSpan(old(Bits()), i, 1, true)
    {
      SpanOfOne(Bits(), i);
      if i < size {
        var c := bits[i / 8] | Mask(i % 8);
        ByteMark(bits[i / 8], i % 8, c);
        PutByte(i, c, true);
      }
    }

    method Reset(i: u32)
      requires Valid()
      modifies bits
      ensures Bits() == SetSpan(old(Bits()), i, 1, false)
    {
      SpanOfOne(Bits(), i);
      if i < size {
        var c := bits[i / 8] & !Mask(i % 8);
        ByteReset(bits[i / 8], i % 8, c);
        PutByte(i, c, false);
      }
    }

    method Flip(i: u32)
      requires Valid()
      modifies bits
      ensures Bits() == FlipSpan(old(Bits()), i, 1)
    {
      SpanOfOne(Bits(), i);
      if i < size {
        var c := bits[i / 8] ^ Mask(i % 8);
        ByteFlip(bits[i / 8], i % 8, c);
        PutByte(i, c, !HasBit(bits[i / 8], i % 8));
      }
    }

    method Set(v: bool, i: u32)
      requires Valid()
      modifies bits
      ensures Bits() == SetSpan(old(Bits()), i, 1, v)
    {
      if v {
        Mark(i);
      } else {
        Reset(i);
      }
    }

    method SetMulti(v: bool, idx: u32, c: u32)
      requires Valid()
      modifies bits
      ensures Bits() == SetSpan(old(Bits()), idx, SetCount(size, idx, c), v)
    {
      var i := 0;
      while i < Wrap(size - idx) && i < c
        invariant 0 <= i <= SetCount(size, idx, c)
        invariant Bits() == SetSpan(old(Bits()), idx, i, v)
      {
        var at := Wrap(idx + i);
        SetSpanStep(old(Bits()), idx, i, at, v);
        Set(v, at);
        i := i + 1;
      }
    }

    method Scan(n: u32, v: bool) returns (r: int)
      requires Valid()
      ensures r == FirstRun(Bits(), n, v)
    {
      r := ScanLoop(n, v, Bits());
    }

    /** The loop, by what the tests answer. */
    method ScanLoop(n: u32, v: bool, ghost b: seq<bool>) returns (r: int)
      requires Valid() && |b| == size && forall i: u32 {:trigger Test(i)} :: Test(i) == BitAt(b, i)
      ensures r == FirstRun(b, n, v)
    {
      ScanFindsFirstRun(b, n, v, 0, 0);
      ghost var found := FirstRun(b, n, v);
      var rc := 0;
      r := 0;
      for i := 0 to size
        invariant rc <= i && (0 < rc ==> r == i - rc)
        invariant ScanFrom(b, n, v, i, rc) == found
      {
        ScanUnfolds(b, n, v, i, rc);
        if Test(i) != v {
          rc := 0;
        } else {
          if rc == 0 {
            r := i;
          }
          rc := rc + 1;
          if rc == n {
            return r;
          }
        }
      }
      return -EBITMAP;
    }

    method ScanFlip(n: u32, v: bool) returns (r: int)
      requires Valid()
      modifies bits
      ensures r == FirstRun(old(Bits()), n, v)
      ensures Bits() == ScanFlipped(old(Bits()), n, v)
    {
      r := Scan(n, v);
      var idx := Wrap(r);
      for i := 0 to n
        invariant Bits() == FlipSpan(old(Bits()), idx, i)
      {
        var at := Wrap(idx + i);
        FlipSpanStep(old(Bits()), idx, i, at);
        Flip(at);
      }
    }
  }
}
