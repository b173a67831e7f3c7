/** Fixed-width integers of the 32-bit kernel and little-endian words in byte memory. */
module Words {

  const TWO32: int := 0x1_0000_0000

  type byte = x: int | 0 <= x < 256
  type u32 = x: int | 0 <= x < 0x1_0000_0000

  /** Unsigned 32-bit wrap-around, the arithmetic of `size_t` and `uintptr_t`. */
  function Wrap(x: int): u32 {
    x % 0x1_0000_0000
  }

  /** The word stored little-endian at byte `a`. */
  function Load32(m: seq<byte>, a: nat): u32
    requires a + 4 <= |m|
  {
    m[a] as int + 0x100 * m[a + 1] as int + 0x1_0000 * m[a + 2] as int + 0x100_0000 * m[a + 3] as int
  }

  function Store32(m: seq<byte>, a: nat, v: u32): seq<byte>
    requires a + 4 <= |m|
  {
    m[a := v % 0x100][a + 1 := v / 0x100 % 0x100][a + 2 := v / 0x1_0000 % 0x100][a + 3 := v / 0x100_0000]
  }

  lemma LoadStored(m: seq<byte>, a: nat, v: u32)
    requires a + 4 <= |m|
    ensures Load32(Store32(m, a, v), a) == v
  {
    Digits(v);
  }

  lemma Digits(v: u32)
    ensures v == v % 0x100 + 0x100 * (v / 0x100 % 0x100)
                 + 0x1_0000 * (v / 0x1_0000 % 0x100) + 0x100_0000 * (v / 0x100_0000)
  {
    var a, b, c := v / 0x100, v / 0x1_0000, v / 0x100_0000;
    assert a / 0x100 == b && b / 0x100 == c;
    assert v == v % 0x100 + 0x100 * a && a == a % 0x100 + 0x100 * b && b == b % 0x100 + 0x100 * c;
  }

  /** A quotient is known by the multiple it lies above. */
  lemma DivIs(x: int, d: int, q: int)
    requires 0 < d && q * d <= x < q * d + d
    ensures x / d == q && x % d == x - q * d
  {
    var p := x / d;
    assert x == p * d + x % d;
    assert (p - q) * d == p * d - q * d;
    assert p - q >= 1 ==> (p - q) * d >= d;
    assert q - p >= 1 ==> (q - p) * d >= d;
  }

  /** The product, by repeated addition. */
  function Times(k: nat, n: nat): nat {
    if k == 0 then 0 else Times(k - 1, n) + n
  }

  lemma {:induction false} TimesIs(k: nat, n: nat)
    ensures Times(k, n) == k * n
  {
    if k > 0 {
      TimesIs(k - 1, n);
      assert k * n == (k - 1) * n + n;
    }
  }

  /** The quotient and the remainder, by repeated subtraction. */
  function Quot(x: nat, d: nat): nat
    requires 0 < d
    decreases x
  {
    if x < d then 0 else Quot(x - d, d) + 1
  }

  function Rem(x: nat, d: nat): nat
    requires 0 < d
    decreases x
  {
    if x < d then x else Rem(x - d, d)
  }

  lemma {:induction false} QuotRem(x: nat, d: nat)
    requires 0 < d
    ensures Times(Quot(x, d), d) + Rem(x, d) == x && Rem(x, d) < d
    decreases x
  {
    if x >= d {
      QuotRem(x - d, d);
    }
  }

  lemma {:induction false} QuotIs(x: nat, d: nat, q: nat)
    requires 0 < d && Times(q, d) <= x < Times(q, d) + d
    ensures Quot(x, d) == q && Rem(x, d) == x - Times(q, d)
    decreases q
  {
    if q > 0 {
      QuotIs(x - d, d, q - 1);
    }
  }

  lemma {:induction false} QuotShift(x: nat, k: nat, d: nat)
    requires 0 < d
    ensures Quot(Times(k, d) + x, d) == k + Quot(x, d) && Rem(Times(k, d) + x, d) == Rem(x, d)
    decreases k
  {
    if k > 0 {
      QuotShift(x, k - 1, d);
    }
  }

  /** They are the machine's division and remainder. */
  lemma QuotIsDiv(x: nat, d: nat)
    requires 0 < d
    ensures Quot(x, d) == x / d && Rem(x, d) == x % d
  {
    QuotRem(x, d);
    TimesIs(Quot(x, d), d);
    DivIs(x, d, Quot(x, d));
  }

  lemma {:induction false} TimesAdd(a: nat, b: nat, d: nat)
    ensures Times(a + b, d) == Times(a, d) + Times(b, d)
  {
    if b > 0 {
      TimesAdd(a, b - 1, d);
    }
  }

  lemma TimesMono(a: nat, b: nat, d: nat)
    ensures a <= b ==> Times(a, d) <= Times(b, d)
  {
    if a <= b {
      TimesAdd(a, b - a, d);
    }
  }

  lemma {:induction false} TimesAssoc(a: nat, b: nat, d: nat)
    ensures Times(Times(a, b), d) == Times(a, Times(b, d))
  {
    if a > 0 {
      TimesAssoc(a - 1, b, d);
      TimesAdd(Times(a - 1, b), b, d);
    }
  }

  lemma {:induction false} TimesApart(k: nat, l: nat, n: nat)
    requires k < l
    ensures Times(k, n) + n <= Times(l, n)
  {
    if k + 1 < l {
      TimesApart(k, l - 1, n);
    }
  }

  /** A sequence of distinct naturals below `n` has at most `n` entries. */
  lemma {:induction false} Pigeonhole(s: seq<nat>, n: nat)
    requires forall i :: 0 <= i < |s| ==> s[i] < n
    requires forall i, j :: 0 <= i < j < |s| ==> s[i] != s[j]
    ensures |s| <= n
  {
    if |s| > 0 {
      assert s[0] < n;
      if n - 1 in s {
        var i :| 0 <= i < |s| && s[i] == n - 1;
        var t := s[..i] + s[i + 1..];
        forall j | 0 <= j < |t|
          ensures t[j] == s[if j < i then j else j + 1]
        {
        }
        Pigeonhole(t, n - 1);
      } else {
        Pigeonhole(s, n - 1);
      }
    }
  }
}
