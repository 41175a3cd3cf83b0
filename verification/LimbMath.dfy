/** Positional arithmetic shared by the models of the integer kernels:
    powers, and the value of a little-endian sequence of 32-bit limbs. */
module LimbMath {

  const BASE: nat := 0x1_0000_0000

  type Limb = i: int | 0 <= i < 0x1_0000_0000

  function Pow(b: nat, e: nat): nat
  {
    if e == 0 then 1 else b * Pow(b, e - 1)
  }

  lemma {:induction false} PowAdd(b: nat, m: nat, n: nat)
    ensures Pow(b, m + n) == Pow(b, m) * Pow(b, n)
  {
    if m == 0 {
    } else {
      PowAdd(b, m - 1, n);
      assert Pow(b, m + n) == b * Pow(b, m + n - 1);
      assert b * (Pow(b, m - 1) * Pow(b, n)) == (b * Pow(b, m - 1)) * Pow(b, n);
    }
  }

  lemma {:induction false} PowPositive(b: nat, e: nat)
    requires b > 0
    ensures Pow(b, e) > 0
  {
    if e > 0 { PowPositive(b, e - 1); }
  }

  lemma {:induction false} PowMonotone(b: nat, m: nat, n: nat)
    requires b > 0 && m <= n
    ensures Pow(b, m) <= Pow(b, n)
    decreases n - m
  {
    if m < n {
      PowMonotone(b, m, n - 1);
      PowPositive(b, n - 1);
      MulMono(1, b, Pow(b, n - 1));
    }
  }

  lemma MulMono(a: int, b: int, c: int)
    requires a <= b && c >= 0
    ensures a * c <= b * c
  {
  }

  lemma MulAssoc(a: int, b: int, c: int)
    ensures (a * b) * c == a * (b * c)
  {
  }

  function Pow2(e: nat): (p: nat)
    ensures p > 0
  {
    if e == 0 then 1 else 2 * Pow2(e - 1)
  }

  lemma {:induction false} Pow2Add(m: nat, n: nat)
    ensures Pow2(m + n) == Pow2(m) * Pow2(n)
  {
    if m > 0 {
      Pow2Add(m - 1, n);
      assert Pow2(m + n) == 2 * Pow2(m + n - 1);
      assert 2 * (Pow2(m - 1) * Pow2(n)) == (2 * Pow2(m - 1)) * Pow2(n);
    }
  }

  lemma {:induction false} Pow2Monotone(m: nat, n: nat)
    requires m <= n
    ensures Pow2(m) <= Pow2(n)
  {
    if m < n { Pow2Monotone(m, n - 1); }
  }

  /** 2^32 is the limb base, and 2^(32 n) is the weight of limb n. */
  lemma {:induction false} Pow2Limb(n: nat)
    ensures Pow2(32 * n) == Pow(BASE, n)
  {
    Pow2At32();
    if n > 0 {
      Pow2Limb(n - 1);
      Pow2Add(32, 32 * (n - 1));
    }
  }

  lemma Pow2At32()
    ensures Pow2(16) == 0x1_0000 && Pow2(27) == 0x800_0000 && Pow2(28) == 0x1000_0000
    ensures Pow2(31) == 0x8000_0000 && Pow2(32) == BASE
  {
    assert Pow2(4) == 16;
    Pow2Add(4, 4);
    Pow2Add(8, 8);
    Pow2Add(16, 8);
    Pow2Add(24, 4);
    Pow2Add(28, 4);
    assert Pow2(28) == 2 * Pow2(27);
    assert Pow2(32) == 2 * Pow2(31);
  }

  // ----- Value of the n low limbs of s -----

  ghost function Val(s: seq<Limb>, n: nat): nat
    requires n <= |s|
  {
    if n == 0 then 0 else Val(s, n - 1) + s[n - 1] * Pow(BASE, n - 1)
  }

  lemma {:induction false} ValBound(s: seq<Limb>, n: nat)
    requires n <= |s|
    ensures Val(s, n) < Pow(BASE, n)
  {
    if n > 0 {
      ValBound(s, n - 1);
      var top: int := s[n - 1];
      MulMono(top + 1, BASE, Pow(BASE, n - 1));
    }
  }

  lemma {:induction false} ValSame(s: seq<Limb>, t: seq<Limb>, n: nat)
    requires n <= |s| && n <= |t|
    requires forall i :: 0 <= i < n ==> s[i] == t[i]
    ensures Val(s, n) == Val(t, n)
  {
    if n > 0 { ValSame(s, t, n - 1); }
  }

  lemma {:induction false} ValZeroTop(s: seq<Limb>, m: nat, n: nat)
    requires m <= n <= |s|
    requires forall i :: m <= i < n ==> s[i] == 0
    ensures Val(s, n) == Val(s, m)
  {
    if m < n { ValZeroTop(s, m, n - 1); }
  }

  /** A nonzero top limb puts the value in [B^(n-1), B^n). */
  lemma ValTop(s: seq<Limb>, n: nat)
    requires 1 <= n <= |s| && s[n - 1] != 0
    ensures Pow(BASE, n - 1) <= Val(s, n) < Pow(BASE, n)
  {
    ValBound(s, n);
    MulMono(1, s[n - 1], Pow(BASE, n - 1));
  }

  lemma ValTopNonzero(s: seq<Limb>, n: nat)
    requires 1 <= n <= |s| && Val(s, n) >= Pow(BASE, n - 1)
    ensures s[n - 1] != 0
  {
    ValBound(s, n - 1);
  }

  lemma {:induction false} ValShift(s: seq<Limb>, n: nat, t: seq<Limb>, d: nat)
    requires n <= |s| && n + d <= |t|
    requires forall i :: 0 <= i < n ==> t[i + d] == s[i]
    requires forall i :: 0 <= i < d ==> t[i] == 0
    ensures Val(t, n + d) == Val(s, n) * Pow(BASE, d)
  {
    if n == 0 {
      ValZeroTop(t, 0, d);
    } else {
      ValShift(s, n - 1, t, d);
      PowAdd(BASE, n - 1, d);
      assert t[n - 1 + d] == s[n - 1];
      ShiftTerm(Val(s, n - 1), s[n - 1], Pow(BASE, n - 1), Pow(BASE, d));
    }
  }

  lemma ShiftTerm(v: int, x: int, p: int, q: int)
    ensures v * q + x * (p * q) == (v + x * p) * q
  {
    assert x * (p * q) == (x * p) * q;
  }

  /** Limb sequences of one length are ordered by their most significant difference. */
  lemma ValOrder(s: seq<Limb>, t: seq<Limb>, i: nat, n: nat)
    requires i < n <= |s| && n <= |t|
    requires s[i] < t[i]
    requires forall j :: i < j < n ==> s[j] == t[j]
    ensures Val(s, n) < Val(t, n)
  {
    ValBound(s, i);
    OrderStep(Val(s, i), Val(t, i), s[i], t[i], Pow(BASE, i));
    ValOrderTop(s, t, i + 1, n);
  }

  lemma OrderStep(v: int, w: int, x: int, y: int, p: int)
    requires 0 <= v < p && 0 <= w && x < y
    ensures v + x * p < w + y * p
  {
    MulMono(x + 1, y, p);
    assert (x + 1) * p == x * p + p;
  }

  lemma {:induction false} ValOrderTop(s: seq<Limb>, t: seq<Limb>, m: nat, n: nat)
    requires m <= n <= |s| && n <= |t|
    requires forall j :: m <= j < n ==> s[j] == t[j]
    ensures Val(s, n) - Val(s, m) == Val(t, n) - Val(t, m)
  {
    if m < n { ValOrderTop(s, t, m, n - 1); }
  }
}
