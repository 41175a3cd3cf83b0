/** Bitwise operators on unsigned integers, defined bit by bit, and what they
    mean arithmetically for the masks and shifts used by the kernels. */
module Bits {
  import opened LimbMath

  function Or(x: nat, y: nat): nat
    decreases x + y
  {
    if x == 0 && y == 0 then 0
    else 2 * Or(x / 2, y / 2) + (if x % 2 == 1 || y % 2 == 1 then 1 else 0)
  }

  function And(x: nat, y: nat): nat
    decreases x + y
  {
    if x == 0 && y == 0 then 0
    else 2 * And(x / 2, y / 2) + (if x % 2 == 1 && y % 2 == 1 then 1 else 0)
  }

  function Xor(x: nat, y: nat): nat
    decreases x + y
  {
    if x == 0 && y == 0 then 0
    else 2 * Xor(x / 2, y / 2) + (if x % 2 != y % 2 then 1 else 0)
  }

  /** The bit of weight 2^i. */
  function Bit(x: nat, i: nat): (b: nat)
    ensures b <= 1
  {
    if i == 0 then x % 2 else Bit(x / 2, i - 1)
  }

  /** x >> k, one place at a time. */
  function Shr(x: nat, k: nat): nat {
    if k == 0 then x else Shr(x / 2, k - 1)
  }

  // ----- Dividing by a power of two -----

  lemma HalfShift(a: nat, k: nat, z: nat)
    requires k > 0 && z < Pow2(k)
    ensures a * Pow2(k) + z == 2 * (a * Pow2(k - 1) + z / 2) + z % 2
    ensures (a * Pow2(k) + z) / 2 == a * Pow2(k - 1) + z / 2 && (a * Pow2(k) + z) % 2 == z % 2
    ensures z / 2 < Pow2(k - 1)
  {
    assert a * (2 * Pow2(k - 1)) == 2 * (a * Pow2(k - 1));
  }

  /** Quotient and remainder of a value assembled from a high and a low part. */
  lemma DivModUnique(a: nat, p: nat, z: nat)
    requires p > 0 && z < p
    ensures (a * p + z) / p == a && (a * p + z) % p == z
  {
    var x := a * p + z;
    assert x == (x / p) * p + x % p;
    if x / p < a {
      MulMono(x / p + 1, a, p);
    } else if x / p > a {
      MulMono(a + 1, x / p, p);
    }
  }

  lemma Double(a: nat, p: nat)
    ensures a * (2 * p) == 2 * (a * p)
  {
  }

  // ----- Or -----

  lemma OrStep(x: nat, y: nat)
    ensures Or(x, y) == 2 * Or(x / 2, y / 2) + (if x % 2 == 1 || y % 2 == 1 then 1 else 0)
  {
  }

  lemma {:induction false} OrZero(x: nat)
    ensures Or(x, 0) == x && Or(0, x) == x
  {
    if x > 0 { OrZero(x / 2); }
  }

  /** Or works separately on the low k bits and on the rest. */
  lemma {:induction false} OrSplit(x: nat, y: nat, a: nat, b: nat, c: nat, d: nat, k: nat)
    requires b < Pow2(k) && d < Pow2(k)
    requires x == a * Pow2(k) + b && y == c * Pow2(k) + d
    ensures Or(x, y) == Or(a, c) * Pow2(k) + Or(b, d)
  {
    if k > 0 {
      HalfShift(a, k, b);
      HalfShift(c, k, d);
      OrSplit(x / 2, y / 2, a, b / 2, c, d / 2, k - 1);
      OrStep(x, y);
      OrStep(b, d);
      Double(Or(a, c), Pow2(k - 1));
    }
  }

  /** Or of a shifted value and one that fits below it is their sum. */
  lemma OrDisjoint(a: nat, k: nat, z: nat)
    requires z < Pow2(k)
    ensures Or(a * Pow2(k), z) == a * Pow2(k) + z
  {
    OrSplit(a * Pow2(k), z, a, 0, 0, z, k);
    OrZero(a);
    OrZero(z);
  }

  // ----- And -----

  lemma {:induction false} AndZero(x: nat)
    ensures And(x, 0) == 0
  {
    if x > 0 { AndZero(x / 2); }
  }

  /** A mask of k ones keeps the remainder modulo 2^k. */
  lemma {:induction false} AndMask(x: nat, k: nat)
    ensures And(x, Pow2(k) - 1) == x % Pow2(k)
  {
    if k == 0 {
      AndZero(x);
    } else {
      AndMask(x / 2, k - 1);
      assert (Pow2(k) - 1) / 2 == Pow2(k - 1) - 1 && (Pow2(k) - 1) % 2 == 1;
      ModHalf(x, Pow2(k - 1));
    }
  }

  /** A mask of the bits from k on is empty exactly on values below 2^k. */
  lemma {:induction false} AndHigh(x: nat, k: nat, m: nat, mask: nat)
    requires x < Pow2(k + m) && mask == (Pow2(m) - 1) * Pow2(k)
    ensures And(x, mask) == 0 <==> x < Pow2(k)
  {
    if k == 0 {
      AndMask(x, m);
      DivModUnique(0, Pow2(m), x);
    } else {
      Double(Pow2(m) - 1, Pow2(k - 1));
      AndHigh(x / 2, k - 1, m, mask / 2);
      AndStep(x, mask);
    }
  }

  /** A mask of m ones above k zeros clears the low k bits. */
  lemma {:induction false} AndUpper(x: nat, a: nat, z: nat, k: nat, m: nat, mask: nat)
    requires a < Pow2(m) && z < Pow2(k)
    requires x == a * Pow2(k) + z && mask == (Pow2(m) - 1) * Pow2(k)
    ensures And(x, mask) == a * Pow2(k)
  {
    if k == 0 {
      AndMask(x, m);
      DivModUnique(0, Pow2(m), a);
    } else {
      HalfShift(a, k, z);
      Double(Pow2(m) - 1, Pow2(k - 1));
      Double(a, Pow2(k - 1));
      AndUpper(x / 2, a, z / 2, k - 1, m, mask / 2);
      AndStep(x, mask);
    }
  }

  lemma AndStep(x: nat, y: nat)
    ensures And(x, y) == 2 * And(x / 2, y / 2) + (if x % 2 == 1 && y % 2 == 1 then 1 else 0)
  {
  }

  lemma ModHalf(x: nat, p: nat)
    requires p > 0
    ensures x % (2 * p) == 2 * (x / 2 % p) + x % 2
  {
    var q, r := x / 2 / p, x / 2 % p;
    assert x / 2 == q * p + r;
    assert x == 2 * (q * p + r) + x % 2;
    assert 2 * (q * p) == q * (2 * p);
    DivModUnique(q, 2 * p, 2 * r + x % 2);
  }

  // ----- Xor -----

  lemma {:induction false} XorSplit(x: nat, y: nat, a: nat, b: nat, c: nat, d: nat, k: nat)
    requires b < Pow2(k) && d < Pow2(k)
    requires x == a * Pow2(k) + b && y == c * Pow2(k) + d
    ensures Xor(x, y) == Xor(a, c) * Pow2(k) + Xor(b, d)
  {
    if k > 0 {
      HalfShift(a, k, b);
      HalfShift(c, k, d);
      XorSplit(x / 2, y / 2, a, b / 2, c, d / 2, k - 1);
      XorStep(x, y);
      XorStep(b, d);
      Double(Xor(a, c), Pow2(k - 1));
    }
  }

  lemma XorStep(x: nat, y: nat)
    ensures Xor(x, y) == 2 * Xor(x / 2, y / 2) + (if x % 2 != y % 2 then 1 else 0)
  {
  }

  lemma {:induction false} XorEqual(x: nat, y: nat)
    ensures Xor(x, y) == 0 <==> x == y
    decreases x + y
  {
    if x > 0 || y > 0 {
      XorStep(x, y);
      XorEqual(x / 2, y / 2);
    }
  }

  lemma {:induction false} XorZero(x: nat)
    ensures Xor(x, 0) == x
  {
    if x > 0 { XorZero(x / 2); }
  }

  lemma {:induction false} XorBound(x: nat, y: nat, k: nat)
    requires x < Pow2(k) && y < Pow2(k)
    ensures Xor(x, y) < Pow2(k)
  {
    if k > 0 { XorBound(x / 2, y / 2, k - 1); }
  }

  // ----- Single bits -----

  lemma {:induction false} BitOr(x: nat, y: nat, i: nat)
    ensures Bit(Or(x, y), i) == (if Bit(x, i) == 1 || Bit(y, i) == 1 then 1 else 0)
  {
    OrStep(x, y);
    if i > 0 { BitOr(x / 2, y / 2, i - 1); }
  }

  lemma {:induction false} BitAnd(x: nat, y: nat, i: nat)
    ensures Bit(And(x, y), i) == (if Bit(x, i) == 1 && Bit(y, i) == 1 then 1 else 0)
  {
    AndStep(x, y);
    if i > 0 { BitAnd(x / 2, y / 2, i - 1); }
  }

  lemma {:induction false} BitPow2(k: nat, i: nat)
    ensures Bit(Pow2(k), i) == (if i == k then 1 else 0)
  {
    if i > 0 {
      if k > 0 { BitPow2(k - 1, i - 1); } else { BitZero(i - 1); }
    }
  }

  lemma {:induction false} BitZero(i: nat)
    ensures Bit(0, i) == 0
  {
    if i > 0 { BitZero(i - 1); }
  }

  /** m ones with the k-th one cleared. */
  lemma {:induction false} BitHole(m: nat, k: nat, i: nat)
    requires k < m && i < m
    ensures Pow2(k) < Pow2(m) && Bit(Pow2(m) - 1 - Pow2(k), i) == (if i == k then 0 else 1)
  {
    Pow2Monotone(k + 1, m);
    if k == 0 {
      if i > 0 { BitOnes(m - 1, i - 1); }
    } else if i > 0 {
      BitHole(m - 1, k - 1, i - 1);
      assert (Pow2(m) - 1 - Pow2(k)) / 2 == Pow2(m - 1) - 1 - Pow2(k - 1);
    }
  }

  lemma {:induction false} BitOnes(m: nat, i: nat)
    requires i < m
    ensures Bit(Pow2(m) - 1, i) == 1
  {
    if i > 0 {
      assert (Pow2(m) - 1) / 2 == Pow2(m - 1) - 1;
      BitOnes(m - 1, i - 1);
    }
  }

  /** Shifting right and masking with 1 reads a bit. */
  lemma {:induction false} BitShift(x: nat, i: nat)
    ensures And(Shr(x, i), 1) == Bit(x, i)
  {
    if i == 0 {
      AndStep(x, 1);
      AndZero(x / 2);
    } else {
      BitShift(x / 2, i - 1);
    }
  }

  /** Bits combined with a smaller width stay within it. */
  lemma {:induction false} OrBound(x: nat, y: nat, k: nat)
    requires x < Pow2(k) && y < Pow2(k)
    ensures y <= Or(x, y) < Pow2(k)
  {
    OrStep(x, y);
    if k > 0 { OrBound(x / 2, y / 2, k - 1); }
  }

  lemma {:induction false} AndBound(x: nat, y: nat)
    ensures And(x, y) <= x
  {
    AndStep(x, y);
    if x > 0 || y > 0 { AndBound(x / 2, y / 2); }
  }
}
