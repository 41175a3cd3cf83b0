/** The integer kernel of the decimal conversion code: arbitrary-precision
    non-negative integers held in blocks of 2^k 32-bit limbs. */
module Bigints {
  import opened LimbMath
  import opened LimbKernels

  const KMAX: nat := 7

  /** A block.  The limbs are part of the block (they trail the header in one
      allocation), so they are a field of the object and not a second object. */
  class Bigint {
    const k: nat
    const maxwds: nat
    var sign: nat
    var wds: nat
    var x: seq<Limb>

    constructor (k: nat)
      ensures this.k == k && Sized() && sign == 0 && wds == 0
    {
      this.k := k;
      this.maxwds := Pow2(k);
      sign, wds := 0, 0;
      x := seq(Pow2(k), _ => 0);
    }

    /** The block has the capacity its size class promises, and uses no more. */
    ghost predicate Sized()
      reads this
    {
      |x| == maxwds == Pow2(k) && wds <= maxwds
    }

    /** No leading zero limb, except for zero itself. */
    ghost predicate Normal()
      reads this
    {
      Sized() && wds >= 1 && (wds == 1 || x[wds - 1] != 0)
    }

    /** Zero may also be left with no limb in use, as long as the limb that
        the do-while loops read first is zero. */
    ghost predicate Canonical()
      reads this
    {
      Normal() || (Sized() && wds == 0 && x[0] == 0)
    }

    ghost function Value(): nat
      requires Sized()
      reads this
    {
      Val(x, wds)
    }
  }

  // ----- cmp -----

  ghost predicate SameSign(r: int, a: int, b: int)
  {
    (r < 0 <==> a < b) && (r > 0 <==> a > b)
  }

  /** Compares two integers.  The answer is the sign of the difference except
      when both are zero and only one of them has a limb in use. */
  method Cmp(a: Bigint, b: Bigint) returns (r: int)
    requires a.Canonical() && b.Canonical() && a.wds + b.wds > 0
    ensures SameSign(r, a.Value(), b.Value()) <==> a.wds == b.wds || a.Value() > 0 || b.Value() > 0
  {
    var i := a.wds - b.wds;
    if i != 0 {
      if i < 0 { FewerLimbs(a, b); } else { FewerLimbs(b, a); }
      return i;
    }
    r := CompareLimbs(a.x, b.x, b.wds);
  }

  lemma BothHaveLimbs(a: Bigint, b: Bigint)
    requires a.Normal() && b.Normal()
    ensures a.wds == b.wds || a.Value() > 0 || b.Value() > 0
  {
    if a.wds < b.wds { FewerLimbs(a, b); } else if b.wds < a.wds { FewerLimbs(b, a); }
  }

  lemma FewerLimbs(a: Bigint, b: Bigint)
    requires a.Canonical() && b.Canonical() && a.wds < b.wds
    ensures if b.Value() == 0 then a.Value() == 0 && a.wds == 0 && b.wds == 1 else a.Value() < b.Value()
  {
    ValBound(a.x, a.wds);
    if b.wds >= 2 {
      ValTop(b.x, b.wds);
      PowMonotone(BASE, a.wds, b.wds - 1);
      PowPositive(BASE, b.wds - 1);
    }
  }

  /** The first size class from k on that holds n limbs. */
  method ClassFor(n: nat, k: nat) returns (k1: nat)
    ensures k1 >= k && n <= Pow2(k1)
    ensures k1 == k || Pow2(k1 - 1) < n
  {
    k1 := k;
    var i := Pow2(k);
    while n > i
      invariant k1 >= k && i == Pow2(k1)
      invariant k1 == k || Pow2(k1 - 1) < n
      decreases n - i
    {
      k1 := k1 + 1;
      i := 2 * i;
    }
  }

  method ShiftInto(b: Bigint, k: nat, b1: Bigint)
    requires b != b1 && b.Normal() && b1.Sized() && k / 32 + b.wds + 1 <= b1.maxwds
    modifies b1
    ensures b1.Sized() && b1.wds >= 1 && b1.Value() == b.Value() * Pow2(k)
    ensures b.Value() > 0 ==> b1.Normal()
  {
    var x, w := ShiftAll(b.x, b.wds, k, b1.x);
    b1.x, b1.wds := x, w;
    assert b.Value() == Val(b.x, b.wds - 1) + b.x[b.wds - 1] * Pow(BASE, b.wds - 1);
  }

  // ----- quorem -----

  /** Subtracts q * S in place and drops the leading zero limbs. */
  method SubtractInPlace(b: Bigint, S: Bigint, q: Limb)
    requires b != S && b.Normal() && S.Normal() && b.wds == S.wds
    requires q * S.Value() <= b.Value()
    modifies b
    ensures b.Canonical() && b.wds <= S.wds && b.sign == old(b.sign)
    ensures b.Value() == old(b.Value()) - q * S.Value()
    ensures b.wds == 0 <==> S.wds == 1 && b.Value() == 0
  {
    var n := S.wds;
    ghost var v := b.Value();
    var x;
    ghost var e;
    x, e := SubtractMultiple(b.x, S.x, n, q);
    ValBound(x, n);
    NoBorrowLeft(Val(x, n), e, Pow(BASE, n), v - q * S.Value());
    b.x := x;
    if x[n - 1] == 0 {
      b.wds := TrimRemainder(x, n - 1);
      if n == 1 { assert x[0] == 0; }
    }
  }

  /** The divisor's top limb is rounded up, so that the estimate is never high. */
  function TopQuotient(u: nat, t: nat): nat
  {
    u / (t + 1)
  }

  /** Divides in place: the quotient is returned and b becomes the remainder.
      S must have a top limb of more than sixteen bits, and b no more limbs.  A
      remainder of zero is left without limbs exactly if S has a single limb
      and the quotient is not zero (or b came without limbs). */
  method QuoRem(b: Bigint, S: Bigint) returns (q: nat)
    requires b != S && b.Canonical() && S.Normal() && b.wds <= S.wds
    requires 0x1_0000 <= S.x[S.wds - 1] < 0xffff_ffff
    modifies b
    ensures b.Canonical() && b.wds <= S.wds && b.sign == old(b.sign)
    ensures old(b.Value()) == q * S.Value() + b.Value() && b.Value() < S.Value()
    ensures b.wds == 0 <==> old(b.wds) == 0 || (S.wds == 1 && q > 0 && b.Value() == 0)
  {
    if b.wds < S.wds {
      FewerLimbs(b, S);
      ValTop(S.x, S.wds);
      PowPositive(BASE, S.wds - 1);
      return 0;
    }
    var n := S.wds - 1;
    q := TopQuotient(b.x[n], S.x[n]);
    TopEstimate(b, S);
    ghost var v := b.Value();
    if q != 0 {
      SubtractInPlace(b, S, q);
    }
    Remaining(v, q, S.Value());
    var one := CorrectOnce(b, S);
    q := q + one;
  }

  /** Subtracts S once more if the estimate was low. */
  method CorrectOnce(b: Bigint, S: Bigint) returns (one: nat)
    requires b != S && b.Canonical() && S.Normal() && b.wds <= S.wds && b.Value() < 2 * S.Value()
    modifies b
    ensures b.Canonical() && b.wds <= S.wds && b.sign == old(b.sign) && one <= 1
    ensures b.Value() == old(b.Value()) - (if one == 1 then S.Value() else 0) && b.Value() < S.Value()
    ensures b.wds == 0 <==> old(b.wds) == 0 || (S.wds == 1 && one == 1 && b.Value() == 0)
  {
    one := 0;
    var c := Cmp(b, S);
    if c >= 0 {
      if b.wds < S.wds { FewerLimbs(b, S); }
      one := 1;
      SubtractInPlace(b, S, 1);
    }
  }

  lemma Remaining(v: int, q: nat, s: int)
    requires v < (q + 2) * s
    ensures v - q * s < 2 * s
    ensures (q + 1) * s == q * s + s
  {
    assert (q + 2) * s == q * s + 2 * s;
  }

  /** The estimate of the quotient from the top limbs. */
  lemma TopEstimate(b: Bigint, S: Bigint)
    requires b.Sized() && S.Sized() && b.wds == S.wds >= 1
    requires 0x1_0000 <= S.x[S.wds - 1] < 0xffff_ffff
    ensures var q: nat := TopQuotient(b.x[b.wds - 1], S.x[S.wds - 1]);
            q < 0x1_0000 && q * S.Value() <= b.Value() < (q + 2) * S.Value() && S.Value() > 0
  {
    var n := S.wds - 1;
    ValBound(b.x, n);
    ValBound(S.x, n);
    EstimateLow(Val(b.x, n), b.x[n], Val(S.x, n), S.x[n], Pow(BASE, n));
    EstimateHigh(Val(b.x, n), b.x[n], Val(S.x, n), S.x[n], Pow(BASE, n));
    ValTop(S.x, S.wds);
    PowPositive(BASE, n);
  }

  // ----- Powers of five by repeated squaring -----

  /** The j-th cached power: each is the square of the one before. */
  ghost function P5(j: nat): (p: nat)
    ensures p > 0
  {
    if j == 0 then 625 else Commute(P5(j - 1), P5(j - 1)); P5(j - 1) * P5(j - 1)
  }

  /** v after the binary digits of k have been worked off from cached power j on. */
  ghost function P5Apply(v: nat, j: nat, k: nat): nat
    decreases k
  {
    if k == 0 then v
    else P5Apply(if k % 2 == 1 then v * P5(j) else v, j + 1, k / 2)
  }

  lemma {:induction false} P5IsPower(j: nat)
    ensures P5(j) == Pow(5, 4 * Pow2(j))
  {
    if j == 0 {
      assert Pow(5, 4) == 5 * Pow(5, 3) && Pow(5, 3) == 5 * Pow(5, 2) && Pow(5, 2) == 25;
    } else {
      P5IsPower(j - 1);
      PowAdd(5, 4 * Pow2(j - 1), 4 * Pow2(j - 1));
    }
  }

  lemma {:induction false} P5ApplyIsProduct(v: nat, j: nat, k: nat)
    ensures P5Apply(v, j, k) == v * Pow(5, 4 * Pow2(j) * k)
    decreases k
  {
    if k > 0 {
      Exponent(Pow2(j), k);
      P5ApplyIsProduct(if k % 2 == 1 then v * P5(j) else v, j + 1, k / 2);
      if k % 2 == 1 {
        P5IsPower(j);
        PowAdd(5, 4 * Pow2(j), 4 * Pow2(j + 1) * (k / 2));
        MulAssoc(v, P5(j), Pow(5, 4 * Pow2(j + 1) * (k / 2)));
      }
    }
  }

  lemma Exponent(p: nat, k: nat)
    ensures 4 * p * k == 4 * (2 * p) * (k / 2) + (if k % 2 == 1 then 4 * p else 0)
  {
    var h := k / 2;
    assert k == 2 * h + k % 2;
    assert 4 * p * (2 * h) == 4 * (2 * p) * h;
    assert 4 * p * (2 * h + 1) == 4 * p * (2 * h) + 4 * p;
  }

  /** The process-wide state of the kernel: the free lists and the cached
      powers of five. */
  class Dtoa {
    /** freelist[k] holds released blocks of size class k. */
    var freelist: seq<set<Bigint>>
    /** The chain of cached powers; element j is 5^(4 * 2^j). */
    var p5s: seq<Bigint>
    /** Every block handed back by Bfree and not handed out since. */
    ghost var free: set<Bigint>

    ghost predicate Valid()
      reads this, free, p5s
    {
      PoolValid() && CacheValid()
    }

    ghost predicate PoolValid()
      reads this, free
    {
      && |freelist| == KMAX + 1
      && forall k, v :: 0 <= k <= KMAX && v in freelist[k] ==> v in free && v.k == k && v.Sized()
    }

    ghost predicate CacheValid()
      reads this, p5s
    {
      forall j :: 0 <= j < |p5s| ==>
        p5s[j] !in free && p5s[j].Normal() && p5s[j].Value() == P5(j)
    }

    constructor ()
      ensures Valid() && free == {} && p5s == []
    {
      freelist := seq(KMAX + 1, _ => {});
      p5s := [];
      free := {};
    }

    /** The block handed out is of the size asked for, and it is either new
        memory or a released block: never one still in use. */
    method Balloc(k: nat) returns (rv: Bigint)
      requires Valid()
      modifies this, free
      ensures Valid() && p5s == old(p5s)
      ensures rv !in free && (rv in old(free) || fresh(rv)) && free == old(free) - {rv}
      ensures rv.Sized() && rv.k == k && rv.sign == 0 && rv.wds == 0
      ensures fresh(rv) <==> k > KMAX || old(freelist)[k] == {}
      ensures !fresh(rv) ==> rv in old(freelist)[k] && freelist == old(freelist)[k := old(freelist)[k] - {rv}]
    {
      if k <= KMAX && freelist[k] != {} {
        rv :| rv in freelist[k];
        freelist := freelist[k := freelist[k] - {rv}];
        free := free - {rv};
        rv.sign, rv.wds := 0, 0;
      } else {
        rv := new Bigint(k);
      }
    }

    method Bfree(v: Bigint)
      requires Valid() && v !in free && v !in p5s && v.Sized()
      modifies this
      ensures Valid() && p5s == old(p5s) && free == old(free) + {v}
      ensures freelist == if v.k <= KMAX then old(freelist)[v.k := old(freelist)[v.k] + {v}] else old(freelist)
    {
      free := free + {v};
      if v.k <= KMAX {
        freelist := freelist[v.k := freelist[v.k] + {v}];
      }
    }

    // ----- multadd -----

    /** Multiplies in place by m and adds a; the block is replaced by one of
        the next size class when the last carry does not fit.  The result is
        m * b + a exactly when b has a limb in use or nothing is added: a zero
        without limbs swallows the addend. */
    method MultAdd(b: Bigint, m: nat, a: nat) returns (r: Bigint)
      requires Valid() && b !in free && b !in p5s && b.Canonical()
      requires 1 <= m < 0x8000_0000 && a < 0x8000_0000
      modifies this, free, b
      ensures Valid() && p5s == old(p5s)
      ensures r !in free && r !in p5s && (r == b || r in old(free) || fresh(r))
      ensures fresh(free - old(free) - {b})
      ensures r.Sized() && r.wds <= old(b.wds) + 1
      ensures r.Value() == m * old(b.Value()) + a <==> old(b.wds) >= 1 || a == 0
      ensures old(b.wds) >= 1 || a == 0 ==> r.Canonical()
      ensures old(b.wds) >= 1 ==> r.Normal()
    {
      var x, carry := MulLimbs(b.x, b.wds, m, a);
      MultAddShape(b.x, x, b.wds, m, a, carry);
      b.x := x;
      r := b;
      if carry != 0 {
        r := PushTop(b, carry);
      }
    }

    /** Adds a most significant limb, in a block of the next size class if b is full. */
    method PushTop(b: Bigint, c: Limb) returns (r: Bigint)
      requires Valid() && b !in free && b !in p5s && b.Sized()
      modifies this, free, b
      ensures Valid() && p5s == old(p5s)
      ensures r !in free && r !in p5s && (r == b || r in old(free) || fresh(r))
      ensures fresh(free - old(free) - {b})
      ensures r.Sized() && r.wds == old(b.wds) + 1 && r.x[r.wds - 1] == c
      ensures r.Value() == old(b.Value()) + c * Pow(BASE, old(b.wds))
    {
      r := b;
      if b.wds >= b.maxwds {
        r := Grow(b);
      }
      ghost var before, n := r.x, r.wds;
      r.x := r.x[r.wds := c];
      r.wds := r.wds + 1;
      ValSame(before, r.x, n);
    }

    /** Moves b to a block of the next size class and releases the old one. */
    method Grow(b: Bigint) returns (r: Bigint)
      requires Valid() && b !in free && b !in p5s && b.Sized()
      modifies this, free
      ensures Valid() && p5s == old(p5s)
      ensures r !in free && r !in p5s && (r in old(free) || fresh(r))
      ensures fresh(free - old(free) - {b})
      ensures r.Sized() && r.maxwds == 2 * b.maxwds && r.wds == b.wds && r.sign == b.sign
      ensures r.Value() == b.Value()
    {
      r := Balloc(b.k + 1);
      r.sign, r.wds := b.sign, b.wds;
      r.x := b.x[..b.wds] + r.x[b.wds..];
      ValSame(b.x, r.x, b.wds);
      Bfree(b);
    }

    // ----- mult -----

    /** The exact product, in a block whose size class is that of the operand
        with more limbs or the next one. */
    method Mult(a0: Bigint, b0: Bigint) returns (c: Bigint)
      requires Valid() && a0 !in free && b0 !in free && a0.Sized() && b0.Sized()
      modifies this, free
      ensures Valid() && p5s == old(p5s)
      ensures c !in free && (c in old(free) || fresh(c)) && free == old(free) - {c}
      ensures c.Sized() && c.Value() == a0.Value() * b0.Value()
      ensures a0.wds + b0.wds > 0 ==> c.Canonical()
      ensures a0.Value() > 0 && b0.Value() > 0 ==> c.Normal()
      ensures c.wds == 0 <==> c.Value() == 0
    {
      if a0.wds < b0.wds {
        c := MultOrdered(b0, a0);
        Commute(a0.Value(), b0.Value());
      } else {
        c := MultOrdered(a0, b0);
      }
    }

    method MultOrdered(a: Bigint, b: Bigint) returns (c: Bigint)
      requires Valid() && a !in free && b !in free && a.Sized() && b.Sized() && a.wds >= b.wds
      modifies this, free
      ensures Valid() && p5s == old(p5s)
      ensures c !in free && (c in old(free) || fresh(c)) && free == old(free) - {c}
      ensures c.Sized() && c.Value() == a.Value() * b.Value()
      ensures a.wds > 0 ==> c.Canonical()
      ensures a.Value() > 0 && b.Value() > 0 ==> c.Normal()
      ensures c.wds == 0 <==> c.Value() == 0
    {
      var wc := a.wds + b.wds;
      var k := if wc > a.maxwds then a.k + 1 else a.k;
      c := Balloc(k);
      var x, w := Product(a.x, a.wds, b.x, b.wds, c.x);
      c.x, c.wds := x, w;
    }

    // ----- diff -----

    /** The absolute difference; the sign tells which operand was smaller. */
    method Diff(a: Bigint, b: Bigint) returns (c: Bigint)
      requires Valid() && a !in free && b !in free && a.Normal() && b.Normal()
      modifies this, free
      ensures Valid() && p5s == old(p5s)
      ensures c !in free && (c in old(free) || fresh(c)) && free == old(free) - {c}
      ensures c.Normal() && c.Value() == (if a.Value() < b.Value() then b.Value() - a.Value() else a.Value() - b.Value())
      ensures c.sign == (if a.Value() < b.Value() then 1 else 0)
    {
      var i := Cmp(a, b);
      BothHaveLimbs(a, b);
      if i == 0 {
        c := Balloc(0);
        c.wds, c.x := 1, c.x[0 := 0];
        assert Val(c.x, 1) == Val(c.x, 0) + c.x[0] * Pow(BASE, 0);
      } else if i < 0 {
        c := DiffOrdered(b, a, 1);
      } else {
        c := DiffOrdered(a, b, 0);
      }
    }

    method DiffOrdered(a: Bigint, b: Bigint, sign: nat) returns (c: Bigint)
      requires Valid() && a !in free && b !in free && a.Normal() && b.Normal() && a.Value() > b.Value()
      modifies this, free
      ensures Valid() && p5s == old(p5s)
      ensures c !in free && (c in old(free) || fresh(c)) && free == old(free) - {c}
      ensures c.Normal() && c.Value() == a.Value() - b.Value() && c.sign == sign
    {
      if a.wds < b.wds { FewerLimbs(a, b); }
      c := Balloc(a.k);
      c.sign := sign;
      var x := DiffLimbs(a.x, a.wds, b.x, b.wds, c.x);
      var w := Trim(x, a.wds);
      c.x, c.wds := x, w;
    }

    // ----- pow5mult -----

    /** Multiplies by 5^k, using and extending the cached powers. */
    method Pow5Mult(b: Bigint, k: nat) returns (r: Bigint)
      requires Valid() && b !in free && b !in p5s && b.Canonical()
      modifies this, free, b
      ensures Valid() && old(p5s) <= p5s
      ensures r !in free && r !in p5s && (r == b || r in old(free) || fresh(r))
      ensures fresh(free - old(free) - {b})
      ensures forall o :: o in p5s ==> o in old(p5s) || o in old(free) || o == b || fresh(o)
      ensures r.Canonical() && r.Value() == old(b.Value()) * Pow(5, k)
    {
      r := b;
      ghost var v := b.Value();
      var i := k % 4;
      if i != 0 {
        var p05 := [5, 25, 125];
        r := MultAdd(b, p05[i - 1], 0);
      }
      SmallPowers(v, i);
      var k1 := k / 4;
      if k1 == 0 {
        return;
      }
      EnsureCached(0);
      PowSplit(v, i, k1);
      r := Pow5Loop(r, k1, v * Pow(5, k));
    }

    /** Square and multiply over the binary digits of k, from cached power 0 on. */
    method Pow5Loop(b: Bigint, k: nat, ghost goal: nat) returns (r: Bigint)
      requires Valid() && b !in free && b !in p5s && b.Canonical()
      requires k >= 1 && p5s != [] && P5Apply(b.Value(), 0, k) == goal
      modifies this, free, b
      ensures Valid() && old(p5s) <= p5s
      ensures r !in free && r !in p5s && (r == b || r in old(free) || fresh(r))
      ensures fresh(free - old(free) - {b})
      ensures forall o :: o in p5s ==> o in old(p5s) || o in old(free) || o == b || fresh(o)
      ensures r.Canonical() && r.Value() == goal
    {
      r := b;
      var j, k1 := 0, k;
      while true
        invariant Valid() && old(p5s) <= p5s && j < |p5s| && k1 >= 1
        invariant r !in free && r !in p5s && (r == b || r in old(free) || fresh(r))
        invariant fresh(free - old(free) - {b})
        invariant forall o :: o in p5s ==> o in old(p5s) || o in old(free) || o == b || fresh(o)
        invariant r.Canonical() && P5Apply(r.Value(), j, k1) == goal
        decreases k1
      {
        if k1 % 2 == 1 {
          r := MultCached(r, j);
        }
        k1 := k1 / 2;
        if k1 == 0 {
          break;
        }
        EnsureCached(j + 1);
        j := j + 1;
      }
    }

    /** Replaces r by its product with the j-th cached power. */
    method MultCached(r: Bigint, j: nat) returns (r': Bigint)
      requires Valid() && j < |p5s| && r !in free && r !in p5s && r.Canonical()
      modifies this, free
      ensures Valid() && p5s == old(p5s)
      ensures r' !in free && r' !in p5s && (r' in old(free) || fresh(r')) && free == old(free) - {r'} + {r}
      ensures r'.Canonical() && r'.Value() == old(r.Value()) * P5(j)
    {
      r' := Mult(r, p5s[j]);
      Bfree(r);
    }

    /** The cache reaches the j-th power, which is the square of the one before. */
    method EnsureCached(j: nat)
      requires Valid() && j <= |p5s|
      modifies this, free
      ensures Valid() && old(p5s) <= p5s && j < |p5s|
      ensures free <= old(free)
      ensures forall o :: o in p5s ==> o in old(p5s) || o in old(free) || fresh(o)
    {
      if j == |p5s| {
        var p51;
        if j == 0 {
          p51 := I2B(625);
        } else {
          p51 := Mult(p5s[j - 1], p5s[j - 1]);
        }
        p5s := p5s + [p51];
      }
    }

    // ----- lshift -----

    /** Multiplies by 2^k, in a block large enough for one limb more than needed. */
    method LShift(b: Bigint, k: nat) returns (b1: Bigint)
      requires Valid() && b !in free && b !in p5s && b.Normal()
      modifies this, free
      ensures Valid() && p5s == old(p5s)
      ensures b1 !in free && b1 !in p5s && (b1 in old(free) || fresh(b1))
      ensures free == old(free) - {b1} + {b}
      ensures b1.Sized() && b1.wds >= 1 && b1.Value() == old(b.Value()) * Pow2(k)
      ensures old(b.Value()) > 0 ==> b1.Normal()
    {
      var n1 := k / 32 + b.wds + 1;
      var k1 := ClassFor(n1, b.k);
      b1 := Balloc(k1);
      ShiftInto(b, k, b1);
      Bfree(b);
    }

    /** A one-limb integer. */
    method I2B(i: Limb) returns (b: Bigint)
      requires Valid()
      modifies this, free
      ensures Valid() && p5s == old(p5s)
      ensures b !in free && (b in old(free) || fresh(b)) && free == old(free) - {b}
      ensures b.Normal() && b.wds == 1 && b.Value() == i
    {
      b := Balloc(1);
      b.x, b.wds := b.x[0 := i], 1;
      assert Val(b.x, 1) == Val(b.x, 0) + b.x[0] * Pow(BASE, 0);
    }
  }

  lemma SmallPowers(v: nat, i: nat)
    requires i < 4
    ensures i == 0 ==> v * Pow(5, i) == v
    ensures i > 0 ==> v * Pow(5, i) == [5, 25, 125][i - 1] * v
  {
    assert Pow(5, 3) == 5 * Pow(5, 2) && Pow(5, 2) == 25 && Pow(5, 1) == 5 && Pow(5, 0) == 1;
  }

  lemma PowSplit(v: nat, i: nat, k1: nat)
    ensures P5Apply(v * Pow(5, i), 0, k1) == v * Pow(5, i + 4 * k1)
  {
    P5ApplyIsProduct(v * Pow(5, i), 0, k1);
    PowAdd(5, i, 4 * k1);
    MulAssoc(v, Pow(5, i), Pow(5, 4 * k1));
  }
}
