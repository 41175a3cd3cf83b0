/** The loops over 32-bit limbs of the integer kernel, on the limbs alone.
    Each states what its result means for the values the limbs denote. */
module LimbKernels {
  import opened Common
  import opened LimbMath
  import opened Bits

  // ----- Arithmetic of one carry or borrow step -----

  /** 64-bit unsigned wrap-around. */
  function Wrap64(v: int): (r: nat)
    ensures r < TWO64
  {
    v % TWO64
  }

  lemma CarryStep(v: int, w: int, m: int, a: int, c: int, x: int, c': int, d: int, p: int)
    requires v + c * p == m * w + a
    requires x * m + c == c' * BASE + d
    ensures (v + d * p) + c' * (BASE * p) == m * (w + x * p) + a
  {
    assert (x * m + c) * p == (c' * BASE + d) * p;
    assert (x * m + c) * p == m * (x * p) + c * p;
    assert (c' * BASE + d) * p == c' * (BASE * p) + d * p;
  }

  lemma BorrowStep(v: int, w: int, z: int, q: int, e: int, x: int, y: int, e': int, d: int, p: int)
    requires v - e * p == w - q * z
    requires x - q * y - e == d - e' * BASE
    ensures (v + d * p) - e' * (BASE * p) == (w + x * p) - q * (z + y * p)
  {
    assert (x - q * y - e) * p == (d - e' * BASE) * p;
    assert (x - q * y - e) * p == x * p - q * (y * p) - e * p;
    assert (d - e' * BASE) * p == d * p - e' * (BASE * p);
  }

  /** The unsigned 64-bit difference of a limb, a limb and a borrow: bit 32
      of the wrapped result is the next borrow and its low half the limb. */
  lemma BorrowBit(x: Limb, y: Limb, borrow: int)
    requires 0 <= borrow <= 1
    ensures var z := Wrap64(x - y - borrow);
            x - y - borrow == z % BASE - (z / BASE % 2) * BASE
  {
    var diff: int := (x as int) - y - borrow;
    if diff >= 0 {
      assert Wrap64(diff) == diff;
    } else {
      assert Wrap64(diff) == diff + TWO64;
      assert TWO64 == 0xffff_ffff * BASE + BASE;
      assert (diff + TWO64) / BASE == 0xffff_ffff;
    }
  }

  /** A limb times an int plus a carry stays within 64 bits, and so does the next carry. */
  lemma LimbTimes(x: Limb, m: nat, carry: nat)
    requires m < 0x8000_0000 && carry < 0x8000_0000
    ensures var y := Wrap64(x * m + carry);
            x * m + carry == (y / BASE) * BASE + y % BASE && y / BASE < 0x8000_0000
  {
    MulMono(0, x, m);
    MulMono(x, 0xffff_ffff, m);
    var y := x * m + carry;
    assert 0 <= y <= 0xffff_ffff * 0x7fff_ffff + 0x7fff_ffff == 0x7fff_ffff * BASE;
    assert Wrap64(y) == y;
  }

  /** A limb product plus two limbs just fits 64 bits, and leaves a limb to carry. */
  lemma LimbProduct(x: Limb, y: Limb, c: Limb, carry: Limb)
    ensures var z := Wrap64(x * y + c + carry);
            x * y + c + carry == (z / BASE) * BASE + z % BASE && z / BASE < BASE
  {
    ProductFits(x, y);
    FitsWord(x * y + c + carry);
  }

  lemma ProductFits(x: Limb, y: Limb)
    ensures 0 <= x * y <= 0xffff_ffff * 0xffff_ffff
  {
    MulMono(0, x, y);
    MulMono(x, 0xffff_ffff, y);
  }

  lemma FitsWord(z: int)
    requires 0 <= z < TWO64
    ensures Wrap64(z) == z && z == (z / BASE) * BASE + z % BASE && z / BASE < BASE
  {
  }

  /** The limbs after the carry loop of multadd have no leading zero. */
  lemma MultAddShape(x0: seq<Limb>, x: seq<Limb>, wds: nat, m: nat, a: nat, carry: nat)
    requires |x0| == |x| && wds <= |x| && 1 <= |x|
    requires wds >= 2 ==> x0[wds - 1] != 0
    requires wds == 0 ==> x0[0] == 0
    requires 1 <= m && a < BASE
    requires var n := if wds == 0 then 1 else wds;
             Val(x, n) + carry * Pow(BASE, n) == m * Val(x0, n) + a
    ensures wds >= 2 && carry == 0 ==> x[wds - 1] != 0
    ensures wds == 0 ==> carry == 0 && x[0] == a
  {
    if wds == 0 {
      assert Pow(BASE, 1) == BASE && Pow(BASE, 0) == 1;
      assert Val(x, 1) == x[0] && Val(x0, 1) == 0;
    } else if wds >= 2 && carry == 0 {
      ValTop(x0, wds);
      MulMono(1, m, Val(x0, wds));
      ValTopNonzero(x, wds);
    }
  }

  /** The carry loop of multadd: the limbs in use (or the first one, if none
      is) times m plus a. */
  method MulLimbs(x0: seq<Limb>, wds: nat, m: nat, a: nat) returns (x: seq<Limb>, carry: nat)
    requires wds <= |x0| && 1 <= |x0| && m < 0x8000_0000 && a < 0x8000_0000
    ensures |x| == |x0| && carry < 0x8000_0000
    ensures var n := if wds == 0 then 1 else wds;
            Val(x, n) + carry * Pow(BASE, n) == m * Val(x0, n) + a
  {
    x, carry := x0, a;
    var i := 0;
    while i == 0 || i < wds
      invariant 0 <= i <= wds || (wds == 0 && i == 1)
      invariant |x| == |x0| && x[i..] == x0[i..] && carry < 0x8000_0000
      invariant Val(x, i) + carry * Pow(BASE, i) == m * Val(x0, i) + a
      decreases wds + 1 - i
    {
      var y := Wrap64(x[i] * m + carry);
      MulStep(x0, x, i, m, a, carry);
      carry := y / BASE;
      x := x[i := y % BASE];
      i := i + 1;
    }
  }

  lemma MulStep(x0: seq<Limb>, x: seq<Limb>, i: nat, m: nat, a: nat, carry: nat)
    requires i < |x| == |x0| && x[i..] == x0[i..] && m < 0x8000_0000 && carry < 0x8000_0000
    requires Val(x, i) + carry * Pow(BASE, i) == m * Val(x0, i) + a
    ensures var y := Wrap64(x[i] * m + carry);
            var x' := x[i := y % BASE];
            && x'[i + 1..] == x0[i + 1..] && y / BASE < 0x8000_0000
            && Val(x', i + 1) + (y / BASE) * Pow(BASE, i + 1) == m * Val(x0, i + 1) + a
  {
    var y := Wrap64(x[i] * m + carry);
    LimbTimes(x[i], m, carry);
    assert x[i] == x[i..][0] == x0[i..][0] == x0[i];
    CarryStep(Val(x, i), Val(x0, i), m, a, carry, x0[i], y / BASE, y % BASE, Pow(BASE, i));
    SetLimb(x, i, y % BASE);
    assert x[i := y % BASE][i + 1..] == x[i..][1..] == x0[i..][1..];
  }

  lemma SetLimb(x: seq<Limb>, i: nat, d: Limb)
    requires i < |x|
    ensures Val(x[i := d], i + 1) == Val(x, i) + d * Pow(BASE, i)
    ensures Pow(BASE, i + 1) == BASE * Pow(BASE, i)
  {
    ValSame(x, x[i := d], i);
  }

  // ----- The product loops of mult -----

  /** The inner loop: adds y times the wa limbs of xa into c, at limb j. */
  method MulInto(xa: seq<Limb>, wa: nat, y: Limb, c0: seq<Limb>, j: nat) returns (c: seq<Limb>)
    requires 1 <= wa <= |xa| && j + wa < |c0| && c0[j + wa] == 0
    ensures |c| == |c0| && c[j + wa + 1..] == c0[j + wa + 1..]
    ensures Val(c, j + wa + 1) == Val(c0, j + wa) + y * Pow(BASE, j) * Val(xa, wa)
  {
    c := c0;
    var carry: Limb := 0;
    var i := 0;
    while i == 0 || i < wa
      invariant 0 <= i <= wa
      invariant |c| == |c0| && c[j + i..] == c0[j + i..]
      invariant Val(c, j + i) + carry * Pow(BASE, j + i) == Val(c0, j + i) + y * Pow(BASE, j) * Val(xa, i)
      decreases wa - i
    {
      c, carry := MulLimb(xa, i, y, c0, c, j, carry);
      i := i + 1;
    }
    SetLimb(c, j + wa, carry);
    assert c[j + wa := carry][j + wa + 1..] == c[j + wa..][1..] == c0[j + wa..][1..];
    c := c[j + wa := carry];
  }

  /** One limb of that loop. */
  method MulLimb(xa: seq<Limb>, i: nat, y: Limb, ghost c0: seq<Limb>, c: seq<Limb>, j: nat, carry: Limb)
    returns (c': seq<Limb>, carry': Limb)
    requires i < |xa| && j + i < |c| == |c0| && c[j + i..] == c0[j + i..]
    requires Val(c, j + i) + carry * Pow(BASE, j + i) == Val(c0, j + i) + y * Pow(BASE, j) * Val(xa, i)
    ensures |c'| == |c0| && c'[j + (i + 1)..] == c0[j + (i + 1)..]
    ensures Val(c', j + (i + 1)) + carry' * Pow(BASE, j + (i + 1))
            == Val(c0, j + (i + 1)) + y * Pow(BASE, j) * Val(xa, i + 1)
  {
    var z := Wrap64(xa[i] * y + c[j + i] + carry);
    MulIntoStep(xa, i, y, c0, c, j, carry);
    carry' := z / BASE;
    c' := c[j + i := z % BASE];
  }

  lemma MulIntoStep(xa: seq<Limb>, i: nat, y: Limb, c0: seq<Limb>, c: seq<Limb>, j: nat, carry: Limb)
    requires i < |xa| && j + i < |c| == |c0| && c[j + i..] == c0[j + i..]
    requires Val(c, j + i) + carry * Pow(BASE, j + i) == Val(c0, j + i) + y * Pow(BASE, j) * Val(xa, i)
    ensures var z := Wrap64(xa[i] * y + c[j + i] + carry);
            var c' := c[j + i := z % BASE];
            && c'[j + (i + 1)..] == c0[j + (i + 1)..] && z / BASE < BASE
            && Val(c', j + (i + 1)) + (z / BASE) * Pow(BASE, j + (i + 1))
               == Val(c0, j + (i + 1)) + y * Pow(BASE, j) * Val(xa, i + 1)
  {
    var z := Wrap64(xa[i] * y + c[j + i] + carry);
    var p, pj := Pow(BASE, j + i), Pow(BASE, j);
    LimbProduct(xa[i], y, c[j + i], carry);
    SetLimb(c, j + i, z % BASE);
    PowAdd(BASE, j, i);
    assert c[j + i] == c[j + i..][0] == c0[j + i..][0] == c0[j + i];
    ProductStep(Val(c, j + i), Val(c0, j + i), Val(xa, i), carry, xa[i], y, c0[j + i],
                z / BASE, z % BASE, Pow(BASE, i), pj, p);
    assert c[j + i := z % BASE][j + (i + 1)..] == c[j + i..][1..] == c0[j + i..][1..];
  }

  lemma ProductStep(v: int, v0: int, w: int, carry: int, x: int, y: int, c: int,
                    carry': int, d: int, pi: int, pj: int, p: int)
    requires p == pj * pi
    requires v + carry * p == v0 + y * pj * w
    requires x * y + c + carry == carry' * BASE + d
    ensures (v + d * p) + carry' * (BASE * p) == (v0 + c * p) + y * pj * (w + x * pi)
  {
    assert (x * y + c + carry) * p == (carry' * BASE + d) * p;
    assert (carry' * BASE + d) * p == carry' * (BASE * p) + d * p;
    assert (x * y + c + carry) * p == x * y * p + c * p + carry * p;
    assert y * pj * (w + x * pi) == y * pj * w + y * pj * (x * pi);
    assert y * pj * (x * pi) == x * y * (pj * pi);
  }

  /** All rows: the exact product of two limb sequences. */
  method MulRows(xa: seq<Limb>, wa: nat, xb: seq<Limb>, wb: nat, c0: seq<Limb>) returns (c: seq<Limb>)
    requires wa <= |xa| && wb <= |xb| && wb <= wa && wa + wb <= |c0|
    ensures |c| == |c0|
    ensures Val(c, wa + wb) == Val(xa, wa) * Val(xb, wb)
  {
    c := seq(|c0|, i requires 0 <= i < |c0| => if i < wa + wb then 0 else c0[i]);
    ValZeroTop(c, 0, wa);
    var j := 0;
    while j < wb
      invariant 0 <= j <= wb && |c| == |c0|
      invariant forall i :: j + wa <= i < wa + wb ==> c[i] == 0
      invariant Val(c, j + wa) == Val(xa, wa) * Val(xb, j)
    {
      var y := xb[j];
      ghost var before := c;
      if y != 0 {
        c := MulInto(xa, wa, y, c, j);
        assert forall i :: j + wa < i < |c| ==> c[i] == c[j + wa + 1..][i - (j + wa + 1)]
                                             == before[j + wa + 1..][i - (j + wa + 1)] == before[i];
      }
      RowStep(Val(xa, wa), Val(xb, j), y, Pow(BASE, j));
      j := j + 1;
    }
  }

  lemma RowStep(va: int, vb: int, y: int, p: int)
    ensures va * vb + y * p * va == va * (vb + y * p)
    ensures y == 0 ==> va * vb == va * (vb + y * p)
  {
    assert va * (y * p) == y * p * va;
  }

  method Product(xa: seq<Limb>, wa: nat, xb: seq<Limb>, wb: nat, c0: seq<Limb>)
    returns (c: seq<Limb>, wc: nat)
    requires wa <= |xa| && wb <= |xb| && wb <= wa && wa + wb <= |c0|
    ensures |c| == |c0| && wc <= wa + wb
    ensures Val(c, wc) == Val(xa, wa) * Val(xb, wb)
    ensures wc > 0 ==> c[wc - 1] != 0
    ensures wc == 0 && wa > 0 ==> c[0] == 0
    ensures Val(xa, wa) > 0 && Val(xb, wb) > 0 ==> wc > 0
    ensures wc == 0 <==> Val(c, wc) == 0
  {
    c := MulRows(xa, wa, xb, wb, c0);
    wc := Trim(c, wa + wb);
    Commute(Val(xa, wa), Val(xb, wb));
    if wc > 0 { TopPositive(c, wc); }
  }

  lemma TopPositive(c: seq<Limb>, w: nat)
    requires 1 <= w <= |c| && c[w - 1] != 0
    ensures Val(c, w) > 0
  {
    ValTop(c, w);
    PowPositive(BASE, w - 1);
  }

  lemma Commute(a: nat, b: nat)
    ensures a * b == b * a
    ensures a > 0 && b > 0 ==> a * b > 0
  {
    if a > 0 { MulMono(1, a, b); }
  }

  /** Drops leading zero limbs. */
  method Trim(x: seq<Limb>, n: nat) returns (w: nat)
    requires n <= |x|
    ensures w <= n && Val(x, w) == Val(x, n)
    ensures w > 0 ==> x[w - 1] != 0
    ensures forall i :: w <= i < n ==> x[i] == 0
  {
    w := n;
    while w > 0 && x[w - 1] == 0
      invariant w <= n
      invariant forall i :: w <= i < n ==> x[i] == 0
    {
      w := w - 1;
    }
    ValZeroTop(x, w, n);
  }

  // ----- cmp -----

  /** Compares n limbs from the most significant one down. */
  method CompareLimbs(xa: seq<Limb>, xb: seq<Limb>, n: nat) returns (r: int)
    requires 1 <= n <= |xa| && n <= |xb|
    ensures r < 0 <==> Val(xa, n) < Val(xb, n)
    ensures r > 0 <==> Val(xa, n) > Val(xb, n)
  {
    var i := n;
    while true
      invariant 1 <= i <= n
      invariant forall j :: i <= j < n ==> xa[j] == xb[j]
      decreases i
    {
      i := i - 1;
      if xa[i] != xb[i] {
        if xa[i] < xb[i] {
          ValOrder(xa, xb, i, n);
          return -1;
        } else {
          ValOrder(xb, xa, i, n);
          return 1;
        }
      }
      if i <= 0 {
        break;
      }
    }
    ValSame(xa, xb, n);
    return 0;
  }

  // ----- quorem -----

  /** Subtracts q times the n limbs of xs; e is the borrow plus the carry left over. */
  method SubtractMultiple(xb: seq<Limb>, xs: seq<Limb>, n: nat, q: Limb)
    returns (x: seq<Limb>, ghost e: nat)
    requires 1 <= n <= |xb| && n <= |xs|
    ensures |x| == |xb|
    ensures Val(x, n) - e * Pow(BASE, n) == Val(xb, n) - q * Val(xs, n)
  {
    x, e := xb, 0;
    var borrow, carry: Limb := 0, 0;
    var i := 0;
    while i == 0 || i < n
      invariant 0 <= i <= n && |x| == |xb| && x[i..] == xb[i..]
      invariant 0 <= borrow <= 1 && e == borrow + carry
      invariant Val(x, i) - e * Pow(BASE, i) == Val(xb, i) - q * Val(xs, i)
      decreases n - i
    {
      x, borrow, carry := SubtractLimb(xb, xs, x, i, q, borrow, carry);
      e := borrow + carry;
      i := i + 1;
    }
  }

  method SubtractLimb(ghost xb: seq<Limb>, xs: seq<Limb>, x: seq<Limb>, i: nat, q: Limb, borrow: Limb, carry: Limb)
    returns (x': seq<Limb>, borrow': Limb, carry': Limb)
    requires i < |x| == |xb| && i < |xs| && x[i..] == xb[i..] && borrow <= 1
    requires Val(x, i) - (borrow + carry) * Pow(BASE, i) == Val(xb, i) - q * Val(xs, i)
    ensures |x'| == |xb| && x'[i + 1..] == xb[i + 1..] && borrow' <= 1
    ensures Val(x', i + 1) - (borrow' + carry') * Pow(BASE, i + 1) == Val(xb, i + 1) - q * Val(xs, i + 1)
  {
    SubtractStep(xb, xs, x, i, q, borrow, carry);
    var ys := Wrap64(xs[i] * q + carry);
    var y := Wrap64(x[i] - ys % BASE - borrow);
    carry' := ys / BASE;
    borrow' := y / BASE % 2;
    x' := x[i := y % BASE];
  }

  lemma SubtractStep(xb: seq<Limb>, xs: seq<Limb>, x: seq<Limb>, i: nat, q: Limb, borrow: nat, carry: Limb)
    requires i < |x| == |xb| && i < |xs| && x[i..] == xb[i..] && borrow <= 1
    requires Val(x, i) - (borrow + carry) * Pow(BASE, i) == Val(xb, i) - q * Val(xs, i)
    ensures var ys := Wrap64(xs[i] * q + carry);
            var y := Wrap64(x[i] - ys % BASE - borrow);
            var x' := x[i := y % BASE];
            && x'[i + 1..] == xb[i + 1..] && ys / BASE < BASE
            && Val(x', i + 1) - (y / BASE % 2 + ys / BASE) * Pow(BASE, i + 1) == Val(xb, i + 1) - q * Val(xs, i + 1)
  {
    var ys := Wrap64(xs[i] * q + carry);
    var y := Wrap64(x[i] - ys % BASE - borrow);
    LimbProduct(xs[i], q, 0, carry);
    BorrowBit(x[i], ys % BASE, borrow);
    assert x[i] == x[i..][0] == xb[i..][0] == xb[i];
    SetLimb(x, i, y % BASE);
    BorrowStep(Val(x, i), Val(xb, i), Val(xs, i), q, borrow + carry, x[i], xs[i],
               y / BASE % 2 + ys / BASE, y % BASE, Pow(BASE, i));
    assert x[i := y % BASE][i + 1..] == x[i..][1..] == xb[i..][1..];
  }

  /** If the multiple does not exceed the minuend, nothing is left to borrow. */
  lemma NoBorrowLeft(v: int, e: nat, p: int, w: int)
    requires v - e * p == w && 0 <= v < p && 0 <= w
    ensures e == 0 && v == w
  {
    if e >= 1 { MulMono(1, e, p); }
  }

  // ----- The borrow loops of diff -----

  /** One limb of a difference: y is the limb taken away, or 0 behind the end. */
  method DiffLimb(c: seq<Limb>, xa: seq<Limb>, i: nat, y: Limb, borrow: Limb, ghost w: int, ghost z: int)
    returns (c': seq<Limb>, borrow': Limb)
    requires i < |c| && i < |xa| && borrow <= 1
    requires Val(c, i) - borrow * Pow(BASE, i) == w - z
    ensures |c'| == |c| && borrow' <= 1
    ensures Val(c', i + 1) - borrow' * Pow(BASE, i + 1) == (w + xa[i] * Pow(BASE, i)) - (z + y * Pow(BASE, i))
  {
    var d := Wrap64(xa[i] - y - borrow);
    BorrowBit(xa[i], y, borrow);
    SetLimb(c, i, d % BASE);
    BorrowStep(Val(c, i), w, z, 1, borrow, xa[i], y, d / BASE % 2, d % BASE, Pow(BASE, i));
    borrow' := d / BASE % 2;
    c' := c[i := d % BASE];
  }

  method DiffLimbs(xa: seq<Limb>, wa: nat, xb: seq<Limb>, wb: nat, c0: seq<Limb>) returns (c: seq<Limb>)
    requires 1 <= wb <= wa <= |xa| && wb <= |xb| && wa <= |c0|
    requires Val(xb, wb) <= Val(xa, wa)
    ensures |c| == |c0| && Val(c, wa) == Val(xa, wa) - Val(xb, wb)
  {
    c := c0;
    var borrow: Limb := 0;
    var i := 0;
    while i == 0 || i < wb
      invariant 0 <= i <= wb && |c| == |c0| && borrow <= 1
      invariant Val(c, i) - borrow * Pow(BASE, i) == Val(xa, i) - Val(xb, i)
      decreases wb - i
    {
      c, borrow := DiffLimb(c, xa, i, xb[i], borrow, Val(xa, i), Val(xb, i));
      i := i + 1;
    }
    while i < wa
      invariant wb <= i <= wa && |c| == |c0| && borrow <= 1
      invariant Val(c, i) - borrow * Pow(BASE, i) == Val(xa, i) - Val(xb, wb)
    {
      c, borrow := DiffLimb(c, xa, i, 0, borrow, Val(xa, i), Val(xb, wb));
      i := i + 1;
    }
    ValBound(c, wa);
    NoBorrowLeft(Val(c, wa), borrow, Pow(BASE, wa), Val(xa, wa) - Val(xb, wb));
  }

  // ----- The quotient estimate of quorem -----

  /** Dividing top limbs with the divisor's rounded up estimates the quotient
      from below, ... */
  lemma EstimateLow(lb: nat, u: nat, ls: nat, t: nat, p: nat)
    requires lb < p && ls < p
    ensures (u / (t + 1)) * (ls + t * p) <= lb + u * p
  {
    var q, s := u / (t + 1), ls + t * p;
    assert q * (t + 1) <= u;
    assert s <= (t + 1) * p;
    MulMono(s, (t + 1) * p, q);
    MulAssoc(q, t + 1, p);
    MulMono(q * (t + 1), u, p);
  }

  /** ... and by at most one, if the divisor's top limb has more than sixteen bits. */
  lemma EstimateHigh(lb: nat, u: nat, ls: nat, t: nat, p: nat)
    requires lb < p && ls < p && 0x1_0000 <= t && u < BASE
    ensures u / (t + 1) < 0x1_0000
    ensures lb + u * p < (u / (t + 1) + 2) * (ls + t * p)
  {
    var q, s := u / (t + 1), ls + t * p;
    assert q < 0x1_0000 && u < q * t + q + t + 1 by {
      assert q * (t + 1) == q * t + q;
      assert q * (t + 1) <= u < q * (t + 1) + (t + 1);
      if q >= 0x1_0000 { MulMono(0x1_0000, q, t + 1); }
    }
    assert (q + 2) * t == q * t + 2 * t;
    MulMono(u + 1, (q + 2) * t, p);
    MulAssoc(q + 2, t, p);
    MulMono(t * p, s, q + 2);
    assert (u + 1) * p == u * p + p;
  }

  /** The trimming of quorem, when limb n has become zero: at least one limb
      stays in use, unless there was only one. */
  method TrimRemainder(x: seq<Limb>, n: nat) returns (w: nat)
    requires n < |x| && x[n] == 0
    ensures w <= n && Val(x, w) == Val(x, n + 1)
    ensures n == 0 ==> w == 0
    ensures n >= 1 ==> w == 1 || (w > 1 && x[w - 1] != 0)
  {
    w := n;
    var i := n - 1;
    while i > 0 && x[i] == 0
      invariant w == i + 1 && w <= n && (n >= 1 ==> w >= 1)
      invariant forall j :: w <= j <= n ==> x[j] == 0
      decreases i
    {
      w := w - 1;
      i := i - 1;
    }
    ValZeroTop(x, w, n + 1);
  }

  // ----- lshift -----

  /** One limb of a left shift by k bits, with z the bits shifted in from below. */
  method ShiftLimb(x: Limb, k: nat, z: Limb) returns (d: Limb, z': Limb)
    requires 1 <= k <= 31 && z < Pow2(k)
    ensures x * Pow2(k) + z == z' * BASE + d && z' < Pow2(k)
  {
    Complement(k);
    d, z' := ShiftBy(x, k, z, Pow2(k), Pow2(32 - k));
  }

  method ShiftBy(x: Limb, ghost k: nat, z: Limb, p: nat, r: nat) returns (d: Limb, z': Limb)
    requires p == Pow2(k) && r > 0 && r * p == BASE && z < p
    ensures x * p + z == z' * BASE + d && z' < p
  {
    ShiftParts(x, p, r, z);
    var high := x * p % BASE;
    OrParts(x % r, k, z, p, high);
    d := Or(high, z);
    z' := x / r;
  }

  lemma OrParts(a: nat, k: nat, z: nat, p: nat, high: nat)
    requires p == Pow2(k) && high == a * p && z < p
    ensures Or(high, z) == high + z
  {
    OrDisjoint(a, k, z);
  }

  lemma Complement(k: nat)
    requires k <= 32
    ensures Pow2(32 - k) * Pow2(k) == BASE
  {
    Pow2Add(32 - k, k);
    Pow2At32();
  }

  lemma ShiftParts(x: Limb, p: nat, r: nat, z: nat)
    requires p > 0 && r > 0 && r * p == BASE && z < p
    ensures x * p % BASE == (x % r) * p
    ensures x * p + z == (x / r) * BASE + ((x % r) * p + z)
    ensures (x % r) * p + z < BASE && x / r < p && x / r <= x
  {
    var h, l := x / r, x % r;
    assert x == h * r + l;
    MulAssoc(h, r, p);
    assert x * p == h * BASE + l * p;
    MulMono(l + 1, r, p);
    assert l * p + p <= BASE;
    DivModUnique(h, BASE, l * p);
    if h >= p { MulMono(p, h, r); }
    MulMono(1, r, h);
  }

  /** The shifting loop: w limbs of x shifted left by k bits, from limb n of
      the result on; z is what is shifted out of the top. */
  method ShiftLimbs(x: seq<Limb>, w: nat, k: nat, out0: seq<Limb>, n: nat)
    returns (out: seq<Limb>, z: Limb)
    requires 1 <= w <= |x| && n + w <= |out0| && 1 <= k <= 31 && Val(out0, n) == 0
    ensures |out| == |out0| && z < Pow2(k)
    ensures Val(out, n + w) + z * Pow(BASE, n + w) == Pow2(k) * Pow(BASE, n) * Val(x, w)
  {
    out, z := out0, 0;
    var i := 0;
    while i == 0 || i < w
      invariant 0 <= i <= w && |out| == |out0| && z < Pow2(k)
      invariant Val(out, n + i) + z * Pow(BASE, n + i) == Pow2(k) * Pow(BASE, n) * Val(x, i)
      decreases w - i
    {
      var d, z' := ShiftLimb(x[i], k, z);
      ShiftStep(x, i, Pow2(k), out, n, z, d, z');
      out, z := out[n + i := d], z';
      i := i + 1;
    }
  }

  lemma ShiftStep(x: seq<Limb>, i: nat, m: nat, out: seq<Limb>, n: nat, z: Limb, d: Limb, z': Limb)
    requires i < |x| && n + i < |out| && x[i] * m + z == z' * BASE + d
    requires Val(out, n + i) + z * Pow(BASE, n + i) == m * Pow(BASE, n) * Val(x, i)
    ensures Val(out[n + i := d], n + (i + 1)) + z' * Pow(BASE, n + (i + 1)) == m * Pow(BASE, n) * Val(x, i + 1)
  {
    SetLimb(out, n + i, d);
    PowAdd(BASE, n, i);
    ProductStep(Val(out, n + i), 0, Val(x, i), z, x[i], m, 0, z', d,
                Pow(BASE, i), Pow(BASE, n), Pow(BASE, n + i));
  }

  /** A shift by any number of bits: whole limbs first, then the rest. */
  method ShiftAll(x: seq<Limb>, w: nat, k: nat, out0: seq<Limb>) returns (out: seq<Limb>, wds: nat)
    requires 1 <= w <= |x| && k / 32 + w < |out0|
    ensures |out| == |out0| && k / 32 + w <= wds <= k / 32 + w + 1
    ensures Val(out, wds) == Val(x, w) * Pow2(k)
    ensures x[w - 1] != 0 ==> out[wds - 1] != 0
  {
    var n, r := k / 32, k % 32;
    out := seq(|out0|, i requires 0 <= i < |out0| => if i < n then 0 else out0[i]);
    ValZeroTop(out, 0, n);
    ShiftPower(n, r, Val(x, w));
    wds := n + w;
    if r != 0 {
      var z;
      out, z := ShiftLimbs(x, w, r, out, n);
      SetLimb(out, n + w, z);
      ghost var before := out;
      out := out[n + w := z];
      ValSame(before, out, n + w);
      if z != 0 {
        wds := wds + 1;
      }
    } else {
      out := out[..n] + x[..w] + out[n + w..];
      ValShift(x, w, out, n);
    }
    if x[w - 1] != 0 && wds == n + w {
      ShiftTop(x, w, k, n);
      ValTopNonzero(out, wds);
    }
  }

  lemma ShiftPower(n: nat, r: nat, v: nat)
    ensures Pow2(r) * Pow(BASE, n) * v == v * Pow2(32 * n + r)
    ensures r == 0 ==> v * Pow(BASE, n) == v * Pow2(32 * n + r)
  {
    Pow2Add(32 * n, r);
    Pow2Limb(n);
    assert Pow2(r) * Pow(BASE, n) == Pow2(32 * n + r);
  }

  lemma ShiftTop(x: seq<Limb>, w: nat, k: nat, n: nat)
    requires 1 <= w <= |x| && x[w - 1] != 0 && n == k / 32
    ensures Val(x, w) * Pow2(k) >= Pow(BASE, n + w - 1)
  {
    ValTop(x, w);
    PowAdd(BASE, w - 1, n);
    Pow2Limb(n);
    Pow2Monotone(32 * n, k);
    MulMono(Pow(BASE, w - 1), Val(x, w), Pow2(k));
    MulMono(Pow(BASE, n), Pow2(k), Pow(BASE, w - 1));
  }

  // ----- hi0bits -----

  lemma ClearTop(x: nat, s: nat, mask: nat)
    requires 1 <= s <= 16 && mask == (Pow2(s) - 1) * Pow2(32 - s) && x < BASE
    ensures And(x, mask) == 0 <==> x < Pow2(32 - s)
  {
    Pow2At32();
    assert 32 - s + s == 32;
    AndHigh(x, 32 - s, s, mask);
  }

  /** One halving step: if the top s bits are clear, they are shifted out. */
  method ShiftIfClear(x: nat, k: nat, s: nat, mask: nat, ghost x0: nat) returns (x': nat, k': nat)
    requires 1 <= s <= 16 && mask == (Pow2(s) - 1) * Pow2(32 - s)
    requires x == x0 * Pow2(k) && x < BASE && (x0 > 0 ==> x >= Pow2(32 - 2 * s))
    ensures x' == x0 * Pow2(k') && x' < BASE && (x0 > 0 ==> x' >= Pow2(32 - s))
    ensures k' == k || k' == k + s
    ensures x0 == 0 ==> k' == k + s
  {
    x', k' := x, k;
    ClearTop(x, s, mask);
    if And(x, mask) == 0 {
      ShiftOut(x, k, s, x0);
      x', k' := x * Pow2(s), k + s;
    }
  }

  lemma ShiftOut(x: nat, k: nat, s: nat, x0: nat)
    requires 1 <= s <= 16 && x == x0 * Pow2(k) && x < Pow2(32 - s)
    ensures x * Pow2(s) == x0 * Pow2(k + s) && x * Pow2(s) < BASE
    ensures x >= Pow2(32 - 2 * s) ==> x * Pow2(s) >= Pow2(32 - s)
  {
    Pow2Add(k, s);
    MulAssoc(x0, Pow2(k), Pow2(s));
    Pow2At32();
    Pow2Scale(x, 32 - s, s);
    Pow2Scale(x, 32 - 2 * s, s);
  }

  lemma Pow2Scale(x: nat, a: nat, s: nat)
    ensures x < Pow2(a) ==> x * Pow2(s) < Pow2(a + s)
    ensures x >= Pow2(a) ==> x * Pow2(s) >= Pow2(a + s)
  {
    Pow2Add(a, s);
    if x < Pow2(a) {
      MulMono(x + 1, Pow2(a), Pow2(s));
      assert (x + 1) * Pow2(s) == x * Pow2(s) + Pow2(s);
    } else {
      MulMono(Pow2(a), x, Pow2(s));
    }
  }

  /** The number of leading zero bits. */
  method Hi0Bits(x0: Limb) returns (k: nat)
    ensures x0 == 0 ==> k == 32
    ensures x0 > 0 ==> k <= 31 && 0x8000_0000 <= x0 * Pow2(k) < BASE
  {
    SmallPow2();
    var x: nat := x0;
    k := 0;
    x, k := ShiftIfClear(x, k, 16, 0xffff_0000, x0);
    x, k := ShiftIfClear(x, k, 8, 0xff00_0000, x0);
    x, k := ShiftIfClear(x, k, 4, 0xf000_0000, x0);
    x, k := ShiftIfClear(x, k, 2, 0xc000_0000, x0);
    AndHigh(x, 31, 1, 0x8000_0000);
    if And(x, 0x8000_0000) == 0 {
      k := k + 1;
      LastBit(x, x0, k);
      if And(x, 0x4000_0000) == 0 {
        return 32;
      }
    }
  }

  lemma SmallPow2()
    ensures Pow2(1) == 2 && Pow2(2) == 4 && Pow2(4) == 16 && Pow2(8) == 256 && Pow2(16) == 0x1_0000
    ensures Pow2(24) == 0x100_0000 && Pow2(28) == 0x1000_0000 && Pow2(30) == 0x4000_0000
    ensures Pow2(31) == 0x8000_0000 && Pow2(32) == BASE
  {
    Pow2At32();
    Pow2Add(4, 4);
    Pow2Add(16, 8);
    assert Pow2(31) == 2 * Pow2(30);
  }

  lemma LastBit(x: nat, x0: nat, k: nat)
    requires x < 0x8000_0000 && k > 0 && x == x0 * Pow2(k - 1)
    ensures And(x, 0x4000_0000) == 0 <==> x < 0x4000_0000
    ensures x0 * Pow2(k) == 2 * x
  {
    SmallPow2();
    AndHigh(x, 30, 1, 0x4000_0000);
    Double(x0, Pow2(k - 1));
  }
}
