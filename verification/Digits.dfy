/** Digit generation: the part of dtoa that turns the fraction b / S into
    decimal digits with exact integer arithmetic, and rounds the last one. */
module Digits {
  import opened LimbMath
  import opened LimbKernels
  import opened Bigints
  import opened Bits

  // ----- Decimal digit strings -----

  type Digit = d: int | 0 <= d <= 9

  ghost function DecVal(ds: seq<Digit>): nat
  {
    if ds == [] then 0 else 10 * DecVal(ds[..|ds| - 1]) + ds[|ds| - 1]
  }

  /** Position j of the decimal expansion of v / s, position 0 being the units. */
  ghost function DigitAt(v: nat, s: nat, j: nat): nat
    requires s > 0
  {
    v * Pow(10, j) / s % 10
  }

  /** r is the integer nearest to v / s, the even one if two are equally near. */
  ghost predicate NearestEven(r: int, v: int, s: int)
  {
    var e := 2 * (v - r * s);
    -s <= e <= s && (e == s || e == -s ==> r % 2 == 0)
  }

  /** There is only one such integer. */
  lemma NearestEvenUnique(r: int, r': int, v: int, s: int)
    requires s > 0 && NearestEven(r, v, s) && NearestEven(r', v, s)
    ensures r == r'
  {
    if r < r' {
      NearestApart(r, r' - r, v, s);
    } else if r' < r {
      NearestApart(r', r - r', v, s);
    }
  }

  lemma NearestApart(r: int, d: int, v: int, s: int)
    requires s > 0 && d >= 1 && NearestEven(r, v, s)
    ensures !NearestEven(r + d, v, s)
  {
    assert (r + d) * s == r * s + d * s;
    if d >= 2 { MulMono(2, d, s); }
  }

  lemma {:induction false} DecValConcatZeros(ds: seq<Digit>, l: nat)
    requires l <= |ds| && forall i :: l <= i < |ds| ==> ds[i] == 0
    ensures DecVal(ds) == DecVal(ds[..l]) * Pow(10, |ds| - l)
    decreases |ds|
  {
    if l == |ds| {
      assert ds[..l] == ds;
    } else {
      var ds' := ds[..|ds| - 1];
      DecValConcatZeros(ds', l);
      assert ds'[..l] == ds[..l];
      Times10(DecVal(ds[..l]), |ds| - l);
    }
  }

  lemma Times10(v: nat, n: nat)
    requires n > 0
    ensures 10 * (v * Pow(10, n - 1)) == v * Pow(10, n)
  {
    MulAssoc(v, 10, Pow(10, n - 1));
    MulAssoc(10, v, Pow(10, n - 1));
  }

  /** Carrying into a digit string: the nines at the end turn over. */
  lemma {:induction false} DecValNines(ds: seq<Digit>, l: nat)
    requires l <= |ds| && forall i :: l <= i < |ds| ==> ds[i] == 9
    ensures DecVal(ds) + 1 == (DecVal(ds[..l]) + 1) * Pow(10, |ds| - l)
    decreases |ds|
  {
    if l == |ds| {
      assert ds[..l] == ds;
    } else {
      var ds' := ds[..|ds| - 1];
      DecValNines(ds', l);
      assert ds'[..l] == ds[..l];
      Times10(DecVal(ds[..l]) + 1, |ds| - l);
    }
  }

  // ----- Rounding the last digit -----

  /** Adds one unit in the last place: returns the digits, without the nines
      that turned over, and how far the decimal point moves. */
  method BumpUp(ds: seq<Digit>) returns (out: seq<Digit>, kInc: nat)
    requires ds != []
    ensures kInc <= 1 && 1 <= |out| <= |ds|
    ensures DecVal(out) * Pow(10, |ds| + kInc - |out|) == DecVal(ds) + 1
    ensures out[|out| - 1] != 0 && (ds[0] != 0 ==> out[0] != 0)
  {
    var l := |ds|;
    while true
      invariant 1 <= l <= |ds|
      invariant forall i :: l <= i < |ds| ==> ds[i] == 9
      decreases l
    {
      l := l - 1;
      if ds[l] != 9 {
        break;
      }
      if l == 0 {
        DecValNines(ds, 0);
        assert DecVal([1]) == 10 * DecVal([]) + 1;
        return [1], 1;
      }
    }
    DecValNines(ds, l + 1);
    out, kInc := ds[..l] + [ds[l] + 1], 0;
    assert ds[..l + 1][..l] == ds[..l] == out[..l];
  }

  /** Drops trailing zeros.  The source's loop relies on a nonzero digit to stop. */
  method TrimZeros(ds: seq<Digit>) returns (out: seq<Digit>)
    requires ds != [] && ds[0] != 0
    ensures 1 <= |out| <= |ds| && out[0] == ds[0] && out[|out| - 1] != 0
    ensures DecVal(out) * Pow(10, |ds| - |out|) == DecVal(ds)
  {
    var l := |ds|;
    while ds[l - 1] == 0
      invariant 1 <= l <= |ds|
      invariant forall i :: l <= i < |ds| ==> ds[i] == 0
      decreases l
    {
      l := l - 1;
    }
    out := ds[..l];
    DecValConcatZeros(ds, l);
  }

  /** The parity of a number is that of its last digit. */
  lemma LastDigitParity(ds: seq<Digit>)
    requires ds != []
    ensures DecVal(ds) % 2 == ds[|ds| - 1] % 2
  {
  }

  // ----- Scaling the divisor -----

  /** How far to shift S, beyond p2 bits, to leave four leading zero bits;
      a is the index of the highest bit of the top limb before the shift. */
  method DShift(S: Bigint, p2: nat) returns (rv: nat, ghost a: nat)
    requires S.Normal() && S.Value() > 0
    ensures a <= 31 && Pow2(a) <= S.x[S.wds - 1] < Pow2(a + 1)
    ensures rv < 32 && (p2 + rv + a) % 32 == 27
  {
    PositiveTop(S);
    var k := Hi0Bits(S.x[S.wds - 1]);
    a := 31 - k;
    TopRange(S.x[S.wds - 1], k, a);
    rv := ShiftFor(k, p2);
  }

  function ShiftFor(k: nat, p2: nat): (rv: nat)
    requires k <= 31
    ensures rv < 32 && (p2 + rv + (31 - k)) % 32 == 27
  {
    var rv := (k - 4 - p2) % 32;
    assert p2 + rv + (31 - k) == 27 + 32 * -((k - 4 - p2) / 32);
    rv
  }

  lemma PositiveTop(b: Bigint)
    requires b.Normal() && b.Value() > 0
    ensures b.x[b.wds - 1] > 0
  {
    assert Val(b.x, b.wds) == Val(b.x, b.wds - 1) + b.x[b.wds - 1] * Pow(BASE, b.wds - 1);
  }

  /** After the shift S is scaled by 2^s2' and its top limb lies in [2^27, 2^28). */
  method ScaleDivisor(d: Dtoa, S: Bigint, s2: nat) returns (S1: Bigint, s2': nat)
    requires d.Valid() && S !in d.free && S !in d.p5s && S.Normal() && S.Value() > 0
    modifies d, d.free
    ensures d.Valid() && d.p5s == old(d.p5s)
    ensures S1 !in d.free && S1 !in d.p5s && (S1 == S || S1 in old(d.free) || fresh(S1))
    ensures fresh(d.free - old(d.free) - {S})
    ensures s2 <= s2' < s2 + 32 && S1.Normal() && S1.Value() == old(S.Value()) * Pow2(s2')
    ensures 0x800_0000 <= S1.x[S1.wds - 1] < 0x1000_0000
  {
    var i;
    ghost var a;
    i, a := DShift(S, s2);
    s2' := s2 + i;
    S1 := S;
    ghost var x, w := S.x, S.wds;
    if s2' > 0 {
      S1 := d.LShift(S, s2');
    }
    PositiveTop(S);
    ScaledTop(x, w, S1.x, S1.wds, a, s2', (s2' + a) / 32 + (w - 1));
  }

  /** The top limb of a shifted number, from where its highest bit comes to lie. */
  lemma ScaledTop(x: seq<Limb>, w: nat, y: seq<Limb>, u: nat, a: nat, k: nat, e: nat)
    requires 1 <= w <= |x| && 1 <= u <= |y| && a + 32 * (w - 1) + k == 27 + 32 * e
    requires Pow2(a) <= x[w - 1] < Pow2(a + 1)
    requires Val(y, u) == Val(x, w) * Pow2(k) && (u == 1 || y[u - 1] != 0)
    ensures 0x800_0000 <= y[u - 1] < 0x1000_0000
  {
    var b := a + 32 * (w - 1);
    ValRange(x, w, a, b);
    ShiftRange(Val(x, w), b, k);
    TopOf(y, u, e, b + k);
  }

  lemma ShiftRange(v: nat, a: nat, k: nat)
    requires Pow2(a) <= v < Pow2(a + 1)
    ensures Pow2(a + k) <= v * Pow2(k) < Pow2(a + k + 1)
  {
    Pow2Scale(v, a, k);
    Pow2Scale(v, a + 1, k);
  }

  lemma TopRange(t: nat, h: nat, a: nat)
    requires h <= 31 && a == 31 - h && 0x8000_0000 <= t * Pow2(h) < BASE
    ensures Pow2(a) <= t < Pow2(a + 1)
  {
    Pow2At32();
    Pow2Scale(t, a, h);
    Pow2Scale(t, a + 1, h);
  }

  lemma ValRange(x: seq<Limb>, w: nat, a: nat, b: nat)
    requires 1 <= w <= |x| && Pow2(a) <= x[w - 1] < Pow2(a + 1) && b == a + 32 * (w - 1)
    ensures Pow2(b) <= Val(x, w) < Pow2(b + 1)
  {
    ValBound(x, w - 1);
    Pow2Limb(w - 1);
    Pow2Add(a, 32 * (w - 1));
    TopTimes(Val(x, w - 1), x[w - 1], Pow(BASE, w - 1), Pow2(a));
  }

  lemma TopTimes(v: int, t: int, p: int, q: int)
    requires 0 <= v < p && q <= t < 2 * q
    ensures q * p <= v + t * p < 2 * (q * p)
  {
    MulMono(q, t, p);
    MulMono(t + 1, 2 * q, p);
    assert (t + 1) * p == t * p + p;
    MulAssoc(2, q, p);
  }

  lemma TopOf(y: seq<Limb>, u: nat, e: nat, b: nat)
    requires 1 <= u <= |y| && (u == 1 || y[u - 1] != 0) && b == 27 + 32 * e
    requires Pow2(b) <= Val(y, u) < Pow2(b + 1)
    ensures u == e + 1 && 0x800_0000 <= y[u - 1] < 0x1000_0000
  {
    var p := Pow(BASE, e);
    Pow2At32();
    Pow2Limb(e);
    Pow2Add(27, 32 * e);
    LimbCount(y, u, e);
    ValBound(y, e);
    TopLimb(y[e], Val(y, e), p);
  }

  lemma TopLimb(t: int, low: int, p: int)
    requires 0 <= low < p && 0x800_0000 * p <= low + t * p < 0x1000_0000 * p
    ensures 0x800_0000 <= t < 0x1000_0000
  {
    assert (t + 1) * p == t * p + p;
    if t < 0x800_0000 {
      MulMono(t + 1, 0x800_0000, p);
    } else if t >= 0x1000_0000 {
      MulMono(0x1000_0000, t, p);
    }
  }

  lemma LimbCount(y: seq<Limb>, u: nat, e: nat)
    requires 1 <= u <= |y| && (u == 1 || y[u - 1] != 0)
    requires Pow(BASE, e) <= Val(y, u) < BASE * Pow(BASE, e)
    ensures u == e + 1
  {
    ValBound(y, u);
    if u <= e {
      PowMonotone(BASE, u, e);
    } else if u >= e + 2 {
      ValTop(y, u);
      PowMonotone(BASE, e + 1, u - 1);
    }
  }

  // ----- The digit loop -----

  /** A number below 10 * S has no more limbs than S. */
  lemma FewLimbs(b: Bigint, S: Bigint)
    requires b.Canonical() && S.Normal() && S.x[S.wds - 1] < 0x1000_0000 && b.Value() < 10 * S.Value()
    ensures b.wds <= S.wds
  {
    if b.wds > S.wds {
      var n := S.wds - 1;
      ValBound(S.x, n);
      ValTop(b.x, b.wds);
      PowMonotone(BASE, S.wds, b.wds - 1);
      MulMono(S.x[n], 0xfff_ffff, Pow(BASE, n));
    }
  }

  lemma QuotientStep(v: nat, p: nat, dv: nat, s: nat, b: nat, q: nat, r: nat)
    requires v * p == 10 * dv * s + b && b == q * s + r && r < s
    ensures v * p == (10 * dv + q) * s + r
    ensures v * (10 * p) == 10 * (10 * dv + q) * s + 10 * r
    ensures b < 10 * s ==> q <= 9
  {
    var d := 10 * dv + q;
    assert d * s == 10 * dv * s + q * s;
    assert 10 * d * s == 10 * (d * s);
    assert v * (10 * p) == 10 * (v * p);
    if q >= 10 { MulMono(10, q, s); }
  }

  /** The last digit of a truncated quotient is that place of the expansion. */
  lemma DigitIs(v: nat, j: nat, s: nat, dv: nat, q: nat, r: nat)
    requires v * Pow(10, j) == (10 * dv + q) * s + r && r < s && q <= 9
    ensures DigitAt(v, s, j) == q
  {
    DivModUnique(10 * dv + q, s, r);
  }

  /** Generates up to ilim digits of b / S (at least one), stopping early when
      the remainder vanishes.  They are the digits of the decimal expansion,
      and the remainder accounts exactly for what is cut off. */
  method EmitDigits(d: Dtoa, b0: Bigint, S: Bigint, ilim: int) returns (ds: seq<Digit>, b: Bigint)
    requires d.Valid() && b0 !in d.free && b0 !in d.p5s && S !in d.free && b0 != S
    requires b0.Canonical() && S.Normal() && 0x800_0000 <= S.x[S.wds - 1] < 0x1000_0000
    requires b0.Value() < 10 * S.Value()
    modifies d, d.free, b0
    ensures d.Valid() && d.p5s == old(d.p5s) && S !in d.free
    ensures b !in d.free && b !in d.p5s && b != S && b.Canonical()
    ensures (b == b0 || b in old(d.free) || fresh(b)) && fresh(d.free - old(d.free) - {b0})
    ensures |ds| == 1 || |ds| <= ilim
    ensures Emitted(old(b0.Value()), S.Value(), ds, b.Value()) && (b.Value() > 0 ==> |ds| >= ilim)
  {
    ghost var v, s := b0.Value(), S.Value();
    b := b0;
    ds := [];
    var i := 1;
    while true
      invariant d.Valid() && d.p5s == old(d.p5s) && S !in d.free && i == |ds| + 1
      invariant b !in d.free && b !in d.p5s && b != S && b.Canonical() && b.Value() < 10 * s
      invariant (b == b0 || b in old(d.free) || fresh(b)) && fresh(d.free - old(d.free) - {b0})
      invariant |ds| == 0 || |ds| < ilim
      invariant Pending(v, s, ds, b.Value())
      decreases ilim - i
    {
      var q := NextDigit(b, S, v, ds);
      ds := ds + [q];
      ZeroTest(b);
      if b.x[0] == 0 && b.wds <= 1 {
        break;
      }
      if i >= ilim {
        break;
      }
      b := d.MultAdd(b, 10, 0);
      i := i + 1;
    }
  }

  /** The digits ds have been generated from v / s, and b is ten times the
      remainder (or v itself, before the first digit). */
  ghost predicate Pending(v: nat, s: nat, ds: seq<Digit>, b: nat)
    requires s > 0
  {
    && (forall j :: 0 <= j < |ds| ==> ds[j] == DigitAt(v, s, j))
    && v * Pow(10, |ds|) == 10 * DecVal(ds) * s + b
    && (b > 0 || (ds == [] && v == 0))
  }

  /** The digits ds have been generated from v / s, leaving remainder r. */
  ghost predicate Emitted(v: nat, s: nat, ds: seq<Digit>, r: nat)
    requires s > 0
  {
    && |ds| >= 1 && r < s
    && (forall j :: 0 <= j < |ds| ==> ds[j] == DigitAt(v, s, j))
    && v * Pow(10, |ds| - 1) == DecVal(ds) * s + r
    && (r == 0 && v > 0 ==> ds[|ds| - 1] != 0)
  }

  /** One digit: the quotient of what is left of v, with b becoming the remainder. */
  method NextDigit(b: Bigint, S: Bigint, ghost v: nat, ghost ds: seq<Digit>) returns (q: Digit)
    requires b != S && b.Canonical() && S.Normal() && 0x800_0000 <= S.x[S.wds - 1] < 0x1000_0000
    requires b.Value() < 10 * S.Value() && Pending(v, S.Value(), ds, b.Value())
    modifies b
    ensures b.Canonical() && Emitted(v, S.Value(), ds + [q], b.Value())
    ensures b.Value() > 0 ==> Pending(v, S.Value(), ds + [q], 10 * b.Value())
  {
    FewLimbs(b, S);
    ghost var b1 := b.Value();
    var q' := QuoRem(b, S);
    DigitStep(v, S.Value(), ds, b1, q', b.Value());
    q := q';
  }

  lemma DigitStep(v: nat, s: nat, ds: seq<Digit>, b: nat, q: nat, r: nat)
    requires s > 0 && Pending(v, s, ds, b) && b == q * s + r && r < s && b < 10 * s
    ensures q <= 9 && Emitted(v, s, ds + [q], r) && (r > 0 ==> Pending(v, s, ds + [q], 10 * r))
  {
    QuotientStep(v, Pow(10, |ds|), DecVal(ds), s, b, q, r);
    DigitIs(v, |ds|, s, DecVal(ds), q, r);
    assert (ds + [q])[..|ds|] == ds;
  }

  /** The test for a vanished remainder. */
  lemma ZeroTest(b: Bigint)
    requires b.Canonical()
    ensures b.x[0] == 0 && b.wds <= 1 <==> b.Value() == 0
  {
    if b.wds > 1 {
      ValTop(b.x, b.wds);
      PowPositive(BASE, b.wds - 1);
    } else if b.wds == 1 {
      assert Val(b.x, 1) == Val(b.x, 0) + b.x[0] * Pow(BASE, 0);
    }
  }

  /** Digit generation followed by rounding at digit ilim: the digits
      returned, read with ilim + kInc places, are v / S in units of the last of
      ilim places, rounded to the nearest, ties to even.  They carry no trailing
      zero. */
  method RoundedDigits(d: Dtoa, b0: Bigint, S: Bigint, ilim: nat) returns (out: seq<Digit>, kInc: nat)
    requires d.Valid() && b0 !in d.free && b0 !in d.p5s && S !in d.free && b0 != S
    requires b0.Canonical() && S.Normal() && 0x800_0000 <= S.x[S.wds - 1] < 0x1000_0000
    requires S.Value() <= b0.Value() < 10 * S.Value() && ilim >= 1
    modifies d, d.free, b0
    ensures d.Valid() && d.p5s == old(d.p5s) && S !in d.free && fresh(d.free - old(d.free) - {b0})
    ensures kInc <= 1 && 1 <= |out| <= ilim + kInc && out[0] != 0 && out[|out| - 1] != 0
    ensures NearestEven(DecVal(out) * Pow(10, ilim + kInc - |out|), old(b0.Value()) * Pow(10, ilim - 1), S.Value())
  {
    ghost var v, s := b0.Value(), S.Value();
    var ds, b := EmitDigits(d, b0, S, ilim);
    FirstDigit(v, s, ds[0]);
    ZeroTest(b);
    if b.x[0] == 0 && b.wds <= 1 {
      Exactly(DecVal(ds), v, s, |ds|, ilim);
      out, kInc := ds, 0;
      return;
    }
    assert |ds| == ilim && v * Pow(10, ilim - 1) == DecVal(ds) * s + b.Value();
    out, kInc := RoundLast(d, b, S, ds, v * Pow(10, ilim - 1));
  }

  /** Digits that stop early, because nothing is left, are exact. */
  lemma Exactly(x: int, v: int, s: int, n: nat, ilim: nat)
    requires s > 0 && 1 <= n <= ilim && v * Pow(10, n - 1) == x * s
    ensures NearestEven(x * Pow(10, ilim - n), v * Pow(10, ilim - 1), s)
  {
    PowAdd(10, n - 1, ilim - n);
    MulAssoc(v, Pow(10, n - 1), Pow(10, ilim - n));
    Swap(x, s, Pow(10, ilim - n));
  }

  lemma Swap(x: int, s: int, p: int)
    ensures (x * s) * p == (x * p) * s
  {
  }

  /** Rounds the last digit by comparing twice the remainder with the divisor. */
  method RoundLast(d: Dtoa, b: Bigint, S: Bigint, ds: seq<Digit>, ghost v: nat)
    returns (out: seq<Digit>, kInc: nat)
    requires d.Valid() && b !in d.free && b !in d.p5s && S !in d.free && b != S
    requires b.Canonical() && S.Normal() && 0 < b.Value() < S.Value()
    requires ds != [] && ds[0] != 0 && v == DecVal(ds) * S.Value() + b.Value()
    modifies d, d.free
    ensures d.Valid() && d.p5s == old(d.p5s) && S !in d.free && fresh(d.free - old(d.free) - {b})
    ensures kInc <= 1 && 1 <= |out| <= |ds| && out[0] != 0 && out[|out| - 1] != 0
    ensures NearestEven(DecVal(out) * Pow(10, |ds| + kInc - |out|), v, S.Value())
  {
    ghost var r := b.Value();
    assert Pow2(1) == 2;
    var b2 := d.LShift(b, 1);
    var j := Cmp(b2, S);
    out, kInc := RoundDigits(ds, j, v, S.Value(), r);
  }

  /** The rounding decision and its effect on the digits. */
  method RoundDigits(ds: seq<Digit>, j: int, ghost v: nat, ghost s: nat, ghost r: nat)
    returns (out: seq<Digit>, kInc: nat)
    requires ds != [] && ds[0] != 0 && v == DecVal(ds) * s + r && r < s && SameSign(j, 2 * r, s)
    ensures kInc <= 1 && 1 <= |out| <= |ds| && out[0] != 0 && out[|out| - 1] != 0
    ensures NearestEven(DecVal(out) * Pow(10, |ds| + kInc - |out|), v, s)
  {
    LastDigitParity(ds);
    RoundCases(v, s, DecVal(ds), r);
    if j > 0 || (j == 0 && ds[|ds| - 1] % 2 == 1) {
      out, kInc := BumpUp(ds);
    } else {
      kInc := 0;
      out := TrimZeros(ds);
    }
  }

  lemma FirstDigit(v: nat, s: nat, q: nat)
    requires s > 0 && s <= v < 10 * s && q == DigitAt(v, s, 0)
    ensures q != 0
  {
    assert Pow(10, 0) == 1;
    var a := v / s;
    assert v == a * s + v % s;
    if a >= 10 { MulMono(10, a, s); }
  }

  /** Rounding up or down, decided by twice the remainder. */
  lemma RoundCases(v: nat, s: nat, q: nat, r: nat)
    requires v == q * s + r && r < s
    ensures 2 * r < s || (2 * r == s && q % 2 == 0) ==> NearestEven(q, v, s)
    ensures 2 * r > s || (2 * r == s && q % 2 == 1) ==> NearestEven(q + 1, v, s)
  {
    assert (q + 1) * s == q * s + s;
  }

  // ----- The whole conversion of a scaled integer -----

  lemma NearestScale(r: int, v: int, s: int, c: int)
    requires c > 0 && NearestEven(r, v * c, s * c)
    ensures NearestEven(r, v, s)
  {
    var e := 2 * (v - r * s);
    MulAssoc(r, s, c);
    assert 2 * (v * c - r * (s * c)) == e * c;
    assert (-s) * c == -(s * c);
    if e > s { MulMono(s + 1, e, c); }
    if e < -s { MulMono(e + 1, -s, c); }
  }

  /** The denominator 5^s5. */
  method FivePower(d: Dtoa, s5: nat) returns (S: Bigint)
    requires d.Valid()
    modifies d, d.free
    ensures d.Valid() && fresh(d.free - old(d.free))
    ensures S !in d.free && S !in d.p5s && (S in old(d.free) || fresh(S))
    ensures forall o :: o in d.p5s ==> o in old(d.p5s) || o in old(d.free) || fresh(o)
    ensures S.Normal() && S.Value() == Pow(5, s5)
  {
    S := d.I2B(1);
    if s5 > 0 {
      S := d.Pow5Mult(S, s5);
    }
    PowPositive(5, s5);
  }

  /** The denominator 5^s5 * 2^s2, scaled by 2^i. */
  method Divisor(d: Dtoa, s2: nat, s5: nat) returns (S: Bigint, i: nat)
    requires d.Valid()
    modifies d, d.free
    ensures d.Valid() && fresh(d.free - old(d.free))
    ensures S !in d.free && S !in d.p5s && (S in old(d.free) || fresh(S))
    ensures forall o :: o in d.p5s ==> o in old(d.p5s) || o in old(d.free) || fresh(o)
    ensures S.Normal() && S.Value() == Pow(5, s5) * Pow2(s2 + i)
    ensures 0x800_0000 <= S.x[S.wds - 1] < 0x1000_0000
  {
    S := FivePower(d, s5);
    PowPositive(5, s5);
    var s2';
    S, s2' := ScaleDivisor(d, S, s2);
    i := s2' - s2;
  }

  /** The numerator b * 5^b5. */
  method Numerator(d: Dtoa, b0: Bigint, b5: nat) returns (b: Bigint)
    requires d.Valid() && b0 !in d.free && b0 !in d.p5s && b0.Normal() && b0.Value() > 0
    modifies d, d.free, b0
    ensures d.Valid() && b !in d.free && b !in d.p5s
    ensures (b == b0 || b in old(d.free) || fresh(b)) && fresh(d.free - old(d.free) - {b0})
    ensures b.Normal() && b.Value() > 0 && b.Value() == old(b0.Value()) * Pow(5, b5)
  {
    PowPositive(5, b5);
    Commute(b0.Value(), Pow(5, b5));
    b := b0;
    if b5 > 0 {
      b := d.Pow5Mult(b, b5);
    }
  }

  /** Numerator and denominator, both scaled by 2^i so that the denominator's
      top limb suits the quotient estimate. */
  method Prepare(d: Dtoa, b0: Bigint, b2: nat, b5: nat, s2: nat, s5: nat)
    returns (b: Bigint, S: Bigint, ghost i: nat)
    requires d.Valid() && b0 !in d.free && b0 !in d.p5s && b0.Normal() && b0.Value() > 0
    modifies d, d.free, b0
    ensures d.Valid() && b !in d.free && S !in d.free && b !in d.p5s && S !in d.p5s && b != S
    ensures (b == b0 || b in old(d.free) || fresh(b)) && fresh(d.free - old(d.free) - {b0})
    ensures S == b0 || S in old(d.free) || fresh(S)
    ensures b.Normal() && b.Value() == old(b0.Value()) * Pow(5, b5) * Pow2(b2 + i)
    ensures S.Normal() && S.Value() == Pow(5, s5) * Pow2(s2 + i)
    ensures 0x800_0000 <= S.x[S.wds - 1] < 0x1000_0000
  {
    b := Numerator(d, b0, b5);
    var j;
    S, j := Divisor(d, s2, s5);
    i := j;
    if b2 + j > 0 {
      b := d.LShift(b, b2 + j);
    }
  }

  /** If the quotient has no units digit, moves the decimal point, and with it
      the number of digits wanted. */
  method FixEstimate(d: Dtoa, b0: Bigint, S: Bigint, kCheck: bool, ilim0: int, ilim1: int)
    returns (b: Bigint, kDec: nat, ilim: int)
    requires d.Valid() && b0 !in d.free && b0 !in d.p5s && S !in d.free && b0 != S
    requires b0.Normal() && S.Normal() && S.Value() > 0 && b0.Value() < 10 * S.Value()
    requires S.Value() <= (if kCheck then 10 * b0.Value() else b0.Value())
    modifies d, d.free, b0
    ensures d.Valid() && d.p5s == old(d.p5s) && b !in d.free && b !in d.p5s && S !in d.free && b != S
    ensures (b == b0 || b in old(d.free) || fresh(b)) && fresh(d.free - old(d.free) - {b0})
    ensures b.Normal() && b.Value() == old(b0.Value()) * Pow(10, kDec) && kDec <= 1
    ensures kDec == 1 <==> old(b0.Value()) < S.Value()
    ensures ilim == (if old(b0.Value()) < S.Value() then ilim1 else ilim0)
    ensures S.Value() <= b.Value() < 10 * S.Value()
  {
    assert Pow(10, 1) == 10 && Pow(10, 0) == 1;
    b, kDec, ilim := b0, 0, ilim0;
    if kCheck {
      var c := Cmp(b, S);
      if c < 0 {
        kDec := 1;
        b := d.MultAdd(b, 10, 0);
        ilim := ilim1;
      }
    }
  }

  /** v / s, a number in [1, 10), rounded to the nearest multiple of the last of
      n places, ties to even, is r of them.  Place 1 is the units place; for
      n < 1 the places lie before it. */
  ghost predicate RoundsAt(r: int, v: nat, s: nat, n: int) {
    if n >= 1 then NearestEven(r, v * Pow(10, n - 1), s) else NearestEven(r, v, s * Pow(10, 1 - n))
  }

  /** No digit is wanted before the last place: the answer is none, or a one in
      the place before the first. */
  method NoPlaces(d: Dtoa, b: Bigint, S0: Bigint, ilim: int) returns (one: bool)
    requires d.Valid() && S0 !in d.free && S0 !in d.p5s && b !in d.free && b != S0 && b.Normal() && S0.Normal()
    requires S0.Value() <= b.Value() < 10 * S0.Value() && ilim <= 0
    modifies d, d.free, S0
    ensures d.Valid()
    ensures one ==> ilim == 0
    ensures RoundsAt(if one then 1 else 0, old(b.Value()), old(S0.Value()), ilim)
  {
    ghost var v, s := b.Value(), S0.Value();
    FarPlaces(v, s, ilim);
    one := false;
    if ilim == 0 {
      var S := d.MultAdd(S0, 5, 0);
      var c := Cmp(b, S);
      one := c > 0;
    }
  }

  lemma FarPlaces(v: nat, s: nat, ilim: int)
    requires s <= v < 10 * s && ilim <= 0
    ensures ilim < 0 || v <= 5 * s ==> RoundsAt(0, v, s, ilim)
    ensures ilim == 0 && v > 5 * s ==> RoundsAt(1, v, s, ilim)
  {
    assert Pow(10, 1) == 10;
    assert Pow(10, 2) == 100;
    if ilim < 0 {
      PowMonotone(10, 2, 1 - ilim);
      MulMono(100, Pow(10, 1 - ilim), s);
    }
  }

  /** The number of places wanted: ndigits significant ones, at least one, or
      ndigits behind the decimal point of a number whose first digit stands
      for 10^k. */
  function Places(fixed: bool, ndigits: int, k: int): int {
    if fixed then ndigits + k + 1 else if ndigits <= 0 then 1 else ndigits
  }

  /** The digits of a rounded number, read with n + kInc places. */
  ghost function Reading(out: seq<Digit>, n: int, kInc: nat): int
    requires out == [] || |out| <= n + kInc
  {
    if out == [] then 0 else DecVal(out) * Pow(10, n + kInc - |out|)
  }

  /** v = b * 5^b5 * 2^b2 and s = 5^s5 * 2^s2, with v / s in [1, 10), or in
      [1/10, 10) if the first digit has to be looked for (kCheck); the number
      converted is v / s * 10^k.  Gives its digits rounded to the places
      wanted, and the exponent of the first of them; none, if it rounds to 0. */
  method DecimalDigits(d: Dtoa, b0: Bigint, b2: nat, b5: nat, s2: nat, s5: nat, kCheck: bool,
                       fixed: bool, ndigits: int, k: int)
    returns (out: seq<Digit>, kOut: int, kDec: nat, kInc: nat)
    requires d.Valid() && b0 !in d.free && b0 !in d.p5s && b0.Normal() && b0.Value() > 0
    requires var v, s := b0.Value() * Pow(5, b5) * Pow2(b2), Pow(5, s5) * Pow2(s2);
             v < 10 * s && s <= (if kCheck then 10 * v else v)
    modifies d, d.free, b0
    ensures d.Valid() && kDec <= 1 && kInc <= 1
    ensures out == [] ==> kOut == -1 - ndigits && fixed
    ensures out != [] ==> kOut == k - kDec + kInc && out[0] != 0 && out[|out| - 1] != 0
    ensures var v, s := old(b0.Value()) * Pow(5, b5) * Pow2(b2), Pow(5, s5) * Pow2(s2);
            var n := Places(fixed, ndigits, k - kDec);
            && (kDec == 1 <==> v < s)
            && (out == [] || |out| <= n + kInc)
            && RoundsAt(Reading(out, n, kInc), v * Pow(10, kDec), s, n)
  {
    ghost var v, s := b0.Value() * Pow(5, b5) * Pow2(b2), Pow(5, s5) * Pow2(s2);
    var b, S;
    ghost var i;
    b, S, i := Prepare(d, b0, b2, b5, s2, s5);
    CommonScale(old(b0.Value()) * Pow(5, b5), b2, Pow(5, s5), s2, i);
    out, kOut, kDec, kInc := QuotientDigits(d, b, S, kCheck, fixed, ndigits, k, v, s, Pow2(i));
  }

  /** The digits of v / s from equal multiples of both. */
  method QuotientDigits(d: Dtoa, b0: Bigint, S: Bigint, kCheck: bool, fixed: bool, ndigits: int, k: int,
                        ghost v: nat, ghost s: nat, ghost c: nat)
    returns (out: seq<Digit>, kOut: int, kDec: nat, kInc: nat)
    requires d.Valid() && b0 !in d.free && b0 !in d.p5s && S !in d.free && S !in d.p5s && b0 != S
    requires b0.Normal() && S.Normal() && 0x800_0000 <= S.x[S.wds - 1] < 0x1000_0000
    requires c > 0 && b0.Value() == v * c && S.Value() == s * c
    requires 0 < s && v < 10 * s && s <= (if kCheck then 10 * v else v)
    modifies d, d.free, b0, S
    ensures d.Valid() && kDec <= 1 && kInc <= 1
    ensures out == [] ==> kOut == -1 - ndigits && fixed
    ensures out != [] ==> kOut == k - kDec + kInc && out[0] != 0 && out[|out| - 1] != 0
    ensures var n := Places(fixed, ndigits, k - kDec);
            && (kDec == 1 <==> v < s)
            && (out == [] || |out| <= n + kInc)
            && RoundsAt(Reading(out, n, kInc), v * Pow(10, kDec), s, n)
  {
    Multiples(v, s, c);
    var b, ilim;
    b, kDec, ilim := FixEstimate(d, b0, S, kCheck, Places(fixed, ndigits, k), Places(fixed, ndigits, k - 1));
    Scaled(v, kDec, c);
    out, kInc := ScaledDigits(d, b, S, ilim, v * Pow(10, kDec), s, c);
    kOut := if out == [] then -1 - ndigits else k - kDec + kInc;
  }

  lemma Multiples(v: nat, s: nat, c: nat)
    requires c > 0
    ensures v * c < s * c <==> v < s
    ensures v * c < 10 * (s * c) <==> v < 10 * s
    ensures s * c <= 10 * (v * c) <==> s <= 10 * v
    ensures s > 0 ==> s * c > 0
  {
    CancelFactor(v, s, c);
    CancelFactor(v, 10 * s, c);
    CancelFactor(10 * v, s, c);
    CancelFactor(0, s, c);
    MulAssoc(10, s, c);
    MulAssoc(10, v, c);
  }

  lemma Scaled(v: nat, kDec: nat, c: nat)
    ensures (v * c) * Pow(10, kDec) == (v * Pow(10, kDec)) * c
  {
    Swap(v, c, Pow(10, kDec));
  }

  /** The digits of v / s from multiples of both. */
  method ScaledDigits(d: Dtoa, b: Bigint, S: Bigint, ilim: int, ghost v: nat, ghost s: nat, ghost c: nat)
    returns (out: seq<Digit>, kInc: nat)
    requires d.Valid() && b !in d.free && b !in d.p5s && S !in d.free && S !in d.p5s && b != S
    requires b.Normal() && S.Normal() && 0x800_0000 <= S.x[S.wds - 1] < 0x1000_0000
    requires c > 0 && b.Value() == v * c && S.Value() == s * c && S.Value() <= b.Value() < 10 * S.Value()
    modifies d, d.free, b, S
    ensures d.Valid() && kInc <= 1
    ensures out == [] ==> ilim <= 0
    ensures out != [] ==> |out| <= ilim + kInc && out[0] != 0 && out[|out| - 1] != 0
    ensures RoundsAt(Reading(out, ilim, kInc), v, s, ilim)
  {
    if ilim <= 0 {
      var one := NoPlaces(d, b, S, ilim);
      out, kInc := if one then [1] else [], if one then 1 else 0;
      assert one ==> DecVal([1]) == 1 && Pow(10, 0) == 1;
    } else {
      out, kInc := RoundedDigits(d, b, S, ilim);
    }
    RoundsScaled(Reading(out, ilim, kInc), v, s, ilim, c);
  }

  lemma RoundsScaled(r: int, v: nat, s: nat, n: int, c: nat)
    requires c > 0 && RoundsAt(r, v * c, s * c, n)
    ensures RoundsAt(r, v, s, n)
  {
    if n >= 1 {
      Swap(v, c, Pow(10, n - 1));
      NearestScale(r, v * Pow(10, n - 1), s, c);
    } else {
      Swap(s, c, Pow(10, 1 - n));
      NearestScale(r, v, s * Pow(10, 1 - n), c);
    }
  }

  /** Taking a common power of two out of two products. */
  lemma CommonScale(x: nat, m: nat, y: nat, n: nat, i: nat)
    ensures x * Pow2(m + i) == (x * Pow2(m)) * Pow2(i) && y * Pow2(n + i) == (y * Pow2(n)) * Pow2(i)
  {
    Pow2Add(m, i);
    Pow2Add(n, i);
    MulAssoc(x, Pow2(m), Pow2(i));
    MulAssoc(y, Pow2(n), Pow2(i));
  }

  lemma CancelFactor(a: int, b: int, c: int)
    requires c > 0
    ensures a * c < b * c <==> a < b
  {
    if a < b { MulMono(a + 1, b, c); } else { MulMono(b, a, c); }
  }
}
