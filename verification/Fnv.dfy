/** The 128-bit FNV-1a of deps/base/hash.cc: four limbs of 32 bits held in
    64-bit words, of which the top one is never reduced. */
module Fnv {
  import opened Common
  import opened LimbMath
  import opened Bits

  const TWO96: nat := 0x1_0000_0000_0000_0000_0000_0000
  const TWO128: nat := 0x1_0000_0000_0000_0000_0000_0000_0000_0000
  const LOW: nat := 0x13b
  const SHIFTED: nat := 0x100_0000
  const PRIME: nat := 0x100_0000_0000_0000_0000_0000 + LOW
  const BASIS: nat := 0x6C62272E07BB014262B821756295C58D

  type U64 = w: int | 0 <= w < TWO64

  datatype Limbs = Limbs(v0: U64, v1: U64, v2: U64, v3: U64)

  // ----- The hash as published -----

  function Step(h: nat, b: Byte): nat {
    Xor(h, b) * PRIME % TWO128
  }

  function Hash(data: seq<Byte>): nat {
    if data == [] then BASIS else Step(Hash(data[..|data| - 1]), data[|data| - 1])
  }

  // ----- The limb computation -----

  /** What xor sees of a byte read through a signed char. */
  function Extended(b: Byte): U64 {
    if b < 0x80 then b else TWO64 - 0x100 + b
  }

  /** n in 64 bits. */
  function Wrap(n: nat): U64 {
    if n < TWO64 then n else n % TWO64
  }

  /** A limb times the low part of the prime. */
  function Times(a: U64): U64 {
    Wrap(a * LOW)
  }

  /** The same, plus a lower limb times the shifted part. */
  function Cross(a: U64, b: U64): U64 {
    Wrap(Times(a) + Wrap(b * SHIFTED))
  }

  /** A limb plus the carry out of the one below. */
  function Carry(a: U64, below: U64): U64 {
    Wrap(a + below / BASE)
  }

  function Multiplied(x: U64, v1: U64, v2: U64, v3: U64): Limbs {
    var t0 := Times(x);
    var t1 := Carry(Times(v1), t0);
    var t2 := Carry(Cross(v2, x), t1);
    Limbs(t0 % BASE, t1 % BASE, t2 % BASE, Carry(Cross(v3, v1), t2))
  }

  ghost function Mixed(v: Limbs, b: Byte): U64 {
    XorFits(v.v0, Extended(b));
    Xor(v.v0, Extended(b))
  }

  /** One byte mixed in. */
  ghost function Updated(v: Limbs, b: Byte): Limbs {
    Multiplied(Mixed(v, b), v.v1, v.v2, v.v3)
  }

  lemma XorFits(x: nat, y: nat)
    requires x < TWO64 && y < TWO64
    ensures Xor(x, y) < TWO64
  {
    Pow2At32();
    Pow2Add(32, 32);
    XorBound(x, y, 64);
  }

  /** The three low limbs are reduced; the top one need not be. */
  predicate Canonical(v: Limbs) {
    v.v0 < BASE && v.v1 < BASE && v.v2 < BASE
  }

  function Sum(v0: int, v1: int, v2: int, v3: int): int {
    v0 + BASE * v1 + TWO64 * v2 + TWO96 * v3
  }

  function Value(v: Limbs): nat {
    Sum(v.v0, v.v1, v.v2, v.v3) % TWO128
  }

  // ----- One byte below 0x80 -----

  /** Congruence modulo 2^128, with the quotient given. */
  lemma SameMod(a: int, b: int, e: int)
    requires a == b + TWO128 * e
    ensures a % TWO128 == b % TWO128
  {
  }

  /** Carrying between limbs keeps the sum, up to a multiple of 2^128 that the
      top limb's wrap-around takes away. */
  lemma CarrySum(t0: nat, a1: nat, a2: nat, a3: nat, t1: nat, t2: nat, t3: nat)
    requires t1 == a1 + t0 / BASE && t2 == a2 + t1 / BASE && t3 == (a3 + t2 / BASE) % TWO64
    ensures Sum(t0 % BASE, t1 % BASE, t2 % BASE, t3) % TWO128 == Sum(t0, a1, a2, a3) % TWO128
  {
    var e := (a3 + t2 / BASE) / TWO64;
    assert a3 + t2 / BASE == TWO64 * e + t3;
    assert Sum(t0, a1, a2, a3) == Sum(t0 % BASE, t1 % BASE, t2 % BASE, t3) + TWO128 * (BASE * e);
    SameMod(Sum(t0, a1, a2, a3), Sum(t0 % BASE, t1 % BASE, t2 % BASE, t3), BASE * e);
  }

  /** Multiplying by the prime, limb by limb. */
  lemma TimesPrime(x: nat, v1: nat, v2: nat, v3: nat)
    ensures Sum(x * LOW, v1 * LOW, v2 * LOW + x * SHIFTED, v3 * LOW + v1 * SHIFTED) % TWO128
      == Sum(x, v1, v2, v3) % TWO128 * PRIME % TWO128
  {
    var s := Sum(x, v1, v2, v3);
    var q, r := s / TWO128, s % TWO128;
    var p := Sum(x * LOW, v1 * LOW, v2 * LOW + x * SHIFTED, v3 * LOW + v1 * SHIFTED);
    var e := SHIFTED * v2 + SHIFTED * BASE * v3;
    assert s * PRIME == p + TWO128 * e;
    assert s * PRIME == r * PRIME + TWO128 * (q * PRIME) by {
      assert s == r + TWO128 * q;
    }
    SameMod(r * PRIME, p, e - q * PRIME);
  }

  /** The top limb may be taken modulo 2^64 at any point. */
  lemma TopMod(v0: int, v1: int, v2: int, a: nat, b: nat)
    requires a % TWO64 == b % TWO64
    ensures Sum(v0, v1, v2, a) % TWO128 == Sum(v0, v1, v2, b) % TWO128
  {
    var e := a / TWO64 - b / TWO64;
    assert a == b + TWO64 * e;
    SameMod(Sum(v0, v1, v2, a), Sum(v0, v1, v2, b), BASE * e);
  }

  lemma AddWrap(a: nat, b: nat)
    ensures Wrap(Wrap(a) + Wrap(b)) == (a + b) % TWO64
  {
  }

  /** Below the top limb nothing wraps. */
  lemma SmallTimes(a: U64)
    requires a < BASE
    ensures Times(a) == a * LOW < BASE * LOW
  {
  }

  lemma SmallCross(a: U64, b: U64)
    requires a < BASE && b < BASE
    ensures Cross(a, b) == a * LOW + b * SHIFTED < BASE * LOW + BASE * SHIFTED
  {
  }

  lemma SmallCarry(a: U64, below: U64)
    requires a < BASE * LOW + BASE * SHIFTED
    ensures Carry(a, below) == a + below / BASE
  {
  }

  lemma MultipliedPlain(x: U64, v: Limbs, t0: nat, t1: nat, t2: nat, a3: nat)
    requires Canonical(v) && x < BASE
    requires t0 == x * LOW && t1 == v.v1 * LOW + t0 / BASE && t2 == v.v2 * LOW + x * SHIFTED + t1 / BASE
    requires a3 == v.v3 * LOW + v.v1 * SHIFTED
    ensures Multiplied(x, v.v1, v.v2, v.v3) == Limbs(t0 % BASE, t1 % BASE, t2 % BASE, Wrap(a3 % TWO64 + t2 / BASE))
  {
    SmallTimes(x);
    SmallTimes(v.v1);
    SmallCarry(Times(v.v1), t0);
    SmallCross(v.v2, x);
    SmallCarry(Cross(v.v2, x), t1);
    AddWrap(v.v3 * LOW, v.v1 * SHIFTED);
  }

  /** Limbs carried over as the code does have the value of the product. */
  lemma CarriedValue(x: U64, v: Limbs, r: Limbs, t0: nat, t1: nat, t2: nat, a3: nat)
    requires t0 == x * LOW && t1 == v.v1 * LOW + t0 / BASE && t2 == v.v2 * LOW + x * SHIFTED + t1 / BASE
    requires a3 == v.v3 * LOW + v.v1 * SHIFTED
    requires r == Limbs(t0 % BASE, t1 % BASE, t2 % BASE, Wrap(a3 % TWO64 + t2 / BASE))
    ensures Value(r) == Value(v.(v0 := x)) * PRIME % TWO128
  {
    var a1, a2 := v.v1 * LOW, v.v2 * LOW + x * SHIFTED;
    CarrySum(t0, a1, a2, a3 % TWO64, t1, t2, r.v3);
    TopMod(t0, a1, a2, a3 % TWO64, a3);
    TimesPrime(x, v.v1, v.v2, v.v3);
  }

  lemma MultipliedExact(x: U64, v: Limbs)
    requires Canonical(v) && x < BASE
    ensures Value(Multiplied(x, v.v1, v.v2, v.v3)) == Value(v.(v0 := x)) * PRIME % TWO128
  {
    var t0 := x * LOW;
    var t1 := v.v1 * LOW + t0 / BASE;
    var t2 := v.v2 * LOW + x * SHIFTED + t1 / BASE;
    var a3 := v.v3 * LOW + v.v1 * SHIFTED;
    MultipliedPlain(x, v, t0, t1, t2, a3);
    CarriedValue(x, v, Multiplied(x, v.v1, v.v2, v.v3), t0, t1, t2, a3);
  }

  lemma XorLow(v: Limbs, b: Byte)
    requires Canonical(v)
    ensures Xor(v.v0, b) < BASE
    ensures Xor(Value(v), b) == Value(v.(v0 := Xor(v.v0, b)))
  {
    Pow2At32();
    XorBound(v.v0, b, 32);
    var s := Sum(v.v0, v.v1, v.v2, v.v3);
    var rest := (v.v1 + BASE * v.v2 + TWO64 * v.v3) % TWO96;
    LowLimb(v.v0, v.v1 + BASE * v.v2 + TWO64 * v.v3);
    LowLimb(Xor(v.v0, b), v.v1 + BASE * v.v2 + TWO64 * v.v3);
    XorSplit(Value(v), b, rest, v.v0, 0, b, 32);
    XorZero(rest);
  }

  lemma LowLimb(x: nat, rest: nat)
    requires x < BASE
    ensures (x + BASE * rest) % TWO128 == rest % TWO96 * BASE + x
  {
    var q, r := rest / TWO96, rest % TWO96;
    assert x + BASE * rest == r * BASE + x + TWO128 * q;
    SameMod(x + BASE * rest, r * BASE + x, q);
  }

  // ----- One byte from 0x80 on -----

  /** The low limb of the result alone. */
  lemma LowOfStep(h: nat, b: Byte)
    ensures Step(h, b) % BASE == Xor(h, b) * LOW % BASE
  {
    var y := Xor(h, b);
    var e := y * PRIME / TWO128;
    assert y * PRIME == Step(h, b) + TWO128 * e;
    assert y * PRIME == y * LOW + BASE * (y * 0x100_0000_0000_0000);
    LowSame(Step(h, b), y * LOW, y * 0x100_0000_0000_0000 - TWO96 * e);
  }

  lemma LowSame(a: int, b: int, e: int)
    requires a == b + BASE * e
    ensures a % BASE == b % BASE
  {
  }

  /** An odd multiplier is one to one modulo 2^32. */
  lemma OddCancels(a: nat, b: nat)
    requires a < BASE && b < BASE && a * LOW % BASE == b * LOW % BASE
    ensures a == b
  {
    var k := a * LOW / BASE - b * LOW / BASE;
    assert (a - b) * LOW == BASE * k;
    var inverse := 4076810227;
    assert LOW * inverse == 1 + BASE * 299;
    assert (a - b) * (LOW * inverse) == BASE * (k * inverse) by {
      assert (a - b) * (LOW * inverse) == (a - b) * LOW * inverse;
      assert BASE * k * inverse == BASE * (k * inverse);
    }
    assert a - b == BASE * (k * inverse - 299 * (a - b));
    OnlyZero(a - b, k * inverse - 299 * (a - b));
  }

  lemma OnlyZero(d: int, e: int)
    requires d == BASE * e && 0 - BASE < d < BASE
    ensures d == 0
  {
  }

  /** Setting the sign bits flips bits that the plain byte leaves alone. */
  lemma SignBitsShow(x: nat, b: Byte)
    requires x < BASE && b >= 0x80
    ensures Xor(x, BASE - 0x100 + b) != Xor(x, b)
  {
    var hi, lo := x / 0x100, x % 0x100;
    EightBits();
    var ones := 0xff_ffff;
    XorSplit(x, BASE - 0x100 + b, hi, lo, ones, b, 8);
    XorSplit(x, b, hi, lo, 0, b, 8);
    XorZero(hi);
    OddXor(hi, ones);
    DifferentHigh(Xor(hi, ones), hi, Xor(lo, b));
  }

  lemma EightBits()
    ensures Pow2(8) == 0x100
  {
    assert Pow2(4) == 16;
    Pow2Add(4, 4);
  }

  lemma OddXor(x: nat, y: nat)
    requires y % 2 == 1
    ensures Xor(x, y) != x
  {
    XorStep(x, y);
  }

  lemma DifferentHigh(a: nat, b: nat, low: nat)
    requires a != b
    ensures a * 0x100 + low != b * 0x100 + low
  {
  }

  lemma ExtendedLow(x: nat, b: Byte)
    requires x < BASE && b >= 0x80
    ensures Xor(x, TWO64 - 0x100 + b) % BASE == Xor(x, BASE - 0x100 + b) < BASE
    ensures Xor(x, b) < BASE
  {
    Pow2At32();
    XorBound(x, BASE - 0x100 + b, 32);
    XorBound(x, b, 32);
    XorSplit(x, TWO64 - 0x100 + b, 0, x, BASE - 1, BASE - 0x100 + b, 32);
    LowSame(Xor(x, TWO64 - 0x100 + b), Xor(x, BASE - 0x100 + b), Xor(0, BASE - 1));
  }

  lemma LowOfMultiplied(x: U64, v: Limbs)
    ensures Multiplied(x, v.v1, v.v2, v.v3).v0 == x % BASE * LOW % BASE
  {
    LowSame(x * LOW, Wrap(x * LOW), BASE * (x * LOW / TWO64));
    LowSame(x * LOW, x % BASE * LOW, x / BASE * LOW);
  }

  lemma LowOfMixed(v: Limbs, b: Byte)
    requires Canonical(v)
    ensures Step(Value(v), b) % BASE == Xor(v.v0, b) * LOW % BASE
  {
    var h, y := Xor(Value(v), b), Xor(v.v0, b);
    LowOfStep(Value(v), b);
    XorLow(v, b);
    LowOfValue(v.(v0 := y));
    LowSame(h * LOW, y * LOW, h / BASE * LOW);
  }

  lemma ProductsDiffer(x: nat, b: Byte)
    requires x < BASE && b >= 0x80
    ensures Xor(x, Extended(b)) % BASE * LOW % BASE != Xor(x, b) * LOW % BASE
  {
    SignBitsShow(x, b);
    ExtendedLow(x, b);
    if Xor(x, Extended(b)) % BASE * LOW % BASE == Xor(x, b) * LOW % BASE {
      OddCancels(Xor(x, Extended(b)) % BASE, Xor(x, b));
    }
  }

  lemma HighByteDiffers(v: Limbs, b: Byte)
    requires Canonical(v) && b >= 0x80
    ensures Value(Updated(v, b)) != Step(Value(v), b)
  {
    LowOfMultiplied(Mixed(v, b), v);
    LowOfValue(Updated(v, b));
    LowOfMixed(v, b);
    ProductsDiffer(v.v0, b);
  }

  lemma LowOfValue(v: Limbs)
    requires v.v0 < BASE
    ensures Value(v) % BASE == v.v0
  {
    LowLimb(v.v0, v.v1 + BASE * v.v2 + TWO64 * v.v3);
    LowSame(Value(v), v.v0, (v.v1 + BASE * v.v2 + TWO64 * v.v3) % TWO96);
  }

  /** One byte is mixed in as published exactly if it is below 0x80. */
  lemma UpdateExact(v: Limbs, b: Byte)
    requires Canonical(v)
    ensures Value(Updated(v, b)) == Step(Value(v), b) <==> b < 0x80
  {
    if b < 0x80 {
      XorLow(v, b);
      MultipliedExact(Mixed(v, b), v);
    } else {
      HighByteDiffers(v, b);
    }
  }

  // ----- Whole inputs -----

  method Multiply(x: U64, v1: U64, v2: U64, v3: U64) returns (r: Limbs)
    ensures r == Multiplied(x, v1, v2, v3)
  {
    var tmp0 := Times(x);
    var tmp1 := Times(v1);
    var tmp2 := Cross(v2, x);
    var tmp3 := Cross(v3, v1);
    tmp1 := Carry(tmp1, tmp0);
    tmp2 := Carry(tmp2, tmp1);
    r := Limbs(tmp0 % BASE, tmp1 % BASE, tmp2 % BASE, Carry(tmp3, tmp2));
  }

  ghost function Contents(val: array<U64>): Limbs
    requires val.Length == 4
    reads val
  {
    Limbs(val[0], val[1], val[2], val[3])
  }

  method FNVUpdate(c: Byte, val: array<U64>)
    requires val.Length == 4
    modifies val
    ensures Contents(val) == Updated(old(Contents(val)), c)
  {
    XorFits(val[0], Extended(c));
    var x := Xor(val[0], Extended(c));
    var r := Multiply(x, val[1], val[2], val[3]);
    val[0], val[1], val[2], val[3] := r.v0, r.v1, r.v2, r.v3;
  }

  /** The limbs the code holds after a run of bytes. */
  ghost function State(data: seq<Byte>): (v: Limbs)
    ensures Canonical(v)
  {
    if data == [] then Limbs(0x6295C58D, 0x62B82175, 0x07BB0142, 0x6C62272E)
    else
      var v := State(data[..|data| - 1]);
      Updated(v, data[|data| - 1])
  }

  /** After the data, and after each prefix of it, the limbs hold the
      published hash. */
  ghost predicate Follows(data: seq<Byte>) {
    Value(State(data)) == Hash(data) && (data == [] || Follows(data[..|data| - 1]))
  }

  predicate Low(data: seq<Byte>) {
    forall i :: 0 <= i < |data| ==> data[i] < 0x80
  }

  /** The limbs follow the published hash through every prefix exactly if all
      bytes are below 0x80; the first other byte leaves it. */
  lemma {:induction false} FollowsExactly(data: seq<Byte>)
    ensures Follows(data) <==> Low(data)
  {
    if data == [] {
      Start();
    } else {
      var init := data[..|data| - 1];
      FollowsExactly(init);
      NextExact(data);
      LowNext(data);
    }
  }

  lemma LowNext(data: seq<Byte>)
    requires data != []
    ensures Low(data) <==> Low(data[..|data| - 1]) && data[|data| - 1] < 0x80
  {
    assert forall i :: 0 <= i < |data| - 1 ==> data[..|data| - 1][i] == data[i];
  }

  lemma Start()
    ensures Value(State([])) == Hash([])
  {
  }

  lemma NextExact(data: seq<Byte>)
    requires data != []
    ensures var init := data[..|data| - 1];
      Value(State(init)) == Hash(init) ==> (Value(State(data)) == Hash(data) <==> data[|data| - 1] < 0x80)
  {
    UpdateExact(State(data[..|data| - 1]), data[|data| - 1]);
  }

  /** Mixes all bytes into the limbs. */
  method Absorb(data: seq<Byte>, val: array<U64>)
    requires val.Length == 4 && Contents(val) == State([])
    modifies val
    ensures Contents(val) == State(data)
  {
    ghost var v := State([]);
    for pos := 0 to |data|
      invariant Contents(val) == v && v == State(data[..pos])
    {
      FNVUpdate(data[pos], val);
      StateNext(data, pos);
      v := Updated(v, data[pos]);
    }
    assert data[..|data|] == data;
  }

  lemma StateNext(data: seq<Byte>, pos: nat)
    requires pos < |data|
    ensures State(data[..pos + 1]) == Updated(State(data[..pos]), data[pos])
  {
    assert data[..pos + 1][..pos] == data[..pos];
  }

  /** The digest is the value of the limbs, so for bytes below 0x80 it is the
      published hash. */
  method FNV128(data: seq<Byte>) returns (w0: U64, w1: U64)
    ensures w0 + TWO64 * w1 == Value(State(data))
    ensures Low(data) ==> w0 + TWO64 * w1 == Hash(data)
  {
    FollowsExactly(data);
    Start();
    w0, w1 := 0x62B821756295C58D, 0x6C62272E07BB0142;
    if |data| == 0 { return; }
    var val := new U64[4];
    val[0], val[1], val[2], val[3] := w0 % BASE, w0 / BASE, w1 % BASE, w1 / BASE;
    Absorb(data, val);
    w0, w1 := Digest(val[0], val[1], val[2], val[3]);
  }

  method Digest(v0: U64, v1: U64, v2: U64, v3: U64) returns (w0: U64, w1: U64)
    requires v0 < BASE && v1 < BASE && v2 < BASE
    ensures w0 + TWO64 * w1 == Value(Limbs(v0, v1, v2, v3))
  {
    w1 := Packed(v3, v2);
    w0 := Packed(v1, v0);
    DigestWords(Limbs(v0, v1, v2, v3));
  }

  /** (hi << 32) | lo in 64 bits. */
  method Packed(hi: U64, lo: U64) returns (w: U64)
    requires lo < BASE
    ensures w == hi % BASE * BASE + lo
  {
    Pow2At32();
    OrDisjoint(hi % BASE, 32, lo);
    assert hi * BASE % TWO64 == hi % BASE * BASE;
    w := Or(hi * BASE % TWO64, lo);
  }

  lemma DigestWords(v: Limbs)
    requires Canonical(v)
    ensures v.v1 * BASE + v.v0 + TWO64 * (v.v3 % BASE * BASE + v.v2) == Value(v)
  {
    var w := v.v1 * BASE + v.v0 + TWO64 * (v.v3 % BASE * BASE + v.v2);
    SameMod(Sum(v.v0, v.v1, v.v2, v.v3), w, v.v3 / BASE);
  }
}
