/** Reading and writing UTF-8 as deps/base/icu_utf.h and icu_utf.cc do. */
module Utf8 {
  import opened Common
  import opened LimbMath
  import opened Bits

  /** -1 in the unsigned type that the library gives code points. */
  const SENTINEL: nat := 0xffff_ffff

  // ----- UTF-8: sections 3 and 4 of RFC 3629 -----

  predicate Scalar(c: nat) {
    c <= 0xd7ff || 0xe000 <= c <= 0x10ffff
  }

  function Trail(c: nat): Byte {
    0x80 + c % 64
  }

  /** The byte sequence of a code point, by the table of section 3. */
  function Encoded(c: nat): (s: seq<Byte>)
    requires c <= 0x10ffff
    ensures 1 <= |s| <= 4
  {
    if c <= 0x7f then [c]
    else if c <= 0x7ff then [0xc0 + c / 64, Trail(c)]
    else if c <= 0xffff then [0xe0 + c / 64 / 64, Trail(c / 64), Trail(c)]
    else [0xf0 + c / 64 / 64 / 64, Trail(c / 64 / 64), Trail(c / 64), Trail(c)]
  }

  predicate Tail(b: Byte) {
    0x80 <= b <= 0xbf
  }

  /** The syntax of section 4. */
  predicate WellFormed(s: seq<Byte>) {
    || (|s| == 1 && s[0] <= 0x7f)
    || (|s| == 2 && 0xc2 <= s[0] <= 0xdf && Tail(s[1]))
    || (|s| == 3 && Tail(s[2]) && (
          || (s[0] == 0xe0 && 0xa0 <= s[1] <= 0xbf)
          || (0xe1 <= s[0] <= 0xec && Tail(s[1]))
          || (s[0] == 0xed && 0x80 <= s[1] <= 0x9f)
          || (0xee <= s[0] <= 0xef && Tail(s[1]))))
    || (|s| == 4 && Tail(s[2]) && Tail(s[3]) && (
          || (s[0] == 0xf0 && 0x90 <= s[1] <= 0xbf)
          || (0xf1 <= s[0] <= 0xf3 && Tail(s[1]))
          || (s[0] == 0xf4 && 0x80 <= s[1] <= 0x8f)))
  }

  // ----- Which sequences spell a code point -----

  function Value2(a: Byte, b: Byte): nat {
    a % 32 * 64 + b % 64
  }

  function Value3(a: Byte, b: Byte, d: Byte): nat {
    (a % 16 * 64 + b % 64) * 64 + d % 64
  }

  function Value4(a: Byte, b: Byte, d: Byte, e: Byte): nat {
    ((a % 8 * 64 + b % 64) * 64 + d % 64) * 64 + e % 64
  }

  predicate Accepts2(a: Byte, b: Byte) {
    0xc0 <= a < 0xe0 && Tail(b) && Value2(a, b) >= 0x80
  }

  predicate Accepts3(a: Byte, b: Byte, d: Byte) {
    0xe0 <= a < 0xf0 && Tail(b) && Tail(d) && Value3(a, b, d) >= 0x800
  }

  predicate Accepts4(a: Byte, b: Byte, d: Byte, e: Byte) {
    0xf0 <= a < 0xf8 && Tail(b) && Tail(d) && Tail(e) && 0x10000 <= Value4(a, b, d, e) <= 0x10ffff
  }

  lemma Split64(q: nat, r: nat)
    requires r < 64
    ensures (q * 64 + r) / 64 == q && (q * 64 + r) % 64 == r
  {
  }

  lemma TailDigit(b: Byte)
    requires Tail(b)
    ensures b == 0x80 + b % 64
  {
  }

  lemma LeadDigit(a: Byte)
    ensures 0xc0 <= a < 0xe0 ==> a == 0xc0 + a % 32
    ensures 0xe0 <= a < 0xf0 ==> a == 0xe0 + a % 16
    ensures 0xf0 <= a < 0xf8 ==> a == 0xf0 + a % 8
  {
  }

  lemma Spells2(a: Byte, b: Byte)
    requires Accepts2(a, b)
    ensures Value2(a, b) <= 0x7ff && Encoded(Value2(a, b)) == [a, b]
  {
    LeadDigit(a);
    TailDigit(b);
    Split64(a % 32, b % 64);
  }

  lemma Spells3(a: Byte, b: Byte, d: Byte)
    requires Accepts3(a, b, d)
    ensures Value3(a, b, d) <= 0xffff && Encoded(Value3(a, b, d)) == [a, b, d]
  {
    LeadDigit(a);
    TailDigit(b);
    TailDigit(d);
    Split64(a % 16, b % 64);
    Split64(a % 16 * 64 + b % 64, d % 64);
  }

  lemma Spells4(a: Byte, b: Byte, d: Byte, e: Byte)
    requires Accepts4(a, b, d, e)
    ensures Encoded(Value4(a, b, d, e)) == [a, b, d, e]
  {
    LeadDigit(a);
    TailDigit(b);
    TailDigit(d);
    TailDigit(e);
    var p := a % 8 * 64 + b % 64;
    Split64(a % 8, b % 64);
    Split64(p, d % 64);
    Split64(p * 64 + d % 64, e % 64);
  }

  /** The sequence spells this code point, which may be a surrogate. */
  predicate Spells(s: seq<Byte>, c: nat) {
    || (|s| == 1 && s[0] < 0x80 && c == s[0])
    || (|s| == 2 && Accepts2(s[0], s[1]) && c == Value2(s[0], s[1]))
    || (|s| == 3 && Accepts3(s[0], s[1], s[2]) && c == Value3(s[0], s[1], s[2]))
    || (|s| == 4 && Accepts4(s[0], s[1], s[2], s[3]) && c == Value4(s[0], s[1], s[2], s[3]))
  }

  lemma SpellsEncoded(s: seq<Byte>, c: nat)
    requires Spells(s, c)
    ensures c <= 0x10ffff && Encoded(c) == s
  {
    if |s| == 2 { Spells2(s[0], s[1]); }
    else if |s| == 3 { Spells3(s[0], s[1], s[2]); }
    else if |s| == 4 { Spells4(s[0], s[1], s[2], s[3]); }
  }

  /** The digits of a byte built from a marker and a number. */
  lemma Digits(x: nat)
    ensures x < 32 ==> (0xc0 + x) % 32 == x
    ensures x < 16 ==> (0xe0 + x) % 16 == x
    ensures x < 8 ==> (0xf0 + x) % 8 == x
    ensures Trail(x) % 64 == x % 64
  {
  }

  lemma Encoded2(c: nat)
    requires 0x80 <= c <= 0x7ff
    ensures Spells(Encoded(c), c)
  {
    Digits(c / 64);
    Digits(c);
  }

  lemma Encoded3(c: nat)
    requires 0x800 <= c <= 0xffff
    ensures Spells(Encoded(c), c)
  {
    var p := c / 64;
    Digits(p / 64);
    Digits(p);
    Digits(c);
  }

  lemma Encoded4(c: nat)
    requires 0x10000 <= c <= 0x10ffff
    ensures Spells(Encoded(c), c)
  {
    var p := c / 64;
    var q := p / 64;
    Digits(q / 64);
    Digits(q);
    Digits(p);
    Digits(c);
  }

  lemma EncodedSpells(c: nat)
    requires c <= 0x10ffff
    ensures Spells(Encoded(c), c)
  {
    if c <= 0x7f {
    } else if c <= 0x7ff { Encoded2(c); }
    else if c <= 0xffff { Encoded3(c); }
    else { Encoded4(c); }
  }

  lemma Syntax2(a: Byte, b: Byte)
    ensures WellFormed([a, b]) <==> Accepts2(a, b)
  {
    LeadDigit(a);
    if Tail(b) { TailDigit(b); }
  }

  lemma Small2(a: Byte, b: Byte)
    ensures Value2(a, b) <= 0x7ff
  {
  }

  lemma Syntax3(a: Byte, b: Byte, d: Byte)
    ensures WellFormed([a, b, d]) <==> Accepts3(a, b, d) && Scalar(Value3(a, b, d))
  {
    LeadDigit(a);
    if Tail(b) { TailDigit(b); }
    if Tail(d) { TailDigit(d); }
  }

  lemma Syntax4(a: Byte, b: Byte, d: Byte, e: Byte)
    ensures WellFormed([a, b, d, e]) <==> Accepts4(a, b, d, e)
  {
    LeadDigit(a);
    if Tail(b) { TailDigit(b); }
    if Tail(d) { TailDigit(d); }
    if Tail(e) { TailDigit(e); }
  }

  /** The code point of an accepted sequence. */
  function Spelled(s: seq<Byte>): nat
    requires 1 <= |s| <= 4
  {
    if |s| == 1 then s[0]
    else if |s| == 2 then Value2(s[0], s[1])
    else if |s| == 3 then Value3(s[0], s[1], s[2])
    else Value4(s[0], s[1], s[2], s[3])
  }

  lemma SyntaxSpells(s: seq<Byte>)
    ensures WellFormed(s) <==> 1 <= |s| <= 4 && Spells(s, Spelled(s)) && Scalar(Spelled(s))
  {
    if |s| == 2 { Syntax2(s[0], s[1]); Small2(s[0], s[1]); assert s == [s[0], s[1]]; }
    else if |s| == 3 { Syntax3(s[0], s[1], s[2]); assert s == [s[0], s[1], s[2]]; }
    else if |s| == 4 { Syntax4(s[0], s[1], s[2], s[3]); assert s == [s[0], s[1], s[2], s[3]]; }
  }

  /** Section 4 describes exactly the sequences that section 3 produces. */
  lemma SyntaxIsEncoding(s: seq<Byte>)
    ensures WellFormed(s) <==> exists c :: Scalar(c) && Encoded(c) == s
  {
    SyntaxSpells(s);
    if WellFormed(s) {
      SpellsEncoded(s, Spelled(s));
    }
    forall c: nat | Scalar(c) && Encoded(c) == s
      ensures WellFormed(s)
    {
      EncodedSpells(c);
    }
  }

  // ----- The tables and masks of the code -----

  /** The table utf8_countTrailBytes. */
  function CountTrailBytes(b: Byte): nat {
    if b < 0xc0 then 0
    else if b < 0xe0 then 1
    else if b < 0xf0 then 2
    else if b < 0xf8 then 3
    else if b < 0xfc then 4
    else if b < 0xfe then 5
    else 0
  }

  const MIN_LEGAL: seq<nat> := [0, 0x80, 0x800, 0x10000]

  /** A difference of bytes, taken as a byte. */
  predicate IsLead(b: Byte) {
    (b + 256 - 0xc0) % 256 < 0x3e
  }

  predicate IsTrail(b: Byte) {
    And(b, 0xc0) == 0x80
  }

  function NotTrail(b: Byte): nat {
    Xor(And(b, 0xc0), 0x80)
  }

  function Append6(c: nat, trail: Byte): nat {
    Or(c * 64, And(trail, 0x3f))
  }

  function MaskLead(b: Byte, count: nat): nat
    requires count <= 5
  {
    And(b, Pow2(6 - count) - 1)
  }

  predicate IsSurrogate(c: nat) {
    And(c, 0xffff_f800) == 0xd800
  }

  lemma SmallPowers()
    ensures Pow2(1) == 2 && Pow2(2) == 4 && Pow2(3) == 8 && Pow2(4) == 16 && Pow2(5) == 32 && Pow2(6) == 64
  {
    Pow2Add(2, 2);
    Pow2Add(2, 3);
    Pow2Add(3, 3);
  }

  lemma UpperBits(b: Byte)
    ensures And(b, 0xc0) == b / 64 * 64
  {
    SmallPowers();
    AndUpper(b, b / 64, b % 64, 6, 2, 0xc0);
  }

  lemma TrailMasks(b: Byte)
    ensures IsTrail(b) <==> Tail(b)
    ensures NotTrail(b) == 0 <==> Tail(b)
  {
    UpperBits(b);
    UpperTail(b, b / 64);
    XorEqual(b / 64 * 64, 0x80);
  }

  lemma UpperTail(b: Byte, q: nat)
    requires q == b / 64
    ensures q * 64 == 0x80 <==> Tail(b)
  {
  }

  lemma AppendValue(c: nat, trail: Byte)
    ensures Append6(c, trail) == c * 64 + trail % 64
  {
    SmallPowers();
    AndMask(trail, 6);
    OrDisjoint(c, 6, trail % 64);
  }

  lemma MaskValue(b: Byte)
    ensures MaskLead(b, 1) == b % 32 && MaskLead(b, 2) == b % 16 && MaskLead(b, 3) == b % 8
  {
    SmallPowers();
    AndMask(b, 5);
    AndMask(b, 4);
    AndMask(b, 3);
  }

  lemma SurrogateMask(c: nat)
    requires c < BASE
    ensures IsSurrogate(c) <==> 0xd800 <= c <= 0xdfff
  {
    SmallPowers();
    Pow2Add(6, 5);
    Pow2Add(6, 4);
    Pow2Add(11, 10);
    AndUpper(c, c / 2048, c % 2048, 11, 21, 0xffff_f800);
  }

  lemma {:induction false} OrNone(x: nat, y: nat)
    ensures Or(x, y) == 0 <==> x == 0 && y == 0
    decreases x + y
  {
    OrStep(x, y);
    if x > 0 || y > 0 { OrNone(x / 2, y / 2); }
  }

  /** The first byte settles the length. */
  lemma LeadSettlesLength(t: seq<Byte>)
    requires WellFormed(t)
    ensures |t| == CountTrailBytes(t[0]) + 1
  {
  }

  // ----- Trail bytes -----

  /** Reads the trail bytes after a lead byte, each case of the count falling
      through to the next smaller one. */
  method ReadTrail(lead: Byte, trail: seq<Byte>) returns (c: nat, illegal: nat)
    requires 1 <= |trail| <= 3 && CountTrailBytes(lead) == |trail|
    ensures illegal == 0 ==> c == Spelled([lead] + trail) <= 0x10ffff
    ensures illegal == 0 ==> forall i :: 0 <= i < |trail| ==> Tail(trail[i])
    ensures illegal != 0 ==> Spelled([lead] + trail) > 0x10ffff || exists i :: 0 <= i < |trail| && !Tail(trail[i])
  {
    MaskValue(lead);
    c := MaskLead(lead, |trail|);
    illegal := 0;
    var i := 0;
    if |trail| == 3 {
      AppendValue(c, trail[0]);
      TrailMasks(trail[0]);
      c := Append6(c, trail[i]);
      if c < 0x110 {
        OrNone(illegal, NotTrail(trail[i]));
        illegal := Or(illegal, NotTrail(trail[i]));
      } else {
        illegal := 1;
        return;
      }
      i := i + 1;
    }
    if |trail| >= 2 {
      AppendValue(c, trail[i]);
      TrailMasks(trail[i]);
      OrNone(illegal, NotTrail(trail[i]));
      c := Append6(c, trail[i]);
      illegal := Or(illegal, NotTrail(trail[i]));
      i := i + 1;
    }
    AppendValue(c, trail[i]);
    TrailMasks(trail[i]);
    OrNone(illegal, NotTrail(trail[i]));
    c := Append6(c, trail[i]);
    illegal := Or(illegal, NotTrail(trail[i]));
  }

  /** From i to j: as many trail bytes as there are, up to a limit. */
  ghost predicate SkipsTrails(s: seq<Byte>, i: nat, j: nat, limit: nat) {
    && i <= j <= |s| && j - i <= limit
    && (forall k :: i <= k < j ==> Tail(s[k]))
    && (j - i == limit || j == |s| || !Tail(s[j]))
  }

  method SkipTrails(s: seq<Byte>, i: nat, limit: nat) returns (j: nat)
    requires i <= |s|
    ensures SkipsTrails(s, i, j, limit)
  {
    j := i;
    var count := limit;
    while count > 0 && j < |s| && IsTrail(s[j])
      invariant i <= j <= |s| && count == limit - (j - i) >= 0
      invariant forall k :: i <= k < j ==> Tail(s[k])
      decreases count
    {
      TrailMasks(s[j]);
      j := j + 1;
      count := count - 1;
    }
    if j < |s| { TrailMasks(s[j]); }
  }

  // ----- utf8_nextCharSafeBody -----

  /** Surrogates are let through in the lenient mode, -2, alone. */
  predicate Admits(strict: int, c: nat) {
    c <= 0x10ffff && (Scalar(c) || strict == -2)
  }

  /** The n bytes from i on are those of a code point that the mode admits. */
  ghost predicate Reads(s: seq<Byte>, i: nat, n: nat, c: nat, strict: int) {
    Admits(strict, c) && n == |Encoded(c)| && i + n <= |s| && s[i..i + n] == Encoded(c)
  }

  ghost predicate Unreadable(s: seq<Byte>, i: nat, strict: int) {
    forall n, c :: !Reads(s, i, n, c, strict)
  }

  /** CBU_IS_UNICODE_NONCHAR, which the strict modes, above 0, refuse. */
  predicate IsNonChar(c: nat) {
    c >= 0xfdd0 && (c <= 0xfdef || And(c, 0xfffe) == 0xfffe) && c <= 0x10ffff
  }

  /** The table utf8_errorValue. */
  const ERROR_VALUES: seq<nat> := [0x15, 0x9f, 0xffff, 0x10ffff, 0x3ff_ffff, 0x7fff_ffff]

  /** What an illegal sequence with n trail bytes gives. */
  function ErrorValue(strict: int, n: nat): nat
    requires n <= 5
  {
    if strict >= 0 then ERROR_VALUES[n] else SENTINEL
  }

  /** The length of a code's byte sequence in the older UTF-8 of ISO 10646. */
  function IsoLength(c: nat): nat {
    if c < 0x80 then 1 else if c < 0x800 then 2 else if c < 0x1_0000 then 3
    else if c < 0x20_0000 then 4 else if c < 0x400_0000 then 5 else 6
  }

  lemma SameLength(c: nat)
    requires c <= 0x10ffff
    ensures IsoLength(c) == |Encoded(c)|
  {
  }

  lemma ErrorLength(n: nat)
    requires n <= 5
    ensures IsoLength(ERROR_VALUES[n]) == n + 1
  {
  }

  lemma SpellsLead(t: seq<Byte>, c: nat)
    requires Spells(t, c)
    ensures |t| == CountTrailBytes(t[0]) + 1
  {
  }

  lemma WrongLength(s: seq<Byte>, i: nat, strict: int)
    requires i < |s|
    requires var n := CountTrailBytes(s[i]) + 1; forall c :: !Reads(s, i, n, c, strict)
    ensures Unreadable(s, i, strict)
  {
    forall n, c | Reads(s, i, n, c, strict)
      ensures n == CountTrailBytes(s[i]) + 1
    {
      EncodedSpells(c);
      SpellsLead(Encoded(c), c);
      assert Encoded(c)[0] == s[i..i + n][0];
    }
  }

  /** What is left to check once the trail bytes are in order. */
  lemma Checked(t: seq<Byte>, c: nat)
    requires 2 <= |t| <= 4 && CountTrailBytes(t[0]) == |t| - 1 && c == Spelled(t)
    requires c <= 0x10ffff && forall i :: 1 <= i < |t| ==> Tail(t[i])
    ensures Spells(t, c) <==> c >= MIN_LEGAL[|t| - 1]
  {
  }

  lemma Unchecked(lead: Byte, trail: seq<Byte>, c: nat)
    requires 1 <= |trail| <= 3
    requires Spelled([lead] + trail) > 0x10ffff || exists i :: 0 <= i < |trail| && !Tail(trail[i])
    ensures !Spells([lead] + trail, c)
  {
    var t := [lead] + trail;
    assert forall i :: 0 <= i < |trail| ==> trail[i] == t[i + 1];
    if Spells(t, c) { SpellsEncoded(t, c); }
  }

  /** Decodes a lead byte and its trail bytes. */
  method Checks(lead: Byte, trail: seq<Byte>, strict: int) returns (c: nat, legal: bool)
    requires 1 <= |trail| <= 3 && CountTrailBytes(lead) == |trail|
    ensures legal ==> Spells([lead] + trail, c) && Admits(strict, c)
    ensures !legal ==> forall d :: Spells([lead] + trail, d) ==> !Admits(strict, d)
  {
    ghost var t := [lead] + trail;
    var illegal;
    c, illegal := ReadTrail(lead, trail);
    if illegal == 0 {
      assert forall k :: 1 <= k < |t| ==> t[k] == trail[k - 1];
      SurrogateMask(c);
      Checked(t, c);
      legal := !(c < MIN_LEGAL[|trail|] || (IsSurrogate(c) && strict != -2));
    } else {
      forall d: nat ensures !Spells(t, d) { Unchecked(lead, trail, d); }
      legal := false;
    }
  }

  lemma NothingRead(s: seq<Byte>, i: nat, n: nat, strict: int)
    requires i + n <= |s| && forall d :: Spells(s[i..i + n], d) ==> !Admits(strict, d)
    ensures forall c :: !Reads(s, i, n, c, strict)
  {
    forall c | Admits(strict, c)
      ensures !Reads(s, i, n, c, strict)
    {
      EncodedSpells(c);
    }
  }

  /** i is just behind a byte from 0x80 on, in any mode.  If it starts a code
      point that the mode admits, that is read, and returned unless it is a
      noncharacter and the mode is strict; otherwise the trail bytes that belong
      to it are skipped.  In modes from 0 on every result is a code of as many
      bytes as were read. */
  method NextCharSafeBody(s: seq<Byte>, i: nat, strict: int) returns (c: nat, j: nat, ghost read: Option<nat>)
    requires 1 <= i <= |s| && s[i - 1] >= 0x80
    ensures i <= j <= |s| && j - i <= 5
    ensures read.Some? ==> Reads(s, i - 1, j - (i - 1), read.value, strict)
    ensures read.Some? ==> c == if strict > 0 && IsNonChar(read.value) then ErrorValue(strict, j - i) else read.value
    ensures read.None? ==> Unreadable(s, i - 1, strict) && SkipsTrails(s, i, j, CountTrailBytes(s[i - 1]))
    ensures read.None? ==> c == ErrorValue(strict, j - i)
    ensures strict >= 0 ==> IsoLength(c) == j - i + 1
  {
    var count := CountTrailBytes(s[i - 1]);
    if i + count <= |s| && 1 <= count <= 3 {
      assert [s[i - 1]] + s[i..i + count] == s[i - 1..i - 1 + (count + 1)];
      var legal;
      c, legal := Checks(s[i - 1], s[i..i + count], strict);
      if legal {
        read, j := Some(c), i + count;
        SpellsEncoded(s[i - 1..j], c);
        SameLength(c);
        ErrorLength(count);
        if strict > 0 && IsNonChar(c) {
          c := ERROR_VALUES[count];
        }
        return;
      }
      NothingRead(s, i - 1, count + 1, strict);
    } else {
      NotThisLong(s, i - 1, strict);
    }
    WrongLength(s, i - 1, strict);
    j := SkipTrails(s, i, count);
    read := None;
    ErrorLength(j - i);
    c := ErrorValue(strict, j - i);
  }

  /** Too few bytes, or a first byte that starts no code point. */
  lemma NotThisLong(s: seq<Byte>, i: nat, strict: int)
    requires i < |s| && s[i] >= 0x80
    requires var n := CountTrailBytes(s[i]) + 1; i + n > |s| || n == 1 || n > 4
    ensures var n := CountTrailBytes(s[i]) + 1; forall c :: !Reads(s, i, n, c, strict)
  {
    var n := CountTrailBytes(s[i]) + 1;
    forall c | Admits(strict, c)
      ensures !Reads(s, i, n, c, strict)
    {
      EncodedSpells(c);
      if i + n <= |s| && n == 1 { assert s[i..i + 1][0] == s[i]; }
    }
  }

  // ----- CBU8_NEXT -----

  predicate FormedAt(s: seq<Byte>, i: nat, n: nat) {
    i + n <= |s| && WellFormed(s[i..i + n])
  }

  /** No well-formed sequence starts at i. */
  ghost predicate IllFormed(s: seq<Byte>, i: nat) {
    forall n :: !FormedAt(s, i, n)
  }

  /** Outside the lenient mode a readable code point is a well-formed sequence. */
  lemma UnreadableIsIllFormed(s: seq<Byte>, i: nat)
    ensures Unreadable(s, i, -1) <==> IllFormed(s, i)
  {
    forall n, c | Reads(s, i, n, c, -1)
      ensures FormedAt(s, i, n)
    {
      SyntaxIsEncoding(Encoded(c));
    }
    forall n | FormedAt(s, i, n)
      ensures exists c :: Reads(s, i, n, c, -1)
    {
      SyntaxIsEncoding(s[i..i + n]);
      var c :| Scalar(c) && Encoded(c) == s[i..i + n];
      assert Reads(s, i, n, c, -1);
    }
  }

  /** CBU8_NEXT: always advances and stays inside; a code point exactly where
      a well-formed sequence starts, else the sentinel, behind the byte and the
      trail bytes that belong to it. */
  method Next(s: seq<Byte>, i: nat) returns (c: nat, j: nat)
    requires i < |s|
    ensures i < j <= |s|
    ensures c != SENTINEL ==> Scalar(c) && s[i..j] == Encoded(c)
    ensures c == SENTINEL <==> IllFormed(s, i)
    ensures c == SENTINEL ==> SkipsTrails(s, i + 1, j, if IsLead(s[i]) then CountTrailBytes(s[i]) else 0)
  {
    c := s[i];
    j := i + 1;
    UnreadableIsIllFormed(s, i);
    if c >= 0x80 {
      if IsLead(s[i]) {
        ghost var read;
        c, j, read := NextCharSafeBody(s, i + 1, -1);
        if read.Some? { assert s[i..i + (j - i)] == s[i..j]; }
      } else {
        NotThisLong(s, i, -1);
        WrongLength(s, i, -1);
        c := SENTINEL;
      }
    } else {
      assert Reads(s, i, 1, c, -1);
    }
  }

  // ----- CBU8_APPEND_UNSAFE -----

  lemma LeadBits(x: nat)
    ensures x < 32 ==> Or(0xc0, x) == 0xc0 + x
    ensures x < 16 ==> Or(0xe0, x) == 0xe0 + x
    ensures x < 8 ==> Or(0xf0, x) == 0xf0 + x
  {
    SmallPowers();
    if x < 32 { OrDisjoint(6, 5, x); }
    if x < 16 { OrDisjoint(14, 4, x); }
    if x < 8 { OrDisjoint(30, 3, x); }
  }

  lemma TrailBits(x: nat)
    ensures Or(0x80, And(x, 0x3f)) == Trail(x)
  {
    SmallPowers();
    AndMask(x, 6);
    OrDisjoint(2, 6, x % 64);
  }

  /** s is before with the bytes of out from i on. */
  ghost predicate Written(s: seq<Byte>, before: seq<Byte>, i: nat, out: seq<Byte>) {
    i + |out| <= |before| && s == before[..i] + out + before[i + |out|..]
  }

  /** Writes one more byte behind those of out. */
  method Put(s: array<Byte>, j: nat, b: Byte, ghost before: seq<Byte>, ghost i: nat, ghost out: seq<Byte>)
    returns (k: nat)
    requires Written(s[..], before, i, out) && j == i + |out| < s.Length
    modifies s
    ensures k == j + 1 && Written(s[..], before, i, out + [b])
    ensures out == [] ==> Written(s[..], before, i, [b])
  {
    s[j] := b;
    k := j + 1;
  }

  method PutTrail(s: array<Byte>, j: nat, x: nat, ghost before: seq<Byte>, ghost i: nat, ghost out: seq<Byte>)
    returns (k: nat)
    requires Written(s[..], before, i, out) && j == i + |out| < s.Length
    modifies s
    ensures k == j + 1 && Written(s[..], before, i, out + [Trail(x)])
  {
    TrailBits(x);
    k := Put(s, j, Or(0x80, And(x, 0x3f)), before, i, out);
  }

  /** Writes the bytes of a code point and nothing else. */
  method AppendUnsafe(s: array<Byte>, i: nat, c: nat) returns (j: nat)
    requires c <= 0x10ffff && i + |Encoded(c)| <= s.Length
    modifies s
    ensures j == i + |Encoded(c)|
    ensures Written(s[..], old(s[..]), i, Encoded(c))
  {
    ghost var before := s[..];
    if c <= 0x7f {
      j := Put(s, i, c, before, i, []);
    } else {
      j := AppendWide(s, i, c, c / 64);
    }
  }

  /** All bytes of a code point but the last n. */
  ghost function Front(c: nat, n: nat): (s: seq<Byte>)
    requires c <= 0x10ffff && n < |Encoded(c)|
    ensures |s| == |Encoded(c)| - n
  {
    Encoded(c)[..|Encoded(c)| - n]
  }

  lemma FrontNext(c: nat, p: nat, q: nat)
    requires 0x7f < c <= 0x10ffff && p == c / 64 && q == p / 64
    ensures |Encoded(c)| >= 2 && Front(c, 1) + [Trail(c)] == Encoded(c)
    ensures c <= 0x7ff ==> p < 32 && Front(c, 1) == [0xc0 + p]
    ensures c > 0x7ff ==> |Encoded(c)| >= 3 && Front(c, 2) + [Trail(p)] == Front(c, 1)
    ensures 0x7ff < c <= 0xffff ==> q < 16 && Front(c, 2) == [0xe0 + q]
    ensures c > 0xffff ==> q / 64 < 8 && |Encoded(c)| == 4 && Front(c, 2) == [0xf0 + q / 64] + [Trail(q)]
  {
    Quotients(c, p, q, q / 64);
    var r, t, t', t'' := q / 64, Trail(c), Trail(p), Trail(q);
    if c <= 0x7ff {
      assert Encoded(c) == [0xc0 + p, t] == [0xc0 + p] + [t];
    } else if c <= 0xffff {
      assert Encoded(c) == [0xe0 + q, t', t] == [0xe0 + q] + [t'] + [t];
    } else {
      assert Encoded(c) == [0xf0 + r, t'', t', t] == [0xf0 + r] + [t''] + [t'] + [t];
    }
  }

  lemma Quotients(c: nat, p: nat, q: nat, r: nat)
    requires c <= 0x10ffff && p == c / 64 && q == p / 64 && r == q / 64
    ensures r < 8 && (c <= 0x7ff ==> p < 32) && (c <= 0xffff ==> q < 16)
  {
  }

  method AppendWide(s: array<Byte>, i: nat, c: nat, p: nat) returns (j: nat)
    requires 0x7f < c <= 0x10ffff && p == c / 64 && i + |Encoded(c)| <= s.Length
    modifies s
    ensures j == i + |Encoded(c)|
    ensures Written(s[..], old(s[..]), i, Encoded(c))
  {
    ghost var before := s[..];
    FrontNext(c, p, p / 64);
    if c <= 0x7ff {
      LeadBits(p);
      j := Put(s, i, Or(0xc0, p), before, i, []);
    } else {
      j := AppendHigh(s, i, c <= 0xffff, p, p / 64, Front(c, 2));
    }
    j := PutTrail(s, j, c, before, i, Front(c, 1));
  }

  method PutTop(s: array<Byte>, i: nat, q: nat, r: nat, ghost before: seq<Byte>) returns (j: nat)
    requires before == s[..] && r < 8 && i + 2 <= s.Length
    modifies s
    ensures j == i + 2 && Written(s[..], before, i, [0xf0 + r] + [Trail(q)])
  {
    LeadBits(r);
    j := Put(s, i, Or(0xf0, r), before, i, []);
    j := PutTrail(s, j, q, before, i, [0xf0 + r]);
  }

  /** The bytes of a code point above 0x7ff, but for the last one. */
  method AppendHigh(s: array<Byte>, i: nat, three: bool, p: nat, q: nat, ghost front: seq<Byte>) returns (j: nat)
    requires if three then q < 16 && front == [0xe0 + q] else q / 64 < 8 && front == [0xf0 + q / 64] + [Trail(q)]
    requires i + |front| < s.Length
    modifies s
    ensures j == i + |front| + 1 && Written(s[..], old(s[..]), i, front + [Trail(p)])
  {
    ghost var before := s[..];
    if three {
      LeadBits(q);
      j := Put(s, i, Or(0xe0, q), before, i, []);
    } else {
      j := PutTop(s, i, q, q / 64, before);
    }
    j := PutTrail(s, j, p, before, i, front);
  }

  // ----- Whole strings -----

  predicate Scalars(cs: seq<nat>) {
    forall i :: 0 <= i < |cs| ==> Scalar(cs[i])
  }

  function EncodeAll(cs: seq<nat>): seq<Byte>
    requires Scalars(cs)
  {
    if cs == [] then [] else Encoded(cs[0]) + EncodeAll(cs[1..])
  }

  lemma {:induction false} EncodeAppend(cs: seq<nat>, c: nat)
    requires Scalars(cs) && Scalar(c)
    ensures EncodeAll(cs + [c]) == EncodeAll(cs) + Encoded(c)
  {
    if cs == [] {
      assert [c][1..] == [];
      assert cs + [c] == [c];
    } else {
      EncodeAppend(cs[1..], c);
      assert (cs + [c])[1..] == cs[1..] + [c];
    }
  }

  /** No code point's bytes begin another's. */
  lemma PrefixFree(a: nat, b: nat, s: seq<Byte>)
    requires Scalar(a) && Scalar(b) && Encoded(a) <= s && Encoded(b) <= s
    ensures a == b
  {
    EncodedSpells(a);
    EncodedSpells(b);
    SyntaxIsEncoding(Encoded(a));
    SyntaxIsEncoding(Encoded(b));
    LeadSettlesLength(Encoded(a));
    LeadSettlesLength(Encoded(b));
    assert Encoded(a)[0] == s[0] == Encoded(b)[0];
    assert Encoded(a) == s[..|Encoded(a)|] == Encoded(b);
  }

  /** So an encoding that begins another encodes a prefix of its text. */
  lemma {:induction false} PrefixOfEncoding(cs: seq<nat>, ds: seq<nat>)
    requires Scalars(cs) && Scalars(ds) && EncodeAll(cs) <= EncodeAll(ds)
    ensures cs <= ds
  {
    if cs != [] {
      var s := EncodeAll(ds);
      assert Encoded(cs[0]) <= EncodeAll(cs) <= s;
      assert ds != [];
      PrefixFree(cs[0], ds[0], s);
      var n := |Encoded(cs[0])|;
      assert EncodeAll(cs)[n..] == EncodeAll(cs[1..]) && s[n..] == EncodeAll(ds[1..]);
      assert EncodeAll(cs)[n..] <= s[n..];
      PrefixOfEncoding(cs[1..], ds[1..]);
    }
  }

  /** Behind an encoded prefix of a valid string starts a well-formed sequence. */
  lemma Continues(s: seq<Byte>, cs: seq<nat>, i: nat, ds: seq<nat>)
    requires Scalars(cs) && i < |s| && EncodeAll(cs) == s[..i] && Scalars(ds)
    ensures EncodeAll(ds) == s ==> !IllFormed(s, i)
  {
    if EncodeAll(ds) == s {
      PrefixOfEncoding(cs, ds);
      assert cs != ds;
      var c := ds[|cs|];
      SplitEncoding(ds, |cs|);
      assert ds[..|cs|] == cs;
      assert s[i..i + |Encoded(c)|] == Encoded(c);
      SyntaxIsEncoding(Encoded(c));
      assert FormedAt(s, i, |Encoded(c)|);
    }
  }

  /** Some text has this encoding. */
  ghost predicate Valid(s: seq<Byte>) {
    exists ds :: Scalars(ds) && EncodeAll(ds) == s
  }

  lemma StuckIsInvalid(s: seq<Byte>, cs: seq<nat>, i: nat)
    requires Scalars(cs) && i < |s| && EncodeAll(cs) == s[..i] && IllFormed(s, i)
    ensures !Valid(s)
  {
    forall ds | Scalars(ds)
      ensures EncodeAll(ds) == s ==> !IllFormed(s, i)
    {
      Continues(s, cs, i, ds);
    }
  }

  lemma {:induction false} SplitEncoding(ds: seq<nat>, k: nat)
    requires Scalars(ds) && k < |ds|
    ensures EncodeAll(ds[..k]) + Encoded(ds[k]) <= EncodeAll(ds)
    decreases k
  {
    if k > 0 {
      SplitEncoding(ds[1..], k - 1);
      assert ds[..k][1..] == ds[1..][..k - 1];
      PrefixBehind(Encoded(ds[0]), EncodeAll(ds[1..][..k - 1]), Encoded(ds[k]), EncodeAll(ds[1..]));
    }
  }

  lemma PrefixBehind(a: seq<Byte>, b: seq<Byte>, c: seq<Byte>, d: seq<Byte>)
    requires b + c <= d
    ensures a + b + c <= a + d
  {
  }

  /** Iterating CBU8_NEXT gives no sentinel exactly on valid strings, and then
      the text that the string encodes. */
  method DecodeAll(s: seq<Byte>) returns (cs: seq<nat>)
    ensures SENTINEL !in cs <==> Valid(s)
    ensures SENTINEL !in cs ==> Scalars(cs) && EncodeAll(cs) == s
  {
    cs := [];
    var i := 0;
    ghost var clean := true;
    while i < |s|
      invariant i <= |s|
      invariant clean ==> Scalars(cs) && EncodeAll(cs) == s[..i]
      invariant !clean ==> SENTINEL in cs && !Valid(s)
      decreases |s| - i
    {
      var c, j := Next(s, i);
      if clean && c == SENTINEL {
        StuckIsInvalid(s, cs, i);
        clean := false;
      } else if clean {
        EncodeAppend(cs, c);
        assert s[..j] == s[..i] + s[i..j];
      }
      cs := cs + [c];
      i := j;
    }
    assert s[..|s|] == s;
  }

  lemma EncodedMore(text: seq<nat>, k: nat)
    requires Scalars(text) && k < |text|
    ensures EncodeAll(text[..k + 1]) == EncodeAll(text[..k]) + Encoded(text[k])
    ensures |EncodeAll(text[..k])| + |Encoded(text[k])| <= |EncodeAll(text)|
  {
    SplitEncoding(text, k);
    EncodeAppend(text[..k], text[k]);
    assert text[..k + 1] == text[..k] + [text[k]];
  }

  method AppendBehind(buffer: array<Byte>, i: nat, c: nat) returns (j: nat)
    requires Scalar(c) && i + |Encoded(c)| <= buffer.Length
    modifies buffer
    ensures j == i + |Encoded(c)| && buffer[..j] == old(buffer[..i]) + Encoded(c)
  {
    j := AppendUnsafe(buffer, i, c);
    assert buffer[..j] == buffer[..i] + Encoded(c);
  }

  /** Iterating CBU8_APPEND_UNSAFE writes the encoding of a text. */
  method EncodeInto(text: seq<nat>, buffer: array<Byte>)
    requires Scalars(text) && buffer.Length == |EncodeAll(text)|
    modifies buffer
    ensures buffer[..] == EncodeAll(text)
  {
    var i: nat := 0;
    for k := 0 to |text|
      invariant i == |EncodeAll(text[..k])| <= buffer.Length && buffer[..i] == EncodeAll(text[..k])
    {
      EncodedMore(text, k);
      i := AppendBehind(buffer, i, text[k]);
    }
    assert text[..|text|] == text;
  }

  /** Decoding undoes encoding on every text. */
  method RoundTrip(text: seq<nat>, buffer: array<Byte>) returns (back: seq<nat>)
    requires Scalars(text) && buffer.Length == |EncodeAll(text)|
    modifies buffer
    ensures buffer[..] == EncodeAll(text) && back == text
  {
    EncodeInto(text, buffer);
    back := DecodeAll(buffer[..]);
    PrefixOfEncoding(back, text);
    PrefixOfEncoding(text, back);
  }
}
