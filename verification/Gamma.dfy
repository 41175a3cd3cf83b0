/** The gamma codec of deps/base/gamma_compression.h: a list of 32-bit values is
    packed bit by bit into a byte buffer and read back. */
module Gamma {
  import opened Common
  import opened LimbMath
  import opened Bits

  // ----- The code -----

  /** How many binary digits a value has. */
  function Width(v: nat): nat {
    if v == 0 then 0 else 1 + Width(v / 2)
  }

  function Ones(n: nat): (s: seq<bool>)
    ensures |s| == n
  {
    if n == 0 then [] else Ones(n - 1) + [true]
  }

  /** The low n binary digits of v, most significant first. */
  function Binary(v: nat, n: nat): (s: seq<bool>)
    ensures |s| == n
  {
    if n == 0 then [] else Binary(v / 2, n - 1) + [v % 2 == 1]
  }

  /** The code word of one value: 00 and 01 for zero and one, otherwise the
      length in unary, a stop bit, and the digits below the leading one. */
  function Code(v: nat): seq<bool> {
    if v < 2 then [false, v == 1]
    else Ones(Width(v) - 1) + [false] + Binary(v, Width(v) - 1)
  }

  function Codes(vs: seq<Word>): seq<bool> {
    if vs == [] then [] else Codes(vs[..|vs| - 1]) + Code(vs[|vs| - 1])
  }

  // ----- Reading code words back -----

  /** The number written by a run of digits, most significant first. */
  function FromBinary(s: seq<bool>): nat {
    if s == [] then 0 else 2 * FromBinary(s[..|s| - 1]) + (if s[|s| - 1] then 1 else 0)
  }

  lemma {:induction false} BinaryReadsBack(v: nat, n: nat)
    ensures FromBinary(Binary(v, n)) == v % Pow2(n)
  {
    if n > 0 {
      var s := Binary(v, n);
      BinaryReadsBack(v / 2, n - 1);
      assert s[..n - 1] == Binary(v / 2, n - 1);
      ModHalf(v, Pow2(n - 1));
    }
  }

  lemma {:induction false} WidthBounds(v: nat)
    requires v > 0
    ensures Width(v) > 0 && Pow2(Width(v) - 1) <= v < Pow2(Width(v))
  {
    if v > 1 { WidthBounds(v / 2); }
  }

  /** The digits below the leading one are what is left of the value once the
      leading one is taken away. */
  lemma BelowLeading(v: nat)
    requires v > 0
    ensures Width(v) > 0 && Pow2(Width(v) - 1) <= v
    ensures Pow2(Width(v) - 1) + FromBinary(Binary(v, Width(v) - 1)) == v
  {
    WidthBounds(v);
    var p := Pow2(Width(v) - 1);
    BinaryReadsBack(v, Width(v) - 1);
    DivModUnique(1, p, v - p);
    assert v == 1 * p + (v - p);
  }

  /** Taking away a multiple of 2^n leaves the low n digits alone. */
  lemma {:induction false} BinaryLow(v: nat, n: nat)
    requires Pow2(n) <= v
    ensures Binary(v - Pow2(n), n) == Binary(v, n)
  {
    if n > 0 {
      assert (v - Pow2(n)) / 2 == v / 2 - Pow2(n - 1);
      BinaryLow(v / 2, n - 1);
    }
  }

  // ----- The buffer as a row of bits -----

  predicate BitIn(s: seq<Byte>, i: nat)
    requires i < 8 * |s|
  {
    Bit(s[i / 8], i % 8) == 1
  }

  ghost function View(s: seq<Byte>): (v: seq<bool>)
    ensures |v| == 8 * |s| && forall i :: 0 <= i < |v| ==> v[i] == BitIn(s, i)
  {
    seq(8 * |s|, i requires 0 <= i < 8 * |s| => BitIn(s, i))
  }

  /** v with the bits from position at on replaced. */
  ghost function Spliced(v: seq<bool>, at: nat, bits: seq<bool>): (r: seq<bool>)
    requires at + |bits| <= |v|
    ensures |r| == |v|
  {
    seq(|v|, i requires 0 <= i < |v| => if at <= i < at + |bits| then bits[i - at] else v[i])
  }

  lemma SpliceNext(v: seq<bool>, at: nat, bits: seq<bool>, b: bool)
    requires at + |bits| < |v|
    ensures Spliced(v, at, bits)[at + |bits| := b] == Spliced(v, at, bits + [b])
  {
  }

  lemma SplicePrev(v: seq<bool>, at: nat, bits: seq<bool>, b: bool)
    requires at + 1 + |bits| <= |v|
    ensures Spliced(v, at + 1, bits)[at := b] == Spliced(v, at, [b] + bits)
  {
  }

  lemma SpliceJoin(v: seq<bool>, at: nat, a: seq<bool>, b: seq<bool>)
    requires at + |a| + |b| <= |v|
    ensures Spliced(Spliced(v, at, a), at + |a|, b) == Spliced(v, at, a + b)
  {
  }

  lemma SpliceNothing(v: seq<bool>, at: nat)
    requires at <= |v|
    ensures Spliced(v, at, []) == v
  {
  }

  lemma SpliceFront(v: seq<bool>, bits: seq<bool>)
    requires |bits| <= |v|
    ensures Spliced(v, 0, bits) == bits + v[|bits|..]
  {
  }

  lemma BitUpdated(s: seq<Byte>, t: seq<Byte>, index: nat, b: bool)
    requires index < 8 * |s|
    requires |t| == |s| && t == s[index / 8 := t[index / 8]]
    requires forall k :: 0 <= k < 8 ==>
      Bit(t[index / 8], k) == (if k == index % 8 then (if b then 1 else 0) else Bit(s[index / 8], k))
    ensures View(t) == View(s)[index := b]
  {
    forall i | 0 <= i < 8 * |s|
      ensures View(t)[i] == View(s)[index := b][i]
    {
      if i / 8 == index / 8 {
        assert i % 8 == index % 8 <==> i == index;
      }
    }
  }

  // ----- Single bits -----

  method GetNumBits(value: Word) returns (n: nat)
    ensures value > 0 ==> n == Width(value)
    ensures value == 0 ==> n == 1
  {
    if value == 0 { return 1; }
    n := 0;
    var v := value;
    while v > 0
      invariant v >= 0 && n + Width(v) == Width(value)
    {
      n := n + 1;
      v := v / 2;
    }
  }

  method SetBit(index: nat, data: array<Byte>)
    requires index < 8 * data.Length
    modifies data
    ensures View(data[..]) == old(View(data[..]))[index := true]
  {
    ghost var before := data[..];
    var k := index % 8;
    Pow2Below(k);
    OrBound(data[index / 8], Pow2(k), 8);
    data[index / 8] := Or(data[index / 8], Pow2(k));
    forall j: nat | j < 8
      ensures Bit(data[index / 8], j) == (if j == k then 1 else Bit(before[index / 8], j))
    {
      BitOr(before[index / 8], Pow2(k), j);
      BitPow2(k, j);
    }
    BitUpdated(before, data[..], index, true);
  }

  method ClearBit(index: nat, data: array<Byte>)
    requires index < 8 * data.Length
    modifies data
    ensures View(data[..]) == old(View(data[..]))[index := false]
  {
    ghost var before := data[..];
    var k := index % 8;
    Pow2Below(k);
    AndBound(data[index / 8], 255 - Pow2(k));
    data[index / 8] := And(data[index / 8], 255 - Pow2(k));
    forall j: nat | j < 8
      ensures Bit(data[index / 8], j) == (if j == k then 0 else Bit(before[index / 8], j))
    {
      BitAnd(before[index / 8], 255 - Pow2(k), j);
      BitHole(8, k, j);
    }
    BitUpdated(before, data[..], index, false);
  }

  method WriteBit(index: nat, b: bool, data: array<Byte>)
    requires index < 8 * data.Length
    modifies data
    ensures View(data[..]) == old(View(data[..]))[index := b]
  {
    if b {
      SetBit(index, data);
    } else {
      ClearBit(index, data);
    }
  }

  lemma Pow2Below(k: nat)
    requires k < 8
    ensures Pow2(8) == 256 && Pow2(k) <= 128
  {
    Pow2Monotone(k, 7);
    assert Pow2(4) == 16;
    Pow2Add(4, 4);
    Pow2Add(4, 3);
  }

  method ReadBit(index: nat, data: array<Byte>) returns (b: nat)
    requires index < 8 * data.Length
    ensures b == (if View(data[..])[index] then 1 else 0)
  {
    b := And(Shr(data[index / 8], index % 8), 1);
    BitShift(data[index / 8], index % 8);
    assert View(data[..])[index] == BitIn(data[..], index);
  }

  // ----- Writing -----

  method PutUnary(index: nat, n: nat, target: array<Byte>) returns (next: nat)
    requires index + n + 1 <= 8 * target.Length
    modifies target
    ensures next == index + n + 1
    ensures View(target[..]) == Spliced(old(View(target[..])), index, Ones(n) + [false])
  {
    ghost var v := View(target[..]);
    SpliceNothing(v, index);
    var left := n;
    next := index;
    while left > 0
      invariant 0 <= left <= n && next == index + (n - left)
      invariant View(target[..]) == Spliced(v, index, Ones(n - left))
    {
      SpliceNext(v, index, Ones(n - left), true);
      SetBit(next, target);
      next := next + 1;
      left := left - 1;
    }
    SpliceNext(v, index, Ones(n), false);
    ClearBit(next, target);
    next := next + 1;
  }

  lemma LastDigit(v: nat, n: nat, more: seq<bool>)
    requires n > 0
    ensures Binary(v / 2, n - 1) + ([v % 2 == 1] + more) == Binary(v, n) + more
  {
  }

  method PutBinary(index: nat, lower: nat, n: nat, target: array<Byte>)
    requires index + n <= 8 * target.Length
    modifies target
    ensures View(target[..]) == Spliced(old(View(target[..])), index, Binary(lower, n))
  {
    ghost var v := View(target[..]);
    SpliceNothing(v, index + n);
    var left, rest := n, lower;
    ghost var done: seq<bool> := [];
    while left > 0
      invariant 0 <= left <= n && |done| == n - left
      invariant Binary(rest, left) + done == Binary(lower, n)
      invariant View(target[..]) == Spliced(v, index + left, done)
    {
      SplicePrev(v, index + left - 1, done, rest % 2 == 1);
      WriteBit(index + left - 1, rest % 2 == 1, target);
      LastDigit(rest, left, done);
      done := [rest % 2 == 1] + done;
      rest := rest / 2;
      left := left - 1;
    }
    assert Binary(rest, 0) + done == done;
  }

  method PutSmall(value: nat, index: nat, target: array<Byte>) returns (next: nat)
    requires value < 2 && index + 2 <= 8 * target.Length
    modifies target
    ensures next == index + 2
    ensures View(target[..]) == Spliced(old(View(target[..])), index, [false, value == 1])
  {
    ghost var v := View(target[..]);
    SpliceNothing(v, index);
    SpliceNext(v, index, [], false);
    assert [] + [false] == [false];
    ClearBit(index, target);
    SpliceNext(v, index, [false], value == 1);
    assert [false] + [value == 1] == [false, value == 1];
    WriteBit(index + 1, value == 1, target);
    next := index + 2;
  }

  method PutLarge(value: Word, index: nat, target: array<Byte>) returns (next: nat)
    requires value >= 2 && index + |Code(value)| <= 8 * target.Length
    modifies target
    ensures next == index + |Code(value)|
    ensures View(target[..]) == Spliced(old(View(target[..])), index, Code(value))
  {
    var n := GetNumBits(value);
    CodeOfLarge(value, n);
    next := PutParts(index, n - 1, value - Pow2(n - 1), target);
  }

  /** The unary part, the stop bit and the digits. */
  method PutParts(index: nat, n: nat, lower: nat, target: array<Byte>) returns (next: nat)
    requires index + (n + 1) + n <= 8 * target.Length
    modifies target
    ensures next == index + (n + 1) + n
    ensures View(target[..]) == Spliced(old(View(target[..])), index, Ones(n) + [false] + Binary(lower, n))
  {
    SpliceJoin(View(target[..]), index, Ones(n) + [false], Binary(lower, n));
    next := PutUnary(index, n, target);
    PutBinary(next, lower, n, target);
    next := next + n;
  }

  lemma CodeOfLarge(value: nat, n: nat)
    requires value >= 2 && n == Width(value)
    ensures n > 1 && Pow2(n - 1) <= value
    ensures Code(value) == Ones(n - 1) + [false] + Binary(value, n - 1)
    ensures Binary(value - Pow2(n - 1), n - 1) == Binary(value, n - 1)
  {
    WidthBounds(value);
    BinaryLow(value, n - 1);
  }

  method PutCode(value: Word, index: nat, target: array<Byte>) returns (next: nat)
    requires index + |Code(value)| <= 8 * target.Length
    modifies target
    ensures next == index + |Code(value)|
    ensures View(target[..]) == Spliced(old(View(target[..])), index, Code(value))
  {
    if value < 2 {
      next := PutSmall(value, index, target);
    } else {
      next := PutLarge(value, index, target);
    }
  }

  /** The byte offset handed back: a 32-bit index, less one, wraps at zero. */
  function EndOffset(index: nat): nat {
    (index + BASE - 1) % BASE / 8 + 1
  }

  /** The offset is the length in bytes, rounded up, exactly if there is
      anything; with nothing written it is 2^29. */
  lemma EndIsCeiling(index: nat)
    requires index < BASE
    ensures EndOffset(index) == (index + 7) / 8 <==> index > 0
    ensures EndOffset(0) == 0x2000_0000
  {
    if index > 0 { assert (index + BASE - 1) % BASE == index - 1; }
  }

  /** Writes a code word behind what is done of v. */
  method PutBehind(value: Word, index: nat, target: array<Byte>, ghost v: seq<bool>, ghost done: seq<bool>)
    returns (next: nat)
    requires index == |done| && |done| + |Code(value)| <= |v|
    requires View(target[..]) == Spliced(v, 0, done)
    modifies target
    ensures next == |done + Code(value)| && View(target[..]) == Spliced(v, 0, done + Code(value))
  {
    SpliceJoin(v, 0, done, Code(value));
    next := PutCode(value, index, target);
  }

  /** Writes the code words one behind the other. */
  method PutCodes(values: seq<Word>, target: array<Byte>) returns (index: nat)
    requires |Codes(values)| <= 8 * target.Length
    modifies target
    ensures index == |Codes(values)|
    ensures View(target[..]) == Spliced(old(View(target[..])), 0, Codes(values))
  {
    ghost var v := View(target[..]);
    SpliceNothing(v, 0);
    index := 0;
    ghost var done: seq<bool> := [];
    for i := 0 to |values|
      invariant done == Codes(values[..i]) && index == |done| <= |v|
      invariant View(target[..]) == Spliced(v, 0, done)
    {
      CodesNext(values, i);
      index := PutBehind(values[i], index, target, v, done);
      done := done + Code(values[i]);
    }
    assert values[..|values|] == values;
  }

  /** Whatever the buffer held, it afterwards starts with the code words, and
      every later bit is as it was. */
  method ZipInt32WithGamma(values: seq<Word>, target: array<Byte>) returns (end: nat)
    requires |Codes(values)| <= 8 * target.Length && |Codes(values)| < BASE
    modifies target
    ensures View(target[..]) == Codes(values) + old(View(target[..]))[|Codes(values)|..]
    ensures end == EndOffset(|Codes(values)|)
  {
    SpliceFront(View(target[..]), Codes(values));
    var index := PutCodes(values, target);
    end := EndOffset(index);
  }

  lemma CodesNext(values: seq<Word>, i: nat)
    requires i < |values|
    ensures Codes(values[..i + 1]) == Codes(values[..i]) + Code(values[i])
    ensures |Codes(values[..i + 1])| <= |Codes(values)|
  {
    assert values[..i + 1][..i] == values[..i];
    CodesGrow(values, i + 1);
  }

  lemma {:induction false} CodesGrow(values: seq<Word>, i: nat)
    requires i <= |values|
    ensures Codes(values[..i]) <= Codes(values)
    decreases |values|
  {
    if i == |values| {
      assert values[..i] == values;
    } else {
      var init := values[..|values| - 1];
      CodesGrow(init, i);
      assert init[..i] == values[..i];
    }
  }

  // ----- Reading -----

  method TakeUnary(buffer: array<Byte>, index: nat, ghost n: nat) returns (count: nat, next: nat)
    requires index + n + 1 <= 8 * buffer.Length
    requires View(buffer[..])[index..index + n + 1] == Ones(n) + [false]
    ensures count == n && next == index + n + 1
  {
    OnesAll(n);
    ghost var v := View(buffer[..]);
    ghost var w := v[index..index + n + 1];
    assert forall k :: 0 <= k < n ==> w[k];
    assert !w[n];
    count := 0;
    var b := ReadBit(index, buffer);
    next := index + 1;
    while b != 0
      invariant count <= n && next == index + count + 1
      invariant b == (if w[count] then 1 else 0)
      decreases n - count
    {
      count := count + 1;
      b := ReadBit(next, buffer);
      next := next + 1;
    }
  }

  lemma {:induction false} OnesAll(n: nat)
    ensures forall k :: 0 <= k < n ==> Ones(n)[k]
  {
    if n > 0 { OnesAll(n - 1); }
  }

  method TakeBinary(buffer: array<Byte>, index: nat, n: nat) returns (lower: nat, next: nat)
    requires index + n <= 8 * buffer.Length
    ensures lower == FromBinary(View(buffer[..])[index..index + n]) && next == index + n
  {
    ghost var v := View(buffer[..]);
    lower := 0;
    next := index;
    var left := n;
    while left > 0
      invariant 0 <= left <= n && next == index + (n - left)
      invariant lower == FromBinary(v[index..next])
    {
      var b := ReadBit(next, buffer);
      assert v[index..next + 1][..next - index] == v[index..next];
      lower := 2 * lower + b;
      next := next + 1;
      left := left - 1;
    }
  }

  method TakeCode(buffer: array<Byte>, index: nat, ghost value: Word) returns (v: nat, next: nat)
    requires index + |Code(value)| <= 8 * buffer.Length
    requires View(buffer[..])[index..index + |Code(value)|] == Code(value)
    ensures v == value && next == index + |Code(value)|
  {
    ghost var bits := View(buffer[..]);
    ghost var n := if value < 2 then 0 else Width(value) - 1;
    CodeParts(bits, index, value, n);
    v, next := TakeParts(buffer, index, value, n);
  }

  /** The unary part tells what follows: one bit, or as many digits. */
  method TakeParts(buffer: array<Byte>, index: nat, ghost value: nat, ghost n: nat) returns (v: nat, next: nat)
    requires index + n + 1 + (if n == 0 then 1 else n) <= 8 * buffer.Length
    requires var bits := View(buffer[..]);
      && bits[index..index + n + 1] == Ones(n) + [false]
      && (n == 0 ==> value < 2 && bits[index + 1] == (value == 1))
      && (n > 0 ==> value == Pow2(n) + FromBinary(bits[index + n + 1..index + n + 1 + n]))
    ensures v == value && next == index + n + 1 + (if n == 0 then 1 else n)
  {
    var count;
    count, next := TakeUnary(buffer, index, n);
    if count == 0 {
      v := ReadBit(next, buffer);
      next := next + 1;
    } else {
      var lower;
      lower, next := TakeBinary(buffer, next, count);
      v := Pow2(count) + lower;
    }
  }

  /** Where the parts of a code word lie. */
  lemma CodeParts(bits: seq<bool>, index: nat, value: Word, n: nat)
    requires n == (if value < 2 then 0 else Width(value) - 1)
    requires index + |Code(value)| <= |bits| && bits[index..index + |Code(value)|] == Code(value)
    ensures index + n + 1 < |bits| && bits[index..index + n + 1] == Ones(n) + [false]
    ensures value < 2 ==> n == 0 && |Code(value)| == 2 && bits[index + 1] == (value == 1)
    ensures value >= 2 ==> n > 0 && |Code(value)| == 2 * n + 1
    ensures value >= 2 ==> value == Pow2(n) + FromBinary(bits[index + n + 1..index + n + 1 + n])
  {
    if value < 2 {
      SmallParts(bits, index, value == 1);
    } else {
      CodeOfLarge(value, n + 1);
      BelowLeading(value);
      LargeParts(bits, index, value, n, Ones(n) + [false], Binary(value, n));
    }
  }

  lemma SmallParts(bits: seq<bool>, index: nat, b: bool)
    requires index + 2 <= |bits| && bits[index..index + 2] == [false, b]
    ensures bits[index..index + 1] == Ones(0) + [false] && bits[index + 1] == b
  {
    assert bits[index] == bits[index..index + 2][0];
    assert bits[index + 1] == bits[index..index + 2][1];
    assert Ones(0) + [false] == [false];
  }

  lemma LargeParts(bits: seq<bool>, index: nat, value: nat, n: nat, a: seq<bool>, b: seq<bool>)
    requires |a| == n + 1 && |b| == n && value == Pow2(n) + FromBinary(b)
    requires index + |a + b| <= |bits| && bits[index..index + |a + b|] == a + b
    ensures bits[index..index + n + 1] == a
    ensures value == Pow2(n) + FromBinary(bits[index + n + 1..index + n + 1 + n])
  {
    assert bits[index..index + n + 1] == bits[index..index + |a + b|][..n + 1];
    assert bits[index + n + 1..index + n + 1 + n] == bits[index..index + |a + b|][n + 1..] == b;
  }

  /** Unzipping a buffer that starts with the code words of a list gives the
      list back, and stops at the offset where zipping stopped. */
  method UnzipInt32WithGamma(buffer: array<Byte>, values: array<nat>, ghost list: seq<Word>)
    returns (end: nat)
    requires values.Length == |list| && |Codes(list)| < BASE
    requires Codes(list) <= View(buffer[..])
    modifies values
    ensures values[..] == list
    ensures end == EndOffset(|Codes(list)|)
  {
    ghost var bytes := buffer[..];
    var index := 0;
    for i := 0 to values.Length
      invariant buffer[..] == bytes
      invariant index == |Codes(list[..i])|
      invariant values[..i] == list[..i]
    {
      CodeHere(View(bytes), list, i);
      ghost var done := values[..i];
      var value;
      value, index := TakeCode(buffer, index, list[i]);
      values[i] := value;
      NextValue(done, values[..i + 1], list, i);
    }
    assert list[..|list|] == list;
    end := EndOffset(index);
  }

  lemma NextValue(before: seq<nat>, after: seq<nat>, list: seq<nat>, i: nat)
    requires i < |list| && before == list[..i]
    requires |after| == i + 1 && after[..i] == before && after[i] == list[i]
    ensures after == list[..i + 1]
  {
  }

  lemma CodeHere(v: seq<bool>, list: seq<Word>, i: nat)
    requires i < |list| && Codes(list) <= v
    ensures |Codes(list[..i + 1])| == |Codes(list[..i])| + |Code(list[i])|
    ensures |Codes(list[..i])| + |Code(list[i])| <= |v|
    ensures v[|Codes(list[..i])|..|Codes(list[..i])| + |Code(list[i])|] == Code(list[i])
  {
    CodesNext(list, i);
    CodesGrow(list, i + 1);
    assert Codes(list[..i + 1]) <= v;
    var a, b := Codes(list[..i]), Code(list[i]);
    assert v[..|a| + |b|] == a + b;
  }

  /** Zipping any list into any buffer large enough and unzipping it returns
      the list, with both calls ending at the same byte. */
  method RoundTrip(values: seq<Word>, target: array<Byte>, result: array<nat>)
    returns (written: nat, read: nat)
    requires |Codes(values)| <= 8 * target.Length && |Codes(values)| < BASE
    requires result.Length == |values|
    modifies target, result
    ensures result[..] == values && written == read
    ensures written == (|Codes(values)| + 7) / 8 <==> values != []
    ensures values == [] ==> written == 0x2000_0000
  {
    written := ZipInt32WithGamma(values, target);
    assert Codes(values) <= View(target[..]);
    read := UnzipInt32WithGamma(target, result, values);
    EndIsCeiling(|Codes(values)|);
    if values != [] { assert |Code(values[|values| - 1])| > 0; }
  }
}
