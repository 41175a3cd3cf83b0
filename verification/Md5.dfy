/** The streaming MD5 of deps/base/md5.cc on a little-endian machine, with the
    block transform left open: buffering, padding and the bit counter. */
module Md5 {
  import opened Common
  import opened LimbMath
  import opened Bits

  datatype Chain = Chain(a: Word, b: Word, c: Word, d: Word)

  type Transform = (Chain, seq<Word>) -> Chain

  const INIT := Chain(0x67452301, 0xefcdab89, 0x98badcfe, 0x10325476)

  // ----- Words and bytes -----

  /** The low k bytes of n, least significant first. */
  function LittleEndian(n: nat, k: nat): (s: seq<Byte>)
    ensures |s| == k
  {
    if k == 0 then [] else [n % 256] + LittleEndian(n / 256, k - 1)
  }

  function FromLittleEndian(s: seq<Byte>): nat {
    if s == [] then 0 else s[0] + 256 * FromLittleEndian(s[1..])
  }

  lemma {:induction false} LittleEndianBack(s: seq<Byte>)
    ensures LittleEndian(FromLittleEndian(s), |s|) == s
  {
    if s != [] {
      LittleEndianBack(s[1..]);
      LowByte(s[0], FromLittleEndian(s[1..]));
    }
  }

  lemma LowByte(b: int, rest: nat)
    requires 0 <= b < 256
    ensures (b + 256 * rest) % 256 == b && (b + 256 * rest) / 256 == rest
  {
  }

  lemma {:induction false} LittleEndianSplit(a: nat, b: nat, k: nat, j: nat)
    requires a < Pow(256, k)
    ensures LittleEndian(a + b * Pow(256, k), k + j) == LittleEndian(a, k) + LittleEndian(b, j)
  {
    if k == 0 {
      assert LittleEndian(a, 0) + LittleEndian(b, j) == LittleEndian(b, j);
    } else {
      var p := Pow(256, k - 1);
      TopByte(a, b, p);
      LittleEndianSplit(a / 256, b, k - 1, j);
    }
  }

  lemma TopByte(a: nat, b: nat, p: nat)
    requires a < 256 * p
    ensures (a + b * (256 * p)) % 256 == a % 256 && (a + b * (256 * p)) / 256 == a / 256 + b * p
    ensures a / 256 < p
  {
    assert b * (256 * p) == 256 * (b * p);
  }

  function WordAt(s: seq<Byte>, i: nat): Word
    requires 4 * i + 4 <= |s|
  {
    FourBytes(s[4 * i..4 * i + 4]);
    FromLittleEndian(s[4 * i..4 * i + 4])
  }

  lemma FourBytes(s: seq<Byte>)
    requires |s| == 4
    ensures FromLittleEndian(s) == s[0] + 256 * s[1] + 65536 * s[2] + 16777216 * s[3] < BASE
  {
    assert s[1..][1..] == s[2..] && s[2..][1..] == s[3..] && s[3..][1..] == [];
    assert FromLittleEndian(s[3..]) == s[3];
    var c: int, d: int := s[2], s[3];
    assert FromLittleEndian(s[2..]) == c + 256 * d;
  }

  /** A 64-byte block as the sixteen words handed to the transform. */
  function Words(block: seq<Byte>): seq<Word>
    requires |block| == 64
  {
    seq(16, i requires 0 <= i < 16 => WordAt(block, i))
  }

  // ----- What the digest is: sections 3.1 to 3.5 of RFC 1321 -----

  function Zeros(n: nat): (s: seq<Byte>)
    ensures |s| == n && forall i :: 0 <= i < n ==> s[i] == 0
  {
    seq(n, i => 0)
  }

  /** How many zero bytes fill up to 56 modulo 64, after r bytes and the mark. */
  function Fill(r: nat): nat
    requires r < 64
  {
    if r < 56 then 55 - r else 119 - r
  }

  /** A one bit, zero bits up to 56 bytes modulo 64, and the length in bits
      modulo 2^64, low-order byte first. */
  function Padded(m: seq<Byte>): seq<Byte> {
    m + ([0x80] + Zeros(Fill(|m| % 64))) + LittleEndian(8 * |m| % TWO64, 8)
  }

  /** The chaining value after the first q blocks. */
  function Fold(f: Transform, m: seq<Byte>, q: nat): Chain
    requires 64 * q <= |m|
  {
    if q == 0 then INIT else f(Fold(f, m, q - 1), Words(m[64 * (q - 1)..64 * q]))
  }

  function Spelled(h: Chain): seq<Byte> {
    LittleEndian(h.a, 4) + LittleEndian(h.b, 4) + LittleEndian(h.c, 4) + LittleEndian(h.d, 4)
  }

  lemma SecondHalf(h: Chain)
    ensures |Spelled(h)| == 16 && Spelled(h)[8..] == LittleEndian(h.c, 4) + LittleEndian(h.d, 4)
  {
  }

  function Digest(f: Transform, m: seq<Byte>): seq<Byte> {
    Spelled(Fold(f, Padded(m), |Padded(m)| / 64))
  }

  lemma {:induction false} FoldPrefix(f: Transform, m: seq<Byte>, n: seq<Byte>, q: nat)
    requires 64 * q <= |m| && m <= n
    ensures Fold(f, m, q) == Fold(f, n, q)
  {
    if q > 0 {
      FoldPrefix(f, m, n, q - 1);
      assert m[64 * (q - 1)..64 * q] == n[64 * (q - 1)..64 * q];
    }
  }

  // ----- The bit counter -----

  /** Adding 8 times a length to the two-word counter. */
  function AddLow(low: Word, len: nat): Word {
    (low + len % BASE * 8 % BASE) % BASE
  }

  function AddHigh(low: Word, high: Word, len: nat): Word {
    var carried := if AddLow(low, len) < low then (high + 1) % BASE else high;
    (carried + len / 0x2000_0000 % BASE) % BASE
  }

  lemma EightTimes(len: nat)
    ensures len % BASE * 8 % BASE + BASE * (len / 0x2000_0000) == 8 * len
  {
    var q, r := len / 0x2000_0000, len % 0x2000_0000;
    var Q, R := len / BASE, len % BASE;
    assert len == 0x2000_0000 * q + r;
    assert R == 0x2000_0000 * (q - 8 * Q) + r;
    assert R * 8 == BASE * (q - 8 * Q) + 8 * r;
  }

  lemma CounterExact(low: Word, high: Word, total: nat, len: nat)
    requires (low + BASE * high) % TWO64 == total % TWO64
    ensures AddLow(low, len) + BASE * AddHigh(low, high, len) == (total + 8 * len) % TWO64
  {
    EightTimes(len);
    var x, y := len % BASE * 8 % BASE, len / 0x2000_0000;
    var c := if low + x >= BASE then 1 else 0;
    assert AddLow(low, len) == low + x - BASE * c;
    assert AddLow(low, len) < low <==> c == 1;
    HighWord(high, c, y);
    var h := AddHigh(low, high, len);
    var e := (high + c + y) / BASE;
    assert high + c + y == BASE * e + h;
    assert low + BASE * high + 8 * len == AddLow(low, len) + BASE * h + TWO64 * e;
    SameMod(low + BASE * high, total, 8 * len, AddLow(low, len) + BASE * h, e);
  }

  lemma HighWord(high: Word, c: nat, y: nat)
    requires c <= 1
    ensures ((if c == 1 then (high + 1) % BASE else high) + y % BASE) % BASE == (high + c + y) % BASE
  {
  }

  lemma SameMod(a: nat, b: nat, d: nat, r: nat, e: nat)
    requires a % TWO64 == b % TWO64 && a + d == r + TWO64 * e && r < TWO64
    ensures (b + d) % TWO64 == r
  {
    var qa, qb := a / TWO64, b / TWO64;
    assert b + d == r + TWO64 * (e + qb - qa);
  }

  lemma Buffered(total: nat, low: Word)
    requires low == 8 * total % TWO64 % BASE
    ensures low / 8 % 64 == total % 64
  {
    var a, b := 8 * total / TWO64, 8 * total % TWO64 / BASE;
    var y := total - 0x2000_0000_0000_0000 * a - 0x2000_0000 * b;
    assert low == 8 * y;
    Same64(total, y, 0x80_0000_0000_0000 * a + 0x80_0000 * b);
  }

  lemma Same64(a: int, b: int, e: int)
    requires a == b + 64 * e
    ensures a % 64 == b % 64
  {
  }

  lemma Masked(x: nat)
    ensures And(x, 0x3f) == x % 64
  {
    assert Pow2(3) == 8;
    Pow2Add(3, 3);
    AndMask(x, 6);
  }

  // ----- The padded message, block by block -----

  lemma PadOne(m: seq<Byte>, q: nat, r: nat)
    requires |m| == 64 * q + r && r < 56
    ensures |Padded(m)| == 64 * (q + 1)
    ensures Padded(m)[64 * q..] == m[64 * q..] + [0x80] + Zeros(55 - r) + LittleEndian(8 * |m| % TWO64, 8)
  {
    Aligned(|m|, q, r);
  }

  lemma PadTwo(m: seq<Byte>, q: nat, r: nat)
    requires |m| == 64 * q + r && 56 <= r < 64
    ensures |Padded(m)| == 64 * (q + 2)
    ensures Padded(m)[64 * q..64 * (q + 1)] == m[64 * q..] + [0x80] + Zeros(63 - r)
    ensures Padded(m)[64 * (q + 1)..] == Zeros(56) + LittleEndian(8 * |m| % TWO64, 8)
  {
    Aligned(|m|, q, r);
    assert Zeros(119 - r) == Zeros(63 - r) + Zeros(56);
  }

  lemma Aligned(n: nat, q: nat, r: nat)
    requires n == 64 * q + r && r < 64
    ensures n / 64 == q && n % 64 == r
  {
  }

  lemma CounterBytes(low: Word, high: Word, n: nat)
    requires low + BASE * high == n
    ensures LittleEndian(low, 4) + LittleEndian(high, 4) == LittleEndian(n, 8)
  {
    assert Pow(256, 2) == 65536;
    PowAdd(256, 2, 2);
    LittleEndianSplit(low, high, 4, 4);
  }

  // ----- The context -----

  class Context {
    const transform: Transform
    const input: array<Byte>
    var buf: Chain
    var low: Word
    var high: Word
    /** Everything fed in so far. */
    ghost var msg: seq<Byte>

    ghost predicate Valid()
      reads this, input
    {
      && input.Length == 64
      && buf == Fold(transform, msg, |msg| / 64)
      && input[..|msg| % 64] == msg[|msg| - |msg| % 64..]
      && low + BASE * high == 8 * |msg| % TWO64
    }

    constructor (transform: Transform)
      ensures Valid() && msg == [] && this.transform == transform && fresh(input)
    {
      this.transform := transform;
      input := new Byte[64];
      buf := INIT;
      low := 0;
      high := 0;
      msg := [];
    }

    /** Copies n bytes of src into the buffer. */
    method Copy(at: nat, src: seq<Byte>, from: nat, n: nat)
      requires input.Length == 64 && at + n <= 64 && from + n <= |src|
      modifies input
      ensures input[..] == old(input[..at]) + src[from..from + n] + old(input[at + n..])
    {
      for i := 0 to n
        invariant forall k :: 0 <= k < 64 ==>
          input[k] == if at <= k < at + i then src[from + (k - at)] else old(input[k])
      {
        input[at + i] := src[from + i];
      }
    }

    /** Clears the bytes from lo up to hi. */
    method Clear(lo: nat, hi: nat)
      requires input.Length == 64 && lo <= hi <= 64
      modifies input
      ensures input[..] == old(input[..lo]) + Zeros(hi - lo) + old(input[hi..])
    {
      for i := lo to hi
        invariant forall k :: 0 <= k < 64 ==> input[k] == if lo <= k < i then 0 else old(input[k])
      {
        input[i] := 0;
      }
    }

    /** Rewrites each group of four bytes as the machine word it spells; on a
        little-endian machine that changes nothing. */
    method ByteReverse(longs: nat)
      requires input.Length == 64 && 0 < longs <= 16
      modifies input
      ensures input[..] == old(input[..])
    {
      for i := 0 to longs
        invariant input[..] == old(input[..])
      {
        var t := Assemble(input[4 * i], input[4 * i + 1], input[4 * i + 2], input[4 * i + 3]);
        var four := input[4 * i..4 * i + 4];
        FourBytes(four);
        LittleEndianBack(four);
        Store(4 * i, t);
      }
    }

    /** Stores a word, least significant byte first. */
    method Store(at: nat, w: Word)
      requires input.Length == 64 && at + 4 <= 64
      modifies input
      ensures input[..] == old(input[..at]) + LittleEndian(w, 4) + old(input[at + 4..])
    {
      Copy(at, LittleEndian(w, 4), 0, 4);
    }

    /** Feeds the buffer, as the next block of m, to the transform. */
    method Compress(ghost m: seq<Byte>, ghost q: nat)
      requires input.Length == 64 && 64 * (q + 1) <= |m|
      requires buf == Fold(transform, m, q) && input[..] == m[64 * q..64 * (q + 1)]
      modifies `buf, input
      ensures buf == Fold(transform, m, q + 1) && input[..] == old(input[..])
    {
      ByteReverse(16);
      buf := transform(buf, Words(input[..]));
    }

    method Count(len: nat)
      requires low + BASE * high == 8 * |msg| % TWO64
      modifies `low, `high
      ensures low + BASE * high == (8 * |msg| + 8 * len) % TWO64
    {
      CounterExact(low, high, 8 * |msg|, len);
      var t := low;
      low := (t + len % BASE * 8 % BASE) % BASE;
      if low < t {
        high := (high + 1) % BASE;
      }
      high := (high + len / 0x2000_0000 % BASE) % BASE;
    }

    /** How many bytes wait in the buffer, read off the counter. */
    method Waiting() returns (t: nat)
      requires low + BASE * high == 8 * |msg| % TWO64
      ensures t == |msg| % 64
    {
      t := And(low / 8, 0x3f);
      Masked(low / 8);
      LowWord(8 * |msg| % TWO64, low, high);
      Buffered(|msg|, low);
    }

    /** Feeds whole blocks of data, of which the first off bytes are taken. */
    method TakeBlocks(data: seq<Byte>, off: nat, ghost m: seq<Byte>, ghost q: nat)
      returns (end: nat, ghost blocks: nat)
      requires input.Length == 64 && off <= |data|
      requires 64 * q <= |m| && buf == Fold(transform, m, q) && m[64 * q..] == data[off..]
      modifies `buf, input
      ensures off <= end <= |data| < end + 64
      ensures 64 * blocks <= |m| && m[64 * blocks..] == data[end..] && buf == Fold(transform, m, blocks)
    {
      end := off;
      blocks := q;
      while |data| - end >= 64
        invariant off <= end <= |data| && 64 * blocks <= |m| && m[64 * blocks..] == data[end..]
        invariant buf == Fold(transform, m, blocks)
      {
        Copy(0, data, end, 64);
        NextBlock(data, end, m, blocks);
        assert input[..] == data[end..end + 64];
        Compress(m, blocks);
        end := end + 64;
        blocks := blocks + 1;
      }
    }

    /** Completes the waiting block with the first bytes of data. */
    method TakeFirst(data: seq<Byte>, t: nat, ghost m: seq<Byte>, ghost q: nat)
      requires input.Length == 64 && 0 < t < 64 && |data| >= 64 - t
      requires |m| == 64 * q + t + |data| && m[64 * q..] == input[..t] + data
      requires buf == Fold(transform, m, q)
      modifies `buf, input
      ensures buf == Fold(transform, m, q + 1)
    {
      Copy(t, data, 0, 64 - t);
      assert input[..] == m[64 * q..][..64];
      Compress(m, q);
    }

    /** Keeps the rest of src, less than a block, behind the bytes waiting. */
    method Hold(at: nat, src: seq<Byte>, from: nat, ghost q: nat)
      requires input.Length == 64 && from <= |src| && at + (|src| - from) < 64
      requires |msg| == 64 * q + at + (|src| - from) && msg[64 * q..] == input[..at] + src[from..]
      requires buf == Fold(transform, msg, q) && low + BASE * high == 8 * |msg| % TWO64
      modifies input
      ensures Valid()
    {
      Copy(at, src, from, |src| - from);
      Aligned(|msg|, q, at + (|src| - from));
      assert input[..at + (|src| - from)] == old(input[..at]) + src[from..];
    }

    method Update(data: seq<Byte>)
      requires Valid()
      modifies this, input
      ensures Valid() && msg == old(msg) + data
    {
      ghost var m, q := msg + data, |msg| / 64;
      var t := Waiting();
      Count(|data|);
      msg := m;
      FoldPrefix(transform, old(msg), m, q);
      Joined(old(msg), data, q, t);
      if t != 0 && |data| < 64 - t {
        assert data[0..] == data;
        Hold(t, data, 0, q);
        return;
      }
      var off := 0;
      if t != 0 {
        TakeFirst(data, t, m, q);
        off := 64 - t;
        q := q + 1;
      }
      var end;
      end, q := TakeBlocks(data, off, m, q);
      assert input[..0] + data[end..] == data[end..];
      Hold(0, data, end, q);
    }

    /** Clears the block from position at on, feeds it, and starts an empty one. */
    method FinishBlock(ghost P: seq<Byte>, ghost q: nat, at: nat)
      requires input.Length == 64 && at <= 64 && 64 * (q + 1) <= |P|
      requires buf == Fold(transform, P, q) && P[64 * q..64 * (q + 1)] == input[..at] + Zeros(64 - at)
      modifies `buf, input
      ensures buf == Fold(transform, P, q + 1) && input[..56] == Zeros(56)
    {
      Clear(at, 64);
      Compress(P, q);
      Clear(0, 56);
    }

    /** Marks the end of the message and clears the rest of its last block,
        adding a block when fewer than eight bytes are left after the mark. */
    method Pad(ghost q: nat, r: nat) returns (ghost last: nat)
      requires Valid() && |msg| == 64 * q + r && r < 64
      modifies `buf, input
      ensures |Padded(msg)| == 64 * (last + 1) && buf == Fold(transform, Padded(msg), last)
      ensures input[..56] == Padded(msg)[64 * last..64 * (last + 1) - 8]
    {
      last := q;
      Aligned(|msg|, q, r);
      FoldPrefix(transform, msg, Padded(msg), q);
      input[r] := 0x80;
      assert input[..r + 1] == msg[64 * q..] + [0x80];
      if 63 - r < 8 {
        PadTwo(msg, q, r);
        FinishBlock(Padded(msg), q, r + 1);
        last := q + 1;
        assert Padded(msg)[64 * last..64 * (last + 1) - 8] == Padded(msg)[64 * last..][..56];
      } else {
        PadOne(msg, q, r);
        Clear(r + 1, 56);
        assert Padded(msg)[64 * last..64 * (last + 1) - 8] == Padded(msg)[64 * last..][..56];
      }
    }

    /** Puts the bit counter behind the padding and feeds the last block. */
    method AppendCount(ghost q: nat)
      requires input.Length == 64 && low + BASE * high == 8 * |msg| % TWO64
      requires |Padded(msg)| == 64 * (q + 1) && buf == Fold(transform, Padded(msg), q)
      requires input[..56] == Padded(msg)[64 * q..64 * (q + 1) - 8]
      modifies `buf, input
      ensures buf == Fold(transform, Padded(msg), q + 1)
    {
      Store(56, low);
      Store(60, high);
      LastBlock(msg, q, input[..], low, high);
      Compress(Padded(msg), q);
    }

    /** The digest of everything fed in. Only the first two words of the
        context are cleared, since the size cleared is that of a pointer: the
        other two still hold the second half of the digest. */
    method Final() returns (digest: seq<Byte>)
      requires Valid()
      modifies this, input
      ensures digest == Digest(transform, old(msg))
      ensures buf.a == 0 && buf.b == 0 && LittleEndian(buf.c, 4) + LittleEndian(buf.d, 4) == digest[8..]
      ensures unchanged(`low, `high, `msg)
    {
      var count := Waiting();
      ghost var q := Pad(|msg| / 64, count);
      ByteReverse(14);
      AppendCount(q);
      assert |Padded(msg)| / 64 == q + 1;
      digest := Spelled(buf);
      SecondHalf(buf);
      buf := buf.(a := 0, b := 0);
    }
  }

  lemma LastBlock(m: seq<Byte>, q: nat, block: seq<Byte>, low: Word, high: Word)
    requires |Padded(m)| == 64 * (q + 1) && low + BASE * high == 8 * |m| % TWO64
    requires |block| == 64 && block[56..] == LittleEndian(low, 4) + LittleEndian(high, 4)
    requires block[..56] == Padded(m)[64 * q..64 * (q + 1) - 8]
    ensures block == Padded(m)[64 * q..64 * (q + 1)]
  {
    var P := Padded(m);
    CounterBytes(low, high, 8 * |m| % TWO64);
    assert P[|P| - 8..] == LittleEndian(8 * |m| % TWO64, 8);
    assert block == block[..56] + block[56..];
    assert P[64 * q..64 * (q + 1)] == P[64 * q..64 * (q + 1) - 8] + P[|P| - 8..];
  }

  lemma LowWord(n: nat, low: Word, high: Word)
    requires low + BASE * high == n
    ensures low == n % BASE
  {
  }

  lemma NextBlock(data: seq<Byte>, end: nat, m: seq<Byte>, q: nat)
    requires end + 64 <= |data| && 64 * q <= |m| && m[64 * q..] == data[end..]
    ensures 64 * (q + 1) <= |m| && m[64 * q..64 * (q + 1)] == data[end..end + 64]
    ensures m[64 * (q + 1)..] == data[end + 64..]
  {
    assert m[64 * q..][..64] == m[64 * q..64 * (q + 1)] && m[64 * q..][64..] == m[64 * (q + 1)..];
    assert data[end..][..64] == data[end..end + 64] && data[end..][64..] == data[end + 64..];
  }

  lemma Joined(msg: seq<Byte>, data: seq<Byte>, q: nat, t: nat)
    requires |msg| == 64 * q + t && t < 64
    ensures (msg + data)[64 * q..] == msg[64 * q..] + data
    ensures |data| >= 64 - t ==> (msg + data)[64 * (q + 1)..] == data[64 - t..]
  {
  }

  /** (b3 << 8 | b2) << 16 | (b1 << 8 | b0) */
  method Assemble(b0: Byte, b1: Byte, b2: Byte, b3: Byte) returns (t: Word)
    ensures t == b0 + 256 * b1 + 65536 * b2 + 16777216 * b3
  {
    Pow2At32();
    assert Pow2(4) == 16;
    Pow2Add(4, 4);
    OrDisjoint(b3, 8, b2);
    OrDisjoint(b1, 8, b0);
    OrDisjoint(b3 * 256 + b2, 16, b1 * 256 + b0);
    t := Or(Or(b3 * 256, b2) * 65536, Or(b1 * 256, b0));
  }

  function Concat(chunks: seq<seq<Byte>>): seq<Byte> {
    if chunks == [] then [] else Concat(chunks[..|chunks| - 1]) + chunks[|chunks| - 1]
  }

  /** However a message is cut into calls, the digest is that of the whole. */
  method DigestOfChunks(f: Transform, chunks: seq<seq<Byte>>) returns (digest: seq<Byte>)
    ensures digest == Digest(f, Concat(chunks))
  {
    var c := new Context(f);
    for i := 0 to |chunks|
      invariant c.Valid() && c.transform == f && fresh(c) && fresh(c.input)
      invariant c.msg == Concat(chunks[..i])
    {
      c.Update(chunks[i]);
      assert chunks[..i + 1][..i] == chunks[..i];
    }
    assert chunks[..|chunks|] == chunks;
    digest := c.Final();
  }
}
