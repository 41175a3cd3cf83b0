/** The ring buffer behind the message queue, and the queue itself: the steps
    of the hand-over carried out on the ring. */
module MsgQueue {
  import opened Common
  import opened LimbMath
  import opened Bits
  import M = MsgQueueModel

  const DEFAULT_UNBOUNDED_QUEUE_SIZE: nat := 1024
  const UINT: nat := 0x1_0000_0000

  // ----- nextpow2 -----

  /** The next power of two by smearing the highest bit, in 32-bit arithmetic. */
  function NextPow2(num: nat): nat
    requires num < UINT
  {
    (Smear((num - 1) % UINT) + 1) % UINT
  }

  /** Copies the highest bit that is set into all lower ones. */
  function Smear(n0: nat): nat {
    var n1 := Or(n0, n0 / 2);
    var n2 := Or(n1, n1 / 4);
    var n3 := Or(n2, n2 / 16);
    var n4 := Or(n3, n3 / 256);
    Or(n4, n4 / 0x1_0000)
  }

  /** The s highest of the len bits of n are ones (all of them, if s > len). */
  ghost predicate TopOnes(n: nat, len: nat, s: nat)
  {
    n < Pow2(len) <= n + Below(len, s)
  }

  ghost function Below(len: nat, s: nat): nat
  {
    if s <= len then Pow2(len - s) else 1
  }

  lemma DivAtLeast(n: nat, p: nat, q: nat)
    requires p > 0 && q * p <= n
    ensures n / p >= q
  {
    assert n == (n / p) * p + n % p;
    if n / p < q { MulMono(n / p + 1, q, p); }
  }

  /** One smearing step doubles the number of leading ones, until all are. */
  lemma SmearBy(n: nat, y: nat, len: nat, s: nat)
    requires 1 <= s && TopOnes(n, len, s) && y == n / Pow2(s)
    ensures TopOnes(Or(n, y), len, 2 * s)
  {
    if s > len {
      Pow2Monotone(len, s);
      DivModUnique(0, Pow2(s), n);
      OrZero(n);
    } else {
      SmearBounds(n, y, len, s);
      SmearOr(n, y, len, s);
    }
  }

  lemma SmearBounds(n: nat, y: nat, len: nat, s: nat)
    requires 1 <= s <= len && TopOnes(n, len, s) && y == n / Pow2(s)
    ensures Pow2(len - s) - Below(len, 2 * s) <= y < Pow2(len - s)
  {
    BelowTimes(len, s);
    Pow2Add(s, len - s);
    SmearParts(n, Pow2(s), Pow2(len - s), Below(len, 2 * s));
  }

  lemma SmearOr(n: nat, y: nat, len: nat, s: nat)
    requires 1 <= s <= len && TopOnes(n, len, s)
    requires Pow2(len - s) - Below(len, 2 * s) <= y < Pow2(len - s)
    ensures TopOnes(Or(n, y), len, 2 * s)
  {
    var k := len - s;
    HighPart(len, s, k);
    var high := Pow2(len) - Pow2(k);
    OrAbove(Pow2(s) - 1, n - high, y, k);
    OrBound(n - high, y, k);
  }

  lemma HighPart(len: nat, s: nat, k: nat)
    requires len == s + k
    ensures (Pow2(s) - 1) * Pow2(k) == Pow2(len) - Pow2(k) >= 0
  {
    Pow2Add(s, k);
    Pow2Monotone(k, len);
    OneLess(Pow2(s), Pow2(k));
  }

  lemma OneLess(a: int, b: int)
    ensures (a - 1) * b == a * b - b
  {
  }

  /** A value below the high part is or-ed into the low part alone. */
  lemma OrAbove(a: nat, r: nat, y: nat, k: nat)
    requires r < Pow2(k) && y < Pow2(k)
    ensures Or(a * Pow2(k) + r, y) == a * Pow2(k) + Or(r, y)
  {
    OrSplit(a * Pow2(k) + r, y, a, r, 0, y, k);
    OrZero(a);
  }

  lemma BelowTimes(len: nat, s: nat)
    requires s <= len
    ensures Pow2(len - s) <= Below(len, 2 * s) * Pow2(s) && Below(len, 2 * s) <= Pow2(len - s)
  {
    if 2 * s <= len {
      Pow2Add(len - 2 * s, s);
      Pow2Monotone(len - 2 * s, len - s);
    } else {
      Pow2Monotone(len - s, s);
    }
  }

  lemma SmearParts(n: nat, p: nat, pk: nat, d: nat)
    requires p > 0 && d <= pk && pk <= d * p && n < p * pk <= n + pk
    ensures pk - d <= n / p < pk && 0 <= n - (p - 1) * pk < pk
  {
    assert (p - 1) * pk == p * pk - pk;
    assert (pk - d) * p == p * pk - d * p;
    DivAtLeast(n, p, pk - d);
    QuotientBelow(n, p, pk);
  }

  lemma QuotientBelow(n: nat, p: nat, q: nat)
    requires p > 0 && n < p * q
    ensures n / p < q
  {
    assert n == (n / p) * p + n % p;
    if n / p >= q { MulMono(q, n / p, p); }
  }

  lemma {:induction false} BitLength(m: nat, k: nat) returns (len: nat)
    requires 1 <= m < Pow2(k)
    ensures 1 <= len <= k && Pow2(len - 1) <= m < Pow2(len)
  {
    if m >= Pow2(k - 1) {
      len := k;
    } else {
      len := BitLength(m, k - 1);
    }
  }

  /** All five steps leave len ones. */
  lemma SmearAll(n0: nat, len: nat)
    requires 1 <= len <= 32 && Pow2(len - 1) <= n0 < Pow2(len)
    ensures Smear(n0) == Pow2(len) - 1
  {
    Pow2At32();
    assert Pow2(8) == 256 by { Pow2Add(4, 4); }
    SmearBy(n0, n0 / 2, len, 1);
    var n1 := Or(n0, n0 / 2);
    SmearBy(n1, n1 / 4, len, 2);
    var n2 := Or(n1, n1 / 4);
    SmearBy(n2, n2 / 16, len, 4);
    var n3 := Or(n2, n2 / 16);
    SmearBy(n3, n3 / 256, len, 8);
    var n4 := Or(n3, n3 / 256);
    SmearBy(n4, n4 / 0x1_0000, len, 16);
  }

  lemma SmearedLength(n: nat) returns (e: nat)
    requires n < UINT
    ensures e <= 32 && Smear(n) + 1 == Pow2(e) && n < Pow2(e) && (e > 0 ==> Pow2(e - 1) <= n)
  {
    Pow2At32();
    if n == 0 {
      e := 0;
      assert Or(0, 0) == 0;
    } else {
      e := BitLength(n, 32);
      SmearAll(n, e);
    }
  }

  /** For sizes up to 2^31 the result is the least power of two that is not
      smaller; for the sizes above, and 0, it wraps to 0. */
  lemma NextPow2IsLeast(num: nat) returns (e: nat)
    requires num < UINT
    ensures 1 <= num <= 0x8000_0000 ==>
              NextPow2(num) == Pow2(e) && e <= 31 && num <= Pow2(e) && (e > 0 ==> Pow2(e - 1) < num)
    ensures num == 0 || num > 0x8000_0000 ==> NextPow2(num) == 0
  {
    var n: nat := if num == 0 then UINT - 1 else num - 1;
    OneBelow(num);
    Pow2At32();
    e := SmearedLength(n);
    PowerWraps(e);
    if e <= 31 { Pow2Monotone(e, 31); }
  }

  lemma OneBelow(num: nat)
    requires num < UINT
    ensures (num - 1) % UINT == (if num == 0 then UINT - 1 else num - 1)
  {
  }

  lemma PowerWraps(e: nat)
    requires e <= 32
    ensures Pow2(e) % UINT == (if e == 32 then 0 else Pow2(e))
  {
    Pow2At32();
    if e < 32 { Pow2Monotone(e, 31); }
  }

  // ----- The ring -----

  /** Wrapping an index that has moved past the end, with the mask the ring
      uses: its size is a power of two. */
  lemma WrapIndex(i: nat, n: nat, e: nat)
    requires n == Pow2(e) && i <= n
    ensures And(i, n - 1) == (if i == n then 0 else i)
  {
    AndMask(i, e);
    DivModUnique(0, n, if i == n then 0 else i);
    if i == n { DivModUnique(1, n, 0); }
  }

  /** The next index, kept inside the ring by its mask. */
  method Advance(i: nat, n: nat, ghost e: nat) returns (j: nat)
    requires n == Pow2(e) && i < n
    ensures j == (if i + 1 == n then 0 else i + 1)
  {
    WrapIndex(i + 1, n, e);
    j := And(i + 1, n - 1);
  }

  /** The slot i places behind head, in a ring of n. */
  ghost function SlotOf(head: nat, i: nat, n: nat): (s: nat)
    requires head < n
    ensures s < n
  {
    if i == 0 then head
    else
      var p := SlotOf(head, i - 1, n);
      if p + 1 == n then 0 else p + 1
  }

  /** The count entries from head on, in queue order. */
  ghost function Slots<T>(e: seq<T>, head: nat, count: nat): (s: seq<T>)
    requires head < |e|
    ensures |s| == count
  {
    seq(count, i requires 0 <= i < count => e[SlotOf(head, i, |e|)])
  }

  /** Writing behind the last entry of a ring that is not full. */
  lemma StoreSlots<T>(e: seq<T>, head: nat, count: nat, x: T)
    requires head < |e| && count < |e|
    ensures Slots(e[SlotOf(head, count, |e|) := x], head, count + 1) == Slots(e, head, count) + [x]
  {
    forall i | 0 <= i < count
      ensures SlotOf(head, i, |e|) != SlotOf(head, count, |e|)
    {
      SlotIs(head, i, |e|);
      SlotIs(head, count, |e|);
    }
  }

  /** now is was with x behind it and at every whole number of rounds of n
      before that. */
  ghost predicate Overwritten<T>(was: seq<T>, now: seq<T>, x: T, n: nat)
    requires n > 0
  {
    && |now| == |was| + 1
    && forall i :: 0 <= i < |now| ==> now[i] == if (|was| - i) % n == 0 then x else was[i]
  }

  /** Writing into a ring that is full. */
  lemma OverwriteSlots<T>(e: seq<T>, head: nat, count: nat, x: T)
    requires head < |e| <= count
    ensures Overwritten(Slots(e, head, count), Slots(e[SlotOf(head, count, |e|) := x], head, count + 1), x, |e|)
  {
    var n := |e|;
    var now := Slots(e[SlotOf(head, count, n) := x], head, count + 1);
    forall i | 0 <= i < count + 1
      ensures now[i] == if (count - i) % n == 0 then x else Slots(e, head, count)[i]
    {
      SameSlot(head, i, count - i, n);
      if i == count { DivModUnique(0, n, 0); }
    }
  }

  lemma PopSlots<T>(e: seq<T>, head: nat, count: nat)
    requires head < |e| && 1 <= count
    ensures Slots(e, head, count)[0] == e[head]
    ensures Slots(e, if head + 1 == |e| then 0 else head + 1, count - 1) == Slots(e, head, count)[1..]
  {
    var next := if head + 1 == |e| then 0 else head + 1;
    forall i | 0 <= i < count - 1
      ensures Slots(e, next, count - 1)[i] == Slots(e, head, count)[1..][i]
    {
      HeadStep(head, i + 1, |e|);
    }
  }

  class CircQueue<T(0)> {
    var head: nat
    var tail: nat
    var count: nat
    var maxEntries: nat
    var arrayElements: nat
    var entries: array<T>
    /** The array holds 2^order entries. */
    ghost var order: nat

    ghost predicate Shape()
      reads this
    {
      && order <= 31 && entries.Length == arrayElements == Pow2(order)
      && head < arrayElements && tail == SlotOf(head, count, arrayElements)
      && (maxEntries > 0 ==> count <= maxEntries)
      && (maxEntries == 0 ==> count <= arrayElements)
    }

    /** A bounded queue's array has room for everything the bound admits. */
    ghost predicate Fits()
      reads this
    {
      maxEntries <= arrayElements
    }

    ghost function Contents(): (s: seq<T>)
      requires Shape()
      reads this, entries
    {
      Slots(entries[..], head, count)
    }

    /** A queue for size messages, or an unbounded one if size is 0.  The array
        is large enough exactly when size does not exceed 2^31: above, the
        power of two wraps to 0 and the default size is used instead. */
    constructor (size: nat)
      requires size < UINT
      ensures Shape() && Contents() == [] && maxEntries == size && fresh(entries)
      ensures Fits() <==> size <= 0x8000_0000
      ensures size == 0 || size > 0x8000_0000 ==> arrayElements == DEFAULT_UNBOUNDED_QUEUE_SIZE
    {
      ghost var e := NextPow2IsLeast(size);
      assert Pow2(10) == 1024 by { Pow2Add(4, 4); }
      var n := NextPow2(size);
      var cap := if size == 0 || n == 0 then DEFAULT_UNBOUNDED_QUEUE_SIZE else n;
      order := if size == 0 || n == 0 then 10 else e;
      maxEntries, arrayElements := size, cap;
      head, tail, count := 0, 0, 0;
      entries := new T[cap];
    }

    /** Doubles the array; the messages end up in its first slots, in order. */
    method Grow()
      requires Shape() && 1 <= count <= arrayElements < 0x8000_0000
      modifies this
      ensures Shape() && fresh(entries) && arrayElements == 2 * old(arrayElements)
      ensures count == old(count) && maxEntries == old(maxEntries) && Contents() == old(Contents())
    {
      ghost var was := Contents();
      var newsize := arrayElements * 2;
      var newents := Unwrapped(newsize);
      SlotIs(0, count, newsize);
      Pow2Below31(order);
      head, tail := 0, count;
      arrayElements, order := newsize, order + 1;
      entries := newents;
      forall i | 0 <= i < count
        ensures Contents()[i] == was[i]
      {
        SlotIs(0, i, newsize);
      }
    }

    /** A larger array with the messages copied in order: the chunk from head
        on, then the chunk that had wrapped around. */
    method Unwrapped(newsize: nat) returns (newents: array<T>)
      requires Shape() && 1 <= count <= arrayElements < newsize
      ensures fresh(newents) && newents.Length == newsize
      ensures forall i :: 0 <= i < count ==> newents[i] == Contents()[i]
    {
      newents := new T[newsize];
      var headchunklen, tailchunklen := 0, 0;
      SlotIs(head, count, arrayElements);
      if head < tail {
        headchunklen := tail - head;
      } else {
        headchunklen := arrayElements - head;
        tailchunklen := tail;
      }
      forall i | 0 <= i < headchunklen {
        newents[i] := entries[head + i];
      }
      forall i | 0 <= i < tailchunklen {
        newents[headchunklen + i] := entries[i];
      }
      forall i | 0 <= i < count
        ensures newents[i] == Contents()[i]
      {
        SlotIs(head, i, arrayElements);
      }
    }

    /** Appends a message.  A bounded queue refuses when it is full, and only
        then; an unbounded one grows.  Nothing queued is overwritten as long as
        the array has room, as it always has if it fits the bound; after that,
        a push replaces every message a whole number of array lengths back, and
        no other. */
    method PushTail(elem: T) returns (ok: bool)
      requires Shape() && (maxEntries == 0 && count == arrayElements ==> arrayElements < 0x8000_0000)
      modifies this, entries
      ensures Shape() && maxEntries == old(maxEntries) && (entries == old(entries) || fresh(entries))
      ensures old(Fits()) ==> Fits()
      ensures maxEntries > 0 ==> arrayElements == old(arrayElements) && entries == old(entries)
      ensures ok <==> maxEntries == 0 || old(count) != maxEntries
      ensures !ok ==> Contents() == old(Contents())
      ensures ok && (maxEntries == 0 || old(count) < old(arrayElements)) ==> Contents() == old(Contents()) + [elem]
      ensures ok && maxEntries > 0 && old(count) >= old(arrayElements) ==>
                Overwritten(old(Contents()), Contents(), elem, arrayElements)
    {
      if maxEntries != 0 {
        if count == maxEntries {
          return false;
        }
      } else if count == arrayElements {
        Grow();
      }
      Store(elem);
      ok := true;
    }

    /** Writes at the tail and advances it. */
    method Store(elem: T)
      requires Shape() && (if maxEntries == 0 then count < arrayElements else count < maxEntries)
      modifies this, entries
      ensures Shape() && maxEntries == old(maxEntries) && entries == old(entries)
      ensures arrayElements == old(arrayElements) && count == old(count) + 1
      ensures old(count) < arrayElements ==> Contents() == old(Contents()) + [elem]
      ensures old(count) >= arrayElements ==> Overwritten(old(Contents()), Contents(), elem, arrayElements)
    {
      if count < arrayElements {
        StoreSlots(entries[..], head, count, elem);
      } else {
        OverwriteSlots(entries[..], head, count, elem);
      }
      count := count + 1;
      entries[tail] := elem;
      assert entries[..] == old(entries[..])[tail := elem];
      tail := Advance(tail, arrayElements, order);
    }

    /** Takes the oldest message; None if there is none. */
    method PopHead() returns (r: Option<T>)
      requires Shape()
      modifies this
      ensures Shape() && maxEntries == old(maxEntries) && entries == old(entries)
      ensures arrayElements == old(arrayElements)
      ensures if old(count) == 0 then r == None && Contents() == old(Contents())
              else r == Some(old(Contents())[0]) && Contents() == old(Contents())[1..]
    {
      if count == 0 {
        return None;
      }
      HeadStep(head, count, arrayElements);
      PopSlots(entries[..], head, count);
      r := Some(entries[head]);
      count := count - 1;
      head := Advance(head, arrayElements, order);
    }
  }

  /** Advancing the head renumbers the messages behind it. */
  lemma {:induction false} HeadStep(head: nat, i: nat, n: nat)
    requires head < n && i >= 1
    ensures SlotOf(if head + 1 == n then 0 else head + 1, i - 1, n) == SlotOf(head, i, n)
  {
    if i > 1 { HeadStep(head, i - 1, n); }
  }

  lemma {:induction false} SlotIs(head: nat, i: nat, n: nat)
    requires head < n && i <= n
    ensures SlotOf(head, i, n) == if head + i < n then head + i else head + i - n
  {
    if i > 0 { SlotIs(head, i - 1, n); }
  }

  lemma {:induction false} SlotAgain(head: nat, i: nat, n: nat)
    requires head < n && i >= n
    ensures SlotOf(head, i - n, n) == SlotOf(head, i, n)
  {
    if i == n {
      SlotIs(head, n, n);
    } else {
      SlotAgain(head, i - 1, n);
    }
  }

  lemma {:induction false} SlotShift(head: nat, i: nat, d: nat, n: nat)
    requires head < n
    ensures SlotOf(head, i + d, n) == SlotOf(SlotOf(head, i, n), d, n)
  {
    if d > 0 { SlotShift(head, i, d - 1, n); }
  }

  /** Two entries share a slot exactly if they are whole rounds apart. */
  lemma {:induction false} SameSlot(head: nat, i: nat, d: nat, n: nat)
    requires head < n
    ensures SlotOf(head, i + d, n) == SlotOf(head, i, n) <==> d % n == 0
  {
    SlotShift(head, i, d, n);
    SlotBack(SlotOf(head, i, n), d, n);
  }

  lemma {:induction false} SlotBack(head: nat, d: nat, n: nat)
    requires head < n
    ensures SlotOf(head, d, n) == head <==> d % n == 0
  {
    if d < n {
      SlotIs(head, d, n);
      DivModUnique(0, n, d);
    } else {
      SlotAgain(head, d, n);
      SlotBack(head, d - n, n);
      OneRound(d, n);
    }
  }

  lemma OneRound(d: nat, n: nat)
    requires 0 < n <= d
    ensures d % n == (d - n) % n
  {
    var q, r := (d - n) / n, (d - n) % n;
    assert (q + 1) * n == q * n + n;
    DivModUnique(q + 1, n, r);
  }

  /** A bound above 2^31 leaves a ring of 1024 slots: of any 1025 messages, all
      accepted, the first one popped is the last one pushed. */
  method FirstIsLost<T(0)>(size: nat, msgs: seq<T>) returns (r: Option<T>)
    requires 0x8000_0000 < size < UINT && |msgs| == DEFAULT_UNBOUNDED_QUEUE_SIZE + 1
    ensures r == Some(msgs[DEFAULT_UNBOUNDED_QUEUE_SIZE])
  {
    var q := new CircQueue<T>(size);
    for i := 0 to DEFAULT_UNBOUNDED_QUEUE_SIZE
      invariant q.Shape() && fresh(q) && fresh(q.entries)
      invariant q.maxEntries == size && q.arrayElements == DEFAULT_UNBOUNDED_QUEUE_SIZE
      invariant q.Contents() == msgs[..i]
    {
      var ok := q.PushTail(msgs[i]);
      assert msgs[..i + 1] == msgs[..i] + [msgs[i]];
    }
    var ok := q.PushTail(msgs[DEFAULT_UNBOUNDED_QUEUE_SIZE]);
    r := q.PopHead();
  }

  lemma Pow2Below31(e: nat)
    requires Pow2(e) < 0x8000_0000
    ensures e < 31
  {
    Pow2At32();
    if e >= 31 { Pow2Monotone(31, e); }
  }

  // ----- The queue and its two sides -----

  /** One method per step that other threads cannot interrupt: a step either
      holds the lock throughout or does not touch the ring. */
  class EventMsgQueue<T(0)> {
    const queue: CircQueue<T>
    var bytes: nat
    var popper: M.Popper<T>
    var pusher: M.Pusher
    ghost var accepted: seq<T>
    ghost var seen: seq<T>

    ghost predicate Valid()
      reads this, queue
    {
      queue.Shape() && queue.Fits()
    }

    ghost function Abs(): M.State<T>
      requires Valid()
      reads this, queue, queue.entries
    {
      M.State(queue.maxEntries, queue.Contents(), bytes, popper, pusher, accepted, seen)
    }

    constructor (maxSize: nat)
      requires maxSize <= 0x8000_0000
      ensures Valid() && Abs() == M.Initial(maxSize) && fresh(queue) && fresh(queue.entries)
    {
      queue := new CircQueue<T>(maxSize);
      bytes, popper, pusher := 0, M.Idle, M.NoPusher;
      accepted, seen := [], [];
    }

    /** The part of a push under the lock: enqueue, and note whether the queue
        has just become nonempty. */
    method Push(msg: T) returns (ok: bool)
      requires Valid() && M.Enabled(Abs(), M.Push(msg))
      requires queue.maxEntries == 0 && queue.count == queue.arrayElements ==> queue.arrayElements < 0x8000_0000
      modifies this, queue, queue.entries
      ensures Valid() && (queue.entries == old(queue.entries) || fresh(queue.entries))
      ensures ok == M.Accepts(old(Abs())) && Abs() == M.Next(old(Abs()), M.Push(msg))
    {
      ok := queue.PushTail(msg);
      if ok {
        accepted := accepted + [msg];
      }
      pusher := M.Unlocking(ok && queue.count == 1);
    }

    /** The rest of a push: the wake-up byte, if one is due. */
    method FinishPush()
      requires Valid() && M.Enabled(Abs(), M.FinishPush)
      modifies this
      ensures Valid() && Abs() == M.Next(old(Abs()), M.FinishPush)
    {
      if pusher.send {
        bytes := bytes + 1;
      }
      pusher := M.NoPusher;
    }

    method Receive(n: nat)
      requires Valid() && M.Enabled(Abs(), M.Receive(n))
      modifies this
      ensures Valid() && Abs() == M.Next(old(Abs()), M.Receive(n))
    {
      bytes := bytes - n;
      popper := M.AwaitLock;
    }

    method Lock()
      requires Valid() && M.Enabled(Abs(), M.Lock)
      modifies this
      ensures Valid() && Abs() == M.Next(old(Abs()), M.Lock)
    {
      popper := M.Draining;
    }

    method CallbackDone()
      requires Valid() && M.Enabled(Abs(), M.CallbackDone)
      modifies this
      ensures Valid() && Abs() == M.Next(old(Abs()), M.CallbackDone)
    {
      popper := M.AwaitLock;
    }

    /** With the lock held: takes a message and leaves the lock for the
        callback, or finds the queue empty and is done. */
    method Drain() returns (more: bool)
      requires Valid() && popper.Draining?
      modifies this, queue
      ensures Valid() && more == (old(Abs()).queue != [])
      ensures Abs() == M.Next(old(Abs()), if more then M.PopOne else M.Finish)
    {
      var r := queue.PopHead();
      match r {
        case None =>
          popper := M.Idle;
          more := false;
        case Some(msg) =>
          popper := M.InCallback(msg);
          seen := seen + [msg];
          more := true;
      }
    }

    /** One turn of the drain loop, by its effect on what is still to be seen. */
    method NextCallback() returns (more: bool)
      requires Valid() && popper.Draining?
      modifies this, queue
      ensures Valid() && pusher == old(pusher) && accepted == old(accepted) && bytes == old(bytes)
      ensures seen + queue.Contents() == old(seen) + old(queue.Contents())
      ensures if more then popper.InCallback? && queue.count < old(queue.count) else popper.Idle? && queue.count == 0
    {
      ghost var q := queue.Contents();
      more := Drain();
      if more { assert (old(seen) + [q[0]]) + q[1..] == old(seen) + q; }
    }

    /** A whole call of the handler that nothing disturbs: whatever is queued
        when it wakes is handed to the callback, in order, and nothing is left,
        so that everything ever accepted has then been seen. */
    method Pop(n: nat)
      requires Valid() && M.Inv(Abs()) && M.Enabled(Abs(), M.Receive(n)) && pusher.NoPusher?
      modifies this, queue
      ensures Valid() && M.Inv(Abs()) && popper.Idle? && queue.Contents() == []
      ensures seen == old(seen) + old(queue.Contents()) && accepted == old(accepted) == seen
      ensures bytes == old(bytes) - n && pusher.NoPusher?
    {
      ghost var all := seen + queue.Contents();
      Receive(n);
      Lock();
      var more := NextCallback();
      while more
        invariant Valid() && pusher.NoPusher? && accepted == old(accepted) && bytes == old(bytes) - n
        invariant if more then popper.InCallback? else popper.Idle? && queue.count == 0
        invariant seen + queue.Contents() == all
        decreases queue.count, more
      {
        CallbackDone();
        Lock();
        more := NextCallback();
      }
      assert seen + [] == seen;
    }
  }
}
