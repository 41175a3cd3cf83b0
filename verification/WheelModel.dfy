/** The idle-timeout wheel as a state machine over whole runs: which users a
    timer tick closes, in terms of the events that led up to it. */
module WheelModel {
  import opened LimbMath

  /** The wheel has n buckets; slot says which one a connected user is in. */
  datatype Wheel = Wheel(n: nat, head: nat, slot: map<string, nat>, polling: set<string>)

  datatype Event =
    | Connect(uid: string, polling: bool)
    | Message(uid: string)
    | Disconnect(uid: string)
    | Timer

  ghost predicate Inv(w: Wheel)
  {
    && 0 < w.n && w.head < w.n && w.polling <= w.slot.Keys
    && forall u :: u in w.slot ==> w.slot[u] < w.n
  }

  function Initial(n: nat): Wheel
  {
    Wheel(n, 0, map[], {})
  }

  /** The bucket behind the head: the last one the timer will reach. */
  function Tail(n: nat, head: nat): (t: nat)
    requires n > 0
    ensures t < n
  {
    (head + n - 1) % n
  }

  function Due(w: Wheel): set<string>
  {
    set u | u in w.slot && w.slot[u] == w.head
  }

  /** The users a tick closes: everyone due, or with server heartbeats (hb)
      only those who poll. */
  function Closes(w: Wheel, hb: bool): set<string>
  {
    set u | u in Due(w) && (!hb || u in w.polling)
  }

  function Beats(w: Wheel, hb: bool): set<string>
  {
    Due(w) - Closes(w, hb)
  }

  function Step(w: Wheel, hb: bool, e: Event): Wheel
    requires w.n > 0
  {
    match e
    case Connect(u, p) =>
      w.(slot := w.slot[u := Tail(w.n, w.head)], polling := if p then w.polling + {u} else w.polling - {u})
    case Message(u) =>
      if u in w.slot then w.(slot := w.slot[u := Tail(w.n, w.head)]) else w
    case Disconnect(u) =>
      w.(slot := w.slot - {u}, polling := w.polling - {u})
    case Timer =>
      w.(head := (w.head + 1) % w.n, slot := w.slot - Closes(w, hb), polling := w.polling - Closes(w, hb))
  }

  /** A login takes the place of a connection under the same id. */
  lemma Replacing(w: Wheel, hb: bool, u: string, p: bool)
    requires w.n > 0
    ensures Step(Step(w, hb, Disconnect(u)), hb, Connect(u, p)) == Step(w, hb, Connect(u, p))
  {
    assert (w.slot - {u})[u := Tail(w.n, w.head)] == w.slot[u := Tail(w.n, w.head)];
  }

  ghost function Run(n: nat, hb: bool, es: seq<Event>): (w: Wheel)
    requires n > 0
    ensures Inv(w) && w.n == n
  {
    if es == [] then Initial(n)
    else Step(Run(n, hb, es[..|es| - 1]), hb, es[|es| - 1])
  }

  // ----- The reference: counting ticks in the run -----

  /** Ticks since the last event that concerns uid. */
  ghost function TicksSince(es: seq<Event>, uid: string): nat
  {
    if es == [] then 0
    else
      match es[|es| - 1]
      case Timer => TicksSince(es[..|es| - 1], uid) + 1
      case e => if e.uid == uid then 0 else TicksSince(es[..|es| - 1], uid)
  }

  lemma ModShift(x: int, n: int)
    requires n > 0
    ensures (x + n) % n == x % n && (x - n) % n == x % n
  {
    var q, r := x / n, x % n;
    assert x == q * n + r;
    assert x + n == (q + 1) * n + r && x - n == (q - 1) * n + r;
    ModUnique(x + n, q + 1, r, n);
    ModUnique(x - n, q - 1, r, n);
  }

  lemma ModUnique(x: int, q: int, r: int, n: int)
    requires n > 0 && 0 <= r < n && x == q * n + r
    ensures x % n == r
  {
    var d := x / n - q;
    assert d * n == r - x % n;
    if d >= 1 {
      MulMono(1, d, n);
    } else if d <= -1 {
      MulMono(d, -1, n);
    }
  }

  /** In every run, a connected user sits t + 1 buckets behind the head, where
      t counts the ticks since its last event. */
  lemma {:induction false} SlotLagsTicks(n: nat, hb: bool, es: seq<Event>, uid: string)
    requires n > 0 && uid in Run(n, hb, es).slot
    ensures (Run(n, hb, es).slot[uid] + TicksSince(es, uid) + 1 - Run(n, hb, es).head) % n == 0
    ensures !hb || uid in Run(n, hb, es).polling ==> TicksSince(es, uid) < n
  {
    if es != [] {
      var pre, e := es[..|es| - 1], es[|es| - 1];
      var w := Run(n, hb, pre);
      if e.Timer? {
        SlotLagsTicks(n, hb, pre, uid);
        var x := w.slot[uid] + TicksSince(pre, uid) + 1 - w.head;
        ModShift(x, n);
        HeadStep(w.head, n);
        if TicksSince(pre, uid) + 1 == n && (!hb || uid in w.polling) {
          SlotAtHead(w.slot[uid], w.head, n);
        }
      } else if e.uid == uid {
        TailLag(w.head, n);
      } else {
        SlotLagsTicks(n, hb, pre, uid);
      }
    }
  }

  lemma HeadStep(head: nat, n: nat)
    requires head < n
    ensures (head + 1) % n == if head + 1 == n then 0 else head + 1
  {
  }

  lemma TailLag(head: nat, n: nat)
    requires head < n
    ensures Tail(n, head) == if head == 0 then n - 1 else head - 1
    ensures (Tail(n, head) + 1 - head) % n == 0
  {
    if head > 0 {
      ModUnique(head + n - 1, 1, head - 1, n);
    } else {
      ModUnique(n - 1, 0, n - 1, n);
    }
    ModUnique(n, 1, 0, n);
    ModUnique(0, 0, 0, n);
  }

  lemma SlotAtHead(slot: nat, head: nat, n: nat)
    requires slot < n && head < n && (slot + n - head) % n == 0
    ensures slot == head
  {
    if slot > head {
      ModUnique(slot + n - head, 1, slot - head, n);
    } else if slot < head {
      ModUnique(slot + n - head, 0, slot + n - head, n);
    }
  }

  /** A connected user is in the bucket at the head exactly when the coming
      tick is a multiple of n after its last event. */
  lemma DueIffTicks(n: nat, hb: bool, es: seq<Event>, uid: string)
    requires n > 0 && uid in Run(n, hb, es).slot
    ensures uid in Due(Run(n, hb, es)) <==> (TicksSince(es, uid) + 1) % n == 0
  {
    SlotLagsTicks(n, hb, es, uid);
    var w := Run(n, hb, es);
    SameResidue(w.slot[uid], w.head, TicksSince(es, uid) + 1, n);
  }

  lemma SameResidue(slot: nat, head: nat, t: nat, n: nat)
    requires slot < n && head < n && (slot + t - head) % n == 0
    ensures slot == head <==> t % n == 0
  {
    var q, k := (slot + t - head) / n, t / n;
    assert slot + t - head == q * n;
    if t % n == 0 {
      assert t == k * n;
      assert slot - head == (q - k) * n;
      if q - k >= 1 {
        MulMono(1, q - k, n);
      } else if q - k <= -1 {
        MulMono(q - k, -1, n);
      }
    } else if slot == head {
      ModUnique(t, q, 0, n);
    }
  }

  /** Closing mode: a tick closes exactly the connected users whose last event
      lies n ticks back, this one included. */
  lemma ClosedAtTickN(n: nat, es: seq<Event>, uid: string)
    requires n > 0
    ensures uid in Closes(Run(n, false, es), false)
            <==> uid in Run(n, false, es).slot && TicksSince(es, uid) + 1 == n
  {
    if uid in Run(n, false, es).slot {
      DueIffTicks(n, false, es, uid);
      SlotLagsTicks(n, false, es, uid);
      ModUnique(n, 1, 0, n);
      if TicksSince(es, uid) + 1 < n {
        ModUnique(TicksSince(es, uid) + 1, 0, TicksSince(es, uid) + 1, n);
      }
    }
  }

  /** Heartbeat mode: a tick sends a heartbeat to exactly the connected stream
      users for whom it is a multiple of n ticks after their last event. */
  lemma HeartbeatEveryN(n: nat, es: seq<Event>, uid: string)
    requires n > 0
    ensures uid in Beats(Run(n, true, es), true)
            <==> (&& uid in Run(n, true, es).slot && uid !in Run(n, true, es).polling
                  && (TicksSince(es, uid) + 1) % n == 0)
  {
    if uid in Run(n, true, es).slot {
      DueIffTicks(n, true, es, uid);
    }
  }

  ghost function Ticks(fs: seq<Event>): nat
  {
    if fs == [] then 0 else Ticks(fs[..|fs| - 1]) + (if fs[|fs| - 1].Timer? then 1 else 0)
  }

  ghost predicate Untouched(fs: seq<Event>, uid: string)
  {
    forall e :: e in fs ==> e.Timer? || e.uid != uid
  }

  lemma {:induction false} TicksSinceQuiet(es: seq<Event>, fs: seq<Event>, uid: string)
    requires Untouched(fs, uid)
    ensures TicksSince(es + fs, uid) == TicksSince(es, uid) + Ticks(fs)
  {
    if fs == [] {
      assert es + fs == es;
    } else {
      var pre := fs[..|fs| - 1];
      assert (es + fs)[..|es + fs| - 1] == es + pre;
      assert (es + fs)[|es + fs| - 1] == fs[|fs| - 1];
      assert fs[|fs| - 1] in fs;
      TicksSinceQuiet(es, pre, uid);
    }
  }

  /** The lifetime theorem.  After a user's push, while nothing concerns it,
      it stays connected through any mix of other events up to the n-th tick,
      and is gone from the n-th tick on; with heartbeats a stream user stays. */
  lemma {:induction false} ConnectedUntilTickN(n: nat, hb: bool, es: seq<Event>, fs: seq<Event>, uid: string)
    requires n > 0 && es != [] && uid in Run(n, hb, es).slot
    requires es[|es| - 1].Connect? || es[|es| - 1].Message?
    requires es[|es| - 1].uid == uid && Untouched(fs, uid)
    ensures uid in Run(n, hb, es + fs).slot
            <==> Ticks(fs) < n || (hb && uid !in Run(n, hb, es).polling)
    ensures uid in Run(n, hb, es + fs).slot ==>
              (uid in Run(n, hb, es + fs).polling <==> uid in Run(n, hb, es).polling)
  {
    if fs == [] {
      assert es + fs == es;
    } else {
      var pre, e := fs[..|fs| - 1], fs[|fs| - 1];
      var run := es + fs;
      assert run[..|run| - 1] == es + pre && run[|run| - 1] == e && e in fs;
      ConnectedUntilTickN(n, hb, es, pre, uid);
      var w := Run(n, hb, es + pre);
      StepKeeps(w, hb, e, uid);
      if e.Timer? && uid in w.slot {
        TicksSinceQuiet(es, pre, uid);
        DueIffTicks(n, hb, es + pre, uid);
        QuietDue(Ticks(pre) + 1, n);
      }
    }
  }

  lemma StepKeeps(w: Wheel, hb: bool, e: Event, uid: string)
    requires Inv(w) && (e.Timer? || e.uid != uid)
    ensures uid in Step(w, hb, e).slot
            <==> uid in w.slot && (e.Timer? ==> uid !in Due(w) || (hb && uid !in w.polling))
    ensures uid in Step(w, hb, e).slot ==> (uid in Step(w, hb, e).polling <==> uid in w.polling)
  {
  }

  lemma QuietDue(t: nat, n: nat)
    requires n > 0 && t > 0
    ensures t <= n ==> (t % n == 0 <==> t == n)
  {
    if t < n {
      ModUnique(t, 0, t, n);
    } else if t == n {
      ModUnique(t, 1, 0, n);
    }
  }
}
