/** The hand-over of messages from pushing threads to the event loop: which
    steps can interleave, and what holds in every interleaving. */
module MsgQueueModel {

  /** Where the event loop's handler is.  Draining means it holds the lock. */
  datatype Popper<T> = Idle | AwaitLock | Draining | InCallback(msg: T)

  /** What a pushing thread that holds the lock has still to do. */
  datatype Pusher = NoPusher | Unlocking(send: bool)

  /** bytes counts the wake-up bytes in the socket pair, cap is the queue's
      bound (0: unbounded); accepted and seen record the messages taken from
      pushers and handed to the callback. */
  datatype State<T> = State(cap: nat, queue: seq<T>, bytes: nat, popper: Popper<T>, pusher: Pusher,
                            accepted: seq<T>, seen: seq<T>)

  datatype Action<T> =
    | Push(msg: T)         // lock, enqueue, and decide whether to wake the loop
    | FinishPush           // send the byte if due, unlock
    | Receive(n: nat)      // the loop wakes and reads n bytes, without the lock
    | Lock                 // the handler gets the lock
    | PopOne               // takes a message, unlocks, enters the callback
    | CallbackDone         // the callback returns; the handler wants the lock again
    | Finish               // finds the queue empty, unlocks

  function Initial<T>(cap: nat): State<T>
  {
    State(cap, [], 0, Idle, NoPusher, [], [])
  }

  predicate Enabled<T>(s: State<T>, a: Action<T>)
  {
    match a
    case Push(_) => s.pusher.NoPusher? && !s.popper.Draining?
    case FinishPush => s.pusher.Unlocking?
    case Receive(n) => s.popper.Idle? && 1 <= n <= s.bytes && n <= 64
    case Lock => s.popper.AwaitLock? && s.pusher.NoPusher?
    case PopOne => s.popper.Draining? && s.queue != []
    case CallbackDone => s.popper.InCallback?
    case Finish => s.popper.Draining? && s.queue == []
  }

  /** A bounded queue refuses a message when it is full. */
  predicate Accepts<T>(s: State<T>)
  {
    s.cap == 0 || |s.queue| != s.cap
  }

  function Next<T>(s: State<T>, a: Action<T>): State<T>
    requires Enabled(s, a)
  {
    match a
    case Push(m) =>
      if Accepts(s) then
        s.(queue := s.queue + [m], accepted := s.accepted + [m], pusher := Unlocking(|s.queue| + 1 == 1))
      else s.(pusher := Unlocking(false))
    case FinishPush => s.(bytes := if s.pusher.send then s.bytes + 1 else s.bytes, pusher := NoPusher)
    case Receive(n) => s.(bytes := s.bytes - n, popper := AwaitLock)
    case Lock => s.(popper := Draining)
    case PopOne => s.(queue := s.queue[1..], popper := InCallback(s.queue[0]), seen := s.seen + [s.queue[0]])
    case CallbackDone => s.(popper := AwaitLock)
    case Finish => s.(popper := Idle)
  }

  /** The state a run leads to; an action that cannot happen is no action. */
  ghost function After<T>(cap: nat, run: seq<Action<T>>): State<T>
  {
    if run == [] then Initial(cap)
    else
      var s := After(cap, run[..|run| - 1]);
      if Enabled(s, run[|run| - 1]) then Next(s, run[|run| - 1]) else s
  }

  /** No wake-up is lost: while messages wait, a byte is pending or about to be
      sent, or the handler is at work; and messages neither vanish nor repeat. */
  ghost predicate Inv<T>(s: State<T>)
  {
    && (s.queue != [] ==> s.bytes > 0 || !s.popper.Idle? || s.pusher == Unlocking(true))
    && !(s.popper.Draining? && s.pusher.Unlocking?)
    && s.accepted == s.seen + s.queue
    && (s.cap > 0 ==> |s.queue| <= s.cap)
  }

  lemma StepKeepsInv<T>(s: State<T>, a: Action<T>)
    requires Inv(s) && Enabled(s, a)
    ensures Inv(Next(s, a)) && Next(s, a).cap == s.cap
  {
    match a
    case Push(m) =>
      if Accepts(s) {
        assert s.accepted + [m] == s.seen + (s.queue + [m]);
      }
    case PopOne =>
      assert s.seen + s.queue == (s.seen + [s.queue[0]]) + s.queue[1..];
    case _ =>
  }

  lemma {:induction false} EveryRunKeepsInv<T>(cap: nat, run: seq<Action<T>>)
    ensures Inv(After(cap, run)) && After(cap, run).cap == cap
  {
    if run != [] {
      var pre := run[..|run| - 1];
      EveryRunKeepsInv(cap, pre);
      if Enabled(After(cap, pre), run[|run| - 1]) {
        StepKeepsInv(After(cap, pre), run[|run| - 1]);
      }
    }
  }

  /** The messages whose push was accepted in a run, in push order. */
  ghost function AcceptedIn<T>(cap: nat, run: seq<Action<T>>): seq<T>
  {
    if run == [] then []
    else
      var pre, a := run[..|run| - 1], run[|run| - 1];
      AcceptedIn(cap, pre)
      + (if a.Push? && Enabled(After(cap, pre), a) && Accepts(After(cap, pre)) then [a.msg] else [])
  }

  /** The messages handed to callbacks in a run, in order. */
  ghost function CallbacksIn<T>(cap: nat, run: seq<Action<T>>): seq<T>
  {
    if run == [] then []
    else
      var pre, a := run[..|run| - 1], run[|run| - 1];
      CallbacksIn(cap, pre)
      + (if a.PopOne? && Enabled(After(cap, pre), a) then [After(cap, pre).queue[0]] else [])
  }

  lemma {:induction false} HistoriesAreExact<T>(cap: nat, run: seq<Action<T>>)
    ensures After(cap, run).accepted == AcceptedIn(cap, run)
    ensures After(cap, run).seen == CallbacksIn(cap, run)
  {
    if run != [] {
      HistoriesAreExact(cap, run[..|run| - 1]);
    }
  }

  /** Delivery: in every run the callbacks have seen a prefix of the accepted
      messages, in push order and once each; the rest is exactly the queue. */
  lemma CallbacksSeeAcceptedInOrder<T>(cap: nat, run: seq<Action<T>>)
    ensures AcceptedIn(cap, run) == CallbacksIn(cap, run) + After(cap, run).queue
    ensures cap > 0 ==> |AcceptedIn(cap, run)| - |CallbacksIn(cap, run)| <= cap
  {
    EveryRunKeepsInv(cap, run);
    HistoriesAreExact(cap, run);
  }

  // ----- Everything accepted is delivered once pushing stops -----

  ghost function Work<T>(s: State<T>): nat
  {
    4 * |s.queue| + 4 * s.bytes + (if s.pusher.Unlocking? then 5 else 0)
    + match s.popper { case Idle => 0 case Draining => 1 case AwaitLock => 2 case InCallback(_) => 3 }
  }

  lemma StepsDoWork<T>(s: State<T>, a: Action<T>)
    requires Enabled(s, a) && !a.Push?
    ensures Work(Next(s, a)) < Work(s)
  {
  }

  /** A reachable state in which nothing but a push can happen has delivered
      every accepted message. */
  lemma QuiescentDeliveredAll<T(!new)>(cap: nat, run: seq<Action<T>>)
    requires forall a: Action<T> :: Enabled(After(cap, run), a) ==> a.Push?
    ensures CallbacksIn(cap, run) == AcceptedIn(cap, run)
  {
    var s := After(cap, run);
    EveryRunKeepsInv(cap, run);
    HistoriesAreExact(cap, run);
    assert !Enabled(s, FinishPush) && !Enabled(s, Receive(1)) && !Enabled(s, Lock);
    assert !Enabled(s, PopOne) && !Enabled(s, CallbackDone) && !Enabled(s, Finish);
  }

  /** Whatever the scheduler chooses, steps other than pushes run out after at
      most Work(s) of them. */
  ghost predicate Drains<T>(s: State<T>, run: seq<Action<T>>)
    decreases |run|
  {
    run == [] || (!run[0].Push? && Enabled(s, run[0]) && Drains(Next(s, run[0]), run[1..]))
  }

  lemma {:induction false} DrainsBounded<T>(s: State<T>, run: seq<Action<T>>)
    requires Drains(s, run)
    ensures |run| <= Work(s)
    decreases |run|
  {
    if run != [] {
      StepsDoWork(s, run[0]);
      DrainsBounded(Next(s, run[0]), run[1..]);
    }
  }
}
