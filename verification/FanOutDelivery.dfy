/** How often a published channel message reaches each user. */
module FanOutDelivery {
  import opened Common
  import opened FanOutModel

  /** How many loads wait for the job. */
  function Count(loads: seq<Load>, j: Job): nat {
    if loads == [] then 0
    else Count(loads[..|loads| - 1], j) + (if loads[|loads| - 1].job == j then 1 else 0)
  }

  lemma CountAppend(loads: seq<Load>, l: Load, j: Job)
    ensures Count(loads + [l], j) == Count(loads, j) + (if l.job == j then 1 else 0)
  {
    assert (loads + [l])[..|loads|] == loads;
  }

  lemma {:induction false} CountWithout(loads: seq<Load>, i: nat, j: Job)
    requires i < |loads|
    ensures Count(loads, j) == Count(Without(loads, i), j) + (if loads[i].job == j then 1 else 0)
    decreases |loads|
  {
    var n := |loads| - 1;
    if i == n {
      assert Without(loads, i) == loads[..n];
    } else {
      CountWithout(loads[..n], i, j);
      assert Without(loads, i) == Without(loads[..n], i) + [loads[n]];
      CountAppend(Without(loads[..n], i), loads[n], j);
    }
  }

  lemma {:induction false} CountSame(loads: seq<Load>, i: nat, a: Answer, j: Job)
    requires i < |loads|
    ensures Count(loads[i := loads[i].(answer := a)], j) == Count(loads, j)
    decreases |loads|
  {
    var n := |loads| - 1;
    var r := loads[i := loads[i].(answer := a)];
    if i < n {
      CountSame(loads[..n], i, a, j);
      assert r[..n] == loads[..n][i := loads[i].(answer := a)];
    } else {
      assert r[..n] == loads[..n];
    }
  }

  /** Copies of a job still on their way: in flight, or waiting for a load. */
  function Open(s: State, j: Job): nat {
    s.inbox[j] + Count(s.loads, j)
  }

  lemma CopiesCount(users: set<User>, m: Msg, u: User, n: Msg)
    ensures Copies(users, m)[Sent(u, n)] == (if m == n && u in users then 1 else 0)
  {
  }

  lemma BroadcastCount(k: Cluster, p: Peer, m: Msg, j: Job)
    ensures Broadcast(k, p, m)[j] == (if j.msg == m && j.peer in k.peers && j.peer != p then 1 else 0)
  {
  }

  // ----- What one step does to a job and to a user's copies -----

  lemma SendCounts(k: Cluster, s: State, j: Job, u: User, m: Msg)
    ensures var t, own := SendChannel(k, s, j), Job(k.shard(u), m);
      && Open(t, own) + t.handled[own] == Open(s, own) + s.handled[own] + (if j == own then 1 else 0)
      && t.sent[Sent(u, m)] - s.sent[Sent(u, m)] <= t.handled[own] - s.handled[own] <= 1
      && t.sent[Sent(u, m)] >= s.sent[Sent(u, m)] && t.handled[own] >= s.handled[own]
  {
    var own := Job(k.shard(u), m);
    var slot := Slot(j.peer, j.msg.channel);
    if slot in s.caches {
      CopiesCount(Own(k, j.peer, s.caches[slot]), j.msg, u, m);
    } else {
      CountAppend(s.loads, Load(j, Pending), own);
    }
  }

  lemma LoadedCounts(k: Cluster, s: State, j: Job, a: Answer, u: User, m: Msg)
    ensures var t, own := Loaded(k, s, j, a), Job(k.shard(u), m);
      && Open(t, own) == Open(s, own) && t.handled[own] == s.handled[own] + (if j == own then 1 else 0)
      && s.sent[Sent(u, m)] <= t.sent[Sent(u, m)] <= s.sent[Sent(u, m)] + (if j == own then 1 else 0)
  {
    if a.Users? { CopiesCount(Own(k, j.peer, a.users), j.msg, u, m); }
  }

  // ----- No more copies than publications -----

  /** The owner's peer has at most n copies of the message, open or handled,
      and has sent it no more often than it has handled it. */
  ghost predicate AtMost(k: Cluster, s: State, u: User, m: Msg, n: nat) {
    var own := Job(k.shard(u), m);
    Open(s, own) + s.handled[own] <= n && s.sent[Sent(u, m)] <= s.handled[own]
  }

  predicate Publishes(a: Action, m: Msg) {
    a.Pub? && a.msg == m
  }

  lemma StepAtMost(k: Cluster, s: State, a: Action, u: User, m: Msg, n: nat)
    requires Enabled(k, s, a) && AtMost(k, s, u, m, n)
    ensures AtMost(k, Next(k, s, a), u, m, if Publishes(a, m) then n + 1 else n)
  {
    var own := Job(k.shard(u), m);
    match a
    case Sub(_, v, c) =>
    case Unsub(_, v, c) =>
    case Pub(p, w) =>
      BroadcastCount(k, p, w, own);
      SendCounts(k, s.(inbox := s.inbox + Broadcast(k, p, w)), Job(p, w), u, m);
    case Receive(j) =>
      SendCounts(k, s.(inbox := s.inbox - multiset{j}), j, u, m);
    case Look(i) => CountSame(s.loads, i, Seen(s, s.loads[i].job.msg.channel), own);
    case Deliver(i) =>
      CountWithout(s.loads, i, own);
      LoadedCounts(k, s.(loads := Without(s.loads, i)), s.loads[i].job, s.loads[i].answer, u, m);
    case Fail(i) => CountWithout(s.loads, i, own);
  }

  /** How often the run publishes the message. */
  function Publications(run: seq<Action>, m: Msg): nat {
    if run == [] then 0 else (if Publishes(run[0], m) then 1 else 0) + Publications(run[1..], m)
  }

  lemma {:induction false} RunAtMost(k: Cluster, s: State, run: seq<Action>, u: User, m: Msg, n: nat)
    requires Legal(k, s, run) && AtMost(k, s, u, m, n)
    ensures AtMost(k, After(k, s, run), u, m, n + Publications(run, m))
    decreases |run|
  {
    if run != [] {
      StepAtMost(k, s, run[0], u, m, n);
      RunAtMost(k, Next(k, s, run[0]), run[1..], u, m, if Publishes(run[0], m) then n + 1 else n);
    }
  }

  /** No run sends a user a message more often than it is published: not when
      subscriptions change meanwhile, not when loads overlap or fail. */
  lemma AtMostOneCopy(k: Cluster, stored: map<Channel, set<User>>, run: seq<Action>, u: User, m: Msg)
    requires Legal(k, Started(stored), run)
    ensures After(k, Started(stored), run).sent[Sent(u, m)] <= Publications(run, m)
  {
    RunAtMost(k, Started(stored), run, u, m, 0);
  }

  // ----- Exactly once, for everyone whose subscription stands -----

  /** The step neither changes this user's subscription to the channel nor
      publishes the message again nor loses the load of it at the user's peer. */
  predicate Spares(k: Cluster, s: State, a: Action, u: User, m: Msg) {
    && !Changes(a, u, m.channel) && !Publishes(a, m)
    && !(a.Fail? && a.load < |s.loads| && s.loads[a.load].job == Job(k.shard(u), m))
  }

  predicate SparingRun(k: Cluster, s: State, run: seq<Action>, u: User, m: Msg)
    requires Legal(k, s, run)
    decreases |run|
  {
    run == [] || (Spares(k, s, run[0], u, m) && SparingRun(k, Next(k, s, run[0]), run[1..], u, m))
  }

  predicate Names(a: Answer, u: User) {
    a.Users? && u in a.users
  }

  /** What storage answered for the message at the user's own peer is still
      right about the user. */
  ghost predicate OwnRight(k: Cluster, s: State, u: User, m: Msg) {
    forall l :: l in s.loads && l.job == Job(k.shard(u), m) && !l.answer.Pending? ==>
      (Names(l.answer, u) <==> u in Stored(s, m.channel))
  }

  lemma StepOwnRight(k: Cluster, s: State, a: Action, u: User, m: Msg)
    requires Enabled(k, s, a) && !Changes(a, u, m.channel) && OwnRight(k, s, u, m)
    ensures OwnRight(k, Next(k, s, a), u, m)
  {
    StepLoads(k, s, a);
    StepRight(k, s, a, u, m.channel);
  }

  /** Every load of the next state was there before, is new, or has just been
      answered. */
  lemma StepLoads(k: Cluster, s: State, a: Action)
    requires Enabled(k, s, a)
    ensures forall l :: l in Next(k, s, a).loads ==>
      l in s.loads || l.answer.Pending? || l.answer == Seen(s, l.job.msg.channel)
  {
  }

  lemma {:induction false} NoSuchLoad(loads: seq<Load>, j: Job)
    requires Count(loads, j) == 0
    ensures forall l :: l in loads ==> l.job != j
  {
    if loads != [] { NoSuchLoad(loads[..|loads| - 1], j); }
  }

  /** The owner's peer has the message once, and the user has been sent it
      exactly if that peer has handled it and the user is subscribed. */
  ghost predicate Exact(k: Cluster, s: State, u: User, m: Msg, member: bool) {
    var own := Job(k.shard(u), m);
    && Open(s, own) + s.handled[own] == 1
    && s.sent[Sent(u, m)] == (if member then s.handled[own] else 0)
    && (u in Stored(s, m.channel) <==> member)
  }

  lemma SendExact(k: Cluster, s: State, j: Job, u: User, m: Msg, member: bool)
    requires CacheRight(k, s, u, m.channel)
    requires u in Stored(s, m.channel) <==> member
    ensures var t, own := SendChannel(k, s, j), Job(k.shard(u), m);
      t.sent[Sent(u, m)] == s.sent[Sent(u, m)] + (if member then t.handled[own] - s.handled[own] else 0)
  {
    var slot := Slot(j.peer, j.msg.channel);
    if slot in s.caches {
      CopiesCount(Own(k, j.peer, s.caches[slot]), j.msg, u, m);
    }
  }

  lemma LoadedExact(k: Cluster, s: State, j: Job, a: Answer, u: User, m: Msg, member: bool)
    requires j == Job(k.shard(u), m) ==> (Names(a, u) <==> member)
    ensures Loaded(k, s, j, a).sent[Sent(u, m)]
      == s.sent[Sent(u, m)] + (if member && j == Job(k.shard(u), m) then 1 else 0)
  {
    var users := if a.Users? then a.users else {};
    CopiesCount(Own(k, j.peer, users), j.msg, u, m);
  }

  lemma PubExact(k: Cluster, s: State, p: Peer, n: Msg, u: User, m: Msg, member: bool)
    requires CacheRight(k, s, u, m.channel) && n != m && p in k.peers
    requires Exact(k, s, u, m, member)
    ensures Exact(k, Next(k, s, Pub(p, n)), u, m, member)
  {
    var s' := s.(inbox := s.inbox + Broadcast(k, p, n));
    BroadcastCount(k, p, n, Job(k.shard(u), m));
    SendStep(k, s, s', Job(p, n), u, m, member);
  }

  /** Handling a job that is not counted as open keeps the counts exact. */
  lemma SendStep(k: Cluster, s: State, s': State, j: Job, u: User, m: Msg, member: bool)
    requires Exact(k, s, u, m, member) && CacheRight(k, s, u, m.channel)
    requires s' == s.(inbox := s'.inbox)
    requires var own := Job(k.shard(u), m);
      Open(s', own) + (if j == own then 1 else 0) == Open(s, own)
    ensures Exact(k, SendChannel(k, s', j), u, m, member)
  {
    SendCounts(k, s', j, u, m);
    SendExact(k, s', j, u, m, member);
  }

  lemma ReceiveExact(k: Cluster, s: State, j: Job, u: User, m: Msg, member: bool)
    requires CacheRight(k, s, u, m.channel) && j in s.inbox
    requires Exact(k, s, u, m, member)
    ensures Exact(k, Next(k, s, Receive(j)), u, m, member)
  {
    SendStep(k, s, s.(inbox := s.inbox - multiset{j}), j, u, m, member);
  }

  lemma DeliverExact(k: Cluster, s: State, i: nat, u: User, m: Msg, member: bool)
    requires OwnRight(k, s, u, m) && Enabled(k, s, Deliver(i))
    requires Exact(k, s, u, m, member)
    ensures Exact(k, Next(k, s, Deliver(i)), u, m, member)
  {
    var l, t := s.loads[i], s.(loads := Without(s.loads, i));
    CountWithout(s.loads, i, Job(k.shard(u), m));
    LoadedStep(k, s, t, l.job, l.answer, u, m, member);
  }

  /** Answering a load that is no longer counted as open keeps them exact. */
  lemma LoadedStep(k: Cluster, s: State, t: State, j: Job, a: Answer, u: User, m: Msg, member: bool)
    requires Exact(k, s, u, m, member) && t == s.(loads := t.loads)
    requires var own := Job(k.shard(u), m);
      Open(t, own) + (if j == own then 1 else 0) == Open(s, own) && (j == own ==> (Names(a, u) <==> member))
    ensures Exact(k, Loaded(k, t, j, a), u, m, member)
  {
    LoadedCounts(k, t, j, a, u, m);
    LoadedExact(k, t, j, a, u, m, member);
  }

  lemma StepExact(k: Cluster, s: State, a: Action, u: User, m: Msg, member: bool)
    requires CacheRight(k, s, u, m.channel) && OwnRight(k, s, u, m) && Enabled(k, s, a) && Spares(k, s, a, u, m)
    requires Exact(k, s, u, m, member)
    ensures Exact(k, Next(k, s, a), u, m, member)
  {
    var own := Job(k.shard(u), m);
    StepRight(k, s, a, u, m.channel);
    match a
    case Sub(_, v, c) =>
    case Unsub(_, v, c) =>
    case Pub(p, n) => PubExact(k, s, p, n, u, m, member);
    case Receive(j) => ReceiveExact(k, s, j, u, m, member);
    case Look(i) => CountSame(s.loads, i, Seen(s, s.loads[i].job.msg.channel), own);
    case Deliver(i) => DeliverExact(k, s, i, u, m, member);
    case Fail(i) => CountWithout(s.loads, i, own);
  }

  lemma {:induction false} RunExact(k: Cluster, s: State, run: seq<Action>, u: User, m: Msg, member: bool)
    requires Right(k, s, u, m.channel) && OwnRight(k, s, u, m)
    requires Legal(k, s, run) && SparingRun(k, s, run, u, m)
    requires Exact(k, s, u, m, member)
    ensures Exact(k, After(k, s, run), u, m, member)
    decreases |run|
  {
    if run != [] {
      StepExact(k, s, run[0], u, m, member);
      StepRight(k, s, run[0], u, m.channel);
      StepOwnRight(k, s, run[0], u, m);
      RunExact(k, Next(k, s, run[0]), run[1..], u, m, member);
    }
  }

  /** Publishing a message the user's peer has not seen. */
  lemma PubStartsExact(k: Cluster, s: State, p: Peer, m: Msg, u: User, member: bool)
    requires k.Valid() && CacheRight(k, s, u, m.channel) && AtMost(k, s, u, m, 0) && p in k.peers
    requires member <==> u in Stored(s, m.channel)
    ensures Exact(k, Next(k, s, Pub(p, m)), u, m, member)
  {
    PubOnce(k, s, p, m, u);
    SendExact(k, s.(inbox := s.inbox + Broadcast(k, p, m)), Job(p, m), u, m, member);
  }

  lemma PubOnce(k: Cluster, s: State, p: Peer, m: Msg, u: User)
    requires k.Valid() && AtMost(k, s, u, m, 0) && p in k.peers
    ensures s.handled[Job(k.shard(u), m)] == 0 == s.sent[Sent(u, m)]
    ensures var t, own := Next(k, s, Pub(p, m)), Job(k.shard(u), m);
      Open(t, own) + t.handled[own] == 1
  {
    var own := Job(k.shard(u), m);
    var s' := s.(inbox := s.inbox + Broadcast(k, p, m));
    BroadcastCount(k, p, m, own);
    assert Open(s', own) == Broadcast(k, p, m)[own];
    SendCounts(k, s', Job(p, m), u, m);
  }

  lemma PubStartsRight(k: Cluster, s: State, p: Peer, m: Msg, u: User)
    requires AtMost(k, s, u, m, 0) && p in k.peers
    ensures OwnRight(k, Next(k, s, Pub(p, m)), u, m)
  {
    NoSuchLoad(s.loads, Job(k.shard(u), m));
    StepOwnRight(k, s, Pub(p, m), u, m);
  }

  /** In every run from a start on any storage in which a message is published
      once: as soon as the user's own peer has nothing of it left to do, the
      user has been sent it once if subscribed at the publication, else not at
      all. Other users, channels and messages may do anything; this user's own
      changes of the channel are quiet before the publication, and there are
      none after it. */
  lemma OneCopyPerSubscriber(k: Cluster, stored: map<Channel, set<User>>, pre: seq<Action>,
                             p: Peer, m: Msg, run: seq<Action>, u: User)
    requires k.Valid() && p in k.peers
    requires Legal(k, Started(stored), pre) && QuietRun(k, Started(stored), pre, u, m.channel)
    requires Publications(pre, m) == 0
    requires var t := Next(k, After(k, Started(stored), pre), Pub(p, m));
      && Legal(k, t, run) && SparingRun(k, t, run, u, m)
      && Open(After(k, t, run), Job(k.shard(u), m)) == 0
    ensures var s := After(k, Started(stored), pre);
      After(k, Next(k, s, Pub(p, m)), run).sent[Sent(u, m)] == (if u in Stored(s, m.channel) then 1 else 0)
  {
    var s := After(k, Started(stored), pre);
    var member := u in Stored(s, m.channel);
    StartsRight(k, stored, u, m.channel);
    RunRight(k, Started(stored), pre, u, m.channel);
    RunAtMost(k, Started(stored), pre, u, m, 0);
    PubStartsExact(k, s, p, m, u, member);
    PubStartsRight(k, s, p, m, u);
    StepRight(k, s, Pub(p, m), u, m.channel);
    RunExact(k, Next(k, s, Pub(p, m)), run, u, m, member);
  }

  // ----- Two runs that lose a subscription -----

  lemma OneMore(k: Cluster, s: State, a: Action, run: seq<Action>)
    requires Enabled(k, s, a) && Legal(k, Next(k, s, a), run)
    ensures Legal(k, s, [a] + run) && After(k, s, [a] + run) == After(k, Next(k, s, a), run)
  {
    assert ([a] + run)[1..] == run;
  }

  /** A subscription handled while the owner's peer holds an answer of a first
      load that lacks the user is lost to that peer's cache. */
  lemma SubscribingDuringALoad(k: Cluster, s: State, i: nat, u: User, c: Channel)
    requires k.Valid() && i < |s.loads| && s.loads[i].answer.Users? && u !in s.loads[i].answer.users
    requires s.loads[i].job.peer == k.shard(u) && s.loads[i].job.msg.channel == c
    requires Slot(k.shard(u), c) !in s.caches
    ensures Legal(k, s, [Sub(k.shard(u), u, c)] + ([Deliver(i)] + []))
    ensures !CacheRight(k, After(k, s, [Sub(k.shard(u), u, c)] + ([Deliver(i)] + [])), u, c)
  {
    var sub := Sub(k.shard(u), u, c);
    var t := Next(k, s, sub);
    OneMore(k, t, Deliver(i), []);
    OneMore(k, s, sub, [Deliver(i)] + []);
  }

  /** Such a state is two steps from a start: publish to a stored channel and
      let storage look. */
  lemma LoadingStateIsReachable(k: Cluster, p: Peer, m: Msg)
    requires p in k.peers
    ensures Legal(k, Started(map[m.channel := {}]), [Pub(p, m)] + ([Look(0)] + []))
    ensures var t := After(k, Started(map[m.channel := {}]), [Pub(p, m)] + ([Look(0)] + []));
      t.loads == [Load(Job(p, m), Users({}))] && t.caches == map[]
  {
    var s := Started(map[m.channel := {}]);
    var t := Next(k, s, Pub(p, m));
    assert t.loads == [Load(Job(p, m), Pending)];
    OneMore(k, t, Look(0), []);
    OneMore(k, s, Pub(p, m), [Look(0)] + []);
  }

  /** A subscription handled by a peer that does not own the user, once the
      owner's peer has the channel cached, is lost to that cache. */
  lemma SubscribingElsewhere(k: Cluster, q: Peer, m: Msg, u: User)
    requires k.Valid() && q in k.peers && q != k.shard(u)
    ensures var p, s := k.shard(u), Started(map[m.channel := {}]);
      var run := [Pub(p, m)] + ([Look(0)] + ([Deliver(0)] + ([Sub(q, u, m.channel)] + [])));
      Legal(k, s, run) && !CacheRight(k, After(k, s, run), u, m.channel)
  {
    var p, c, s := k.shard(u), m.channel, Started(map[m.channel := {}]);
    var s1 := Next(k, s, Pub(p, m));
    assert s1.loads == [Load(Job(p, m), Pending)];
    var s2 := Next(k, s1, Look(0));
    assert s2.loads == [Load(Job(p, m), Users({}))];
    var s3 := Next(k, s2, Deliver(0));
    assert s3.caches == map[Slot(p, c) := {}];
    OneMore(k, s3, Sub(q, u, c), []);
    OneMore(k, s2, Deliver(0), [Sub(q, u, c)] + []);
    OneMore(k, s1, Look(0), [Deliver(0)] + ([Sub(q, u, c)] + []));
    OneMore(k, s, Pub(p, m), [Look(0)] + ([Deliver(0)] + ([Sub(q, u, c)] + [])));
  }
}
