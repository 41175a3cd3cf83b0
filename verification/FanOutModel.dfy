/** Channel messages in a cluster. Every peer caches the subscribers of the
    channels it has loaded, every published message is handled once by each
    peer, and each peer sends it to the subscribers that its shard owns. Loads
    are asynchronous: storage looks at some moment after the call and the
    answer arrives at some later moment, or the load fails. */
module FanOutModel {
  import opened Common

  type User = string
  type Channel = string
  type Peer = nat

  datatype Msg = Msg(id: nat, channel: Channel)
  datatype Job = Job(peer: Peer, msg: Msg)
  datatype Sent = Sent(user: User, msg: Msg)
  datatype Slot = Slot(peer: Peer, channel: Channel)

  datatype Answer = Pending | NoChannel | Users(users: set<User>)
  datatype Load = Load(job: Job, answer: Answer)

  /** The peers, and the peer that owns each user. */
  datatype Cluster = Cluster(peers: set<Peer>, shard: User -> Peer) {
    ghost predicate Valid() {
      forall u :: shard(u) in peers
    }
  }

  datatype State = State(
    stored: map<Channel, set<User>>,
    caches: map<Slot, set<User>>,
    inbox: multiset<Job>,
    loads: seq<Load>,
    handled: multiset<Job>,
    sent: multiset<Sent>
  )

  datatype Action =
    | Sub(peer: Peer, user: User, channel: Channel)
    | Unsub(peer: Peer, user: User, channel: Channel)
    | Pub(peer: Peer, msg: Msg)
    | Receive(job: Job)
    | Look(load: nat)
    | Deliver(load: nat)
    | Fail(load: nat)

  function Stored(s: State, c: Channel): set<User> {
    if c in s.stored then s.stored[c] else {}
  }

  function Own(k: Cluster, p: Peer, users: set<User>): set<User> {
    set u | u in users && k.shard(u) == p
  }

  /** One SendUserMsg for every user of the set. */
  function Copies(users: set<User>, m: Msg): multiset<Sent> {
    multiset(set u | u in users :: Sent(u, m))
  }

  function Change(users: set<User>, u: User, add: bool): set<User> {
    if add then users + {u} else users - {u}
  }

  /** Changes the stored set and, where the channel is cached there, the cache
      of the peer that handles the change. */
  function Subscribed(s: State, p: Peer, u: User, c: Channel, add: bool): State {
    var slot := Slot(p, c);
    s.(stored := s.stored[c := Change(Stored(s, c), u, add)],
       caches := if slot in s.caches then s.caches[slot := Change(s.caches[slot], u, add)] else s.caches)
  }

  /** SendChannelMsg at one peer: from the cache, or by starting a load. */
  function SendChannel(k: Cluster, s: State, j: Job): State {
    var slot := Slot(j.peer, j.msg.channel);
    if slot in s.caches then
      s.(sent := s.sent + Copies(Own(k, j.peer, s.caches[slot]), j.msg), handled := s.handled + multiset{j})
    else
      s.(loads := s.loads + [Load(j, Pending)])
  }

  /** The load's callback: sends, and caches unless another load already did. */
  function Loaded(k: Cluster, s: State, j: Job, a: Answer): State {
    var slot := Slot(j.peer, j.msg.channel);
    var t := s.(handled := s.handled + multiset{j});
    if a.Users? then
      t.(sent := t.sent + Copies(Own(k, j.peer, a.users), j.msg),
         caches := if slot in t.caches then t.caches else t.caches[slot := a.users])
    else t
  }

  function Broadcast(k: Cluster, p: Peer, m: Msg): multiset<Job> {
    multiset(set q | q in k.peers && q != p :: Job(q, m))
  }

  predicate Enabled(k: Cluster, s: State, a: Action) {
    match a
    case Sub(p, _, _) => p in k.peers
    case Unsub(p, _, _) => p in k.peers
    case Pub(p, _) => p in k.peers
    case Receive(j) => j in s.inbox
    case Look(i) => i < |s.loads| && s.loads[i].answer.Pending?
    case Deliver(i) => i < |s.loads| && !s.loads[i].answer.Pending?
    case Fail(i) => i < |s.loads|
  }

  function Seen(s: State, c: Channel): Answer {
    if c in s.stored then Users(s.stored[c]) else NoChannel
  }

  function Next(k: Cluster, s: State, a: Action): State
    requires Enabled(k, s, a)
  {
    match a
    case Sub(p, u, c) => Subscribed(s, p, u, c, true)
    case Unsub(p, u, c) => Subscribed(s, p, u, c, false)
    case Pub(p, m) => SendChannel(k, s.(inbox := s.inbox + Broadcast(k, p, m)), Job(p, m))
    case Receive(j) => SendChannel(k, s.(inbox := s.inbox - multiset{j}), j)
    case Look(i) => s.(loads := s.loads[i := s.loads[i].(answer := Seen(s, s.loads[i].job.msg.channel))])
    case Deliver(i) => Loaded(k, s.(loads := Without(s.loads, i)), s.loads[i].job, s.loads[i].answer)
    case Fail(i) => s.(loads := Without(s.loads, i))
  }

  predicate Legal(k: Cluster, s: State, run: seq<Action>)
    decreases |run|
  {
    run == [] || (Enabled(k, s, run[0]) && Legal(k, Next(k, s, run[0]), run[1..]))
  }

  function After(k: Cluster, s: State, run: seq<Action>): State
    requires Legal(k, s, run)
    decreases |run|
  {
    if run == [] then s else After(k, Next(k, s, run[0]), run[1..])
  }

  function Started(stored: map<Channel, set<User>>): State {
    State(stored, map[], multiset{}, [], multiset{}, multiset{})
  }

  // ----- Caches agree with storage, user by user -----

  /** Where the subscription of u to c is kept: at the peer that owns u. */
  function Home(k: Cluster, u: User, c: Channel): Slot {
    Slot(k.shard(u), c)
  }

  /** A load of the channel at the peer, answered with a set of users but not
      yet delivered; an answer without a channel never becomes a cache. */
  predicate Answered(s: State, slot: Slot, i: int) {
    && 0 <= i < |s.loads| && s.loads[i].answer.Users?
    && s.loads[i].job.peer == slot.peer && s.loads[i].job.msg.channel == slot.channel
  }

  ghost predicate CacheRight(k: Cluster, s: State, u: User, c: Channel) {
    Home(k, u, c) in s.caches ==> (u in s.caches[Home(k, u, c)] <==> u in Stored(s, c))
  }

  ghost predicate AnswersRight(k: Cluster, s: State, u: User, c: Channel) {
    forall i :: Answered(s, Home(k, u, c), i) ==> (u in s.loads[i].answer.users <==> u in Stored(s, c))
  }

  /** The cache is right about u; while there is none, the answers that could
      become the cache are. */
  ghost predicate Right(k: Cluster, s: State, u: User, c: Channel) {
    CacheRight(k, s, u, c) && (Home(k, u, c) in s.caches || AnswersRight(k, s, u, c))
  }

  predicate Changes(a: Action, u: User, c: Channel) {
    (a.Sub? || a.Unsub?) && a.user == u && a.channel == c
  }

  /** A change that storage already has. */
  predicate NoNews(s: State, a: Action)
    requires a.Sub? || a.Unsub?
  {
    a.Sub? <==> a.user in Stored(s, a.channel)
  }

  ghost predicate NoneAnswered(s: State, slot: Slot) {
    forall i :: !Answered(s, slot, i)
  }

  /** A subscription change is quiet if it is no news, or if it is handled by
      the user's own peer with the channel cached there, or if it is not cached
      and no set of users is on its way there. */
  ghost predicate Quiet(k: Cluster, s: State, a: Action) {
    (a.Sub? || a.Unsub?) ==>
      var home := Home(k, a.user, a.channel);
      NoNews(s, a) || (if home in s.caches then a.peer == home.peer else NoneAnswered(s, home))
  }

  function Subscription(p: Peer, u: User, c: Channel, add: bool): Action {
    if add then Sub(p, u, c) else Unsub(p, u, c)
  }

  lemma ChangeRight(k: Cluster, s: State, p: Peer, u: User, c: Channel, add: bool)
    requires Right(k, s, u, c)
    ensures Right(k, Subscribed(s, p, u, c, add), u, c) <==> Quiet(k, s, Subscription(p, u, c, add))
  {
    ChangedAnswers(k, s, p, u, c, add);
  }

  /** Answers on their way stay right exactly if there are none or no news. */
  lemma ChangedAnswers(k: Cluster, s: State, p: Peer, u: User, c: Channel, add: bool)
    requires AnswersRight(k, s, u, c) || Home(k, u, c) in s.caches
    ensures var t := Subscribed(s, p, u, c, add);
      && (u in Stored(t, c) <==> add)
      && (AnswersRight(k, s, u, c) ==>
           (AnswersRight(k, t, u, c) <==> NoNews(s, Subscription(p, u, c, add)) || NoneAnswered(s, Home(k, u, c))))
  {
    var t, home := Subscribed(s, p, u, c, add), Home(k, u, c);
    assert forall i :: Answered(t, home, i) <==> Answered(s, home, i);
    if AnswersRight(k, s, u, c) && !NoneAnswered(s, home) {
      var i :| Answered(s, home, i);
      assert Answered(t, home, i) && (u in t.loads[i].answer.users <==> u in Stored(s, c));
    }
  }

  /** A change of another subscription leaves this one alone. */
  lemma OtherSubscription(k: Cluster, s: State, p: Peer, v: User, d: Channel, add: bool, u: User, c: Channel)
    requires v != u || d != c
    ensures var t := Subscribed(s, p, v, d, add);
      && (CacheRight(k, s, u, c) ==> CacheRight(k, t, u, c))
      && (AnswersRight(k, s, u, c) ==> AnswersRight(k, t, u, c))
      && (Home(k, u, c) in t.caches <==> Home(k, u, c) in s.caches)
      && (u in Stored(t, c) <==> u in Stored(s, c))
  {
    var t := Subscribed(s, p, v, d, add);
    assert forall i :: Answered(t, Home(k, u, c), i) <==> Answered(s, Home(k, u, c), i);
  }

  /** Starting a load or sending from a cache changes nothing here. */
  lemma SendRight(k: Cluster, s: State, t: State, j: Job, u: User, c: Channel)
    requires t == SendChannel(k, s.(inbox := t.inbox), j)
    ensures CacheRight(k, s, u, c) ==> CacheRight(k, t, u, c)
    ensures AnswersRight(k, s, u, c) ==> AnswersRight(k, t, u, c)
    ensures t.caches == s.caches && t.stored == s.stored
  {
    assert forall i :: Answered(t, Home(k, u, c), i) ==> i < |s.loads| && Answered(s, Home(k, u, c), i);
  }

  lemma FewerAnswers(k: Cluster, s: State, i: nat, u: User, c: Channel)
    requires i < |s.loads| && AnswersRight(k, s, u, c)
    ensures AnswersRight(k, s.(loads := Without(s.loads, i)), u, c)
  {
    var t := s.(loads := Without(s.loads, i));
    forall j | Answered(t, Home(k, u, c), j)
      ensures u in t.loads[j].answer.users <==> u in Stored(t, c)
    {
      assert Answered(s, Home(k, u, c), if j < i then j else j + 1);
    }
  }

  lemma LookRight(k: Cluster, s: State, i: nat, u: User, c: Channel)
    requires Enabled(k, s, Look(i)) && AnswersRight(k, s, u, c)
    ensures AnswersRight(k, Next(k, s, Look(i)), u, c)
  {
    var t := Next(k, s, Look(i));
    forall j | Answered(t, Home(k, u, c), j)
      ensures u in t.loads[j].answer.users <==> u in Stored(t, c)
    {
      if j != i { assert Answered(s, Home(k, u, c), j); }
    }
  }

  /** Delivering an answer makes it the cache where there is none. */
  lemma LoadedRight(k: Cluster, s: State, i: nat, u: User, c: Channel)
    requires Enabled(k, s, Deliver(i)) && CacheRight(k, s, u, c)
    requires Home(k, u, c) in s.caches || AnswersRight(k, s, u, c)
    ensures CacheRight(k, Next(k, s, Deliver(i)), u, c)
    ensures AnswersRight(k, s, u, c) ==> AnswersRight(k, Next(k, s, Deliver(i)), u, c)
    ensures Home(k, u, c) in s.caches ==> Home(k, u, c) in Next(k, s, Deliver(i)).caches
  {
    var l := s.loads[i];
    var t, r := s.(loads := Without(s.loads, i)), Next(k, s, Deliver(i));
    if l.answer.Users? && Slot(l.job.peer, l.job.msg.channel) == Home(k, u, c) { assert Answered(s, Home(k, u, c), i); }
    if AnswersRight(k, s, u, c) {
      FewerAnswers(k, s, i, u, c);
      assert forall j :: Answered(r, Home(k, u, c), j) ==> Answered(t, Home(k, u, c), j);
    }
  }

  /** Every step but a change of this very subscription leaves it right. */
  lemma StepRight(k: Cluster, s: State, a: Action, u: User, c: Channel)
    requires Enabled(k, s, a) && !Changes(a, u, c)
    ensures Right(k, s, u, c) ==> Right(k, Next(k, s, a), u, c)
    ensures u in Stored(Next(k, s, a), c) <==> u in Stored(s, c)
  {
    match a
    case Sub(p, v, d) => OtherSubscription(k, s, p, v, d, true, u, c);
    case Unsub(p, v, d) => OtherSubscription(k, s, p, v, d, false, u, c);
    case Pub(p, m) => SendRight(k, s, Next(k, s, a), Job(p, m), u, c);
    case Receive(j) => SendRight(k, s, Next(k, s, a), j, u, c);
    case _ => LoadStepRight(k, s, a, u, c);
  }

  lemma LoadStepRight(k: Cluster, s: State, a: Action, u: User, c: Channel)
    requires Enabled(k, s, a) && (a.Look? || a.Deliver? || a.Fail?)
    ensures Right(k, s, u, c) ==> Right(k, Next(k, s, a), u, c)
    ensures u in Stored(Next(k, s, a), c) <==> u in Stored(s, c)
  {
    match a
    case Look(i) => if AnswersRight(k, s, u, c) { LookRight(k, s, i, u, c); }
    case Deliver(i) => if Right(k, s, u, c) { LoadedRight(k, s, i, u, c); }
    case Fail(i) => if AnswersRight(k, s, u, c) { FewerAnswers(k, s, i, u, c); }
  }

  /** All changes of the subscription of u to c are quiet. */
  ghost predicate QuietRun(k: Cluster, s: State, run: seq<Action>, u: User, c: Channel)
    requires Legal(k, s, run)
    decreases |run|
  {
    run == [] || ((Changes(run[0], u, c) ==> Quiet(k, s, run[0])) && QuietRun(k, Next(k, s, run[0]), run[1..], u, c))
  }

  lemma {:induction false} RunRight(k: Cluster, s: State, run: seq<Action>, u: User, c: Channel)
    requires Right(k, s, u, c) && Legal(k, s, run) && QuietRun(k, s, run, u, c)
    ensures Right(k, After(k, s, run), u, c)
    decreases |run|
  {
    if run != [] {
      var a := run[0];
      if Changes(a, u, c) {
        ChangeRight(k, s, a.peer, u, c, a.Sub?);
      } else {
        StepRight(k, s, a, u, c);
      }
      RunRight(k, Next(k, s, a), run[1..], u, c);
    }
  }

  lemma StartsRight(k: Cluster, stored: map<Channel, set<User>>, u: User, c: Channel)
    ensures Right(k, Started(stored), u, c)
  {
  }

  /** Over every run from a start on any storage, whatever a peer has cached of
      a channel agrees with storage on the users it owns, if their changes of
      that channel were quiet. */
  lemma CachedSetsAreStoredSets(k: Cluster, stored: map<Channel, set<User>>, run: seq<Action>, p: Peer, c: Channel)
    requires Legal(k, Started(stored), run)
    requires forall u: User :: k.shard(u) == p ==> QuietRun(k, Started(stored), run, u, c)
    ensures var t := After(k, Started(stored), run);
      Slot(p, c) in t.caches ==> Own(k, p, t.caches[Slot(p, c)]) == Own(k, p, Stored(t, c))
  {
    var t := After(k, Started(stored), run);
    if Slot(p, c) in t.caches {
      forall u: User | k.shard(u) == p
        ensures u in t.caches[Slot(p, c)] <==> u in Stored(t, c)
      {
        StartsRight(k, stored, u, c);
        RunRight(k, Started(stored), run, u, c);
      }
    }
  }

  // ----- The exact condition for a change to be lost -----

  predicate Unchanged(run: seq<Action>, u: User, c: Channel) {
    forall i :: 0 <= i < |run| ==> !Changes(run[i], u, c)
  }

  /** Whatever happens, the cache is right about u until u changes again. */
  ghost predicate StaysRight(k: Cluster, s: State, u: User, c: Channel) {
    forall run :: Legal(k, s, run) && Unchanged(run, u, c) ==> CacheRight(k, After(k, s, run), u, c)
  }

  lemma {:induction false} UnchangedIsQuiet(k: Cluster, s: State, run: seq<Action>, u: User, c: Channel)
    requires Legal(k, s, run) && Unchanged(run, u, c)
    ensures QuietRun(k, s, run, u, c)
    decreases |run|
  {
    if run != [] { UnchangedIsQuiet(k, Next(k, s, run[0]), run[1..], u, c); }
  }

  /** An answer that would become a wrong cache does so when it is delivered. */
  lemma WrongAnswer(k: Cluster, s: State, u: User, c: Channel, i: nat)
    requires Home(k, u, c) !in s.caches && Answered(s, Home(k, u, c), i)
    requires u in s.loads[i].answer.users <==> u !in Stored(s, c)
    ensures var run := [Deliver(i)];
      Legal(k, s, run) && Unchanged(run, u, c) && !CacheRight(k, After(k, s, run), u, c)
  {
    var run, t := [Deliver(i)], Next(k, s, Deliver(i));
    assert run[1..] == [];
    assert Legal(k, t, []) && After(k, t, []) == t;
  }

  /** Right is the weakest property that keeps the cache right. */
  lemma RightExactly(k: Cluster, s: State, u: User, c: Channel)
    ensures Right(k, s, u, c) <==> StaysRight(k, s, u, c)
  {
    if Right(k, s, u, c) {
      forall run | Legal(k, s, run) && Unchanged(run, u, c)
        ensures CacheRight(k, After(k, s, run), u, c)
      {
        UnchangedIsQuiet(k, s, run, u, c);
        RunRight(k, s, run, u, c);
      }
    } else if CacheRight(k, s, u, c) {
      var i :| Answered(s, Home(k, u, c), i) && !(u in s.loads[i].answer.users <==> u in Stored(s, c));
      WrongAnswer(k, s, u, c, i);
    } else {
      assert Legal(k, s, []) && Unchanged([], u, c) && After(k, s, []) == s;
    }
  }

  /** Quiet is the exact condition for a change not to be lost to the cache of
      the user's own peer, now or later. */
  lemma QuietExactly(k: Cluster, s: State, p: Peer, u: User, c: Channel, add: bool)
    requires StaysRight(k, s, u, c)
    ensures StaysRight(k, Subscribed(s, p, u, c, add), u, c) <==> Quiet(k, s, Subscription(p, u, c, add))
  {
    RightExactly(k, s, u, c);
    RightExactly(k, Subscribed(s, p, u, c, add), u, c);
    ChangeRight(k, s, p, u, c, add);
  }
}
