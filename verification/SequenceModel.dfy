/** How one server numbers the messages of each user: a number is taken from
    the cached maximum, or, while no maximum is known, from the answer of an
    asynchronous storage query. Queries may overlap, be answered in any order
    and with values that are out of date, or fail; saves reach storage later,
    in any order, or are lost. */
module SequenceModel {
  import opened Common

  type User = string

  /** A GetMaxSeq call on its way; the answer is fixed when storage looks. */
  datatype Query = Query(user: User, answer: Option<nat>)

  datatype Numbered = Numbered(user: User, n: nat)

  /** What happened to a user's numbers, in order. */
  datatype Event =
    | Reported(user: User, n: nat)
    | Assigned(user: User, n: nat)

  datatype State = State(
    maxSeq: map<User, int>,
    queries: seq<Query>,
    unsaved: seq<Numbered>,
    stored: set<Numbered>,
    log: seq<Event>
  )

  datatype Action =
    | Connect(user: User)
    | Send(user: User)
    | Look(query: nat, highest: nat)
    | Answer(query: nat)
    | Fail(query: nat)
    | Save(save: nat)
    | Lose(save: nat)

  function MaxSeq(m: map<User, int>, u: User): int {
    if u in m then m[u] else -1
  }

  /** The greatest number that storage ever took for the user, or 0. */
  ghost predicate Highest(stored: set<Numbered>, u: User, n: nat) {
    && (n == 0 || Numbered(u, n) in stored)
    && forall x :: x in stored && x.user == u ==> x.n <= n
  }

  ghost predicate Enabled(s: State, a: Action) {
    match a
    case Connect(_) => true
    case Send(_) => true
    case Look(i, n) => i < |s.queries| && s.queries[i].answer.None?
    case Answer(i) => i < |s.queries| && s.queries[i].answer.Some?
    case Fail(i) => i < |s.queries|
    case Save(i) => i < |s.unsaved|
    case Lose(i) => i < |s.unsaved|
  }

  /** Storage answers with the greatest number it took; otherwise it may answer
      anything, such as less after messages have expired. */
  ghost predicate Truthful(s: State, a: Action)
    requires Enabled(s, a)
  {
    a.Look? ==> Highest(s.stored, s.queries[a.query].user, a.highest)
  }

  function Known(m: map<User, int>, u: User): map<User, int> {
    if u in m then m else m[u := -1]
  }

  /** SendSave and Connect at the call. */
  function OnSend(s: State, u: User): State {
    var top := MaxSeq(s.maxSeq, u);
    if top < 0 then s.(maxSeq := Known(s.maxSeq, u), queries := s.queries + [Query(u, None)])
    else s.(maxSeq := s.maxSeq[u := top + 1],
            unsaved := s.unsaved + [Numbered(u, top + 1)],
            log := s.log + [Assigned(u, top + 1)])
  }

  /** The callback of GetMaxSeq. */
  function OnAnswer(s: State, u: User, n: nat): State {
    var top := MaxSeq(s.maxSeq, u);
    var next := (if top < n then n else top) + 1;
    s.(maxSeq := s.maxSeq[u := next],
       unsaved := s.unsaved + [Numbered(u, next)],
       log := s.log + [Reported(u, n), Assigned(u, next)])
  }

  ghost function Next(s: State, a: Action): State
    requires Enabled(s, a)
  {
    match a
    case Connect(u) => s.(maxSeq := Known(s.maxSeq, u))
    case Send(u) => OnSend(s, u)
    case Look(i, n) => s.(queries := s.queries[i := s.queries[i].(answer := Some(n))])
    case Answer(i) => OnAnswer(s.(queries := Without(s.queries, i)), s.queries[i].user, s.queries[i].answer.value)
    case Fail(i) => s.(queries := Without(s.queries, i))
    case Save(i) => s.(unsaved := Without(s.unsaved, i), stored := s.stored + {s.unsaved[i]})
    case Lose(i) => s.(unsaved := Without(s.unsaved, i))
  }

  ghost predicate Legal(s: State, run: seq<Action>)
    decreases |run|
  {
    run == [] || (Enabled(s, run[0]) && Legal(Next(s, run[0]), run[1..]))
  }

  ghost function After(s: State, run: seq<Action>): State
    requires Legal(s, run)
    decreases |run|
  {
    if run == [] then s else After(Next(s, run[0]), run[1..])
  }

  ghost predicate TruthfulRun(s: State, run: seq<Action>)
    requires Legal(s, run)
    decreases |run|
  {
    run == [] || (Truthful(s, run[0]) && TruthfulRun(Next(s, run[0]), run[1..]))
  }

  /** A server that has just started on storage with any contents. */
  function Started(stored: set<Numbered>): State {
    State(map[], [], [], stored, [])
  }

  // ----- What the results say -----

  /** Every assigned number exceeds all numbers assigned to the same user
      before, and every maximum reported for that user before. */
  ghost predicate Increasing(log: seq<Event>) {
    forall i, j :: 0 <= i < j < |log| && log[i].user == log[j].user && log[j].Assigned?
      ==> log[i].n < log[j].n
  }

  /** No assigned number is, or is below, one that storage held at the start. */
  ghost predicate Fresh(log: seq<Event>, initial: set<Numbered>) {
    forall i, x :: 0 <= i < |log| && log[i].Assigned? && x in initial && x.user == log[i].user
      ==> x.n < log[i].n
  }

  // ----- Numbers grow, whatever storage answers -----

  /** Every number in the log is at most the cached maximum of its user. */
  ghost predicate Growing(s: State) {
    && (forall u :: u in s.maxSeq ==> s.maxSeq[u] >= -1)
    && (forall i :: 0 <= i < |s.log| ==> s.log[i].n <= MaxSeq(s.maxSeq, s.log[i].user))
    && Increasing(s.log)
  }

  lemma AppendGrows(log: seq<Event>, e: Event)
    requires Increasing(log)
    requires e.Assigned? ==> forall i :: 0 <= i < |log| && log[i].user == e.user ==> log[i].n < e.n
    ensures Increasing(log + [e])
  {
  }

  lemma SendGrows(s: State, u: User)
    requires Growing(s)
    ensures Growing(OnSend(s, u))
  {
    var top := MaxSeq(s.maxSeq, u);
    if top >= 0 { AppendGrows(s.log, Assigned(u, top + 1)); }
  }

  lemma AnswerGrows(s: State, u: User, n: nat)
    requires Growing(s)
    ensures Growing(OnAnswer(s, u, n))
  {
    var top := MaxSeq(s.maxSeq, u);
    var next := (if top < n then n else top) + 1;
    AppendGrows(s.log, Reported(u, n));
    AppendGrows(s.log + [Reported(u, n)], Assigned(u, next));
    assert s.log + [Reported(u, n)] + [Assigned(u, next)] == s.log + [Reported(u, n), Assigned(u, next)];
  }

  /** Sends, answers of any value, failures and saves in any order. */
  lemma StepGrows(s: State, a: Action)
    requires Growing(s) && Enabled(s, a)
    ensures Growing(Next(s, a))
  {
    match a
    case Send(u) => SendGrows(s, u);
    case Answer(i) => AnswerGrows(s.(queries := Without(s.queries, i)), s.queries[i].user, s.queries[i].answer.value);
    case _ =>
  }

  lemma {:induction false} RunGrows(s: State, run: seq<Action>)
    requires Growing(s) && Legal(s, run)
    ensures Growing(After(s, run))
    decreases |run|
  {
    if run != [] {
      StepGrows(s, run[0]);
      RunGrows(Next(s, run[0]), run[1..]);
    }
  }

  /** Over every run, whatever storage answers: numbers only grow, and exceed
      every maximum already reported. */
  lemma NumbersAlwaysGrow(stored: set<Numbered>, run: seq<Action>)
    requires Legal(Started(stored), run)
    ensures Increasing(After(Started(stored), run).log)
  {
    RunGrows(Started(stored), run);
  }

  /** So no two messages of one user carry the same number. */
  lemma NoNumberTwice(stored: set<Numbered>, run: seq<Action>, i: nat, j: nat)
    requires Legal(Started(stored), run)
    requires i < j < |After(Started(stored), run).log|
    requires After(Started(stored), run).log[i].Assigned? && After(Started(stored), run).log[j].Assigned?
    ensures After(Started(stored), run).log[i] != After(Started(stored), run).log[j]
  {
    NumbersAlwaysGrow(stored, run);
  }

  // ----- Numbers are new to storage, if it answers truthfully -----

  /** While no maximum is known, storage is as it was, so every answer on its
      way is still right; afterwards nothing in storage, or on its way to or
      from it, exceeds the known maximum. */
  ghost predicate Covered(s: State) {
    && (forall x :: x in s.unsaved ==> x.n <= MaxSeq(s.maxSeq, x.user))
    && (forall x :: x in s.stored && MaxSeq(s.maxSeq, x.user) >= 0 ==> x.n <= MaxSeq(s.maxSeq, x.user))
    && (forall q :: q in s.queries && q.answer.Some? ==>
          if MaxSeq(s.maxSeq, q.user) >= 0 then q.answer.value <= MaxSeq(s.maxSeq, q.user)
          else Highest(s.stored, q.user, q.answer.value))
  }

  ghost predicate Inv(s: State, initial: set<Numbered>) {
    && (forall u :: u in s.maxSeq ==> s.maxSeq[u] >= -1)
    && Covered(s)
    && initial <= s.stored
    && Fresh(s.log, initial)
  }

  lemma AppendFresh(log: seq<Event>, e: Event, initial: set<Numbered>)
    requires Fresh(log, initial)
    requires e.Assigned? ==> forall x :: x in initial && x.user == e.user ==> x.n < e.n
    ensures Fresh(log + [e], initial)
  {
  }

  lemma SendKeeps(s: State, u: User, initial: set<Numbered>)
    requires Inv(s, initial)
    ensures Inv(OnSend(s, u), initial)
  {
    if MaxSeq(s.maxSeq, u) >= 0 { NumberKeeps(s, u, initial); } else { AskKeeps(s, u, initial); }
  }

  lemma NumberKeeps(s: State, u: User, initial: set<Numbered>)
    requires Inv(s, initial) && MaxSeq(s.maxSeq, u) >= 0
    ensures Inv(OnSend(s, u), initial)
  {
    var top := MaxSeq(s.maxSeq, u);
    assert forall x :: x in initial && x.user == u ==> x in s.stored && x.n <= top;
    AppendFresh(s.log, Assigned(u, top + 1), initial);
  }

  lemma AskKeeps(s: State, u: User, initial: set<Numbered>)
    requires Inv(s, initial) && MaxSeq(s.maxSeq, u) < 0
    ensures Inv(OnSend(s, u), initial)
  {
    assert forall v :: MaxSeq(Known(s.maxSeq, u), v) == MaxSeq(s.maxSeq, v);
  }

  /** The number that answers a query exceeds everything stored. */
  lemma AnswerExceeds(s: State, u: User, n: nat, next: nat)
    requires Covered(s) && next == (if MaxSeq(s.maxSeq, u) < n then n else MaxSeq(s.maxSeq, u)) + 1
    requires MaxSeq(s.maxSeq, u) < 0 ==> Highest(s.stored, u, n)
    ensures forall x :: x in s.stored && x.user == u ==> x.n < next
  {
  }

  lemma AnswerKeeps(s: State, i: nat, initial: set<Numbered>)
    requires Inv(s, initial) && Enabled(s, Answer(i))
    ensures Inv(Next(s, Answer(i)), initial)
  {
    var q := s.queries[i];
    var u, n := q.user, q.answer.value;
    assert q in s.queries;
    var top := MaxSeq(s.maxSeq, u);
    var next := (if top < n then n else top) + 1;
    FewerQueries(s, i);
    AnswerCovers(s.(queries := Without(s.queries, i)), u, n, next);
    AnswerExceeds(s, u, n, next);
    AppendFresh(s.log, Reported(u, n), initial);
    AppendFresh(s.log + [Reported(u, n)], Assigned(u, next), initial);
    assert s.log + [Reported(u, n)] + [Assigned(u, next)] == s.log + [Reported(u, n), Assigned(u, next)];
  }

  lemma FewerQueries(s: State, i: nat)
    requires Covered(s) && i < |s.queries|
    ensures Covered(s.(queries := Without(s.queries, i)))
  {
  }

  lemma AnswerCovers(t: State, u: User, n: nat, next: nat)
    requires Covered(t) && (forall v :: v in t.maxSeq ==> t.maxSeq[v] >= -1)
    requires next == (if MaxSeq(t.maxSeq, u) < n then n else MaxSeq(t.maxSeq, u)) + 1
    requires MaxSeq(t.maxSeq, u) < 0 ==> Highest(t.stored, u, n)
    ensures Covered(OnAnswer(t, u, n))
  {
    var r := OnAnswer(t, u, n);
    forall q | q in t.queries && q.answer.Some? && q.user == u
      ensures q.answer.value <= next
    {
      if MaxSeq(t.maxSeq, u) < 0 && q.answer.value > 0 {
        assert Numbered(u, q.answer.value) in t.stored;
      }
    }
    assert forall v :: v != u ==> MaxSeq(r.maxSeq, v) == MaxSeq(t.maxSeq, v);
  }

  lemma SaveKeeps(s: State, i: nat, initial: set<Numbered>)
    requires Inv(s, initial) && Enabled(s, Save(i))
    ensures Inv(Next(s, Save(i)), initial)
  {
    var x := s.unsaved[i];
    var t := Next(s, Save(i));
    assert x in s.unsaved && MaxSeq(s.maxSeq, x.user) >= 0;
    forall q | q in t.queries && q.answer.Some? && MaxSeq(t.maxSeq, q.user) < 0
      ensures Highest(t.stored, q.user, q.answer.value)
    {
      assert q.user != x.user;
      assert Highest(s.stored, q.user, q.answer.value);
    }
  }

  lemma LookKeeps(s: State, i: nat, n: nat, initial: set<Numbered>)
    requires Inv(s, initial) && Enabled(s, Look(i, n)) && Truthful(s, Look(i, n))
    ensures Inv(Next(s, Look(i, n)), initial)
  {
    var t := Next(s, Look(i, n));
    forall q | q in t.queries && q.answer.Some?
      ensures if MaxSeq(t.maxSeq, q.user) >= 0 then q.answer.value <= MaxSeq(t.maxSeq, q.user)
              else Highest(t.stored, q.user, q.answer.value)
    {
      if q !in s.queries {
        assert q == t.queries[i];
      }
    }
  }

  lemma StepKeepsInv(s: State, a: Action, initial: set<Numbered>)
    requires Inv(s, initial) && Enabled(s, a) && Truthful(s, a)
    ensures Inv(Next(s, a), initial)
  {
    match a
    case Connect(u) =>
    case Send(u) => SendKeeps(s, u, initial);
    case Look(i, n) => LookKeeps(s, i, n, initial);
    case Answer(i) => AnswerKeeps(s, i, initial);
    case Fail(i) =>
    case Save(i) => SaveKeeps(s, i, initial);
    case Lose(i) =>
  }

  lemma {:induction false} RunKeepsInv(s: State, run: seq<Action>, initial: set<Numbered>)
    requires Inv(s, initial) && Legal(s, run) && TruthfulRun(s, run)
    ensures Inv(After(s, run), initial)
    decreases |run|
  {
    if run != [] {
      StepKeepsInv(s, run[0], initial);
      RunKeepsInv(Next(s, run[0]), run[1..], initial);
    }
  }

  /** Over every run on truthful storage, no number assigned is one that storage
      had at the start, or below one. */
  lemma NumbersAreNew(stored: set<Numbered>, run: seq<Action>)
    requires Legal(Started(stored), run) && TruthfulRun(Started(stored), run)
    ensures Fresh(After(Started(stored), run).log, stored)
  {
    RunKeepsInv(Started(stored), run, stored);
  }
}
