/** The numbering part of the session server: the cached maximum of each user
    (src/user_info.h) and SendSave with its GetMaxSeq callback. */
module Sequence {
  import opened Common
  import opened M = SequenceModel

  const NO_EXPIRE := 0

  class UserInfo {
    const uid: User
    var maxSeq: int
    var lastAck: int

    constructor (uid: User)
      ensures this.uid == uid && maxSeq == -1 && lastAck == -1
    {
      this.uid := uid;
      maxSeq := -1;
      lastAck := -1;
    }

    method IncMaxSeq() returns (n: int)
      modifies this`maxSeq
      ensures n == maxSeq == old(maxSeq) + 1
    {
      maxSeq := maxSeq + 1;
      n := maxSeq;
    }

    method SetMaxSeq(n: int)
      modifies this`maxSeq
      ensures maxSeq == n
    {
      maxSeq := n;
    }
  }

  /** A message sent to a connected user, with the number it carries. */
  datatype Delivery = Delivery(user: User, seqNo: int)

  /** What has reached users after a message to one who may be connected. */
  function Reached(sent: seq<Delivery>, connected: bool, u: User, seqNo: int): seq<Delivery> {
    if connected then sent + [Delivery(u, seqNo)] else sent
  }

  /** The state once a user's message has taken the number n. */
  ghost function AfterNumber(s: State, u: User, n: nat): State {
    s.(maxSeq := s.maxSeq[u := n], unsaved := s.unsaved + [Numbered(u, n)], log := s.log + [Assigned(u, n)])
  }

  /** A send, once the user has an entry. */
  lemma FirstStep(s: State, m: map<User, int>, u: User)
    requires m == Known(s.maxSeq, u)
    ensures u in m && m[u] == MaxSeq(s.maxSeq, u)
    ensures m[u] < 0 ==> OnSend(s, u) == s.(maxSeq := m, queries := s.queries + [Query(u, None)])
    ensures m[u] >= 0 ==> m == s.maxSeq && OnSend(s, u) == AfterNumber(s, u, m[u] + 1)
  {
  }

  /** An answer, once the maximum has been raised to a. */
  lemma RaisedStep(s: State, u: User, n: nat, a: int)
    requires a == if MaxSeq(s.maxSeq, u) < n then n else MaxSeq(s.maxSeq, u)
    ensures AfterNumber(s.(maxSeq := s.maxSeq[u := a], log := s.log + [Reported(u, n)]), u, a + 1) == OnAnswer(s, u, n)
  {
    assert s.log + [Reported(u, n)] + [Assigned(u, a + 1)] == s.log + [Reported(u, n), Assigned(u, a + 1)];
  }

  class SessionServer {
    /** The ids of the connected users, and what was sent to them. */
    var online: set<User>
    var delivered: seq<Delivery>
    var infos: map<User, UserInfo>
    /** The entries captured by the callbacks of unanswered queries. */
    var waiting: seq<UserInfo>
    /** SaveMessage calls handed to storage. */
    var unsaved: seq<Numbered>
    ghost var maxima: map<User, int>
    ghost var queries: seq<Query>
    ghost var stored: set<Numbered>
    ghost var log: seq<Event>

    ghost predicate Valid()
      reads this, infos.Values
    {
      && infos.Keys == maxima.Keys
      && (forall u :: u in infos ==> infos[u].uid == u && infos[u].maxSeq == maxima[u] >= -1)
      && |waiting| == |queries|
      && forall i :: 0 <= i < |waiting| ==> queries[i].user in infos && infos[queries[i].user] == waiting[i]
    }

    ghost function Abs(): State
      reads this
    {
      State(maxima, queries, unsaved, stored, log)
    }

    constructor (ghost stored: set<Numbered>)
      ensures Valid() && Abs() == Started(stored) && online == {} && delivered == []
    {
      online := {};
      delivered := [];
      infos := map[];
      waiting := [];
      unsaved := [];
      maxima := map[];
      queries := [];
      this.stored := stored;
      log := [];
    }

    /** Finds the user's entry, adding one with no known maximum. */
    method Info(uid: User) returns (info: UserInfo)
      requires Valid()
      modifies `infos, `maxima
      ensures Valid() && uid in infos && infos[uid] == info
      ensures maxima == Known(old(maxima), uid)
      ensures fresh(infos.Values - old(infos.Values))
    {
      if uid !in infos {
        info := new UserInfo(uid);
        infos := infos[uid := info];
        maxima := maxima[uid := -1];
      }
      info := infos[uid];
    }

    /** Takes the next number of a user, sends the message if the user is
        connected, and hands it to storage. */
    method Number(info: UserInfo)
      requires Valid() && info in infos.Values
      modifies info`maxSeq, `maxima, `unsaved, `log, `delivered
      ensures Valid() && info.maxSeq == old(info.maxSeq) + 1
      ensures Abs() == AfterNumber(old(Abs()), info.uid, info.maxSeq)
      ensures delivered == Reached(old(delivered), info.uid in online, info.uid, info.maxSeq)
    {
      var n := info.IncMaxSeq();
      maxima := maxima[info.uid := n];
      DoSend(info.uid, n);
      unsaved := unsaved + [Numbered(info.uid, n)];
      log := log + [Assigned(info.uid, n)];
    }

    method DoSend(uid: User, seqNo: int)
      modifies `delivered
      ensures delivered == Reached(old(delivered), uid in online, uid, seqNo)
    {
      if uid in online {
        delivered := delivered + [Delivery(uid, seqNo)];
      }
    }

    /** Numbers a message above a maximum that storage reported. */
    method NumberAbove(info: UserInfo, n: nat)
      requires Valid() && info in infos.Values
      modifies info`maxSeq, `maxima, `unsaved, `log, `delivered
      ensures Valid() && Abs() == OnAnswer(old(Abs()), info.uid, n)
      ensures delivered == Reached(old(delivered), info.uid in online, info.uid, MaxSeq(maxima, info.uid))
    {
      ghost var s := Abs();
      Raise(info, n);
      log := log + [Reported(info.uid, n)];
      RaisedStep(s, info.uid, n, info.maxSeq);
      Number(info);
    }

    method Raise(info: UserInfo, n: nat)
      requires Valid() && info in infos.Values
      modifies info`maxSeq, `maxima
      ensures Valid() && info.uid in old(maxima) && old(maxima)[info.uid] == old(info.maxSeq)
      ensures info.maxSeq == if old(info.maxSeq) < n then n else old(info.maxSeq)
      ensures maxima == old(maxima)[info.uid := info.maxSeq]
    {
      if info.maxSeq < n {
        info.SetMaxSeq(n);
        maxima := maxima[info.uid := n];
      }
    }

    /** Starts a storage query whose callback will number the message. */
    method Ask(info: UserInfo)
      requires Valid() && info in infos.Values
      modifies `waiting, `queries
      ensures Valid() && queries == old(queries) + [Query(info.uid, None)]
    {
      waiting := waiting + [info];
      queries := queries + [Query(info.uid, None)];
    }

    method Connect(uid: User)
      requires Valid()
      modifies `infos, `maxima, `online
      ensures Valid() && Abs() == Next(old(Abs()), M.Connect(uid)) && online == old(online) + {uid}
    {
      online := online + {uid};
      var _ := Info(uid);
    }

    /** A message that does not expire goes to the user if connected, with the
        number it came with, and is dropped otherwise; any other is numbered and
        sent at once, or when the storage query it starts is answered. */
    method SendSave(uid: User, seqNo: int, ttl: int) returns (asked: bool)
      requires Valid()
      modifies `infos, `maxima, `waiting, `queries, `unsaved, `log, `delivered, infos.Values`maxSeq
      ensures Valid()
      ensures Abs() == if ttl == NO_EXPIRE then old(Abs()) else Next(old(Abs()), Send(uid))
      ensures asked <==> ttl != NO_EXPIRE && MaxSeq(old(maxima), uid) == -1
      ensures var n := if ttl == NO_EXPIRE then seqNo else MaxSeq(old(maxima), uid) + 1;
              delivered == if asked then old(delivered) else Reached(old(delivered), uid in online, uid, n)
    {
      asked := false;
      if ttl == NO_EXPIRE {
        DoSend(uid, seqNo);
      } else {
        asked := SendNumbered(uid);
      }
    }

    method SendNumbered(uid: User) returns (asked: bool)
      requires Valid()
      modifies `infos, `maxima, `waiting, `queries, `unsaved, `log, `delivered, infos.Values`maxSeq
      ensures Valid() && Abs() == OnSend(old(Abs()), uid)
      ensures asked <==> MaxSeq(old(maxima), uid) == -1
      ensures var n := MaxSeq(old(maxima), uid) + 1;
              delivered == if asked then old(delivered) else Reached(old(delivered), uid in online, uid, n)
    {
      ghost var s := Abs();
      var info := Info(uid);
      FirstStep(s, maxima, uid);
      asked := NumberOrAsk(info);
    }

    method NumberOrAsk(info: UserInfo) returns (asked: bool)
      requires Valid() && info in infos.Values
      modifies info`maxSeq, `maxima, `waiting, `queries, `unsaved, `log, `delivered
      ensures Valid() && (asked <==> old(info.maxSeq) == -1)
      ensures var s, n := old(Abs()), old(info.maxSeq) + 1;
              Abs() == if asked then s.(queries := s.queries + [Query(info.uid, None)]) else AfterNumber(s, info.uid, n)
      ensures var n := old(info.maxSeq) + 1;
              delivered == if asked then old(delivered) else Reached(old(delivered), info.uid in online, info.uid, n)
    {
      asked := info.maxSeq == -1;
      if asked {
        Ask(info);
      } else {
        Number(info);
      }
    }

    /** The GetMaxSeq callback; a failed query drops the message. */
    method OnMaxSeq(i: nat, failed: bool, n: int)
      requires Valid() && i < |waiting|
      requires !failed ==> n >= 0 && queries[i].answer == Some(n)
      modifies `infos, `maxima, `waiting, `queries, `unsaved, `log, `delivered, infos.Values`maxSeq
      ensures Valid()
      ensures Abs() == Next(old(Abs()), if failed then Fail(i) else Answer(i))
      ensures var u := old(queries)[i].user;
              delivered == if failed then old(delivered) else Reached(old(delivered), u in online, u, MaxSeq(maxima, u))
    {
      var info := waiting[i];
      waiting := Without(waiting, i);
      queries := Without(queries, i);
      if !failed {
        NumberAbove(info, n);
      }
    }
  }
}
