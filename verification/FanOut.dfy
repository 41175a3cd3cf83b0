/** The channel part of the session server at one peer: its cache of channel
    members (src/channel_info.h), Subscribe, Unsubscribe, and SendChannelMsg with
    the callback of the load it may start. */
module FanOut {
  import opened Common
  import opened FanOutModel

  class SessionServer {
    const id: Peer
    const cluster: Cluster
    var channels: map<Channel, set<User>>
    /** The SendUserMsg calls made, in order. */
    var sent: seq<Sent>

    constructor (id: Peer, cluster: Cluster)
      ensures this.id == id && this.cluster == cluster && channels == map[] && sent == []
    {
      this.id := id;
      this.cluster := cluster;
      channels := map[];
      sent := [];
    }

    /** The cache is this peer's part of the cluster state. */
    ghost predicate Mirrors(s: State)
      reads this
    {
      && (forall c :: c in channels <==> Slot(id, c) in s.caches)
      && forall c :: c in channels ==> channels[c] == s.caches[Slot(id, c)]
    }

    method Subscribe(u: User, c: Channel, ghost s: State)
      requires Mirrors(s)
      modifies `channels
      ensures Mirrors(Subscribed(s, id, u, c, true))
    {
      if c in channels {
        channels := channels[c := channels[c] + {u}];
      }
    }

    method Unsubscribe(u: User, c: Channel, ghost s: State)
      requires Mirrors(s)
      modifies `channels
      ensures Mirrors(Subscribed(s, id, u, c, false))
    {
      if c in channels {
        channels := channels[c := channels[c] - {u}];
      }
    }

    predicate CheckShard(u: User) {
      cluster.shard(u) == id
    }

    /** Sends to every member of a cached channel that this shard owns, in the
        unspecified order in which the set is walked. */
    method SendToCached(users: set<User>, m: Msg)
      modifies `sent
      ensures old(sent) <= sent
      ensures multiset(sent[|old(sent)|..]) == Copies(Own(cluster, id, users), m)
    {
      var rest := users;
      ghost var more: seq<Sent> := [];
      while rest != {}
        invariant rest <= users && sent == old(sent) + more
        invariant multiset(more) == Copies(Own(cluster, id, users - rest), m)
        decreases rest
      {
        var u :| u in rest;
        ghost var done := users - rest;
        rest := rest - {u};
        assert users - rest == done + {u};
        CopiesMore(cluster, id, done, u, m);
        if CheckShard(u) {
          sent := sent + [Sent(u, m)];
          more := more + [Sent(u, m)];
        }
      }
      assert users - rest == users;
      assert sent[|old(sent)|..] == more;
    }

    /** From the cache at once, or by a load; tells whether a load started. */
    method SendChannelMsg(m: Msg, ghost s: State) returns (asked: bool)
      requires Mirrors(s)
      modifies `sent
      ensures old(sent) <= sent
      ensures var t := SendChannel(cluster, s, Job(id, m));
        && Mirrors(t)
        && t.sent == s.sent + multiset(sent[|old(sent)|..])
        && t.loads == s.loads + (if asked then [Load(Job(id, m), Pending)] else [])
    {
      if m.channel in channels {
        SendToCached(channels[m.channel], m);
        asked := false;
      } else {
        asked := true;
        assert sent[|sent|..] == [];
      }
    }

    /** The callback of a successful load: no result when the channel does not
        exist, otherwise its members, each once. */
    method OnChannelUsers(m: Msg, found: bool, users: seq<User>, ghost s: State)
      requires Mirrors(s)
      requires forall i, j :: 0 <= i < j < |users| ==> users[i] != users[j]
      modifies `channels, `sent
      ensures old(sent) <= sent
      ensures var t := Loaded(cluster, s, Job(id, m), if found then Users(Elems(users)) else NoChannel);
        Mirrors(t) && t.sent == s.sent + multiset(sent[|old(sent)|..])
    {
      if !found {
        assert sent[|sent|..] == [];
        return;
      }
      var channel := SendToLoaded(m, users);
      if m.channel !in channels {
        channels := channels[m.channel := channel];
      }
    }

    method SendToLoaded(m: Msg, users: seq<User>) returns (channel: set<User>)
      requires forall i, j :: 0 <= i < j < |users| ==> users[i] != users[j]
      modifies `sent
      ensures channel == Elems(users) && old(sent) <= sent
      ensures multiset(sent[|old(sent)|..]) == Copies(Own(cluster, id, channel), m)
    {
      channel := {};
      ghost var more: seq<Sent> := [];
      for i := 0 to |users|
        invariant channel == Elems(users[..i]) && sent == old(sent) + more
        invariant multiset(more) == Copies(Own(cluster, id, channel), m)
      {
        var u := users[i];
        assert u !in channel;
        CopiesMore(cluster, id, channel, u, m);
        assert users[..i + 1] == users[..i] + [u];
        channel := channel + {u};
        if CheckShard(u) {
          sent := sent + [Sent(u, m)];
          more := more + [Sent(u, m)];
        }
      }
      assert users[..|users|] == users;
      assert sent[|old(sent)|..] == more;
    }
  }

  ghost function Elems(users: seq<User>): set<User> {
    set u | u in users
  }

  lemma CopiesMore(k: Cluster, p: Peer, users: set<User>, u: User, m: Msg)
    requires u !in users
    ensures Copies(Own(k, p, users + {u}), m)
      == Copies(Own(k, p, users), m) + (if k.shard(u) == p then multiset{Sent(u, m)} else multiset{})
  {
    var a, b := Own(k, p, users), Own(k, p, users + {u});
    if k.shard(u) == p {
      assert b == a + {u};
      assert (set v | v in b :: Sent(v, m)) == (set v | v in a :: Sent(v, m)) + {Sent(u, m)};
    } else {
      assert b == a;
    }
  }
}
