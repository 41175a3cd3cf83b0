/** The session server's users and their idle-timeout wheel, on the heap: a
    ring of buckets, each an intrusive doubly linked list of users. */
module TimingWheel {
  import opened Common
  import WM = WheelModel

  const COMET_TYPE_POLLING := 2

  class User {
    const uid: string
    const kind: int
    var prev: User?
    var next: User?
    var queueIndex: int

    constructor (uid: string, kind: int)
      ensures this.uid == uid && this.kind == kind && queueIndex == -1
    {
      this.uid, this.kind := uid, kind;
      prev, next := null, null;
      queueIndex := -1;
    }
  }

  // ----- Doubly linked lists -----

  /** The list header.  It is copied by value; the links are in the users. */
  datatype DList = DList(size: int, head: User?, tail: User?)

  ghost predicate Distinct(s: seq<User>)
  {
    forall i, j :: 0 <= i < j < |s| ==> s[i] != s[j]
  }

  /** The header d and the links of the users in s form the list s. */
  ghost predicate Linked(d: DList, s: seq<User>)
    reads Elems(s)`prev, Elems(s)`next
  {
    && d.size == |s| && Distinct(s)
    && d.head == (if s == [] then null else s[0])
    && d.tail == (if s == [] then null else s[|s| - 1])
    && (s != [] ==> s[0].prev == null && s[|s| - 1].next == null)
    && (forall i {:trigger s[i].prev} :: 1 <= i < |s| ==> s[i].prev == s[i - 1])
    && (forall i {:trigger s[i].next} :: 0 <= i < |s| - 1 ==> s[i].next == s[i + 1])
  }

  ghost function Elems(s: seq<User>): set<User>
  {
    set u | u in s
  }

  lemma WithoutElems(s: seq<User>, k: nat)
    requires k < |s| && Distinct(s)
    ensures Elems(Without(s, k)) == Elems(s) - {s[k]}
  {
    forall u | u in s && u != s[k]
      ensures u in Without(s, k)
    {
      var i :| 0 <= i < |s| && s[i] == u;
      assert Without(s, k)[if i < k then i else i - 1] == u;
    }
  }

  /** The users of m that name bucket i as theirs. */
  ghost function InBucket(m: set<User>, i: int): set<User>
    reads m`queueIndex
  {
    set u | u in m && u.queueIndex == i
  }

  method PushBack(d: DList, t: User, ghost s: seq<User>) returns (d': DList)
    requires Linked(d, s) && t !in s
    modifies t`prev, t`next, Elems(s)`next
    ensures Linked(d', s + [t])
  {
    t.prev := d.tail;
    t.next := null;
    d' := d.(size := d.size + 1, tail := t);
    if d.tail != null {
      d.tail.next := t;
    } else {
      d' := d'.(head := t);
    }
  }

  /** Unlinks the k-th user; its own links are left as they were. */
  method Remove(d: DList, t: User, ghost s: seq<User>, ghost k: nat) returns (d': DList)
    requires Linked(d, s) && k < |s| && t == s[k]
    modifies Elems(s)`prev, Elems(s)`next
    ensures Linked(d', Without(s, k)) && t.next == old(t.next)
  {
    if t.prev != null {
      assert t.prev == s[k - 1];
      t.prev.next := t.next;
    }
    if t.next != null {
      assert t.next == s[k + 1];
      t.next.prev := t.prev;
    }
    d' := d.(size := d.size - 1);
    if d.head == t {
      d' := d'.(head := t.next);
    }
    if d.tail == t {
      d' := d'.(tail := t.prev);
    }
  }

  // ----- The wheel -----

  class UserCircleQueue {
    const size: nat
    var head: nat
    var buffer: seq<DList>
    /** The users in each bucket, in list order, and all of them together. */
    ghost var buckets: seq<seq<User>>
    ghost var members: set<User>

    ghost predicate Valid()
      reads this, members
    {
      && 1 <= size == |buffer| == |buckets| && head < size
      && (forall u :: u in members ==> 0 <= u.queueIndex < size)
      && (forall i :: 0 <= i < size ==> Elems(buckets[i]) == InBucket(members, i))
      && (forall i :: 0 <= i < size ==> Linked(buffer[i], buckets[i]))
    }

    constructor (size: nat)
      requires size >= 1
      ensures Valid() && this.size == size && head == 0 && members == {}
    {
      this.size := size;
      head := 0;
      buffer := seq(size, _ => DList(0, null, null));
      buckets := seq(size, _ => []);
      members := {};
    }

    /** Unlinks a user from its bucket; a user that was never pushed is left alone. */
    method RemoveUser(user: User) returns (ghost k: nat)
      requires Valid() && (user.queueIndex == -1 || user in members)
      modifies this, members`prev, members`next
      ensures Valid() && head == old(head) && members == old(members) - {user}
      ensures user !in old(members) ==> buckets == old(buckets)
      ensures user in old(members) ==>
                var q := user.queueIndex;
                && k < |old(buckets)[q]| && old(buckets)[q][k] == user && user.next == old(user.next)
                && buckets == old(buckets)[q := Without(old(buckets)[q], k)]
    {
      k := 0;
      if user.queueIndex != -1 {
        var q := user.queueIndex;
        assert user in Elems(buckets[q]);
        k :| 0 <= k < |buckets[q]| && buckets[q][k] == user;
        WithoutElems(buckets[q], k);
        Unlink(user, q, k);
        members := members - {user};
      }
    }

    /** Unlinks the k-th user of a bucket. */
    method Unlink(user: User, q: nat, ghost k: nat)
      requires Valid() && q < size && k < |buckets[q]| && buckets[q][k] == user
      modifies `buffer, `buckets, members`prev, members`next
      ensures |buffer| == size && buckets == old(buckets)[q := Without(old(buckets)[q], k)]
      ensures user.next == old(user.next)
      ensures forall i :: 0 <= i < size ==> Linked(buffer[i], buckets[i])
    {
      OthersApart(q);
      var d := Remove(buffer[q], user, buckets[q], k);
      buffer := buffer[q := d];
      buckets := buckets[q := Without(buckets[q], k)];
    }

    /** No other bucket shares a user with bucket q. */
    lemma OthersApart(q: nat)
      requires Valid() && q < size
      ensures forall i :: 0 <= i < size && i != q ==> Elems(buckets[i]) !! Elems(buckets[q])
    {
    }

    /** Moves a user to the bucket the timer reaches last. */
    method PushUserBack(user: User)
      requires Valid() && (user.queueIndex == -1 || user in members)
      modifies this, members`prev, members`next, user
      ensures Valid() && head == old(head) && members == old(members) + {user}
      ensures user.queueIndex == WM.Tail(size, head)
    {
      ghost var k := RemoveUser(user);
      Append(user, WM.Tail(size, head));
    }

    method Append(user: User, tail: nat)
      requires Valid() && user !in members && tail < size
      modifies this, members`next, user
      ensures Valid() && head == old(head) && members == old(members) + {user}
      ensures user.queueIndex == tail
    {
      Link(user, tail);
      user.queueIndex := tail;
      members := members + {user};
      assert Elems(buckets[tail]) == Elems(old(buckets)[tail]) + {user};
      forall i | 0 <= i < size
        ensures Elems(buckets[i]) == InBucket(members, i)
      {
        assert InBucket(members, i) == old(InBucket(members, i)) + (if i == tail then {user} else {});
      }
    }

    /** Links a user behind the last of a bucket. */
    method Link(user: User, tail: nat)
      requires Valid() && user !in members && tail < size
      modifies `buffer, `buckets, members`next, user`prev, user`next
      ensures |buffer| == size && buckets == old(buckets)[tail := old(buckets)[tail] + [user]]
      ensures forall i :: 0 <= i < size ==> Linked(buffer[i], buckets[i])
    {
      assert user !in Elems(buckets[tail]);
      OthersApart(tail);
      var d := PushBack(buffer[tail], user, buckets[tail]);
      buffer := buffer[tail := d];
      buckets := buckets[tail := buckets[tail] + [user]];
    }

    method IncHead()
      requires Valid()
      modifies this
      ensures Valid() && head == (old(head) + 1) % size
      ensures members == old(members) && buckets == old(buckets)
    {
      head := (head + 1) % size;
    }
  }

  ghost function Ids(s: seq<string>): set<string>
  {
    set id | id in s
  }

  /** Removing one more id from a table. */
  lemma RemoveNext(m: map<string, User>, s: seq<string>, id: string)
    ensures m - Ids(s) - {id} == m - Ids(s + [id])
  {
    assert Ids(s + [id]) == Ids(s) + {id};
  }

  // ----- The server's user table and its events -----

  class SessionServer {
    const serverHeartbeat: bool
    const timeoutQueue: UserCircleQueue
    var users: map<string, User>

    /** The user table and the wheel hold the same users. */
    ghost predicate Valid()
      reads this, timeoutQueue, timeoutQueue.members
    {
      && timeoutQueue.Valid()
      && (forall id :: id in users ==> users[id] in timeoutQueue.members && users[id].uid == id)
      && (forall u :: u in timeoutQueue.members ==> u.uid in users && users[u.uid] == u)
    }

    ghost function Abs(): WM.Wheel
      requires Valid()
      reads this, timeoutQueue, timeoutQueue.members
    {
      WM.Wheel(timeoutQueue.size, timeoutQueue.head,
               map id | id in users :: users[id].queueIndex,
               set id | id in users && users[id].kind == COMET_TYPE_POLLING)
    }

    constructor (timeoutCounter: nat, serverHeartbeat: bool)
      requires timeoutCounter >= 1
      ensures Valid() && Abs() == WM.Initial(timeoutCounter) && this.serverHeartbeat == serverHeartbeat
    {
      this.serverHeartbeat := serverHeartbeat;
      timeoutQueue := new UserCircleQueue(timeoutCounter);
      users := map[];
    }

    /** A login.  A user already connected under this id is replaced. */
    method Connect(uid: string, kind: int)
      requires Valid()
      modifies this, timeoutQueue, timeoutQueue.members`prev, timeoutQueue.members`next
      ensures Valid()
      ensures Abs() == WM.Step(old(Abs()), serverHeartbeat, WM.Connect(uid, kind == COMET_TYPE_POLLING))
    {
      var user := new User(uid, kind);
      WM.Replacing(Abs(), serverHeartbeat, uid, kind == COMET_TYPE_POLLING);
      if uid in users {
        ghost var k := Drop(users[uid]);
      }
      Admit(user);
    }

    /** Takes a connected user off the wheel and out of the table. */
    method Drop(user: User) returns (ghost k: nat)
      requires Valid() && user in timeoutQueue.members
      modifies this, timeoutQueue, timeoutQueue.members`prev, timeoutQueue.members`next
      ensures Valid() && Abs() == WM.Step(old(Abs()), serverHeartbeat, WM.Disconnect(user.uid))
      ensures timeoutQueue.members == old(timeoutQueue.members) - {user} && users == old(users) - {user.uid}
      ensures var q := user.queueIndex;
              && k < |old(timeoutQueue.buckets)[q]| && old(timeoutQueue.buckets)[q][k] == user
              && timeoutQueue.buckets == old(timeoutQueue.buckets)[q := Without(old(timeoutQueue.buckets)[q], k)]
    {
      k := timeoutQueue.RemoveUser(user);
      users := users - {user.uid};
    }

    /** Enters a new user into the table and pushes it. */
    method Admit(user: User)
      requires Valid() && user.uid !in users && user !in timeoutQueue.members && user.queueIndex == -1
      modifies this, timeoutQueue, timeoutQueue.members`prev, timeoutQueue.members`next, user
      ensures Valid()
      ensures Abs() == WM.Step(old(Abs()), serverHeartbeat, WM.Connect(user.uid, user.kind == COMET_TYPE_POLLING))
    {
      ghost var w := Abs();
      users := users[user.uid := user];
      timeoutQueue.PushUserBack(user);
      assert Abs().slot == w.slot[user.uid := WM.Tail(w.n, w.head)];
      assert w.polling - {user.uid} == w.polling;
    }

    /** Any message from a connected user restarts its idle time. */
    method OnUserMessage(from: string)
      requires Valid()
      modifies timeoutQueue, timeoutQueue.members
      ensures Valid() && Abs() == WM.Step(old(Abs()), serverHeartbeat, WM.Message(from))
    {
      if from in users {
        timeoutQueue.PushUserBack(users[from]);
      }
    }

    method OnUserDisconnect(user: User)
      requires Valid() && user in timeoutQueue.members
      modifies this, timeoutQueue, timeoutQueue.members`prev, timeoutQueue.members`next
      ensures Valid() && Abs() == WM.Step(old(Abs()), serverHeartbeat, WM.Disconnect(user.uid))
    {
      ghost var k := Drop(user);
    }

    ghost predicate Closing(u: User)
    {
      !serverHeartbeat || u.kind == COMET_TYPE_POLLING
    }

    /** The ids of the users in s that a tick closes (or does not), in order. */
    ghost function Sift(s: seq<User>, closing: bool): seq<string>
    {
      if s == [] then []
      else Sift(s[..|s| - 1], closing) + (if Closing(s[|s| - 1]) == closing then [s[|s| - 1].uid] else [])
    }

    lemma SiftSnoc(s: seq<User>, u: User, closing: bool)
      ensures Sift(s + [u], closing) == Sift(s, closing) + (if Closing(u) == closing then [u.uid] else [])
    {
      assert (s + [u])[..|s|] == s;
    }

    lemma {:induction false} SiftIds(s: seq<User>, closing: bool)
      ensures Ids(Sift(s, closing)) == (set u | u in s && Closing(u) == closing :: u.uid)
    {
      if s != [] {
        var pre, last := s[..|s| - 1], s[|s| - 1];
        SiftIds(pre, closing);
        assert s == pre + [last];
        var x := set u | u in s && Closing(u) == closing :: u.uid;
        var y := set u | u in pre && Closing(u) == closing :: u.uid;
        assert forall u :: u in s <==> u in pre || u == last;
        assert x == y + (if Closing(last) == closing then {last.uid} else {});
        assert Ids(Sift(s, closing))
            == Ids(Sift(pre, closing)) + (if Closing(last) == closing then {last.uid} else {});
      }
    }

    /** The bucket at the head holds exactly the users due. */
    lemma HeadBucket()
      requires Valid()
      ensures (set u | u in timeoutQueue.buckets[timeoutQueue.head] :: u.uid) == WM.Due(Abs())
      ensures forall u :: u in timeoutQueue.buckets[timeoutQueue.head] ==> u in timeoutQueue.members
    {
      var all := timeoutQueue.buckets[timeoutQueue.head];
      assert Elems(all) == InBucket(timeoutQueue.members, timeoutQueue.head);
      forall u | u in all
        ensures u in timeoutQueue.members && u.uid in WM.Due(Abs())
      {
        assert u in Elems(all);
      }
      forall id | id in WM.Due(Abs())
        ensures id in (set u | u in all :: u.uid)
      {
        assert users[id] in Elems(all);
      }
    }

    /** A timer tick.  The walk reads each user's successor before it closes the
        user, which unlinks it from the list being walked. */
    method OnTimer() returns (closed: seq<string>, beats: seq<string>)
      requires Valid()
      modifies this, timeoutQueue, timeoutQueue.members`prev, timeoutQueue.members`next
      ensures Valid() && Abs() == WM.Step(old(Abs()), serverHeartbeat, WM.Timer)
      ensures closed == Sift(old(timeoutQueue.buckets[timeoutQueue.head]), true)
      ensures beats == Sift(old(timeoutQueue.buckets[timeoutQueue.head]), false)
      ensures Ids(closed) == WM.Closes(old(Abs()), serverHeartbeat)
      ensures Ids(beats) == WM.Beats(old(Abs()), serverHeartbeat)
    {
      ghost var w := Abs();
      closed, beats := CloseDue();
      timeoutQueue.IncHead();
      assert Abs() == w.(head := timeoutQueue.head, slot := w.slot - Ids(closed), polling := w.polling - Ids(closed));
    }

    /** The walk over the front bucket, in terms of the users due. */
    method CloseDue() returns (closed: seq<string>, beats: seq<string>)
      requires Valid()
      modifies this, timeoutQueue, timeoutQueue.members`prev, timeoutQueue.members`next
      ensures Valid()
      ensures closed == Sift(old(timeoutQueue.buckets[timeoutQueue.head]), true)
      ensures beats == Sift(old(timeoutQueue.buckets[timeoutQueue.head]), false)
      ensures Ids(closed) == WM.Closes(old(Abs()), serverHeartbeat)
      ensures Ids(beats) == WM.Beats(old(Abs()), serverHeartbeat)
      ensures var w := old(Abs());
              Abs() == w.(slot := w.slot - Ids(closed), polling := w.polling - Ids(closed))
    {
      ghost var all := timeoutQueue.buckets[timeoutQueue.head];
      ghost var w := Abs();
      HeadBucket();
      SiftIds(all, true);
      SiftIds(all, false);
      closed, beats := WalkFront(all);
      assert Abs().slot == w.slot - Ids(closed);
      assert Abs().polling == w.polling - Ids(closed);
    }

    method WalkFront(ghost all: seq<User>) returns (closed: seq<string>, beats: seq<string>)
      requires Valid() && all == timeoutQueue.buckets[timeoutQueue.head]
      modifies this, timeoutQueue, timeoutQueue.members`prev, timeoutQueue.members`next
      ensures Valid() && timeoutQueue.head == old(timeoutQueue.head)
      ensures users == old(users) - Ids(closed)
      ensures closed == Sift(all, true) && beats == Sift(all, false)
    {
      ghost var kept: seq<User>, done: seq<User>, rest: seq<User> := [], [], all;
      ghost var users0 := users;
      closed, beats := [], [];
      var timeoutUsers := timeoutQueue.buffer[timeoutQueue.head];
      var cur := timeoutUsers.head;
      while cur != null
        invariant Valid() && timeoutQueue.head == old(timeoutQueue.head)
        invariant timeoutQueue.members <= old(timeoutQueue.members)
        invariant timeoutQueue.buckets[timeoutQueue.head] == kept + rest
        invariant cur == (if rest == [] then null else rest[0])
        invariant all == done + rest
        invariant users == users0 - Ids(closed)
        invariant closed == Sift(done, true) && beats == Sift(done, false)
        decreases |rest|
      {
        var user: User := cur;
        var close;
        close, cur, kept := Visit(user, kept, rest);
        WalkStep(users0, done, rest, user);
        if close {
          closed := closed + [user.uid];
        } else {
          beats := beats + [user.uid];
        }
        done, rest := done + [user], rest[1..];
      }
      assert all == done;
    }

    /** What one more user adds to the lists of the walk. */
    lemma WalkStep(users0: map<string, User>, done: seq<User>, rest: seq<User>, user: User)
      requires rest != [] && user == rest[0]
      ensures done + rest == (done + [user]) + rest[1..]
      ensures Sift(done + [user], true) == Sift(done, true) + (if Closing(user) then [user.uid] else [])
      ensures Sift(done + [user], false) == Sift(done, false) + (if Closing(user) then [] else [user.uid])
      ensures users0 - Ids(Sift(done, true)) - {user.uid} == users0 - Ids(Sift(done, true) + [user.uid])
    {
      SiftSnoc(done, user, true);
      SiftSnoc(done, user, false);
      RemoveNext(users0, Sift(done, true), user.uid);
    }

    /** One user of the walk: its successor is read before it is closed. */
    method Visit(user: User, ghost kept: seq<User>, ghost rest: seq<User>)
      returns (close: bool, next: User?, ghost kept': seq<User>)
      requires Valid() && rest != [] && user == rest[0]
      requires timeoutQueue.buckets[timeoutQueue.head] == kept + rest
      modifies this, timeoutQueue, timeoutQueue.members`prev, timeoutQueue.members`next
      ensures Valid() && timeoutQueue.head == old(timeoutQueue.head)
      ensures timeoutQueue.members <= old(timeoutQueue.members)
      ensures timeoutQueue.buckets[timeoutQueue.head] == kept' + rest[1..]
      ensures close == Closing(user) && users == (if close then old(users) - {user.uid} else old(users))
      ensures next == (if |rest| == 1 then null else rest[1])
    {
      SuccessorInWalk(user, kept, rest);
      next := user.next;
      close := !serverHeartbeat || user.kind == COMET_TYPE_POLLING;
      if close {
        CloseInWalk(user, kept, rest);
        kept' := kept;
      } else {
        kept' := kept + [user];
      }
    }

    lemma SuccessorInWalk(user: User, kept: seq<User>, rest: seq<User>)
      requires Valid() && rest != [] && user == rest[0]
      requires timeoutQueue.buckets[timeoutQueue.head] == kept + rest
      ensures user.next == (if |rest| == 1 then null else rest[1])
      ensures user in timeoutQueue.members && user.queueIndex == timeoutQueue.head
      ensures kept + rest == (kept + [user]) + rest[1..]
    {
      var here := kept + rest;
      assert Linked(timeoutQueue.buffer[timeoutQueue.head], here);
      assert here[|kept|] == user;
      assert |rest| > 1 ==> here[|kept| + 1] == rest[1];
      assert user in Elems(here);
    }

    /** Closing the current user of the walk takes it out of the front list. */
    method CloseInWalk(user: User, ghost kept: seq<User>, ghost rest: seq<User>)
      requires Valid() && rest != [] && user == rest[0]
      requires timeoutQueue.buckets[timeoutQueue.head] == kept + rest
      modifies this, timeoutQueue, timeoutQueue.members`prev, timeoutQueue.members`next
      ensures Valid() && timeoutQueue.head == old(timeoutQueue.head)
      ensures timeoutQueue.members <= old(timeoutQueue.members)
      ensures timeoutQueue.buckets[timeoutQueue.head] == kept + rest[1..]
      ensures users == old(users) - {user.uid}
      ensures old(user.next) == (if |rest| == 1 then null else rest[1])
    {
      SuccessorInWalk(user, kept, rest);
      ghost var here := kept + rest;
      assert Distinct(here) && here[|kept|] == user;
      ghost var k := Drop(user);
      assert k == |kept|;
      assert Without(here, k) == kept + rest[1..];
    }
  }
}
