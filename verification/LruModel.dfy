/** What an LRU cache does, said twice: as a list in order of recency, and as a
    table that remembers when each key was last touched and, when too large,
    drops what was touched longest ago. */
module LruModel {
  import opened Common

  datatype Item<K, V> = Item(key: K, value: Option<V>)

  datatype Op<K, V> =
    | Get(key: K)
    | Put(key: K, value: Option<V>)
    | Clear

  // ----- The recency list -----

  /** Where a key first stands, or the length of the list. */
  function Find<K(==), V>(l: seq<Item<K, V>>, key: K): (i: nat)
    ensures i <= |l|
    ensures i < |l| ==> l[i].key == key
    ensures forall j :: 0 <= j < i ==> l[j].key != key
  {
    if l == [] || l[0].key == key then 0 else Find(l[1..], key) + 1
  }

  function OnGet<K(==), V>(l: seq<Item<K, V>>, key: K): seq<Item<K, V>> {
    var i := Find(l, key);
    if i < |l| then [l[i]] + Without(l, i) else l
  }

  /** The same non-null pointer put again: nothing happens. */
  predicate Same<V(==)>(held: Option<V>, value: Option<V>) {
    value.Some? && held == value
  }

  function Forget<K(==), V>(l: seq<Item<K, V>>, key: K): seq<Item<K, V>> {
    var i := Find(l, key);
    if i < |l| then Without(l, i) else l
  }

  /** Drops the last when there are too many. */
  function Trim<K, V>(l: seq<Item<K, V>>, max: nat): seq<Item<K, V>> {
    if |l| > max then l[..|l| - 1] else l
  }

  function OnPut<K(==), V(==)>(l: seq<Item<K, V>>, key: K, value: Option<V>, max: nat): seq<Item<K, V>> {
    var i := Find(l, key);
    if i < |l| && Same(l[i].value, value) then l
    else Trim([Item(key, value)] + Forget(l, key), max)
  }

  function Step<K(==), V(==)>(l: seq<Item<K, V>>, op: Op<K, V>, max: nat): seq<Item<K, V>> {
    match op
    case Get(key) => OnGet(l, key)
    case Put(key, value) => OnPut(l, key, value, max)
    case Clear => []
  }

  function Run<K(==), V(==)>(ops: seq<Op<K, V>>, max: nat): seq<Item<K, V>> {
    if ops == [] then [] else Step(Run(ops[..|ops| - 1], max), ops[|ops| - 1], max)
  }

  // ----- The table of touches -----

  datatype Entry<V> = Entry(value: Option<V>, touched: nat)

  /** The table without what was touched longest ago. */
  ghost function WithoutOldest<K, V>(m: map<K, Entry<V>>): map<K, Entry<V>> {
    map k | k in m && exists o :: o in m && m[o].touched < m[k].touched :: m[k]
  }

  ghost function TrimTable<K, V>(m: map<K, Entry<V>>, max: nat): map<K, Entry<V>> {
    if |m| > max then WithoutOldest(m) else m
  }

  ghost function TableStep<K, V>(m: map<K, Entry<V>>, op: Op<K, V>, now: nat, max: nat): map<K, Entry<V>> {
    match op
    case Get(key) => if key in m then m[key := Entry(m[key].value, now)] else m
    case Put(key, value) =>
      if key in m && Same(m[key].value, value) then m
      else TrimTable(m[key := Entry(value, now)], max)
    case Clear => map[]
  }

  ghost function Table<K, V>(ops: seq<Op<K, V>>, max: nat): map<K, Entry<V>> {
    if ops == [] then map[] else TableStep(Table(ops[..|ops| - 1], max), ops[|ops| - 1], |ops|, max)
  }

  // ----- The two agree -----

  /** The list holds the entries of the table, each touched later than all
      that follow, and none later than the bound. */
  ghost predicate Agree<K, V>(l: seq<Item<K, V>>, m: map<K, Entry<V>>, bound: int) {
    if l == [] then m == map[]
    else
      var k := l[0].key;
      && k in m && m[k].value == l[0].value && m[k].touched <= bound
      && Agree(l[1..], m - {k}, m[k].touched - 1)
  }

  lemma Looser<K, V>(l: seq<Item<K, V>>, m: map<K, Entry<V>>, bound: int, looser: int)
    requires Agree(l, m, bound) && bound <= looser
    ensures Agree(l, m, looser)
  {
  }

  lemma {:induction false} AgreeSize<K, V>(l: seq<Item<K, V>>, m: map<K, Entry<V>>, bound: int)
    requires Agree(l, m, bound)
    ensures |m| == |l|
  {
    if l != [] {
      var k := l[0].key;
      AgreeSize(l[1..], m - {k}, m[k].touched - 1);
      assert (m - {k}).Keys == m.Keys - {k};
      assert |m| == |m.Keys|;
      assert |m - {k}| == |(m - {k}).Keys|;
    }
  }

  lemma {:induction false} AgreeFind<K, V>(l: seq<Item<K, V>>, m: map<K, Entry<V>>, bound: int, key: K)
    requires Agree(l, m, bound)
    ensures key in m <==> Find(l, key) < |l|
    ensures key in m ==> m[key].value == l[Find(l, key)].value && m[key].touched <= bound
  {
    if l != [] && l[0].key != key {
      var k := l[0].key;
      AgreeFind(l[1..], m - {k}, m[k].touched - 1, key);
    }
  }

  /** A key that is not in the table goes to the front as the latest touch. */
  lemma FrontAgrees<K, V>(l: seq<Item<K, V>>, m: map<K, Entry<V>>, x: Item<K, V>, now: nat)
    requires Agree(l, m, now) && x.key !in m
    ensures Agree([x] + l, m[x.key := Entry(x.value, now + 1)], now + 1)
  {
    assert ([x] + l)[1..] == l;
    assert m[x.key := Entry(x.value, now + 1)] - {x.key} == m;
  }

  lemma {:induction false} ForgetAgrees<K, V>(l: seq<Item<K, V>>, m: map<K, Entry<V>>, key: K, bound: int)
    requires Agree(l, m, bound)
    ensures Agree(Forget(l, key), m - {key}, bound)
  {
    if l == [] {
      assert m - {key} == map[];
    } else {
      var k := l[0].key;
      if k == key {
        assert Forget(l, key) == l[1..];
        Looser(l[1..], m - {k}, m[k].touched - 1, bound);
      } else {
        ForgetAgrees(l[1..], m - {k}, key, m[k].touched - 1);
        ForgetTail(l, key);
        var r := [l[0]] + Forget(l[1..], key);
        assert r[1..] == Forget(l[1..], key);
        assert m - {key} - {k} == m - {k} - {key};
      }
    }
  }

  lemma ForgetTail<K, V>(l: seq<Item<K, V>>, key: K)
    requires l != [] && l[0].key != key
    ensures Forget(l, key) == [l[0]] + Forget(l[1..], key)
  {
    var i := Find(l[1..], key);
    assert Find(l, key) == i + 1;
    if i < |l[1..]| { assert Without(l, i + 1) == [l[0]] + Without(l[1..], i); }
  }

  /** The last of the list was touched before everything else. */
  lemma {:induction false} LastIsOldest<K, V>(l: seq<Item<K, V>>, m: map<K, Entry<V>>, bound: int, key: K)
    requires Agree(l, m, bound) && l != [] && key in m
    ensures var last := l[|l| - 1].key;
      last in m && (key == last || m[last].touched < m[key].touched)
  {
    var k, n := l[0].key, |l| - 1;
    if n > 0 {
      var rest := m - {k};
      LastAgreed(l[1..], rest, m[k].touched - 1);
      if key != k { LastIsOldest(l[1..], rest, m[k].touched - 1, key); }
    } else {
      assert l[1..] == [] && (key != k ==> key in m - {k});
    }
  }

  lemma {:induction false} LastAgreed<K, V>(l: seq<Item<K, V>>, m: map<K, Entry<V>>, bound: int)
    requires Agree(l, m, bound) && l != []
    ensures l[|l| - 1].key in m && m[l[|l| - 1].key].touched <= bound
  {
    var k := l[0].key;
    if |l| > 1 { LastAgreed(l[1..], m - {k}, m[k].touched - 1); }
  }

  lemma {:induction false} FrontPart<K, V>(l: seq<Item<K, V>>, m: map<K, Entry<V>>, bound: int)
    requires Agree(l, m, bound) && l != []
    ensures Agree(l[..|l| - 1], m - {l[|l| - 1].key}, bound)
  {
    var k, n := l[0].key, |l| - 1;
    if n == 0 {
      assert l[1..] == [];
    } else {
      FrontPart(l[1..], m - {k}, m[k].touched - 1);
      LastAgreed(l[1..], m - {k}, m[k].touched - 1);
      assert l[..n][1..] == l[1..][..n - 1];
      assert m - {l[n].key} - {k} == m - {k} - {l[n].key};
    }
  }

  /** Dropping the last of the list drops what was touched longest ago. */
  lemma EvictAgrees<K, V>(l: seq<Item<K, V>>, m: map<K, Entry<V>>, bound: int)
    requires Agree(l, m, bound) && l != []
    ensures Agree(l[..|l| - 1], WithoutOldest(m), bound)
  {
    var last := l[|l| - 1].key;
    FrontPart(l, m, bound);
    LastAgreed(l, m, bound);
    forall k | k in m
      ensures k == last || m[last].touched < m[k].touched
    {
      LastIsOldest(l, m, bound, k);
    }
    OldestGone(m, last);
  }

  lemma OldestGone<K, V>(m: map<K, Entry<V>>, last: K)
    requires last in m && forall k :: k in m ==> k == last || m[last].touched < m[k].touched
    ensures WithoutOldest(m) == m - {last}
  {
    assert forall k :: k in m && k != last ==> k in WithoutOldest(m);
  }

  /** Putting a key at the front, whether or not it was there. */
  lemma InsertAgrees<K, V>(l: seq<Item<K, V>>, m: map<K, Entry<V>>, x: Item<K, V>, now: nat)
    requires Agree(l, m, now)
    ensures Agree([x] + Forget(l, x.key), m[x.key := Entry(x.value, now + 1)], now + 1)
  {
    ForgetAgrees(l, m, x.key, now);
    FrontAgrees(Forget(l, x.key), m - {x.key}, x, now);
    assert (m - {x.key})[x.key := Entry(x.value, now + 1)] == m[x.key := Entry(x.value, now + 1)];
  }

  lemma PutAgrees<K, V>(l: seq<Item<K, V>>, m: map<K, Entry<V>>, key: K, value: Option<V>, now: nat, max: nat)
    requires Agree(l, m, now)
    ensures Agree(OnPut(l, key, value, max), TableStep(m, Put(key, value), now + 1, max), now + 1)
  {
    AgreeFind(l, m, now, key);
    if key in m && Same(m[key].value, value) {
      Looser(l, m, now, now + 1);
    } else {
      InsertAgrees(l, m, Item(key, value), now);
      TrimAgrees([Item(key, value)] + Forget(l, key), m[key := Entry(value, now + 1)], now + 1, max);
    }
  }

  lemma TrimAgrees<K, V>(l: seq<Item<K, V>>, m: map<K, Entry<V>>, bound: int, max: nat)
    requires Agree(l, m, bound)
    ensures Agree(Trim(l, max), TrimTable(m, max), bound)
  {
    AgreeSize(l, m, bound);
    if |l| > max { EvictAgrees(l, m, bound); }
  }

  lemma GetAgrees<K, V>(l: seq<Item<K, V>>, m: map<K, Entry<V>>, key: K, now: nat, max: nat)
    requires Agree(l, m, now)
    ensures Agree(OnGet(l, key), TableStep(m, Get(key), now + 1, max), now + 1)
  {
    AgreeFind(l, m, now, key);
    var i := Find(l, key);
    if i < |l| {
      InsertAgrees(l, m, l[i], now);
    } else {
      Looser(l, m, now, now + 1);
    }
  }

  /** Over every run, the list holds exactly the entries of the table, most
      recently touched first. */
  lemma {:induction false} ListIsTable<K, V>(ops: seq<Op<K, V>>, max: nat)
    ensures Agree(Run(ops, max), Table(ops, max), |ops|)
  {
    if ops != [] {
      var init, op := ops[..|ops| - 1], ops[|ops| - 1];
      ListIsTable(init, max);
      match op
      case Get(key) => GetAgrees(Run(init, max), Table(init, max), key, |init|, max);
      case Put(key, value) => PutAgrees(Run(init, max), Table(init, max), key, value, |init|, max);
      case Clear =>
    }
  }

  /** No run leaves more than the maximum. */
  lemma {:induction false} NeverTooLarge<K, V>(ops: seq<Op<K, V>>, max: nat)
    ensures |Run(ops, max)| <= max
  {
    if ops != [] {
      NeverTooLarge(ops[..|ops| - 1], max);
      SmallStep(Run(ops[..|ops| - 1], max), ops[|ops| - 1], max);
    }
  }

  lemma SmallStep<K, V>(l: seq<Item<K, V>>, op: Op<K, V>, max: nat)
    requires |l| <= max
    ensures |Step(l, op, max)| <= max
  {
  }

  /** Putting a key that is there makes it the most recent exactly if it was
      already, or the pointer is another one or null. */
  lemma PutRefreshesExactly<K, V>(l: seq<Item<K, V>>, key: K, value: Option<V>, max: nat)
    requires Find(l, key) < |l| <= max
    ensures var r := OnPut(l, key, value, max);
      r != [] && (r[0].key == key <==> Find(l, key) == 0 || !Same(l[Find(l, key)].value, value))
  {
  }

  /** So a key put again with its own pointer can be the next one to go. */
  lemma PutAgainAndEvicted<K, V>(a: K, b: K, c: K, x: V, y: V, z: V)
    requires a != b && b != c && a != c
    ensures Run([Put(a, Some(x)), Put(b, Some(y)), Put(a, Some(x)), Put(c, Some(z))], 2)
      == [Item(c, Some(z)), Item(b, Some(y))]
  {
    var ops := [Put(a, Some(x)), Put(b, Some(y)), Put(a, Some(x)), Put(c, Some(z))];
    assert ops[..3][..2] == ops[..2] && ops[..2][..1] == ops[..1] && ops[..1][..0] == [];
    var l1 := [Item(a, Some(x))];
    assert Run(ops[..1], 2) == l1;
    var l2 := [Item(b, Some(y)), Item(a, Some(x))];
    assert Run(ops[..2], 2) == l2;
    assert l2[1..][0].key == a && Find(l2, a) == 1;
    assert Run(ops[..3], 2) == l2;
    assert l2[1..][1..] == [] && Find(l2, c) == 2;
    assert ops[..4] == ops;
  }
}
