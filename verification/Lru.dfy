/** The LRU cache of deps/base/lru_cache.h: a list of nodes, most recently
    used first, and an index from keys to nodes of that list. */
module Lru {
  import opened Common
  import opened M = LruModel

  class Node<K, V> {
    const key: K
    const value: Option<V>

    constructor (key: K, value: Option<V>)
      ensures this.key == key && this.value == value
    {
      this.key := key;
      this.value := value;
    }
  }

  function Items<K, V>(list: seq<Node<K, V>>): (l: seq<Item<K, V>>)
    ensures |l| == |list|
    ensures forall i :: 0 <= i < |l| ==> l[i] == Item(list[i].key, list[i].value)
  {
    seq(|list|, i requires 0 <= i < |list| => Item(list[i].key, list[i].value))
  }

  /** Where an iterator into the list points. */
  function Place<K(==), V>(node: Node<K, V>, list: seq<Node<K, V>>): nat {
    Find(Items(list), node.key)
  }

  ghost predicate Indexed<K, V>(list: seq<Node<K, V>>, index: map<K, Node<K, V>>) {
    && |index| == |list|
    && (forall i :: 0 <= i < |list| ==> list[i].key in index && index[list[i].key] == list[i])
    && (forall i, j :: 0 <= i < j < |list| ==> list[i].key != list[j].key)
  }

  lemma WithoutIndexed<K, V>(list: seq<Node<K, V>>, index: map<K, Node<K, V>>, i: nat)
    requires Indexed(list, index) && i < |list|
    ensures Indexed(Without(list, i), index - {list[i].key})
    ensures Items(Without(list, i)) == Without(Items(list), i)
  {
    var r, rest := Without(list, i), index - {list[i].key};
    assert rest.Keys == index.Keys - {list[i].key};
    assert |rest| == |rest.Keys| && |index| == |index.Keys|;
    assert forall j :: 0 <= j < |r| ==> r[j] == list[if j < i then j else j + 1];
  }

  lemma FrontIndexed<K, V>(list: seq<Node<K, V>>, index: map<K, Node<K, V>>, node: Node<K, V>)
    requires Indexed(list, index) && node.key !in index
    ensures Indexed([node] + list, index[node.key := node])
  {
    var r, more := [node] + list, index[node.key := node];
    SizeMore(index, node.key, node);
    assert list == r[1..];
    forall i | 0 <= i < |r|
      ensures r[i].key in more && more[r[i].key] == r[i]
      ensures forall j :: i < j < |r| ==> r[i].key != r[j].key
    {
      if i > 0 {
        assert r[i] == list[i - 1];
      }
      forall j | i < j < |r|
        ensures r[i].key != r[j].key
      {
        assert r[j] == list[j - 1] && list[j - 1].key in index;
      }
    }
  }

  lemma SizeMore<K, T>(m: map<K, T>, k: K, v: T)
    requires k !in m
    ensures |m[k := v]| == |m| + 1
  {
    assert m[k := v].Keys == m.Keys + {k};
    assert |m[k := v]| == |m[k := v].Keys| && |m| == |m.Keys|;
  }

  lemma FrontItems<K, V>(list: seq<Node<K, V>>, node: Node<K, V>)
    ensures Items([node] + list) == [Item(node.key, node.value)] + Items(list)
  {
  }

  class LRUCache<K(==), V(==)> {
    var list: seq<Node<K, V>>
    var index: map<K, Node<K, V>>
    const maxSize: nat

    /** List and index describe the same keys, each key once. */
    ghost predicate Valid()
      reads this
    {
      Indexed(list, index)
    }

    ghost function Abs(): seq<Item<K, V>>
      reads this
    {
      Items(list)
    }

    constructor (maxSize: nat)
      ensures Valid() && Abs() == [] && this.maxSize == maxSize
    {
      list := [];
      index := map[];
      this.maxSize := maxSize;
    }

    /** The key is indexed exactly if it is listed. */
    lemma Listed(key: K)
      requires Valid()
      ensures key in index <==> Find(Abs(), key) < |list|
      ensures key in index ==> index[key] == list[Find(Abs(), key)]
    {
      var l := Abs();
      if key in index {
        AllListed(list, index, key);
      }
      if Find(l, key) < |list| {
        assert l[Find(l, key)].key == key;
      }
    }

    /** Unlinks the node that the index names. */
    method RemoveValue(key: K)
      requires Valid() && key in index
      modifies `list, `index
      ensures Valid() && Abs() == Forget(old(Abs()), key) && index == old(index) - {key}
    {
      Listed(key);
      var i := Place(index[key], list);
      WithoutIndexed(list, index, i);
      list := Without(list, i);
      index := index - {key};
    }

    method Get(key: K) returns (value: Option<V>)
      requires Valid()
      modifies `list
      ensures Valid() && Abs() == Step(old(Abs()), M.Get(key), maxSize)
      ensures var i := Find(old(Abs()), key); value == if i < |old(Abs())| then old(Abs())[i].value else None
    {
      Listed(key);
      if key in index {
        var node := index[key];
        var i := Place(node, list);
        WithoutIndexed(list, index, i);
        FrontIndexed(Without(list, i), index - {key}, node);
        FrontItems(Without(list, i), node);
        assert (index - {key})[key := node] == index;
        list := [node] + Without(list, i);
        value := node.value;
      } else {
        value := None;
      }
    }

    method Put(key: K, value: Option<V>)
      requires Valid()
      modifies `list, `index
      ensures Valid()
      ensures Abs() == Step(old(Abs()), M.Put(key, value), maxSize)
    {
      Listed(key);
      if key in index {
        if value.Some? && index[key].value == value { return; }
        RemoveValue(key);
      }
      PushFront(key, value);
      if |index| > maxSize {
        RemoveLast();
      }
    }

    method PushFront(key: K, value: Option<V>)
      requires Valid() && key !in index
      modifies `list, `index
      ensures Valid() && Abs() == [Item(key, value)] + old(Abs())
    {
      var node := new Node(key, value);
      FrontIndexed(list, index, node);
      FrontItems(list, node);
      list := [node] + list;
      index := index[key := node];
    }

    method RemoveLast()
      requires Valid() && list != []
      modifies `list, `index
      ensures Valid() && Abs() == old(Abs())[..|old(Abs())| - 1]
    {
      var last := |list| - 1;
      var key := list[last].key;
      Listed(key);
      RemoveValue(key);
    }

    method Clear()
      modifies `list, `index
      ensures Valid() && Abs() == []
    {
      list := [];
      index := map[];
    }
  }

  /** An index as large as the list holds no other keys. */
  lemma {:induction false} AllListed<K, V>(list: seq<Node<K, V>>, index: map<K, Node<K, V>>, key: K)
    requires Indexed(list, index) && key in index
    ensures Find(Items(list), key) < |list| && index[key] == list[Find(Items(list), key)]
    decreases |list|
  {
    assert |index.Keys| == |index| && key in index.Keys;
    var n := |list| - 1;
    if list[n].key == key {
      assert Items(list)[n].key == key;
    } else {
      WithoutIndexed(list, index, n);
      assert Without(list, n) == list[..n];
      AllListed(list[..n], index - {list[n].key}, key);
      var i := Find(Items(list[..n]), key);
      assert Items(list)[i].key == key;
    }
  }
}
