/** The consistent-hash ring of src/sharding.h, over any fingerprint function:
    every node owns a hundred points, a key belongs to the next point. */
module Sharding {
  import opened Common

  const VIRTUAL_NODE_NUM: nat := 100

  type Hash = h: int | 0 <= h < TWO64
  type Fingerprint = string -> Hash

  /** The text whose fingerprint is the j-th point of node i. */
  function PointName(i: nat, j: nat): string {
    Decimal(i) + ":" + Decimal(j)
  }

  // ----- The ring that a node list builds -----

  /** Node i adds its first n points, taking over points already there. */
  function WithPoints<Node>(fp: Fingerprint, ring: map<Hash, Node>, i: nat, node: Node, n: nat): map<Hash, Node> {
    if n == 0 then ring else WithPoints(fp, ring, i, node, n - 1)[fp(PointName(i, n - 1)) := node]
  }

  function Ring<Node>(fp: Fingerprint, nodes: seq<Node>): map<Hash, Node> {
    if nodes == [] then map[]
    else
      var last := |nodes| - 1;
      WithPoints(fp, Ring(fp, nodes[..last]), last, nodes[last], VIRTUAL_NODE_NUM)
  }

  /** h is one of the first n points of node i. */
  ghost predicate PointOf(fp: Fingerprint, i: nat, n: nat, h: Hash) {
    exists j :: 0 <= j < n && fp(PointName(i, j)) == h
  }

  lemma {:induction false} WithPointsAt<Node>(fp: Fingerprint, ring: map<Hash, Node>, i: nat, node: Node, n: nat, h: Hash)
    ensures var r := WithPoints(fp, ring, i, node, n);
      && (h in r <==> h in ring || PointOf(fp, i, n, h))
      && (h in r ==> r[h] == if PointOf(fp, i, n, h) then node else ring[h])
  {
    if n > 0 {
      WithPointsAt(fp, ring, i, node, n - 1, h);
      assert PointOf(fp, i, n, h) <==> PointOf(fp, i, n - 1, h) || fp(PointName(i, n - 1)) == h;
    }
  }

  /** Of the first n nodes, i is the last one that has the point h. */
  ghost predicate LastAt(fp: Fingerprint, n: nat, i: nat, h: Hash) {
    PointOf(fp, i, VIRTUAL_NODE_NUM, h) && forall k :: i < k < n ==> !PointOf(fp, k, VIRTUAL_NODE_NUM, h)
  }

  /** Every point belongs to the last node of the list that hashes to it. */
  lemma {:induction false} RingAt<Node>(fp: Fingerprint, nodes: seq<Node>, h: Hash)
    ensures h in Ring(fp, nodes) <==> exists i :: 0 <= i < |nodes| && PointOf(fp, i, VIRTUAL_NODE_NUM, h)
    ensures forall i :: 0 <= i < |nodes| && LastAt(fp, |nodes|, i, h) ==>
      h in Ring(fp, nodes) && Ring(fp, nodes)[h] == nodes[i]
  {
    if nodes != [] {
      var last := |nodes| - 1;
      RingAt(fp, nodes[..last], h);
      WithPointsAt(fp, Ring(fp, nodes[..last]), last, nodes[last], VIRTUAL_NODE_NUM, h);
    }
  }

  lemma RingNonempty<Node>(fp: Fingerprint, nodes: seq<Node>)
    requires nodes != []
    ensures Ring(fp, nodes).Keys != {}
  {
    var h := fp(PointName(0, 0));
    assert PointOf(fp, 0, VIRTUAL_NODE_NUM, h);
    RingAt(fp, nodes, h);
    assert h in Ring(fp, nodes).Keys;
  }

  // ----- The next point clockwise -----

  predicate IsLeast(keys: set<Hash>, k: Hash) {
    k in keys && forall x :: x in keys ==> k <= x
  }

  lemma {:induction false} HasLeast(keys: set<Hash>)
    requires keys != {}
    ensures exists k :: IsLeast(keys, k)
  {
    var k :| k in keys;
    var rest := keys - {k};
    if rest == {} {
      assert forall x :: x in keys ==> x == k || x in rest;
      assert IsLeast(keys, k);
    } else {
      HasLeast(rest);
      var m :| IsLeast(rest, m);
      assert forall x :: x in keys ==> x == k || x in rest;
      assert IsLeast(keys, if k < m then k else m);
    }
  }

  function Least(keys: set<Hash>): (k: Hash)
    requires keys != {}
    ensures IsLeast(keys, k)
  {
    HasLeast(keys);
    var k :| IsLeast(keys, k);
    k
  }

  /** How far k lies clockwise of h. */
  function Clockwise(h: Hash, k: Hash): nat {
    if h <= k then k - h else k + TWO64 - h
  }

  /** lower_bound, and the first point where that runs off the end. */
  function Successor(keys: set<Hash>, h: Hash): (k: Hash)
    requires keys != {}
    ensures k in keys
    ensures forall x :: x in keys ==> Clockwise(h, k) <= Clockwise(h, x)
  {
    var above := set x | x in keys && h <= x;
    assert forall x :: x in keys && h <= x ==> x in above;
    if above == {} then Least(keys) else Least(above)
  }

  /** Only one point is nearest. */
  lemma SuccessorUnique(keys: set<Hash>, h: Hash, k: Hash)
    requires k in keys && forall x :: x in keys ==> Clockwise(h, k) <= Clockwise(h, x)
    ensures Successor(keys, h) == k
  {
    assert Clockwise(h, k) == Clockwise(h, Successor(keys, h));
  }

  /** The node of the point nearest clockwise to the key's fingerprint. */
  function Owner<Node>(fp: Fingerprint, ring: map<Hash, Node>, key: string): Node
    requires ring.Keys != {}
  {
    ring[Successor(ring.Keys, fp(key))]
  }

  class Sharding<Node> {
    const fp: Fingerprint
    var mapping: map<Hash, Node>

    constructor (fp: Fingerprint, nodes: seq<Node>)
      requires |nodes| > 0
      ensures this.fp == fp && mapping == Ring(fp, nodes)
    {
      this.fp := fp;
      mapping := map[];
      new;
      for i := 0 to |nodes|
        invariant mapping == Ring(fp, nodes[..i])
      {
        ghost var before := mapping;
        for j := 0 to VIRTUAL_NODE_NUM
          invariant mapping == WithPoints(fp, before, i, nodes[i], j)
        {
          mapping := mapping[fp(PointName(i, j)) := nodes[i]];
        }
        assert nodes[..i + 1][..i] == nodes[..i];
      }
      assert nodes[..|nodes|] == nodes;
    }

    /** The node of the point nearest clockwise to the key's fingerprint. */
    method Get(key: string) returns (node: Node)
      requires mapping.Keys != {}
      ensures node == Owner(fp, mapping, key)
    {
      var hash := fp(key);
      var above := set x | x in mapping.Keys && hash <= x;
      if above == {} {
        node := mapping[Least(mapping.Keys)];
      } else {
        node := mapping[Least(above)];
      }
    }
  }

  /** Every key belongs to one of the nodes. */
  lemma OwnerIsANode<Node>(fp: Fingerprint, nodes: seq<Node>, key: string)
    requires nodes != []
    ensures Ring(fp, nodes).Keys != {} && Owner(fp, Ring(fp, nodes), key) in nodes
  {
    RingNonempty(fp, nodes);
    ValuesAreNodes(fp, nodes, Successor(Ring(fp, nodes).Keys, fp(key)));
  }

  lemma {:induction false} ValuesAreNodes<Node>(fp: Fingerprint, nodes: seq<Node>, h: Hash)
    requires h in Ring(fp, nodes)
    ensures Ring(fp, nodes)[h] in nodes
  {
    var last := |nodes| - 1;
    WithPointsAt(fp, Ring(fp, nodes[..last]), last, nodes[last], VIRTUAL_NODE_NUM, h);
    if !PointOf(fp, last, VIRTUAL_NODE_NUM, h) {
      ValuesAreNodes(fp, nodes[..last], h);
    }
  }

  /** Appending a node moves keys only to it, whatever points coincide: a key
      moves exactly if its nearest point is one of the new node's. */
  lemma AppendMovesOnlyToNew<Node>(fp: Fingerprint, nodes: seq<Node>, node: Node, key: string)
    requires nodes != []
    ensures Ring(fp, nodes).Keys != {} && Ring(fp, nodes + [node]).Keys != {}
    ensures var before, after := Ring(fp, nodes), Ring(fp, nodes + [node]);
      Owner(fp, after, key) ==
        if PointOf(fp, |nodes|, VIRTUAL_NODE_NUM, Successor(after.Keys, fp(key))) then node
        else Owner(fp, before, key)
  {
    var before, after := Ring(fp, nodes), Ring(fp, nodes + [node]);
    RingNonempty(fp, nodes);
    RingNonempty(fp, nodes + [node]);
    assert (nodes + [node])[..|nodes|] == nodes;
    var h := fp(key);
    var k := Successor(after.Keys, h);
    WithPointsAt(fp, before, |nodes|, node, VIRTUAL_NODE_NUM, k);
    if !PointOf(fp, |nodes|, VIRTUAL_NODE_NUM, k) {
      forall x | x in before
        ensures x in after
      {
        WithPointsAt(fp, before, |nodes|, node, VIRTUAL_NODE_NUM, x);
      }
      SuccessorUnique(before.Keys, h, k);
    }
  }
}
