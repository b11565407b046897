/**
 Pipeline nodes and the graph they describe: what it means for a node list to be a
 well-formed DAG, independently of any algorithm that decides it.
 */
module Dag {
  import opened Collections

  datatype Node = Node(id: string, cmd: seq<string>, cpus: int, numaNode: Option<int>, dependsOn: seq<string>)

  function Ids(nodes: seq<Node>): set<string> {
    set n | n in nodes :: n.id
  }

  ghost predicate DistinctIds(nodes: seq<Node>) {
    forall i, j :: 0 <= i < j < |nodes| ==> nodes[i].id != nodes[j].id
  }

  /** Some node called `a` lists `b` among its dependencies. */
  ghost predicate Depends(nodes: seq<Node>, a: string, b: string) {
    exists n :: n in nodes && n.id == a && b in n.dependsOn
  }

  ghost predicate ClosedDeps(nodes: seq<Node>) {
    forall n, d :: n in nodes && d in n.dependsOn ==> d in Ids(nodes)
  }

  /** Each element of `p` depends on the next one. */
  ghost predicate IsChain(nodes: seq<Node>, p: seq<string>) {
    forall i :: 0 <= i < |p| - 1 ==> Depends(nodes, p[i], p[i + 1])
  }

  ghost predicate IsCycle(nodes: seq<Node>, p: seq<string>) {
    |p| >= 2 && p[0] == p[|p| - 1] && IsChain(nodes, p)
  }

  ghost predicate Acyclic(nodes: seq<Node>) {
    forall p :: !IsCycle(nodes, p)
  }

  ghost predicate WellFormed(nodes: seq<Node>) {
    DistinctIds(nodes) && ClosedDeps(nodes) && Acyclic(nodes)
  }

  /** The dependencies of every element come earlier in the list. */
  ghost predicate DepsFirst(order: seq<Node>) {
    forall k, d :: 0 <= k < |order| && d in order[k].dependsOn ==> d in Ids(order[..k])
  }

  ghost predicate IsLinearExtension(nodes: seq<Node>, order: seq<Node>) {
    multiset(order) == multiset(nodes) && DepsFirst(order)
  }

  function IdSeq(nodes: seq<Node>): (r: seq<string>)
    ensures |r| == |nodes|
    ensures forall i :: 0 <= i < |nodes| ==> r[i] == nodes[i].id
  {
    seq(|nodes|, i requires 0 <= i < |nodes| => nodes[i].id)
  }

  /** What one more node does to the ids of a prefix. */
  lemma OneMoreNode(nodes: seq<Node>, i: nat)
    requires i < |nodes|
    ensures Ids(nodes[..i + 1]) == Ids(nodes[..i]) + {nodes[i].id}
    ensures DistinctIds(nodes[..i + 1]) <==> DistinctIds(nodes[..i]) && nodes[i].id !in Ids(nodes[..i])
  {
    var front, all := nodes[..i], nodes[..i + 1];
    assert all == front + [nodes[i]];
    if nodes[i].id in Ids(front) {
      var k :| 0 <= k < i && front[k].id == nodes[i].id;
      assert all[k].id == all[i].id;
    } else {
      assert forall k :: 0 <= k < i ==> all[k] == front[k] && front[k] in front;
    }
  }

  lemma IdSeqSet(nodes: seq<Node>)
    ensures ToSet(IdSeq(nodes)) == Ids(nodes)
    ensures |Ids(nodes)| <= |nodes|
    ensures |Ids(nodes)| == |nodes| <==> DistinctIds(nodes)
  {
    ToSetCardinality(IdSeq(nodes));
    forall x | x in Ids(nodes)
      ensures x in ToSet(IdSeq(nodes))
    {
      var n :| n in nodes && n.id == x;
      var i :| 0 <= i < |nodes| && nodes[i] == n;
      assert IdSeq(nodes)[i] == x;
    }
    assert DistinctIds(nodes) <==> Distinct(IdSeq(nodes)) by {
      assert forall i :: 0 <= i < |nodes| ==> IdSeq(nodes)[i] == nodes[i].id;
    }
  }

  // Order implies acyclic -----------------------------------------------------------

  lemma DepIsEarlier(order: seq<Node>, k: nat, a: string, b: string) returns (m: nat)
    requires DistinctIds(order) && DepsFirst(order) && Depends(order, a, b)
    requires k < |order| && order[k].id == a
    ensures m < k && order[m].id == b
  {
    var n :| n in order && n.id == a && b in n.dependsOn;
    assert n == order[k];
    var n' :| n' in order[..k] && n'.id == b;
    m :| 0 <= m < k && order[m] == n';
  }

  lemma ChainSuffix(nodes: seq<Node>, p: seq<string>, i: nat)
    requires i <= |p| && IsChain(nodes, p)
    ensures IsChain(nodes, p[i..])
  {
    forall j | 0 <= j < |p[i..]| - 1
      ensures Depends(nodes, p[i..][j], p[i..][j + 1])
    {
      assert Depends(nodes, p[i + j], p[i + j + 1]);
    }
  }

  /** Along a chain, positions in a dependency-respecting order strictly decrease. */
  lemma {:induction false} ChainDescends(order: seq<Node>, p: seq<string>, k: nat) returns (m: nat)
    requires DistinctIds(order) && DepsFirst(order) && IsChain(order, p)
    requires |p| >= 2 && k < |order| && order[k].id == p[0]
    ensures m < k && order[m].id == p[|p| - 1]
    decreases |p|
  {
    m := DepIsEarlier(order, k, p[0], p[1]);
    if |p| > 2 {
      ChainSuffix(order, p, 1);
      m := ChainDescends(order, p[1..], m);
    }
  }

  lemma SameMembers(a: seq<Node>, b: seq<Node>)
    requires forall n :: n in a <==> n in b
    ensures Ids(a) == Ids(b)
    ensures forall p :: IsCycle(a, p) <==> IsCycle(b, p)
    ensures ClosedDeps(a) <==> ClosedDeps(b)
    ensures Acyclic(a) <==> Acyclic(b)
  {
    assert Ids(a) == Ids(b);
    forall x, y
      ensures Depends(a, x, y) <==> Depends(b, x, y)
    {
    }
    forall p
      ensures IsCycle(a, p) <==> IsCycle(b, p)
    {
    }
  }

  lemma OrderIsWellFormed(order: seq<Node>)
    requires DistinctIds(order) && DepsFirst(order)
    ensures WellFormed(order)
  {
    forall p | IsCycle(order, p)
      ensures false
    {
      assert Depends(order, p[0], p[1]);
      var n :| n in order && n.id == p[0] && p[1] in n.dependsOn;
      var k :| 0 <= k < |order| && order[k] == n;
      var m := ChainDescends(order, p, k);
    }
    forall n, d | n in order && d in n.dependsOn
      ensures d in Ids(order)
    {
      var k :| 0 <= k < |order| && order[k] == n;
      var n' :| n' in order[..k] && n'.id == d;
      assert n' in order;
    }
  }

  // A finite set closed under "has a dependency in the set" contains a cycle ---------

  ghost predicate HasDepIn(nodes: seq<Node>, u: set<string>, x: string) {
    exists y :: y in u && Depends(nodes, x, y)
  }

  ghost predicate NoMinimal(nodes: seq<Node>, u: set<string>) {
    forall x {:trigger HasDepIn(nodes, u, x)} :: x in u ==> HasDepIn(nodes, u, x)
  }

  /** A chain whose last member depends on an earlier one closes into a cycle. */
  lemma CloseCycle(nodes: seq<Node>, p: seq<string>, i: nat) returns (c: seq<string>)
    requires i < |p| && IsChain(nodes, p) && Depends(nodes, p[|p| - 1], p[i])
    ensures IsCycle(nodes, c) && ToSet(c) <= ToSet(p)
  {
    c := p[i..] + [p[i]];
    forall j | 0 <= j < |c| - 1
      ensures Depends(nodes, c[j], c[j + 1])
    {
      if j < |c| - 2 {
        assert Depends(nodes, p[i + j], p[i + j + 1]);
      }
    }
    forall x | x in c
      ensures x in p
    {
    }
  }

  lemma LengthenChain(nodes: seq<Node>, p: seq<string>, y: string)
    requires |p| >= 1 && IsChain(nodes, p) && Distinct(p) && y !in p && Depends(nodes, p[|p| - 1], y)
    ensures IsChain(nodes, p + [y]) && Distinct(p + [y]) && ToSet(p + [y]) == ToSet(p) + {y}
  {
    var q := p + [y];
    forall j | 0 <= j < |q| - 1
      ensures Depends(nodes, q[j], q[j + 1])
    {
      if j < |p| - 1 {
        assert Depends(nodes, p[j], p[j + 1]);
      }
    }
  }

  lemma {:induction false} ExtendToCycle(nodes: seq<Node>, u: set<string>, p: seq<string>) returns (c: seq<string>)
    requires NoMinimal(nodes, u)
    requires |p| >= 1 && IsChain(nodes, p) && Distinct(p) && ToSet(p) <= u
    ensures IsCycle(nodes, c) && ToSet(c) <= u
    decreases |u| - |p|
  {
    var last := p[|p| - 1];
    assert last in ToSet(p);
    assert HasDepIn(nodes, u, last);
    var y :| y in u && Depends(nodes, last, y);
    if y in p {
      var i :| 0 <= i < |p| && p[i] == y;
      c := CloseCycle(nodes, p, i);
    } else {
      LengthenChain(nodes, p, y);
      ToSetCardinality(p + [y]);
      SubsetCardinality(ToSet(p + [y]), u);
      c := ExtendToCycle(nodes, u, p + [y]);
    }
  }

  lemma NoMinimalMeansCycle(nodes: seq<Node>, u: set<string>) returns (c: seq<string>)
    requires u != {}
    requires NoMinimal(nodes, u)
    ensures IsCycle(nodes, c) && ToSet(c) <= u
  {
    var x :| x in u;
    c := ExtendToCycle(nodes, u, [x]);
  }

  /** Same length, same ids, nothing repeated: then `a` is a permutation of `b`. */
  lemma DistinctNodesPermute(a: seq<Node>, b: seq<Node>)
    requires DistinctIds(a) && DistinctIds(b) && |a| == |b|
    requires forall n :: n in a ==> n in b
    ensures multiset(a) == multiset(b)
    ensures forall n :: n in a <==> n in b
  {
    ToSetCardinality(a);
    ToSetCardinality(b);
    SubsetCardinality(ToSet(a), ToSet(b));
    DistinctPermutation(a, b);
    forall n | n in b
      ensures n in a
    {
      assert n in ToSet(b);
    }
  }
}
