/**
 A snapshot of the machine's CPU and NUMA layout.
 */
module Topology {
  import opened Collections

  datatype Cpu = Cpu(id: int, packageId: int, coreId: int, numaNode: int, siblings: seq<int>)

  datatype NumaNode = NumaNode(id: int, cpus: seq<int>, distance: seq<int>)

  datatype Machine = Machine(cpus: seq<Cpu>, numaNodes: seq<NumaNode>)

  ghost predicate UniqueCpuIds(t: Machine) {
    forall i, j :: 0 <= i < j < |t.cpus| ==> t.cpus[i].id != t.cpus[j].id
  }

  /** CPU `id` is listed and its NUMA node is `node`. */
  ghost predicate OnNode(t: Machine, id: int, node: int) {
    exists c :: c in t.cpus && c.id == id && c.numaNode == node
  }

  /** The node lists say the same as the per-CPU records, each node once and each CPU once. */
  ghost predicate Consistent(t: Machine) {
    && UniqueCpuIds(t)
    && (forall i, j :: 0 <= i < j < |t.numaNodes| ==> t.numaNodes[i].id != t.numaNodes[j].id)
    && (forall n :: n in t.numaNodes ==> 0 <= n.id && Distinct(n.cpus))
    && (forall n, x :: n in t.numaNodes && x in n.cpus ==> OnNode(t, x, n.id))
  }

  function CpuIds(cpus: seq<Cpu>): (r: seq<int>)
    ensures |r| == |cpus| && forall i :: 0 <= i < |cpus| ==> r[i] == cpus[i].id
  {
    seq(|cpus|, i requires 0 <= i < |cpus| => cpus[i].id)
  }

  function NodeIds(nodes: seq<NumaNode>): (r: seq<int>)
    ensures |r| == |nodes| && forall i :: 0 <= i < |nodes| ==> r[i] == nodes[i].id
  {
    seq(|nodes|, i requires 0 <= i < |nodes| => nodes[i].id)
  }

  lemma SameNodeIds(a: seq<NumaNode>, b: seq<NumaNode>)
    requires forall n :: n in a ==> n in b
    ensures ToSet(NodeIds(a)) <= ToSet(NodeIds(b))
  {
    forall x | x in NodeIds(a)
      ensures x in NodeIds(b)
    {
      var i :| 0 <= i < |a| && NodeIds(a)[i] == x;
      assert a[i] in a;
      var j :| 0 <= j < |b| && b[j] == a[i];
      assert NodeIds(b)[j] == x;
    }
  }

  // CPUs grouped by package or by node ------------------------------------------------------------

  function PackageOf(c: Cpu): int {
    c.packageId
  }

  function NodeOf(c: Cpu): int {
    c.numaNode
  }

  /** The ids of the CPUs whose key is `v`, in list order. */
  function IdsBy(cpus: seq<Cpu>, key: Cpu -> int, v: int): seq<int> {
    if cpus == [] then []
    else
      var c := cpus[|cpus| - 1];
      IdsBy(cpus[..|cpus| - 1], key, v) + if key(c) == v then [c.id] else []
  }

  /** The ids of the CPUs that pass a test, in list order. */
  function IdsWhere(cpus: seq<Cpu>, keep: Cpu -> bool): seq<int> {
    if cpus == [] then []
    else
      var c := cpus[|cpus| - 1];
      IdsWhere(cpus[..|cpus| - 1], keep) + if keep(c) then [c.id] else []
  }

  /** The groups of several keys taken together. */
  ghost function Grouped(cpus: seq<Cpu>, key: Cpu -> int, vs: seq<int>): multiset<int> {
    if vs == [] then multiset{} else Grouped(cpus, key, vs[..|vs| - 1]) + multiset(IdsBy(cpus, key, vs[|vs| - 1]))
  }

  lemma IdsBySnoc(cpus: seq<Cpu>, c: Cpu, key: Cpu -> int, v: int)
    ensures IdsBy(cpus + [c], key, v) == IdsBy(cpus, key, v) + if key(c) == v then [c.id] else []
  {
    assert (cpus + [c])[..|cpus|] == cpus;
  }

  lemma {:induction false} IdsByMembers(cpus: seq<Cpu>, key: Cpu -> int, v: int, x: int)
    ensures x in IdsBy(cpus, key, v) <==> exists k :: 0 <= k < |cpus| && cpus[k].id == x && key(cpus[k]) == v
  {
    if cpus != [] {
      var front := cpus[..|cpus| - 1];
      IdsByMembers(front, key, v, x);
      assert forall k :: 0 <= k < |front| ==> front[k] == cpus[k];
    }
  }

  lemma {:induction false} GroupedSnoc(cpus: seq<Cpu>, c: Cpu, key: Cpu -> int, vs: seq<int>)
    requires Distinct(vs)
    ensures Grouped(cpus + [c], key, vs) == Grouped(cpus, key, vs) + if key(c) in vs then multiset{c.id} else multiset{}
  {
    if vs != [] {
      var front, last := vs[..|vs| - 1], vs[|vs| - 1];
      assert vs == front + [last];
      GroupedSnoc(cpus, c, key, front);
      IdsBySnoc(cpus, c, key, last);
    }
  }

  lemma {:induction false} GroupedEmpty(key: Cpu -> int, vs: seq<int>)
    ensures Grouped([], key, vs) == multiset{}
  {
    if vs != [] {
      GroupedEmpty(key, vs[..|vs| - 1]);
    }
  }

  /** Grouping by distinct keys neither loses nor repeats a CPU whose key is among them. */
  lemma {:induction false} GroupedIsWhere(cpus: seq<Cpu>, key: Cpu -> int, vs: seq<int>, keep: Cpu -> bool)
    requires Distinct(vs) && forall k :: 0 <= k < |cpus| ==> (keep(cpus[k]) <==> key(cpus[k]) in vs)
    ensures Grouped(cpus, key, vs) == multiset(IdsWhere(cpus, keep))
  {
    if cpus == [] {
      GroupedEmpty(key, vs);
    } else {
      var front, c := cpus[..|cpus| - 1], cpus[|cpus| - 1];
      assert cpus == front + [c];
      GroupedIsWhere(front, key, vs, keep);
      GroupedSnoc(front, c, key, vs);
    }
  }
}
