/**
 hwloc topologies: flattening the object tree into one record per processing unit, and turning
 the records into a machine description.
 */
module Hwloc {
  import opened Collections
  import opened Topology
  import Text

  /** The object types the walk looks at; all others only pass attributes down. */
  datatype Kind = Package | NumaDomain | Core | ProcessingUnit | Other(name: string)

  datatype Obj = Obj(kind: Kind, osIndex: Option<Text.int64>, children: seq<Obj>)

  datatype PuRec = PuRec(pu: int, pkg: int, numa: int, core: int)

  function Deref(p: Option<int>, def: int): int {
    if p.Some? then p.value else def
  }

  // What the flattening means, from the tree alone ------------------------------------------------

  /** A processing unit that gets a record. */
  predicate IsPu(o: Obj) {
    o.kind.ProcessingUnit? && o.osIndex.Some? && o.osIndex.value >= 0
  }

  /** The cores passed in document order: how many, and the number the next one gets if it has no index. */
  datatype Counter = Counter(next: int, passed: nat)

  /** The counter after all of `o`. */
  ghost function NextCore(o: Obj, k: Counter): Counter
    decreases o, 0
  {
    NextCoreOf(o.children, |o.children|, Passed(o, k))
  }

  /** The counter inside `o`: a core without an index takes the next number, and later ones continue from it. */
  ghost function Passed(o: Obj, k: Counter): Counter {
    if o.kind.Core? then Counter(Text.Inc(Deref(o.osIndex, k.next)), k.passed + 1) else k
  }

  ghost function NextCoreOf(os: seq<Obj>, n: nat, k: Counter): Counter
    requires n <= |os|
    decreases os, n
  {
    if n == 0 then k else NextCore(os[n - 1], NextCoreOf(os, n - 1, k))
  }

  /**
   Where an object is: the path from the root down to it, the number of the innermost core it is in
   (-1 for none), and which of the document's cores that is, counting from one (0 for none).
   */
  datatype Place = Place(path: seq<Obj>, core: int, pos: nat)

  ghost function Below(above: Place, o: Obj, k: Counter): Place {
    if o.kind.Core? then Place(above.path + [o], Deref(o.osIndex, k.next), k.passed + 1)
    else Place(above.path + [o], above.core, above.pos)
  }

  /** The place of each unit that gets a record, in document order. */
  ghost function Places(o: Obj, above: Place, k: Counter): seq<Place>
    decreases o, 0
  {
    PlaceHere(o, above, k) + PlacesOf(o.children, |o.children|, Below(above, o, k), Passed(o, k))
  }

  ghost function PlaceHere(o: Obj, above: Place, k: Counter): seq<Place> {
    if IsPu(o) then [Below(above, o, k)] else []
  }

  ghost function PlacesOf(os: seq<Obj>, n: nat, above: Place, k: Counter): seq<Place>
    requires n <= |os|
    decreases os, n
  {
    if n == 0 then [] else PlacesOf(os, n - 1, above, k) + Places(os[n - 1], above, NextCoreOf(os, n - 1, k))
  }

  /** The index of the innermost object of that kind that has one, or -1. */
  ghost function NearestIndex(path: seq<Obj>, kind: Kind): int {
    if path == [] then -1
    else
      var o := path[|path| - 1];
      if o.kind == kind && o.osIndex.Some? then o.osIndex.value else NearestIndex(path[..|path| - 1], kind)
  }

  /** The record of the unit at a place: its index, its nearest package and node, its core's number. */
  ghost function RecordAt(at: Place): PuRec {
    PuRec(if at.path == [] then -1 else Deref(at.path[|at.path| - 1].osIndex, -1),
          NearestIndex(at.path, Package), NearestIndex(at.path, NumaDomain), at.core)
  }

  ghost function RecordsAt(places: seq<Place>): (r: seq<PuRec>)
    ensures |r| == |places| && forall k :: 0 <= k < |places| ==> r[k] == RecordAt(places[k])
  {
    seq(|places|, k requires 0 <= k < |places| => RecordAt(places[k]))
  }

  /** The attributes passed down are the ones the place determines. */
  ghost predicate Inherits(at: Place, pkg: int, numa: int, core: int) {
    && pkg == NearestIndex(at.path, Package) && numa == NearestIndex(at.path, NumaDomain)
    && core == at.core
  }

  const ROOT := Place([], -1, 0)
  const START := Counter(0, 0)

  /** The units of a document, each with its place. */
  ghost function UnitsOf(roots: seq<Obj>): seq<Place> {
    PlacesOf(roots, |roots|, ROOT, START)
  }

  // The walk ----------------------------------------------------------------------------------------

  class Walker {
    var nextCore: int
    var out: seq<PuRec>
    /** How many cores have been passed. */
    ghost var passed: nat

    ghost function At(): Counter
      reads this
    {
      Counter(nextCore, passed)
    }

    constructor ()
      ensures At() == START && out == []
    {
      nextCore, out, passed := 0, [], 0;
    }

    /** The switch on the object's type: the attributes its children inherit, and its own record. */
    method Enter(o: Obj, pkg: int, numa: int, core: int, ghost above: Place) returns (pkgN: int, numaN: int, coreN: int)
      requires Inherits(above, pkg, numa, core)
      modifies this
      ensures Inherits(Below(above, o, old(At())), pkgN, numaN, coreN) && At() == Passed(o, old(At()))
      ensures out == old(out) + RecordsAt(PlaceHere(o, above, old(At())))
    {
      pkgN, numaN, coreN := pkg, numa, core;
      EnterStep(above, o, At(), pkg, numa, core);
      if o.kind.Package? {
        pkgN := Deref(o.osIndex, pkgN);
      } else if o.kind.NumaDomain? {
        numaN := Deref(o.osIndex, numaN);
      } else if o.kind.Core? {
        coreN := Deref(o.osIndex, nextCore);
        nextCore, passed := Text.Inc(coreN), passed + 1;
      } else if o.kind.ProcessingUnit? {
        var pu := Deref(o.osIndex, -1);
        if pu >= 0 {
          out := out + [PuRec(pu, pkgN, numaN, coreN)];
        }
      }
    }

    /** Appends the record of every indexed processing unit at or below `o`, in document order. */
    method Walk(o: Obj, pkg: int, numa: int, core: int, ghost above: Place)
      requires Inherits(above, pkg, numa, core)
      modifies this
      ensures At() == NextCore(o, old(At()))
      ensures out == old(out) + RecordsAt(Places(o, above, old(At())))
      decreases o, 0
    {
      ghost var k, start := At(), out;
      var pkgN, numaN, coreN := Enter(o, pkg, numa, core, above);
      WalkAll(o.children, pkgN, numaN, coreN, Below(above, o, k));
      OwnThenChildren(start, o, above, k);
    }

    /** The loop over the children. */
    method WalkAll(os: seq<Obj>, pkg: int, numa: int, core: int, ghost above: Place)
      requires Inherits(above, pkg, numa, core)
      modifies this
      ensures At() == NextCoreOf(os, |os|, old(At()))
      ensures out == old(out) + RecordsAt(PlacesOf(os, |os|, above, old(At())))
      decreases os, 1
    {
      ghost var k, start := At(), out;
      assert start == start + RecordsAt([]);
      for i := 0 to |os|
        invariant At() == NextCoreOf(os, i, k)
        invariant out == start + RecordsAt(PlacesOf(os, i, above, k))
      {
        NextChild(out, start, os, i, above, k);
        Walk(os[i], pkg, numa, core, above);
      }
    }
  }

  /** The object's own record comes before those of its children. */
  lemma OwnThenChildren(start: seq<PuRec>, o: Obj, above: Place, k: Counter)
    ensures NextCore(o, k) == NextCoreOf(o.children, |o.children|, Passed(o, k))
    ensures (start + RecordsAt(PlaceHere(o, above, k))) + RecordsAt(PlacesOf(o.children, |o.children|, Below(above, o, k), Passed(o, k))) ==
            start + RecordsAt(Places(o, above, k))
  {
    RecordsConcat(PlaceHere(o, above, k), PlacesOf(o.children, |o.children|, Below(above, o, k), Passed(o, k)));
  }

  /** What the next child adds to the records. */
  lemma NextChild(out: seq<PuRec>, start: seq<PuRec>, os: seq<Obj>, i: nat, above: Place, k: Counter)
    requires i < |os| && out == start + RecordsAt(PlacesOf(os, i, above, k))
    ensures NextCoreOf(os, i + 1, k) == NextCore(os[i], NextCoreOf(os, i, k))
    ensures out + RecordsAt(Places(os[i], above, NextCoreOf(os, i, k))) == start + RecordsAt(PlacesOf(os, i + 1, above, k))
  {
    RecordsConcat(PlacesOf(os, i, above, k), Places(os[i], above, NextCoreOf(os, i, k)));
  }

  lemma RecordsConcat(p: seq<Place>, q: seq<Place>)
    ensures RecordsAt(p + q) == RecordsAt(p) + RecordsAt(q)
  {
  }

  /** How one more object changes the nearest indices. */
  lemma PathStep(above: seq<Obj>, o: Obj, kind: Kind)
    ensures NearestIndex(above + [o], kind) == if o.kind == kind then Deref(o.osIndex, NearestIndex(above, kind)) else NearestIndex(above, kind)
  {
    assert (above + [o])[..|above|] == above;
  }

  /** What the children of `o` inherit. */
  lemma EnterStep(above: Place, o: Obj, k: Counter, pkg: int, numa: int, core: int)
    requires Inherits(above, pkg, numa, core)
    ensures Inherits(Below(above, o, k), if o.kind.Package? then Deref(o.osIndex, pkg) else pkg,
                     if o.kind.NumaDomain? then Deref(o.osIndex, numa) else numa,
                     if o.kind.Core? then Deref(o.osIndex, k.next) else core)
  {
    PathStep(above.path, o, Package);
    PathStep(above.path, o, NumaDomain);
  }

  /** The loop over the top-level objects. */
  method Records(roots: seq<Obj>) returns (recs: seq<PuRec>)
    ensures recs == RecordsAt(UnitsOf(roots))
  {
    var w := new Walker();
    w.WalkAll(roots, -1, -1, -1, ROOT);
    recs := w.out;
  }

  // Records to machine --------------------------------------------------------------------------------

  function CpuOf(r: PuRec): Cpu {
    Cpu(r.pu, if r.pkg < 0 then 0 else r.pkg, if r.core < 0 then r.pu else r.core, r.numa, [r.pu])
  }

  /** The ids of the CPUs whose node is `node`, in list order. */
  function IdsOn(cpus: seq<Cpu>, node: int): seq<int> {
    IdsBy(cpus, NodeOf, node)
  }

  /** One node per non-negative NUMA index in use, by increasing index, listing its CPUs in order. */
  ghost predicate NodesOf(nodes: seq<NumaNode>, cpus: seq<Cpu>) {
    && StrictlySorted(NodeIds(nodes))
    && (forall node :: node in NodeIds(nodes) <==> node >= 0 && IdsOn(cpus, node) != [])
    && (forall n :: n in nodes ==> n.cpus == SortInts(IdsOn(cpus, n.id)) && n.distance == [])
  }

  predicate ByPu(a: PuRec, b: PuRec) {
    a.pu < b.pu
  }

  predicate ById(a: NumaNode, b: NumaNode) {
    a.id < b.id
  }

  /** What the machine says of a record's unit: a missing package counts as 0, a missing core as the unit itself. */
  ghost predicate Tells(c: Cpu, r: PuRec) {
    && c.id == r.pu && c.numaNode == r.numa && c.siblings == [r.pu]
    && c.packageId == (if r.pkg >= 0 then r.pkg else 0)
    && c.coreId == (if r.core >= 0 then r.core else r.pu)
  }

  method TopologyFromRecords(recs: seq<PuRec>) returns (r: Option<Machine>, ghost sorted: seq<PuRec>)
    ensures r.None? <==> recs == []
    ensures r.Some? ==> multiset(sorted) == multiset(recs) && SortedBy(ByPu, sorted)
    ensures r.Some? ==> |r.value.cpus| == |sorted| && forall k :: 0 <= k < |sorted| ==> r.value.cpus[k] == CpuOf(sorted[k])
    ensures r.Some? ==> forall k :: 0 <= k < |sorted| ==> Tells(r.value.cpus[k], sorted[k])
    ensures r.Some? ==> NodesOf(r.value.numaNodes, r.value.cpus)
  {
    sorted := [];
    if |recs| == 0 {
      return None, sorted;
    }
    var rs := SortSlice(recs, ByPu);
    sorted := rs;
    var cpus, numaMap := Tabulate(rs);
    var nodes := Nodes(cpus, numaMap);
    r := Some(Machine(cpus, nodes));
  }

  /** `numaMap` lists, per non-negative node in use, the CPUs seen so far. */
  ghost predicate Tabulated(numaMap: map<int, seq<int>>, cpus: seq<Cpu>) {
    && (forall node :: node >= 0 ==> Lookup(numaMap, node) == IdsOn(cpus, node))
    && (forall node :: node in numaMap ==> node >= 0 && numaMap[node] != [])
  }

  lemma TabulateStep(numaMap: map<int, seq<int>>, cpus: seq<Cpu>, c: Cpu)
    requires Tabulated(numaMap, cpus)
    ensures Tabulated(if c.numaNode >= 0 then numaMap[c.numaNode := Lookup(numaMap, c.numaNode) + [c.id]] else numaMap, cpus + [c])
  {
    var m := if c.numaNode >= 0 then numaMap[c.numaNode := Lookup(numaMap, c.numaNode) + [c.id]] else numaMap;
    forall node | node >= 0
      ensures Lookup(m, node) == IdsOn(cpus + [c], node)
    {
      assert Lookup(numaMap, node) == IdsBy(cpus, NodeOf, node);
      IdsBySnoc(cpus, c, NodeOf, node);
    }
  }

  method Tabulate(rs: seq<PuRec>) returns (cpus: seq<Cpu>, numaMap: map<int, seq<int>>)
    ensures |cpus| == |rs| && forall k :: 0 <= k < |rs| ==> cpus[k] == CpuOf(rs[k])
    ensures Tabulated(numaMap, cpus)
  {
    cpus, numaMap := [], map[];
    for i := 0 to |rs|
      invariant |cpus| == i && forall k :: 0 <= k < i ==> cpus[k] == CpuOf(rs[k])
      invariant Tabulated(numaMap, cpus)
    {
      var r := rs[i];
      TabulateStep(numaMap, cpus, CpuOf(r));
      cpus := cpus + [CpuOf(r)];
      if r.numa >= 0 {
        numaMap := numaMap[r.numa := Lookup(numaMap, r.numa) + [r.pu]];
      }
    }
  }

  ghost predicate Entries(nodes: seq<NumaNode>, numaMap: map<int, seq<int>>) {
    forall n :: n in nodes ==> n.id in numaMap && n.cpus == SortInts(numaMap[n.id]) && n.distance == []
  }

  /** The loop over the map, in arbitrary order, and the final sort by id. */
  method Nodes(ghost cpus: seq<Cpu>, numaMap: map<int, seq<int>>) returns (nodes: seq<NumaNode>)
    requires Tabulated(numaMap, cpus)
    ensures NodesOf(nodes, cpus)
  {
    var built := Build(numaMap);
    nodes := SortSlice(built, ById);
    SortedNodes(built, nodes);
    forall n | n in nodes
      ensures n.cpus == SortInts(IdsOn(cpus, n.id))
    {
      assert Lookup(numaMap, n.id) == IdsOn(cpus, n.id);
    }
    forall node: int
      ensures node in NodeIds(nodes) <==> node >= 0 && IdsOn(cpus, node) != []
    {
      assert node in ToSet(NodeIds(nodes)) <==> node in NodeIds(nodes);
      assert node >= 0 ==> Lookup(numaMap, node) == IdsOn(cpus, node);
    }
  }

  lemma NodeIdsSnoc(nodes: seq<NumaNode>, n: NumaNode)
    ensures ToSet(NodeIds(nodes + [n])) == ToSet(NodeIds(nodes)) + {n.id}
    ensures Distinct(NodeIds(nodes)) && n.id !in ToSet(NodeIds(nodes)) ==> Distinct(NodeIds(nodes + [n]))
  {
    assert NodeIds(nodes + [n]) == NodeIds(nodes) + [n.id];
  }

  method Build(numaMap: map<int, seq<int>>) returns (built: seq<NumaNode>)
    ensures Distinct(NodeIds(built)) && ToSet(NodeIds(built)) == numaMap.Keys && Entries(built, numaMap)
  {
    built := [];
    var unseen := numaMap.Keys;
    while unseen != {}
      invariant unseen <= numaMap.Keys && Entries(built, numaMap)
      invariant Distinct(NodeIds(built)) && ToSet(NodeIds(built)) == numaMap.Keys - unseen
      decreases |unseen|
    {
      var nid := AnyKey(unseen);
      unseen := unseen - {nid};
      var cp := Ints(numaMap[nid]);
      var n := NumaNode(nid, cp, []);
      NodeIdsSnoc(built, n);
      built := built + [n];
    }
  }

  /** Sorting nodes with distinct ids keeps the nodes and puts the ids in increasing order. */
  lemma SortedNodes(built: seq<NumaNode>, nodes: seq<NumaNode>)
    requires multiset(nodes) == multiset(built) && SortedBy(ById, nodes) && Distinct(NodeIds(built))
    ensures forall n :: n in nodes <==> n in built
    ensures StrictlySorted(NodeIds(nodes)) && ToSet(NodeIds(nodes)) == ToSet(NodeIds(built))
  {
    forall n: NumaNode
      ensures n in nodes <==> n in built
    {
      assert n in multiset(nodes) <==> n in multiset(built);
    }
    assert |nodes| == |multiset(nodes)| == |built|;
    SameNodeIds(nodes, built);
    SameNodeIds(built, nodes);
    assert ToSet(NodeIds(nodes)) == ToSet(NodeIds(built));
    ToSetCardinality(NodeIds(built));
    ToSetCardinality(NodeIds(nodes));
    forall i, j | 0 <= i < j < |nodes|
      ensures NodeIds(nodes)[i] < NodeIds(nodes)[j]
    {
      assert !ById(nodes[j], nodes[i]);
    }
  }
}
