/**
 `BuildClusterHints`: per-socket and per-NUMA-node summaries of a machine.
 */
module Hints {
  import opened Collections
  import opened Topology
  import opened CpuRanges
  import CpuList

  datatype SocketSummary = SocketSummary(packageId: int, logicalCpus: int, physicalCores: int, cpuList: string)

  datatype NumaSummary = NumaSummary(nodeId: int, logicalCpus: int, cpuList: string)

  datatype ClusterHints = ClusterHints(
    sourceUsed: string, logicalCpus: int, physicalCoresTotal: int, socketCount: int, numaNodeCount: int,
    sockets: seq<SocketSummary>, numaNodes: seq<NumaSummary>,
    maxLogicalPerSocket: int, maxLogicalPerNumaNode: int, minLogicalPerNumaNode: int,
    suggestedCpusPerTask: int, firstSocketCpuList: string, makeJWholeNode: int, makeJPerSocketCore: seq<int>)

  /** The hints for a missing topology: nothing but the source label. */
  function NoHints(source: string): ClusterHints {
    ClusterHints(source, 0, 0, 0, 0, [], [], 0, 0, 0, 0, "", 0, [])
  }

  // What the summaries count --------------------------------------------------------------------

  function Packages(cpus: seq<Cpu>): (r: seq<int>)
    ensures |r| == |cpus| && forall i :: 0 <= i < |cpus| ==> r[i] == cpus[i].packageId
  {
    seq(|cpus|, i requires 0 <= i < |cpus| => cpus[i].packageId)
  }

  /** The ids of the CPUs in a package, in list order. */
  function IdsIn(cpus: seq<Cpu>, pkg: int): seq<int> {
    IdsBy(cpus, PackageOf, pkg)
  }

  /** The distinct (package, core) pairs. */
  function CoreKeys(cpus: seq<Cpu>): set<(int, int)> {
    set i | 0 <= i < |cpus| :: (cpus[i].packageId, cpus[i].coreId)
  }

  function CoresIn(keys: set<(int, int)>, pkg: int): set<(int, int)> {
    set k | k in keys && k.0 == pkg
  }

  ghost function SocketOf(cpus: seq<Cpu>, pkg: int): SocketSummary {
    SocketSummary(pkg, |IdsIn(cpus, pkg)|, |CoresIn(CoreKeys(cpus), pkg)|, CpuListText(SortInts(IdsIn(cpus, pkg))))
  }

  /** One summary per package, in that order. */
  ghost predicate SummarizesSockets(sockets: seq<SocketSummary>, cpus: seq<Cpu>, pkgs: seq<int>) {
    |sockets| == |pkgs| && forall i :: 0 <= i < |pkgs| ==> sockets[i] == SocketOf(cpus, pkgs[i])
  }

  ghost function NumaOf(n: NumaNode): NumaSummary {
    NumaSummary(n.id, |n.cpus|, CpuListText(SortInts(n.cpus)))
  }

  ghost predicate SummarizesNodes(r: seq<NumaSummary>, nodes: seq<NumaNode>) {
    |r| == |nodes| && forall i :: 0 <= i < |nodes| ==> r[i] == NumaOf(nodes[i])
  }

  /** `m` is the largest of the sizes, or 0 if there are none. */
  ghost predicate IsMax(sizes: seq<int>, m: int) {
    (forall i :: 0 <= i < |sizes| ==> sizes[i] <= m) && if sizes == [] then m == 0 else m in sizes
  }

  ghost predicate IsMin(sizes: seq<int>, m: int) {
    (forall i :: 0 <= i < |sizes| ==> m <= sizes[i]) && if sizes == [] then m == 0 else m in sizes
  }

  function Logical(sockets: seq<SocketSummary>): (r: seq<int>)
    ensures |r| == |sockets| && forall i :: 0 <= i < |sockets| ==> r[i] == sockets[i].logicalCpus
  {
    seq(|sockets|, i requires 0 <= i < |sockets| => sockets[i].logicalCpus)
  }

  function Physical(sockets: seq<SocketSummary>): (r: seq<int>)
    ensures |r| == |sockets| && forall i :: 0 <= i < |sockets| ==> r[i] == sockets[i].physicalCores
  {
    seq(|sockets|, i requires 0 <= i < |sockets| => sockets[i].physicalCores)
  }

  function Sizes(nodes: seq<NumaNode>): (r: seq<int>)
    ensures |r| == |nodes| && forall i :: 0 <= i < |nodes| ==> r[i] == |nodes[i].cpus|
  {
    seq(|nodes|, i requires 0 <= i < |nodes| => |nodes[i].cpus|)
  }

  /** Everything the report says, in terms of the machine. */
  ghost predicate Reports(h: ClusterHints, t: Machine) {
    var pkgs := SortedUniq(Packages(t.cpus));
    && h.logicalCpus == h.makeJWholeNode == |t.cpus|
    && h.physicalCoresTotal == |CoreKeys(t.cpus)|
    && h.socketCount == |pkgs| && h.numaNodeCount == |t.numaNodes|
    && SummarizesSockets(h.sockets, t.cpus, pkgs) && SummarizesNodes(h.numaNodes, t.numaNodes)
    && IsMax(Logical(h.sockets), h.maxLogicalPerSocket)
    && (if t.numaNodes == [] then h.maxLogicalPerNumaNode == h.minLogicalPerNumaNode == |t.cpus|
        else IsMax(Sizes(t.numaNodes), h.maxLogicalPerNumaNode) && IsMin(Sizes(t.numaNodes), h.minLogicalPerNumaNode))
    && h.suggestedCpusPerTask == (if h.maxLogicalPerSocket <= 0 then |t.cpus| else h.maxLogicalPerSocket)
    && h.firstSocketCpuList == (if h.sockets == [] then "" else h.sockets[0].cpuList)
    && h.makeJPerSocketCore == Physical(h.sockets)
  }

  // The code -------------------------------------------------------------------------------------

  function Count(m: map<int, int>, k: int): int {
    if k in m then m[k] else 0
  }

  /** `for id := range seen`: each key once, in whatever order the map yields them. */
  method Keys(seen: set<int>) returns (ids: seq<int>)
    ensures Distinct(ids) && ToSet(ids) == seen
  {
    ids := [];
    var left := seen;
    while left != {}
      invariant left <= seen && Distinct(ids) && ToSet(ids) == seen - left
      decreases |left|
    {
      var id := AnyKey(left);
      assert id !in ToSet(ids);
      assert ToSet(ids + [id]) == ToSet(ids) + {id};
      ids := ids + [id];
      left := left - {id};
    }
  }

  /** `PackageIDs`: the distinct package ids, from a map in arbitrary order, then sorted. */
  method PackageIDs(t: Machine) returns (r: seq<int>)
    ensures r == SortedUniq(Packages(t.cpus))
  {
    var seen: set<int> := {};
    for i := 0 to |t.cpus|
      invariant seen == ToSet(Packages(t.cpus)[..i])
    {
      assert Packages(t.cpus)[..i + 1] == Packages(t.cpus)[..i] + [t.cpus[i].packageId];
      seen := seen + {t.cpus[i].packageId};
    }
    assert Packages(t.cpus)[..|t.cpus|] == Packages(t.cpus);
    var ids := Keys(seen);
    SortDistinct(ids);
    r := Ints(ids);
    assert ToSet(r) == ToSet(SortedUniq(Packages(t.cpus)));
    StrictlySortedUnique(r, SortedUniq(Packages(t.cpus)));
  }

  lemma SnocCpu(cpus: seq<Cpu>, c: Cpu)
    ensures CoreKeys(cpus + [c]) == CoreKeys(cpus) + {(c.packageId, c.coreId)}
  {
    var all := cpus + [c];
    assert all[|cpus|] == c;
    assert forall i :: 0 <= i < |cpus| ==> all[i] == cpus[i];
  }

  /** `pkgCpus` lists, per package, the CPUs seen so far. */
  ghost predicate Tallied(pkgCpus: map<int, seq<int>>, cpus: seq<Cpu>) {
    forall pkg :: Lookup(pkgCpus, pkg) == IdsIn(cpus, pkg)
  }

  lemma TallyStep(pkgCpus: map<int, seq<int>>, cpus: seq<Cpu>, c: Cpu)
    requires Tallied(pkgCpus, cpus)
    ensures Tallied(pkgCpus[c.packageId := Lookup(pkgCpus, c.packageId) + [c.id]], cpus + [c])
  {
    var m := pkgCpus[c.packageId := Lookup(pkgCpus, c.packageId) + [c.id]];
    forall pkg: int
      ensures Lookup(m, pkg) == IdsIn(cpus + [c], pkg)
    {
      assert Lookup(pkgCpus, pkg) == IdsBy(cpus, PackageOf, pkg);
      IdsBySnoc(cpus, c, PackageOf, pkg);
    }
  }

  /** The first pass over the CPUs. */
  method Tally(cpus: seq<Cpu>) returns (pkgCpus: map<int, seq<int>>, coreSeen: set<(int, int)>)
    ensures coreSeen == CoreKeys(cpus) && Tallied(pkgCpus, cpus)
  {
    pkgCpus, coreSeen := map[], {};
    for i := 0 to |cpus|
      invariant coreSeen == CoreKeys(cpus[..i]) && Tallied(pkgCpus, cpus[..i])
    {
      var c := cpus[i];
      assert cpus[..i + 1] == cpus[..i] + [c];
      TallyStep(pkgCpus, cpus[..i], c);
      SnocCpu(cpus[..i], c);
      pkgCpus := pkgCpus[c.packageId := Lookup(pkgCpus, c.packageId) + [c.id]];
      coreSeen := coreSeen + {(c.packageId, c.coreId)};
    }
    assert cpus[..|cpus|] == cpus;
  }

  lemma CoresInStep(keys: set<(int, int)>, k: (int, int), pkg: int)
    requires k !in keys
    ensures |CoresIn(keys + {k}, pkg)| == |CoresIn(keys, pkg)| + if k.0 == pkg then 1 else 0
  {
    if k.0 == pkg {
      assert CoresIn(keys + {k}, pkg) == CoresIn(keys, pkg) + {k};
    } else {
      assert CoresIn(keys + {k}, pkg) == CoresIn(keys, pkg);
    }
  }

  method AnyPair(keys: set<(int, int)>) returns (k: (int, int))
    requires keys != {}
    ensures k in keys
  {
    ghost var w: (int, int) := Member(keys);
    assert w in keys;
    k :| k in keys;
  }

  /** Physical cores per package, counted over the core set in arbitrary order. */
  method CountCores(coreSeen: set<(int, int)>) returns (pkgPhy: map<int, int>)
    ensures forall pkg :: Count(pkgPhy, pkg) == |CoresIn(coreSeen, pkg)|
  {
    pkgPhy := map[];
    var done: set<(int, int)> := {};
    assert forall pkg :: CoresIn(done, pkg) == {};
    while done != coreSeen
      invariant done <= coreSeen
      invariant forall pkg :: Count(pkgPhy, pkg) == |CoresIn(done, pkg)|
      decreases |coreSeen - done|
    {
      SubsetCardinality(done, coreSeen);
      assert coreSeen == done + (coreSeen - done);
      var ck := AnyPair(coreSeen - done);
      forall pkg: int
        ensures |CoresIn(done + {ck}, pkg)| == |CoresIn(done, pkg)| + if ck.0 == pkg then 1 else 0
      {
        CoresInStep(done, ck, pkg);
      }
      OneFewerLeft(coreSeen, done, ck);
      pkgPhy := pkgPhy[ck.0 := Count(pkgPhy, ck.0) + 1];
      done := done + {ck};
    }
  }

  /** One turn of the socket loop. */
  method OneSocket(ghost cpus: seq<Cpu>, pkg: int, ids: seq<int>, phy: int) returns (x: SocketSummary)
    requires ids == IdsIn(cpus, pkg) && phy == |CoresIn(CoreKeys(cpus), pkg)|
    ensures x == SocketOf(cpus, pkg)
  {
    var sorted := Ints(ids);
    var text := CpuList.FormatCPUList(sorted);
    x := SocketSummary(pkg, |sorted|, phy, text);
  }

  lemma AppendSocket(sockets: seq<SocketSummary>, cpus: seq<Cpu>, pkgs: seq<int>, i: nat, x: SocketSummary)
    requires i < |pkgs| && SummarizesSockets(sockets, cpus, pkgs[..i]) && x == SocketOf(cpus, pkgs[i])
    ensures SummarizesSockets(sockets + [x], cpus, pkgs[..i + 1])
    ensures Logical(sockets + [x]) == Logical(sockets) + [x.logicalCpus] && x.logicalCpus >= 0
  {
    forall k | 0 <= k < i + 1
      ensures (sockets + [x])[k] == SocketOf(cpus, pkgs[..i + 1][k])
    {
      assert k < i ==> pkgs[..i][k] == pkgs[k];
    }
  }

  method Sockets(ghost cpus: seq<Cpu>, pkgs: seq<int>, pkgCpus: map<int, seq<int>>, pkgPhy: map<int, int>)
    returns (sockets: seq<SocketSummary>, most: int)
    requires Tallied(pkgCpus, cpus)
    requires forall pkg :: Count(pkgPhy, pkg) == |CoresIn(CoreKeys(cpus), pkg)|
    ensures SummarizesSockets(sockets, cpus, pkgs) && IsMax(Logical(sockets), most)
  {
    sockets, most := [], 0;
    for i := 0 to |pkgs|
      invariant SummarizesSockets(sockets, cpus, pkgs[..i])
      invariant IsMax(Logical(sockets), most)
    {
      assert Lookup(pkgCpus, pkgs[i]) == IdsIn(cpus, pkgs[i]);
      var x := OneSocket(cpus, pkgs[i], Lookup(pkgCpus, pkgs[i]), Count(pkgPhy, pkgs[i]));
      AppendSocket(sockets, cpus, pkgs, i, x);
      MaxSnoc(Logical(sockets), x.logicalCpus, most);
      sockets := sockets + [x];
      if x.logicalCpus > most {
        most := x.logicalCpus;
      }
    }
    assert pkgs[..|pkgs|] == pkgs;
  }

  lemma MaxSnoc(sizes: seq<int>, k: int, m: int)
    requires k >= 0 && IsMax(sizes, m)
    ensures IsMax(sizes + [k], if k > m then k else m)
  {
    var all := sizes + [k];
    assert all[|sizes|] == k;
    assert forall i :: 0 <= i < |sizes| ==> all[i] == sizes[i];
  }

  lemma FirstOrBetter(sizes: seq<int>, k: int, most: int, least: int)
    requires k >= 0 && IsMax(sizes, most) && IsMin(sizes, least)
    ensures IsMax(sizes + [k], if sizes == [] || k > most then k else most)
    ensures IsMin(sizes + [k], if sizes == [] || k < least then k else least)
  {
    var all := sizes + [k];
    assert all[|sizes|] == k;
    assert forall i :: 0 <= i < |sizes| ==> all[i] == sizes[i];
  }

  method OneNode(n: NumaNode) returns (x: NumaSummary)
    ensures x == NumaOf(n)
  {
    var cp := Ints(n.cpus);
    var text := CpuList.FormatCPUList(cp);
    x := NumaSummary(n.id, |cp|, text);
  }

  lemma AppendNode(r: seq<NumaSummary>, nodes: seq<NumaNode>, i: nat, x: NumaSummary)
    requires i < |nodes| && SummarizesNodes(r, nodes[..i]) && x == NumaOf(nodes[i])
    ensures SummarizesNodes(r + [x], nodes[..i + 1])
    ensures Sizes(nodes[..i + 1]) == Sizes(nodes[..i]) + [x.logicalCpus] && x.logicalCpus >= 0
  {
    assert nodes[..i + 1] == nodes[..i] + [nodes[i]];
  }

  /** The pass over the NUMA nodes, with its first-iteration flag. */
  method NumaSummaries(nodes: seq<NumaNode>) returns (r: seq<NumaSummary>, most: int, least: int)
    ensures SummarizesNodes(r, nodes)
    ensures IsMax(Sizes(nodes), most) && IsMin(Sizes(nodes), least)
  {
    r, most, least := [], 0, 0;
    var first := true;
    for i := 0 to |nodes|
      invariant SummarizesNodes(r, nodes[..i]) && (first <==> i == 0)
      invariant IsMax(Sizes(nodes[..i]), most) && IsMin(Sizes(nodes[..i]), least)
    {
      var x := OneNode(nodes[i]);
      var k := x.logicalCpus;
      AppendNode(r, nodes, i, x);
      FirstOrBetter(Sizes(nodes[..i]), k, most, least);
      assert first <==> Sizes(nodes[..i]) == [];
      r := r + [x];
      if first || k > most {
        most := k;
      }
      if first || k < least {
        least := k;
      }
      first := false;
    }
    assert nodes[..|nodes|] == nodes;
  }

  method PerSocketCores(sockets: seq<SocketSummary>) returns (makeJ: seq<int>)
    ensures makeJ == Physical(sockets)
  {
    makeJ := [];
    for i := 0 to |sockets|
      invariant makeJ == Physical(sockets)[..i]
    {
      makeJ := makeJ + [sockets[i].physicalCores];
    }
  }

  method BuildClusterHints(t: Option<Machine>, source: string) returns (h: ClusterHints)
    ensures h.sourceUsed == source
    ensures if t.None? then h == NoHints(source) else Reports(h, t.value)
    ensures t.None? ==> h.logicalCpus == h.physicalCoresTotal == h.socketCount == h.numaNodeCount == h.suggestedCpusPerTask == 0
    ensures t.None? ==> h.sockets == [] && h.numaNodes == [] && h.firstSocketCpuList == "" && h.makeJPerSocketCore == []
  {
    if t.None? {
      return NoHints(source);
    }
    var pkgs := PackageIDs(t.value);
    var pkgCpus, coreSeen := Tally(t.value.cpus);
    var pkgPhy := CountCores(coreSeen);
    var sockets, mostSocket := Sockets(t.value.cpus, pkgs, pkgCpus, pkgPhy);
    var makeJ := PerSocketCores(sockets);
    var numa, mostNuma, leastNuma := NumaSummaries(t.value.numaNodes);
    var n := |t.value.cpus|;
    if |numa| == 0 {
      mostNuma, leastNuma := n, n;
    }
    var suggested := mostSocket;
    if suggested <= 0 {
      suggested := n;
    }
    var firstList := if |sockets| > 0 then sockets[0].cpuList else "";
    h := ClusterHints(source, n, |coreSeen|, |pkgs|, |t.value.numaNodes|, sockets, numa,
                      mostSocket, mostNuma, leastNuma, suggested, firstList, n, makeJ);
  }
}
