/**
 Conservation laws of the cluster hints: nothing is lost or counted twice between the machine
 and its per-socket report.
 */
module HintsLaws {
  import opened Collections
  import opened Topology
  import opened Text
  import opened CpuRanges
  import opened CpuParse
  import opened Hints

  function Sum(s: seq<int>): int {
    if s == [] then 0 else Sum(s[..|s| - 1]) + s[|s| - 1]
  }

  // Logical CPUs ---------------------------------------------------------------------------------

  lemma {:induction false} SumLogical(cpus: seq<Cpu>, pkgs: seq<int>, sizes: seq<int>)
    requires |sizes| == |pkgs| && forall i :: 0 <= i < |pkgs| ==> sizes[i] == |IdsIn(cpus, pkgs[i])|
    ensures Sum(sizes) == |Grouped(cpus, PackageOf, pkgs)|
  {
    if pkgs != [] {
      SumLogical(cpus, pkgs[..|pkgs| - 1], sizes[..|pkgs| - 1]);
    }
  }

  predicate Any(c: Cpu) {
    true
  }

  lemma {:induction false} AnyIsAll(cpus: seq<Cpu>)
    ensures IdsWhere(cpus, Any) == CpuIds(cpus)
  {
    if cpus != [] {
      AnyIsAll(cpus[..|cpus| - 1]);
      assert CpuIds(cpus) == CpuIds(cpus[..|cpus| - 1]) + [cpus[|cpus| - 1].id];
    }
  }

  lemma PackagesListed(t: Machine, i: nat)
    requires i < |t.cpus|
    ensures t.cpus[i].packageId in SortedUniq(Packages(t.cpus))
  {
    assert Packages(t.cpus)[i] in Packages(t.cpus);
  }

  /** The packages' id lists together are the machine's id list: none lost, none in two packages. */
  lemma IdsConserved(t: Machine)
    ensures Grouped(t.cpus, PackageOf, SortedUniq(Packages(t.cpus))) == multiset(CpuIds(t.cpus))
  {
    var pkgs := SortedUniq(Packages(t.cpus));
    forall i | 0 <= i < |t.cpus|
      ensures PackageOf(t.cpus[i]) in pkgs
    {
      PackagesListed(t, i);
    }
    GroupedIsWhere(t.cpus, PackageOf, pkgs, Any);
    AnyIsAll(t.cpus);
  }

  /** The sockets' logical CPUs add up to the machine's. */
  lemma LogicalConserved(t: Machine, h: ClusterHints)
    requires Reports(h, t)
    ensures Sum(Logical(h.sockets)) == h.logicalCpus
  {
    IdsConserved(t);
    SumLogical(t.cpus, SortedUniq(Packages(t.cpus)), Logical(h.sockets));
  }

  // Physical cores --------------------------------------------------------------------------------

  ghost function Within(keys: set<(int, int)>, pkgs: seq<int>): set<(int, int)> {
    set k | k in keys && k.0 in pkgs
  }

  lemma {:induction false} SumCores(keys: set<(int, int)>, pkgs: seq<int>, sizes: seq<int>)
    requires Distinct(pkgs)
    requires |sizes| == |pkgs| && forall i :: 0 <= i < |pkgs| ==> sizes[i] == |CoresIn(keys, pkgs[i])|
    ensures Sum(sizes) == |Within(keys, pkgs)|
  {
    if pkgs == [] {
      assert Within(keys, pkgs) == {};
    } else {
      var front, last := pkgs[..|pkgs| - 1], pkgs[|pkgs| - 1];
      assert pkgs == front + [last];
      SumCores(keys, front, sizes[..|front|]);
      assert Within(keys, pkgs) == Within(keys, front) + CoresIn(keys, last);
      assert Within(keys, front) !! CoresIn(keys, last);
    }
  }

  lemma AllKeysWithin(t: Machine)
    ensures Within(CoreKeys(t.cpus), SortedUniq(Packages(t.cpus))) == CoreKeys(t.cpus)
  {
    forall k | k in CoreKeys(t.cpus)
      ensures k.0 in SortedUniq(Packages(t.cpus))
    {
      var i :| 0 <= i < |t.cpus| && (t.cpus[i].packageId, t.cpus[i].coreId) == k;
      PackagesListed(t, i);
    }
  }

  /** The sockets' physical cores add up to the distinct (package, core) pairs. */
  lemma CoresConserved(t: Machine, h: ClusterHints)
    requires Reports(h, t)
    ensures Sum(h.makeJPerSocketCore) == h.physicalCoresTotal
  {
    AllKeysWithin(t);
    SumCores(CoreKeys(t.cpus), SortedUniq(Packages(t.cpus)), h.makeJPerSocketCore);
  }

  lemma {:induction false} CoresAtMostIds(cpus: seq<Cpu>, pkg: int)
    ensures |CoresIn(CoreKeys(cpus), pkg)| <= |IdsIn(cpus, pkg)|
  {
    if cpus == [] {
      assert CoresIn(CoreKeys(cpus), pkg) == {};
    } else {
      var front, c := cpus[..|cpus| - 1], cpus[|cpus| - 1];
      assert cpus == front + [c];
      CoresAtMostIds(front, pkg);
      SnocCpu(front, c);
      IdsBySnoc(front, c, PackageOf, pkg);
      var key := (c.packageId, c.coreId);
      if key in CoreKeys(front) {
        assert CoreKeys(cpus) == CoreKeys(front);
      } else {
        CoresInStep(CoreKeys(front), key, pkg);
      }
    }
  }

  /** No socket reports more physical cores than logical CPUs. */
  lemma CoresBounded(t: Machine, h: ClusterHints, i: nat)
    requires Reports(h, t) && i < |h.sockets|
    ensures h.sockets[i].physicalCores <= h.sockets[i].logicalCpus
  {
    CoresAtMostIds(t.cpus, SortedUniq(Packages(t.cpus))[i]);
  }

  // CPU lists --------------------------------------------------------------------------------------

  /** The ids a shell or tool reads back from a socket's list. */
  ghost function ReadBack(s: SocketSummary): ParseResult {
    ParsedText(s.cpuList)
  }

  lemma SortedUniqOfSorted(ids: seq<int>)
    ensures SortedUniq(SortInts(ids)) == SortedUniq(ids)
  {
    SortIntsMembers(ids);
    var a, b := SortedUniq(SortInts(ids)), SortedUniq(ids);
    forall x: int
      ensures x in a <==> x in b
    {
    }
    assert ToSet(a) == ToSet(b);
    StrictlySortedUnique(a, b);
  }

  /** What a list of ids, sorted and printed, reads back as. */
  lemma PrintedList(ids: seq<int>)
    requires forall x :: x in ids ==> MIN_INT <= x <= MAX_INT
    ensures var read := ParsedText(CpuListText(SortInts(ids)));
            if Printable(ids) then read == Parsed(SortedUniq(ids)) else !read.Parsed?
  {
    SortIntsMembers(ids);
    RoundTrip(SortInts(ids));
    SortedUniqOfSorted(ids);
    assert Printable(SortInts(ids)) <==> Printable(ids);
  }

  /** The ids are Go `int`s. */
  ghost predicate Int64Ids(t: Machine) {
    forall k :: 0 <= k < |t.cpus| ==> MIN_INT <= t.cpus[k].id <= MAX_INT
  }

  /**
   A socket's printed list reads back as exactly its package's ids when they are non-negative and
   do not include both of the two largest `int`s; otherwise it cannot be read back at all.
   */
  lemma SocketReadsBack(t: Machine, h: ClusterHints, i: nat)
    requires Reports(h, t) && i < |h.sockets| && Int64Ids(t)
    ensures var ids := IdsIn(t.cpus, h.sockets[i].packageId);
            if Printable(ids) then ReadBack(h.sockets[i]) == Parsed(SortedUniq(ids)) else !ReadBack(h.sockets[i]).Parsed?
  {
    var pkg := SortedUniq(Packages(t.cpus))[i];
    var ids := IdsIn(t.cpus, pkg);
    assert h.sockets[i] == SocketOf(t.cpus, pkg);
    forall x | x in ids
      ensures MIN_INT <= x <= MAX_INT
    {
      IdsByMembers(t.cpus, PackageOf, pkg, x);
    }
    PrintedList(ids);
  }

  lemma InPackageIff(t: Machine, k: nat, pkg: int)
    requires UniqueCpuIds(t) && k < |t.cpus|
    ensures t.cpus[k].id in IdsIn(t.cpus, pkg) <==> t.cpus[k].packageId == pkg
  {
    IdsByMembers(t.cpus, PackageOf, pkg, t.cpus[k].id);
  }

  /** The socket that reports a CPU's package. */
  lemma SocketOfCpu(t: Machine, h: ClusterHints, k: nat) returns (j: nat)
    requires Reports(h, t) && k < |t.cpus|
    ensures j < |h.sockets| && h.sockets[j].packageId == t.cpus[k].packageId
  {
    PackagesListed(t, k);
    j :| 0 <= j < |h.sockets| && SortedUniq(Packages(t.cpus))[j] == t.cpus[k].packageId;
  }

  /** With unique ids every CPU is in exactly one of the lists that can be read back, unless its own package's cannot. */
  lemma ListsPartition(t: Machine, h: ClusterHints, k: nat) returns (j: nat)
    requires Reports(h, t) && UniqueCpuIds(t) && Int64Ids(t) && k < |t.cpus|
    ensures j < |h.sockets| && h.sockets[j].packageId == t.cpus[k].packageId
    ensures forall i :: 0 <= i < |h.sockets| ==>
              && (ReadBack(h.sockets[i]).Parsed? <==> Printable(IdsIn(t.cpus, h.sockets[i].packageId)))
              && (ReadBack(h.sockets[i]).Parsed? ==> (t.cpus[k].id in ReadBack(h.sockets[i]).ids <==> i == j))
  {
    j := SocketOfCpu(t, h, k);
    forall i | 0 <= i < |h.sockets|
      ensures ReadBack(h.sockets[i]).Parsed? <==> Printable(IdsIn(t.cpus, h.sockets[i].packageId))
      ensures ReadBack(h.sockets[i]).Parsed? ==> (t.cpus[k].id in ReadBack(h.sockets[i]).ids <==> i == j)
    {
      SocketReadsBack(t, h, i);
      InPackageIff(t, k, h.sockets[i].packageId);
      SocketsDiffer(t, h, i, j);
    }
  }

  lemma SocketsDiffer(t: Machine, h: ClusterHints, i: nat, j: nat)
    requires Reports(h, t) && i < |h.sockets| && j < |h.sockets|
    ensures h.sockets[i].packageId == h.sockets[j].packageId <==> i == j
  {
    var pkgs := SortedUniq(Packages(t.cpus));
    assert h.sockets[i].packageId == pkgs[i] && h.sockets[j].packageId == pkgs[j];
  }

  /** Nothing but CPU ids is listed. */
  lemma ListsKnownOnly(t: Machine, h: ClusterHints, i: nat, x: int)
    requires Reports(h, t) && i < |h.sockets| && ReadBack(h.sockets[i]).Parsed? && x in ReadBack(h.sockets[i]).ids
    requires Int64Ids(t)
    ensures exists m :: 0 <= m < |t.cpus| && t.cpus[m].id == x
  {
    SocketReadsBack(t, h, i);
    IdsByMembers(t.cpus, PackageOf, h.sockets[i].packageId, x);
  }

  // NUMA nodes and the remaining fields ----------------------------------------------------------------

  /** A node's summary: its id, its size, and a list that reads back as its CPUs under the same condition as a socket's. */
  lemma NodeReadsBack(t: Machine, h: ClusterHints, i: nat)
    requires Reports(h, t) && i < |t.numaNodes| && forall x :: x in t.numaNodes[i].cpus ==> MIN_INT <= x <= MAX_INT
    ensures |h.numaNodes| == h.numaNodeCount == |t.numaNodes|
    ensures h.numaNodes[i].nodeId == t.numaNodes[i].id && h.numaNodes[i].logicalCpus == |t.numaNodes[i].cpus|
    ensures var ids, read := t.numaNodes[i].cpus, ParsedText(h.numaNodes[i].cpuList);
            if Printable(ids) then read == Parsed(SortedUniq(ids)) else !read.Parsed?
  {
    var ids := t.numaNodes[i].cpus;
    assert h.numaNodes[i] == NumaOf(t.numaNodes[i]);
    PrintedList(ids);
  }

  /** The places of the list at which a CPU has that key. */
  ghost function PlacesOf(cpus: seq<Cpu>, key: Cpu -> int, v: int): set<int> {
    set i | 0 <= i < |cpus| && key(cpus[i]) == v
  }

  lemma PlacesSnoc(cpus: seq<Cpu>, key: Cpu -> int, v: int)
    requires cpus != []
    ensures var n := |cpus| - 1; PlacesOf(cpus, key, v) == PlacesOf(cpus[..n], key, v) + if key(cpus[n]) == v then {n} else {}
  {
    var n := |cpus| - 1;
    assert forall i :: 0 <= i < n ==> cpus[..n][i] == cpus[i];
  }

  lemma {:induction false} IdsByCount(cpus: seq<Cpu>, key: Cpu -> int, v: int)
    ensures |IdsBy(cpus, key, v)| == |PlacesOf(cpus, key, v)|
  {
    if cpus == [] {
      assert PlacesOf(cpus, key, v) == {};
    } else {
      var n := |cpus| - 1;
      IdsByCount(cpus[..n], key, v);
      PlacesSnoc(cpus, key, v);
      assert n !in PlacesOf(cpus[..n], key, v);
    }
  }

  /** A socket reports the number of CPUs of its package, and the number of distinct cores among them. */
  lemma SocketSpelledOut(t: Machine, h: ClusterHints, i: nat)
    requires Reports(h, t) && i < |h.sockets|
    ensures h.sockets[i].logicalCpus == |PlacesOf(t.cpus, PackageOf, h.sockets[i].packageId)|
    ensures h.sockets[i].physicalCores == |set c | c in CoreKeys(t.cpus) && c.0 == h.sockets[i].packageId|
    ensures |h.makeJPerSocketCore| == |h.sockets| && h.makeJPerSocketCore[i] == h.sockets[i].physicalCores
  {
    var p := SortedUniq(Packages(t.cpus))[i];
    assert h.sockets[i] == SocketOf(t.cpus, p);
    IdsByCount(t.cpus, PackageOf, p);
  }

  /** Sockets are listed by increasing package id. */
  lemma SocketsIncrease(t: Machine, h: ClusterHints, i: nat, j: nat)
    requires Reports(h, t) && i < j < |h.sockets|
    ensures h.socketCount == |h.sockets| && h.sockets[i].packageId < h.sockets[j].packageId
  {
    var pkgs := SortedUniq(Packages(t.cpus));
    assert h.sockets[i].packageId == pkgs[i] && h.sockets[j].packageId == pkgs[j];
  }

  ghost predicate HasSocket(h: ClusterHints, p: int) {
    exists i :: 0 <= i < |h.sockets| && h.sockets[i].packageId == p
  }

  /** There is a socket for exactly the packages some CPU is in. */
  lemma SocketIffPackage(t: Machine, h: ClusterHints, p: int)
    requires Reports(h, t)
    ensures HasSocket(h, p) <==> exists k :: 0 <= k < |t.cpus| && t.cpus[k].packageId == p
  {
    if i :| 0 <= i < |h.sockets| && h.sockets[i].packageId == p {
      SocketHasCpu(t, h, i);
    }
    if k :| 0 <= k < |t.cpus| && t.cpus[k].packageId == p {
      var i := SocketOfCpu(t, h, k);
      assert h.sockets[i].packageId == p;
    }
  }

  /** No socket is reported without a CPU. */
  lemma SocketHasCpu(t: Machine, h: ClusterHints, i: nat)
    requires Reports(h, t) && i < |h.sockets|
    ensures h.sockets[i].logicalCpus > 0 && exists k :: 0 <= k < |t.cpus| && t.cpus[k].packageId == h.sockets[i].packageId
  {
    var p := SortedUniq(Packages(t.cpus))[i];
    assert h.sockets[i] == SocketOf(t.cpus, p);
    PackageUsed(t.cpus, p);
  }

  lemma PackageUsed(cpus: seq<Cpu>, p: int)
    requires p in Packages(cpus)
    ensures |IdsIn(cpus, p)| > 0 && exists k :: 0 <= k < |cpus| && cpus[k].packageId == p
  {
    var k :| 0 <= k < |cpus| && Packages(cpus)[k] == p;
    IdsByMembers(cpus, PackageOf, p, cpus[k].id);
  }

  /** The suggested size of a task is that of a largest socket, and the first list is that of the lowest package. */
  lemma SuggestionSpelledOut(t: Machine, h: ClusterHints)
    requires Reports(h, t) && h.sockets != []
    ensures forall i :: 0 <= i < |h.sockets| ==> h.sockets[i].logicalCpus <= h.suggestedCpusPerTask
    ensures exists i :: 0 <= i < |h.sockets| && h.sockets[i].logicalCpus == h.suggestedCpusPerTask
    ensures h.suggestedCpusPerTask == h.maxLogicalPerSocket && h.firstSocketCpuList == h.sockets[0].cpuList
  {
    SocketHasCpu(t, h, 0);
    LargestOf(h.sockets, h.maxLogicalPerSocket);
  }

  lemma LargestOf(sockets: seq<SocketSummary>, m: int)
    requires IsMax(Logical(sockets), m) && sockets != []
    ensures forall i :: 0 <= i < |sockets| ==> sockets[i].logicalCpus <= m
    ensures exists i :: 0 <= i < |sockets| && sockets[i].logicalCpus == m
  {
    var i :| 0 <= i < |sockets| && Logical(sockets)[i] == m;
    assert forall k :: 0 <= k < |sockets| ==> Logical(sockets)[k] == sockets[k].logicalCpus;
  }

  /** The reported extremes are bounds on the node sizes, and each is the size of some node. */
  lemma NodeExtremes(t: Machine, h: ClusterHints)
    requires Reports(h, t) && t.numaNodes != []
    ensures forall i :: 0 <= i < |t.numaNodes| ==> h.minLogicalPerNumaNode <= |t.numaNodes[i].cpus| <= h.maxLogicalPerNumaNode
    ensures exists i :: 0 <= i < |t.numaNodes| && |t.numaNodes[i].cpus| == h.maxLogicalPerNumaNode
    ensures exists i :: 0 <= i < |t.numaNodes| && |t.numaNodes[i].cpus| == h.minLogicalPerNumaNode
  {
    ExtremesOf(t.numaNodes, h.maxLogicalPerNumaNode, h.minLogicalPerNumaNode);
  }

  lemma ExtremesOf(nodes: seq<NumaNode>, most: int, least: int)
    requires nodes != [] && IsMax(Sizes(nodes), most) && IsMin(Sizes(nodes), least)
    ensures forall i :: 0 <= i < |nodes| ==> least <= |nodes[i].cpus| <= most
    ensures exists i :: 0 <= i < |nodes| && |nodes[i].cpus| == most
    ensures exists i :: 0 <= i < |nodes| && |nodes[i].cpus| == least
  {
    var i :| 0 <= i < |nodes| && Sizes(nodes)[i] == most;
    var j :| 0 <= j < |nodes| && Sizes(nodes)[j] == least;
    assert forall k :: 0 <= k < |nodes| ==> Sizes(nodes)[k] == |nodes[k].cpus|;
  }

  lemma NoneSorted(xs: seq<int>)
    requires xs == []
    ensures SortedUniq(xs) == []
  {
    assert ToSet(SortedUniq(xs)) == {};
    ToSetCardinality(SortedUniq(xs));
  }

  /** A machine without CPUs has no sockets and suggests nothing; one without nodes counts as one node. */
  lemma EmptyParts(t: Machine, h: ClusterHints)
    requires Reports(h, t)
    ensures h.logicalCpus == h.makeJWholeNode == |t.cpus|
    ensures t.cpus == [] ==> h.sockets == [] && h.suggestedCpusPerTask == 0 && h.firstSocketCpuList == "" && h.physicalCoresTotal == 0
    ensures t.numaNodes == [] ==> h.minLogicalPerNumaNode == h.maxLogicalPerNumaNode == |t.cpus|
  {
    if t.cpus == [] {
      assert Packages(t.cpus) == [] && CoreKeys(t.cpus) == {};
      NoneSorted(Packages(t.cpus));
    }
  }
}
