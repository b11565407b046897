/**
 The spill of `SelectCPUs` takes the nodes in list order, where the documentation of
 `StrategySameNUMA` promises node id order: when the two agree, and when they do not.
 */
module SpillOrder {
  import opened Collections
  import opened Topology
  import opened Placement
  import opened PlacementLaws

  /** The first `want` CPUs of the nodes taken one after the other. */
  ghost function Spill(nodes: seq<NumaNode>, want: nat): seq<int>
    requires want <= |Spread(nodes)|
  {
    SortInts(Spread(nodes)[..want])
  }

  /** The same nodes, by increasing id. */
  ghost predicate InIdOrder(sorted: seq<NumaNode>, nodes: seq<NumaNode>) {
    multiset(sorted) == multiset(nodes) && StrictlySorted(NodeIds(sorted))
  }

  /** Among the nodes that have CPUs, the ids before position `c` are below those from `c` on. */
  ghost predicate IdsCutAt(nodes: seq<NumaNode>, c: int) {
    forall i, j :: 0 <= i < c <= j < |nodes| && nodes[i].cpus != [] && nodes[j].cpus != [] ==> nodes[i].id < nodes[j].id
  }

  // Which CPU comes where ----------------------------------------------------------------------------

  /** Node `k` occupies the places from its predecessors' total on. */
  lemma SpreadSlice(nodes: seq<NumaNode>, k: nat)
    requires k < |nodes|
    ensures TotalSize(nodes[..k]) + |nodes[k].cpus| == TotalSize(nodes[..k + 1]) <= |Spread(nodes)|
    ensures Spread(nodes)[TotalSize(nodes[..k])..TotalSize(nodes[..k + 1])] == SortInts(nodes[k].cpus)
  {
    var part := nodes[..k + 1];
    assert part[..k] == nodes[..k];
    SpreadLength(nodes[..k]);
    SpreadLength(part);
    SpreadPrefix(nodes, k + 1);
    assert Spread(part) == Spread(nodes[..k]) + SortInts(nodes[k].cpus);
    SliceOfPrefix(Spread(nodes), Spread(nodes[..k]), SortInts(nodes[k].cpus));
  }

  lemma SliceOfPrefix(all: seq<int>, a: seq<int>, b: seq<int>)
    requires a + b <= all
    ensures all[|a|..|a| + |b|] == b
  {
    assert all[..|a| + |b|] == a + b;
  }

  lemma {:induction false} TotalMonotone(nodes: seq<NumaNode>, i: nat, j: nat)
    requires i <= j <= |nodes|
    ensures TotalSize(nodes[..i]) <= TotalSize(nodes[..j])
    decreases j - i
  {
    if i < j {
      TotalMonotone(nodes, i, j - 1);
      assert nodes[..j][..j - 1] == nodes[..j - 1];
    }
  }

  /** CPU `x` of node `k` stands at place `u` of the spread, inside its node's stretch. */
  ghost predicate At(nodes: seq<NumaNode>, k: int, x: int, u: int) {
    && 0 <= k < |nodes| && x in nodes[k].cpus && 0 <= u < |Spread(nodes)| && Spread(nodes)[u] == x
    && TotalSize(nodes[..k]) <= u < TotalSize(nodes[..k + 1])
  }

  lemma PlaceOf(nodes: seq<NumaNode>, k: nat, x: int) returns (u: nat)
    requires k < |nodes| && x in nodes[k].cpus
    ensures At(nodes, k, x, u)
  {
    SpreadSlice(nodes, k);
    SortIntsMembers(nodes[k].cpus);
    var lo := TotalSize(nodes[..k]);
    var m :| 0 <= m < |nodes[k].cpus| && SortInts(nodes[k].cpus)[m] == x;
    u := lo + m;
    assert Spread(nodes)[lo..TotalSize(nodes[..k + 1])][m] == x;
  }

  lemma NodeAt(nodes: seq<NumaNode>, k: nat, u: nat)
    requires k < |nodes| && TotalSize(nodes[..k]) <= u < TotalSize(nodes[..k + 1])
    ensures u < |Spread(nodes)| && At(nodes, k, Spread(nodes)[u], u)
  {
    SpreadSlice(nodes, k);
    SortIntsMembers(nodes[k].cpus);
    var lo := TotalSize(nodes[..k]);
    var m := u - lo;
    assert Spread(nodes)[lo..TotalSize(nodes[..k + 1])][m] == SortInts(nodes[k].cpus)[m];
    assert SortInts(nodes[k].cpus)[m] in SortInts(nodes[k].cpus);
  }

  /** Earlier places belong to earlier nodes, and within a node to smaller CPUs. */
  lemma PlacesInOrder(nodes: seq<NumaNode>, i: int, x: int, u: int, j: int, y: int, v: int)
    requires At(nodes, i, x, u) && At(nodes, j, y, v) && u < v
    ensures i < j || (i == j && x <= y)
  {
    if j < i {
      TotalMonotone(nodes, j + 1, i);
    } else if i == j {
      SpreadSlice(nodes, i);
      var lo, hi := TotalSize(nodes[..i]), TotalSize(nodes[..i + 1]);
      assert Spread(nodes)[lo..hi][u - lo] == x && Spread(nodes)[lo..hi][v - lo] == y;
    }
  }

  /** Distinct entries: a CPU is selected exactly when its place is among the first `want`. */
  ghost predicate Selected(nodes: seq<NumaNode>, want: nat, x: int)
    requires want <= |Spread(nodes)|
  {
    x in Spread(nodes)[..want]
  }

  lemma SelectedIff(nodes: seq<NumaNode>, want: nat, k: int, x: int, u: int)
    requires DisjointNodes(nodes) && want <= |Spread(nodes)| && At(nodes, k, x, u)
    ensures Selected(nodes, want, x) <==> u < want
  {
    SpreadDistinct(nodes);
    if u < want {
      assert Spread(nodes)[..want][u] == x;
    }
  }

  /** A selected CPU comes before one that is not: from an earlier node, or smaller in the same. */
  lemma SelectedFirst(nodes: seq<NumaNode>, want: nat, i: nat, x: int, j: nat, y: int)
    requires DisjointNodes(nodes) && want <= |Spread(nodes)| && i < |nodes| && j < |nodes|
    requires x in nodes[i].cpus && y in nodes[j].cpus && Selected(nodes, want, x) && !Selected(nodes, want, y)
    ensures i < j || (i == j && x <= y)
  {
    var u := PlaceOf(nodes, i, x);
    var v := PlaceOf(nodes, j, y);
    SelectedIff(nodes, want, i, x, u);
    SelectedIff(nodes, want, j, y, v);
    PlacesInOrder(nodes, i, x, u, j, y, v);
  }

  // Where the spill stops ----------------------------------------------------------------------------------

  /** The running total reaches `want` in node `p`. */
  ghost predicate StopsAt(nodes: seq<NumaNode>, want: nat, p: nat) {
    p < |nodes| && TotalSize(nodes[..p]) < want <= TotalSize(nodes[..p + 1])
  }

  /** Nodes up to `p` have a selected CPU, if they have any. */
  lemma HasSelected(nodes: seq<NumaNode>, want: nat, p: nat, k: nat) returns (x: int)
    requires DisjointNodes(nodes) && StopsAt(nodes, want, p) && k <= p && nodes[k].cpus != []
    ensures want <= |Spread(nodes)| && x in nodes[k].cpus && Selected(nodes, want, x)
  {
    SpreadSlice(nodes, p);
    SpreadSlice(nodes, k);
    TotalMonotone(nodes, k, p);
    var u := TotalSize(nodes[..k]);
    NodeAt(nodes, k, u);
    x := Spread(nodes)[u];
    SelectedIff(nodes, want, k, x, u);
  }

  /** Nodes after `p` have an unselected CPU, if they have any; so does `p` when `want` ends inside it. */
  lemma HasUnselected(nodes: seq<NumaNode>, want: nat, p: nat, k: nat) returns (y: int)
    requires DisjointNodes(nodes) && StopsAt(nodes, want, p) && k < |nodes| && nodes[k].cpus != []
    requires p < k || (p == k && want < TotalSize(nodes[..p + 1]))
    ensures want <= |Spread(nodes)| && y in nodes[k].cpus && !Selected(nodes, want, y)
  {
    SpreadSlice(nodes, p);
    SpreadSlice(nodes, k);
    if p < k {
      TotalMonotone(nodes, p + 1, k);
    }
    var u := TotalSize(nodes[..k + 1]) - 1;
    NodeAt(nodes, k, u);
    y := Spread(nodes)[u];
    SelectedIff(nodes, want, k, y, u);
  }

  /** A selected CPU is in a node up to `p`; an unselected one is after `p`, or in it when `want` ends inside it. */
  lemma StopBounds(nodes: seq<NumaNode>, want: nat, p: nat, k: nat, x: int)
    requires DisjointNodes(nodes) && StopsAt(nodes, want, p) && k < |nodes| && x in nodes[k].cpus
    ensures want <= |Spread(nodes)|
    ensures Selected(nodes, want, x) ==> k <= p
    ensures !Selected(nodes, want, x) ==> p < k || (p == k && want < TotalSize(nodes[..p + 1]))
  {
    SpreadSlice(nodes, p);
    var u := PlaceOf(nodes, k, x);
    SelectedIff(nodes, want, k, x, u);
    if p < k {
      TotalMonotone(nodes, p + 1, k);
    } else {
      TotalMonotone(nodes, k, p);
      if k < p {
        TotalMonotone(nodes, k + 1, p);
      }
    }
  }

  lemma {:induction false} StopExists(nodes: seq<NumaNode>, want: nat, n: nat) returns (p: nat)
    requires n <= |nodes| && 0 < want <= TotalSize(nodes[..n])
    ensures StopsAt(nodes, want, p)
  {
    assert nodes[..n][..n - 1] == nodes[..n - 1];
    if want <= TotalSize(nodes[..n - 1]) {
      p := StopExists(nodes, want, n - 1);
    } else {
      p := n - 1;
    }
  }

  // The same nodes in id order --------------------------------------------------------------------------------

  lemma SameNodes(sorted: seq<NumaNode>, nodes: seq<NumaNode>)
    requires InIdOrder(sorted, nodes)
    ensures forall n :: n in sorted <==> n in nodes
  {
    forall n: NumaNode
      ensures n in sorted <==> n in nodes
    {
      assert n in multiset(sorted) <==> n in multiset(nodes);
    }
  }

  lemma SortedIsDisjoint(sorted: seq<NumaNode>, nodes: seq<NumaNode>)
    requires InIdOrder(sorted, nodes) && DisjointNodes(nodes)
    ensures DisjointNodes(sorted)
  {
    SameNodes(sorted, nodes);
    forall k | 0 <= k < |sorted|
      ensures Distinct(sorted[k].cpus)
    {
      assert sorted[k] in nodes;
    }
    forall k, m, x | 0 <= k < m < |sorted| && x in sorted[k].cpus
      ensures x !in sorted[m].cpus
    {
      assert NodeIds(sorted)[k] < NodeIds(sorted)[m];
      assert sorted[k] in nodes && sorted[m] in nodes;
      var i :| 0 <= i < |nodes| && nodes[i] == sorted[k];
      var j :| 0 <= j < |nodes| && nodes[j] == sorted[m];
      assert i < j || j < i;
    }
  }

  lemma SameMembers(sorted: seq<NumaNode>, nodes: seq<NumaNode>, x: int)
    requires InIdOrder(sorted, nodes) && x in Spread(nodes)
    ensures x in Spread(sorted)
  {
    SameNodes(sorted, nodes);
    SpreadMembers(nodes, x);
    SpreadMembers(sorted, x);
    var i :| 0 <= i < |nodes| && x in nodes[i].cpus;
    var a := IndexIn(sorted, nodes, i);
  }

  /** Where a node of one list is in the other. */
  lemma IndexIn(sorted: seq<NumaNode>, nodes: seq<NumaNode>, i: nat) returns (a: nat)
    requires InIdOrder(sorted, nodes) && i < |nodes|
    ensures a < |sorted| && sorted[a] == nodes[i]
  {
    SameNodes(sorted, nodes);
    assert nodes[i] in sorted;
    a :| 0 <= a < |sorted| && sorted[a] == nodes[i];
  }

  lemma SameSpread(sorted: seq<NumaNode>, nodes: seq<NumaNode>)
    requires InIdOrder(sorted, nodes) && DisjointNodes(nodes)
    ensures ToSet(Spread(sorted)) == ToSet(Spread(nodes)) && |Spread(sorted)| == |Spread(nodes)|
  {
    SortedIsDisjoint(sorted, nodes);
    SpreadDistinct(sorted);
    SpreadDistinct(nodes);
    forall x: int
      ensures x in Spread(sorted) <==> x in Spread(nodes)
    {
      if x in Spread(nodes) {
        SameMembers(sorted, nodes, x);
      }
      if x in Spread(sorted) {
        SpreadMembers(sorted, x);
        SpreadMembers(nodes, x);
        var a :| 0 <= a < |sorted| && x in sorted[a].cpus;
        SameNodes(sorted, nodes);
        assert sorted[a] in nodes;
        var i :| 0 <= i < |nodes| && nodes[i] == sorted[a];
      }
    }
    ToSetCardinality(Spread(sorted));
    ToSetCardinality(Spread(nodes));
  }

  // When the two orders select the same CPUs ---------------------------------------------------------------------

  ghost predicate SameSelection(nodes: seq<NumaNode>, sorted: seq<NumaNode>, want: nat)
    requires want <= |Spread(nodes)| && want <= |Spread(sorted)|
  {
    forall x :: Selected(nodes, want, x) <==> Selected(sorted, want, x)
  }

  /** A node with a selected CPU that precedes one with an unselected CPU has the smaller id. */
  lemma SelectedHasSmallerId(nodes: seq<NumaNode>, sorted: seq<NumaNode>, want: nat, i: nat, x: int, j: nat, y: int)
    requires DisjointNodes(nodes) && InIdOrder(sorted, nodes) && want <= |Spread(nodes)| && want <= |Spread(sorted)|
    requires i < j < |nodes| && x in nodes[i].cpus && y in nodes[j].cpus
    requires Selected(sorted, want, x) && !Selected(sorted, want, y)
    ensures nodes[i].id < nodes[j].id
  {
    SortedIsDisjoint(sorted, nodes);
    var a := IndexIn(sorted, nodes, i);
    var b := IndexIn(sorted, nodes, j);
    SelectedFirst(sorted, want, a, x, b, y);
    assert a != b;
    IdsInOrder(sorted, a, b);
  }

  lemma AgreeOnlyIfCut(nodes: seq<NumaNode>, sorted: seq<NumaNode>, want: nat, p: nat)
    requires DisjointNodes(nodes) && InIdOrder(sorted, nodes) && StopsAt(nodes, want, p)
    requires want <= |Spread(nodes)| && want <= |Spread(sorted)| && SameSelection(nodes, sorted, want)
    ensures IdsCutAt(nodes, p + 1) && (want < TotalSize(nodes[..p + 1]) ==> IdsCutAt(nodes, p))
  {
    forall i, j | 0 <= i <= p && i < j < |nodes| && nodes[i].cpus != [] && nodes[j].cpus != []
                  && (p < j || (p == j && want < TotalSize(nodes[..p + 1])))
      ensures nodes[i].id < nodes[j].id
    {
      var x := HasSelected(nodes, want, p, i);
      var y := HasUnselected(nodes, want, p, j);
      SelectedHasSmallerId(nodes, sorted, want, i, x, j, y);
    }
  }

  lemma IdsInOrder(sorted: seq<NumaNode>, a: nat, b: nat)
    requires StrictlySorted(NodeIds(sorted)) && a < |sorted| && b < |sorted|
    ensures sorted[a].id < sorted[b].id <==> a < b
  {
    assert NodeIds(sorted)[a] == sorted[a].id && NodeIds(sorted)[b] == sorted[b].id;
  }

  /** No CPU is selected in list order but not in id order while another is the other way round. */
  lemma NoSwap(nodes: seq<NumaNode>, sorted: seq<NumaNode>, want: nat, p: nat, x: int, y: int)
    requires DisjointNodes(nodes) && InIdOrder(sorted, nodes) && StopsAt(nodes, want, p)
    requires want <= |Spread(nodes)| && want <= |Spread(sorted)|
    requires IdsCutAt(nodes, p + 1) && (want < TotalSize(nodes[..p + 1]) ==> IdsCutAt(nodes, p))
    requires x in Spread(nodes) && Selected(nodes, want, x) && !Selected(sorted, want, x)
    requires y in Spread(nodes) && !Selected(nodes, want, y)
    ensures !Selected(sorted, want, y)
  {
    SpreadMembers(nodes, x);
    SpreadMembers(nodes, y);
    var i :| 0 <= i < |nodes| && x in nodes[i].cpus;
    var j :| 0 <= j < |nodes| && y in nodes[j].cpus;
    SelectedFirst(nodes, want, i, x, j, y);
    StopBounds(nodes, want, p, i, x);
    StopBounds(nodes, want, p, j, y);
    SortedIsDisjoint(sorted, nodes);
    var a := IndexIn(sorted, nodes, i);
    var b := IndexIn(sorted, nodes, j);
    assert i < j ==> nodes[i].id < nodes[j].id;
    IdsInOrder(sorted, a, b);
    assert x != y;
    if Selected(sorted, want, y) {
      SelectedFirst(sorted, want, b, y, a, x);
    }
  }

  lemma AgreeIfCut(nodes: seq<NumaNode>, sorted: seq<NumaNode>, want: nat, p: nat)
    requires DisjointNodes(nodes) && InIdOrder(sorted, nodes) && StopsAt(nodes, want, p)
    requires want <= |Spread(nodes)| && want <= |Spread(sorted)|
    requires IdsCutAt(nodes, p + 1) && (want < TotalSize(nodes[..p + 1]) ==> IdsCutAt(nodes, p))
    ensures SameSelection(nodes, sorted, want)
  {
    var s, t := ToSet(Spread(nodes)[..want]), ToSet(Spread(sorted)[..want]);
    SelectionSize(nodes, want);
    SortedIsDisjoint(sorted, nodes);
    SelectionSize(sorted, want);
    SameSpread(sorted, nodes);
    if s != t {
      var x, y := Swap(s, t);
      assert x in ToSet(Spread(nodes)) && y in ToSet(Spread(sorted));
      NoSwap(nodes, sorted, want, p, x, y);
    }
    forall x: int
      ensures Selected(nodes, want, x) <==> Selected(sorted, want, x)
    {
      assert x in s <==> x in t;
    }
  }

  lemma SelectionSize(nodes: seq<NumaNode>, want: nat)
    requires DisjointNodes(nodes) && want <= |Spread(nodes)|
    ensures Distinct(Spread(nodes)[..want]) && |ToSet(Spread(nodes)[..want])| == want
  {
    SpreadDistinct(nodes);
    ToSetCardinality(Spread(nodes)[..want]);
  }

  lemma Swap(s: set<int>, t: set<int>) returns (x: int, y: int)
    requires |s| == |t| && s != t
    ensures x in s && x !in t && y in t && y !in s
  {
    assert s == s * t + (s - t) && t == s * t + (t - s);
    assert |s - t| == |t - s|;
    x, y := Member(s - t), Member(t - s);
  }

  /**
   List order and id order spill the same CPUs exactly when the ids are cut where the spill stops:
   all nodes used up before all nodes left over, and a node used in part between the two.
   */
  lemma SpillInIdOrderIff(nodes: seq<NumaNode>, sorted: seq<NumaNode>, want: nat, p: nat)
    requires DisjointNodes(nodes) && InIdOrder(sorted, nodes) && StopsAt(nodes, want, p)
    ensures want <= |Spread(nodes)| == |Spread(sorted)|
    ensures Spill(nodes, want) == Spill(sorted, want) <==>
            IdsCutAt(nodes, p + 1) && (want < TotalSize(nodes[..p + 1]) ==> IdsCutAt(nodes, p))
  {
    SpreadSlice(nodes, p);
    SameSpread(sorted, nodes);
    SpillIsSelection(nodes, sorted, want);
    if SameSelection(nodes, sorted, want) {
      AgreeOnlyIfCut(nodes, sorted, want, p);
    }
    if IdsCutAt(nodes, p + 1) && (want < TotalSize(nodes[..p + 1]) ==> IdsCutAt(nodes, p)) {
      AgreeIfCut(nodes, sorted, want, p);
    }
  }

  lemma SpillIsSelection(nodes: seq<NumaNode>, sorted: seq<NumaNode>, want: nat)
    requires DisjointNodes(nodes) && InIdOrder(sorted, nodes) && want <= |Spread(nodes)| && want <= |Spread(sorted)|
    ensures Spill(nodes, want) == Spill(sorted, want) <==> SameSelection(nodes, sorted, want)
  {
    var s, t := Spread(nodes)[..want], Spread(sorted)[..want];
    SortIntsMembers(s);
    SortIntsMembers(t);
    SelectionSize(nodes, want);
    SortedIsDisjoint(sorted, nodes);
    SelectionSize(sorted, want);
    SortDistinct(s);
    SortDistinct(t);
    if SameSelection(nodes, sorted, want) {
      forall x: int
        ensures x in s <==> x in t
      {
        assert Selected(nodes, want, x) <==> Selected(sorted, want, x);
      }
      assert ToSet(s) == ToSet(t);
      StrictlySortedUnique(SortInts(s), SortInts(t));
    } else {
      var x :| Selected(nodes, want, x) != Selected(sorted, want, x);
      assert x in SortInts(s) <==> x !in SortInts(t);
    }
  }

  // What it means for `SelectCPUs` -----------------------------------------------------------------------------------

  /** A request that has to spill, and can. */
  ghost predicate Spills(t: Machine, want: int, strategy: string) {
    && 0 < want < |t.cpus| && strategy in {"", SAME_NUMA}
    && !SomeFits(t.numaNodes, want) && want <= TotalSize(t.numaNodes)
  }

  lemma SelectionIsSpill(t: Machine, want: int, strategy: string, r: Result<seq<int>, SelectError>)
    requires Spills(t, want, strategy)
    ensures want <= |Spread(t.numaNodes)|
    ensures Selection(t, want, None, strategy, r) <==> r == Ok(Spill(t.numaNodes, want))
  {
    SpreadLength(t.numaNodes);
    assert t.numaNodes != [];
  }

  /** A spilling selection is the documented one exactly when the ids are cut where it stops. */
  lemma DocumentedSpillIff(t: Machine, want: int, strategy: string, r: Result<seq<int>, SelectError>, sorted: seq<NumaNode>)
    returns (p: nat)
    requires Selection(t, want, None, strategy, r) && Spills(t, want, strategy)
    requires DisjointNodes(t.numaNodes) && InIdOrder(sorted, t.numaNodes)
    ensures StopsAt(t.numaNodes, want, p) && want <= |Spread(sorted)|
    ensures r == Ok(Spill(sorted, want)) <==>
            IdsCutAt(t.numaNodes, p + 1) && (want < TotalSize(t.numaNodes[..p + 1]) ==> IdsCutAt(t.numaNodes, p))
  {
    SelectionIsSpill(t, want, strategy, r);
    assert t.numaNodes[..|t.numaNodes|] == t.numaNodes;
    p := StopExists(t.numaNodes, want, |t.numaNodes|);
    SpillInIdOrderIff(t.numaNodes, sorted, want, p);
  }

  lemma IdOrderUnique(a: seq<NumaNode>, b: seq<NumaNode>)
    requires InIdOrder(a, b) && StrictlySorted(NodeIds(b))
    ensures a == b
  {
    SameNodes(a, b);
    SameNodeIds(a, b);
    SameNodeIds(b, a);
    StrictlySortedUnique(NodeIds(a), NodeIds(b));
    forall k | 0 <= k < |a|
      ensures a[k] == b[k]
    {
      assert a[k] in b;
      var m :| 0 <= m < |b| && b[m] == a[k];
      assert NodeIds(b)[m] == NodeIds(a)[k];
    }
  }

  /** On a machine whose nodes are listed by increasing id the spill is the documented one, whatever the lists hold. */
  lemma SortedNodesSpillAsDocumented(t: Machine, want: int, strategy: string, r: Result<seq<int>, SelectError>, sorted: seq<NumaNode>)
    requires Selection(t, want, None, strategy, r) && Spills(t, want, strategy)
    requires StrictlySorted(NodeIds(t.numaNodes)) && InIdOrder(sorted, t.numaNodes)
    ensures want <= |Spread(sorted)| && r == Ok(Spill(sorted, want))
  {
    IdOrderUnique(sorted, t.numaNodes);
    SelectionIsSpill(t, want, strategy, r);
  }

  /** Two nodes listed against their id order, neither large enough: what each order spills. */
  lemma TwoNodes(a: NumaNode, b: NumaNode, want: nat)
    requires StrictlySorted(a.cpus) && StrictlySorted(b.cpus) && b.id < a.id
    requires |a.cpus| < want && |b.cpus| < want && forall x :: x in a.cpus ==> x !in b.cpus
    ensures DisjointNodes([a, b]) && InIdOrder([b, a], [a, b])
    ensures !SomeFits([a, b], want) && TotalSize([a, b]) == |a.cpus| + |b.cpus|
  {
    assert multiset([a, b]) == multiset{a, b} == multiset([b, a]);
    assert [a, b][..1] == [a] && [a][..0] == [];
    assert TotalSize([a]) == |a.cpus|;
  }

  lemma SpillOfTwo(a: NumaNode, b: NumaNode, head: seq<int>, rest: seq<int>, ids: seq<int>)
    requires Sorted(a.cpus) && Sorted(b.cpus) && a.cpus + b.cpus == head + rest
    requires Sorted(ids) && multiset(ids) == multiset(head)
    ensures |Spread([a, b])| == |head| + |rest| && Spill([a, b], |head|) == ids
  {
    assert [a, b][..1] == [a] && [a][..0] == [];
    assert Spread([a]) == SortInts(a.cpus);
    SortedUnique(SortInts(a.cpus), a.cpus);
    SortedUnique(SortInts(b.cpus), b.cpus);
    assert Spread([a, b])[..|head|] == head;
    SortedUnique(SortInts(head), ids);
  }

  lemma InListOrder(zero: NumaNode, one: NumaNode, w: int, x: int, y: int, z: int)
    requires zero.cpus == [w, x] && one.cpus == [y, z] && w < x < y < z
    ensures |Spread([one, zero])| == 4 && Spill([one, zero], 3) == [w, y, z]
  {
    assert multiset([w, y, z]) == multiset([y, z, w]);
    SpillOfTwo(one, zero, [y, z, w], [x], [w, y, z]);
  }

  lemma InOrderOfIds(zero: NumaNode, one: NumaNode, w: int, x: int, y: int, z: int)
    requires zero.cpus == [w, x] && one.cpus == [y, z] && w < x < y < z
    ensures |Spread([zero, one])| == 4 && Spill([zero, one], 3) == [w, x, y]
  {
    SpillOfTwo(zero, one, [w, x, y], [z], [w, x, y]);
  }

  /** Two nodes of two CPUs listed against their id order: three CPUs exhaust the wrong node first. */
  lemma ListOrderIsNotIdOrder(t: Machine, strategy: string, zero: NumaNode, one: NumaNode, w: int, x: int, y: int, z: int,
                              r: Result<seq<int>, SelectError>)
    requires |t.cpus| == 4 && t.numaNodes == [one, zero] && strategy in {"", SAME_NUMA}
    requires zero.id < one.id && zero.cpus == [w, x] && one.cpus == [y, z] && w < x < y < z
    ensures InIdOrder([zero, one], t.numaNodes) && |Spread([zero, one])| == 4 && Spill([zero, one], 3) == [w, x, y]
    ensures Selection(t, 3, None, strategy, r) <==> r == Ok([w, y, z])
  {
    TwoNodes(one, zero, 3);
    InListOrder(zero, one, w, x, y, z);
    InOrderOfIds(zero, one, w, x, y, z);
    SelectionIsSpill(t, 3, strategy, r);
  }
}
