/**
 The hwloc import against the document itself: which objects become CPUs, and what each CPU takes
 from the objects around it, in terms of paths and without the walk's recursion.
 */
module HwlocPaths {
  import opened Collections
  import opened Topology
  import opened CpuRanges
  import opened Hwloc
  import opened HwlocLaws
  import opened Hints

  // The units are the indexed processing units of the document ------------------------------------

  /** A path of the forest: it starts at a root and goes from object to child. */
  ghost predicate IsPath(roots: seq<Obj>, path: seq<Obj>) {
    path != [] && path[0] in roots && forall i :: 0 <= i < |path| - 1 ==> path[i + 1] in path[i].children
  }

  ghost predicate EndsAtUnit(path: seq<Obj>) {
    path != [] && var o := path[|path| - 1]; o.kind == ProcessingUnit && o.osIndex.Some? && o.osIndex.value >= 0
  }

  /** The path continues `above` with a path of the forest that ends at a unit. */
  ghost predicate Leads(os: seq<Obj>, n: nat, above: seq<Obj>, path: seq<Obj>)
    requires n <= |os|
  {
    exists down :: path == above + down && IsPath(os[..n], down) && EndsAtUnit(down)
  }

  lemma {:induction false} PlaceLeads(o: Obj, above: Place, k: Counter, at: Place)
    requires at in Places(o, above, k)
    ensures Leads([o], 1, above.path, at.path)
    decreases o, 0
  {
    var below := Below(above, o, k);
    if at in PlaceHere(o, above, k) {
      assert at.path == above.path + [o] && IsPath([o][..1], [o]) && EndsAtUnit([o]);
    } else {
      ChildLeads(o.children, |o.children|, below, Passed(o, k), at);
      var down :| at.path == below.path + down && IsPath(o.children[..|o.children|], down) && EndsAtUnit(down);
      assert o.children[..|o.children|] == o.children;
      assert at.path == above.path + ([o] + down);
      assert IsPath([o][..1], [o] + down) && EndsAtUnit([o] + down);
    }
  }

  lemma {:induction false} ChildLeads(os: seq<Obj>, n: nat, above: Place, k: Counter, at: Place)
    requires n <= |os| && at in PlacesOf(os, n, above, k)
    ensures Leads(os, n, above.path, at.path)
    decreases os, n
  {
    if at in PlacesOf(os, n - 1, above, k) {
      ChildLeads(os, n - 1, above, k, at);
      var down :| at.path == above.path + down && IsPath(os[..n - 1], down) && EndsAtUnit(down);
      assert down[0] in os[..n];
    } else {
      PlaceLeads(os[n - 1], above, NextCoreOf(os, n - 1, k), at);
      var down :| at.path == above.path + down && IsPath([os[n - 1]][..1], down) && EndsAtUnit(down);
      assert os[..n][n - 1] == down[0];
    }
  }

  lemma TailPath(o: Obj, down: seq<Obj>)
    requires IsPath([o], down) && EndsAtUnit(down) && |down| > 1
    ensures down == [o] + down[1..] && IsPath(o.children, down[1..]) && EndsAtUnit(down[1..])
  {
    var rest := down[1..];
    assert down[0 + 1] in down[0].children;
    forall i | 0 <= i < |rest| - 1
      ensures rest[i + 1] in rest[i].children
    {
      assert down[(i + 1) + 1] in down[i + 1].children;
    }
  }

  lemma {:induction false} PathPlaced(o: Obj, above: Place, k: Counter, down: seq<Obj>)
    requires IsPath([o], down) && EndsAtUnit(down)
    ensures exists at :: at in Places(o, above, k) && at.path == above.path + down
    decreases o, 0
  {
    var below := Below(above, o, k);
    if |down| == 1 {
      assert down == [o] && below in PlaceHere(o, above, k);
      assert below in Places(o, above, k);
    } else {
      var rest := down[1..];
      TailPath(o, down);
      var i :| 0 <= i < |o.children| && o.children[i] == rest[0];
      ChildPlaced(o.children, |o.children|, i, below, Passed(o, k), rest);
      var at :| at in PlacesOf(o.children, |o.children|, below, Passed(o, k)) && at.path == below.path + rest;
      assert at.path == above.path + down && at in Places(o, above, k);
    }
  }

  lemma {:induction false} ChildPlaced(os: seq<Obj>, n: nat, i: nat, above: Place, k: Counter, down: seq<Obj>)
    requires i < n <= |os| && IsPath(os, down) && down[0] == os[i] && EndsAtUnit(down)
    ensures exists at :: at in PlacesOf(os, n, above, k) && at.path == above.path + down
    decreases os, n
  {
    if i == n - 1 {
      PathPlaced(os[i], above, NextCoreOf(os, i, k), down);
      var at :| at in Places(os[i], above, NextCoreOf(os, i, k)) && at.path == above.path + down;
      assert at in PlacesOf(os, n, above, k);
    } else {
      ChildPlaced(os, n - 1, i, above, k, down);
      var at :| at in PlacesOf(os, n - 1, above, k) && at.path == above.path + down;
      assert at in PlacesOf(os, n, above, k);
    }
  }

  lemma UnitHasPath(roots: seq<Obj>, at: Place)
    requires at in UnitsOf(roots)
    ensures IsPath(roots, at.path) && EndsAtUnit(at.path)
  {
    ChildLeads(roots, |roots|, ROOT, START, at);
    var down :| at.path == ROOT.path + down && IsPath(roots[..|roots|], down) && EndsAtUnit(down);
    assert roots[..|roots|] == roots;
    assert down == at.path;
  }

  lemma PathHasUnit(roots: seq<Obj>, path: seq<Obj>) returns (at: Place)
    requires IsPath(roots, path) && EndsAtUnit(path)
    ensures at in UnitsOf(roots) && at.path == path
  {
    var i :| 0 <= i < |roots| && roots[i] == path[0];
    ChildPlaced(roots, |roots|, i, ROOT, START, path);
    assert [] + path == path;
    at :| at in UnitsOf(roots) && at.path == path;
  }

  /** The recorded units are exactly the processing units of the document that have a non-negative index. */
  lemma UnitPathsIff(roots: seq<Obj>, path: seq<Obj>)
    ensures (exists at :: at in UnitsOf(roots) && at.path == path) <==> IsPath(roots, path) && EndsAtUnit(path)
  {
    if at :| at in UnitsOf(roots) && at.path == path {
      UnitHasPath(roots, at);
    }
    if IsPath(roots, path) && EndsAtUnit(path) {
      var at := PathHasUnit(roots, path);
    }
  }

  // What a unit takes from the objects around it -----------------------------------------------------

  ghost predicate IndexedOf(o: Obj, kind: Kind) {
    o.kind == kind && o.osIndex.Some?
  }

  /** `v` is the index of the last object of that kind on the path that has one, or -1 if none has. */
  ghost predicate IsNearest(path: seq<Obj>, kind: Kind, v: int) {
    if exists i :: 0 <= i < |path| && IndexedOf(path[i], kind)
    then exists i :: LastOf(path, kind, i) && v == path[i].osIndex.value
    else v == -1
  }

  ghost predicate LastOf(path: seq<Obj>, kind: Kind, i: int) {
    0 <= i < |path| && IndexedOf(path[i], kind) && forall j :: i < j < |path| ==> !IndexedOf(path[j], kind)
  }

  lemma {:induction false} NearestIndexIs(path: seq<Obj>, kind: Kind)
    ensures IsNearest(path, kind, NearestIndex(path, kind))
  {
    if path != [] {
      var n := |path| - 1;
      if IndexedOf(path[n], kind) {
        assert LastOf(path, kind, n);
      } else {
        var front := path[..n];
        NearestIndexIs(front, kind);
        assert forall j :: 0 <= j < n ==> front[j] == path[j];
        if i :| 0 <= i < |front| && IndexedOf(front[i], kind) {
          assert IndexedOf(path[i], kind);
          var m :| LastOf(front, kind, m) && NearestIndex(path, kind) == front[m].osIndex.value;
          assert LastOf(path, kind, m);
        }
      }
    }
  }

  /** There is only one nearest index. */
  lemma NearestUnique(path: seq<Obj>, kind: Kind, v: int)
    requires IsNearest(path, kind, v)
    ensures v == NearestIndex(path, kind)
  {
    NearestIndexIs(path, kind);
    if exists i :: 0 <= i < |path| && IndexedOf(path[i], kind) {
      var i :| LastOf(path, kind, i) && v == path[i].osIndex.value;
      var j :| LastOf(path, kind, j) && NearestIndex(path, kind) == path[j].osIndex.value;
      assert i == j;
    }
  }

  function Raised(v: int): int {
    if v < 0 then 0 else v
  }

  /** The CPU says of the unit at the end of the path what the document says: its index, its node, its package. */
  ghost predicate Depicts(c: Cpu, path: seq<Obj>) {
    && EndsAtUnit(path) && c.id == path[|path| - 1].osIndex.value && c.siblings == [c.id]
    && IsNearest(path, NumaDomain, c.numaNode)
    && exists p :: IsNearest(path, Package, p) && c.packageId == if p < 0 then 0 else p
  }

  lemma RecordDepicts(roots: seq<Obj>, at: Place)
    requires at in UnitsOf(roots)
    ensures IsPath(roots, at.path) && Depicts(CpuOf(RecordAt(at)), at.path)
    ensures CpuOf(RecordAt(at)).packageId == Raised(NearestIndex(at.path, Package))
  {
    UnitHasPath(roots, at);
    NearestIndexIs(at.path, NumaDomain);
    NearestIndexIs(at.path, Package);
  }

  /** Every CPU of the imported machine depicts a unit of the document. */
  lemma CpuDepictsUnit(roots: seq<Obj>, t: Machine, i: nat) returns (path: seq<Obj>)
    requires ReadFrom(t, roots) && i < |t.cpus|
    ensures IsPath(roots, path) && Depicts(t.cpus[i], path)
  {
    var sorted :| IsSorting(sorted, RecordsAt(UnitsOf(roots)), t.cpus);
    var k := RecordOf(UnitsOf(roots), sorted, t.cpus, i);
    RecordDepicts(roots, UnitsOf(roots)[k]);
    path := UnitsOf(roots)[k].path;
  }

  /** Every indexed processing unit of the document is depicted by a CPU, and there are as many CPUs as units. */
  lemma UnitIsDepicted(roots: seq<Obj>, t: Machine, path: seq<Obj>) returns (i: nat)
    requires ReadFrom(t, roots) && IsPath(roots, path) && EndsAtUnit(path)
    ensures i < |t.cpus| == |UnitsOf(roots)| && Depicts(t.cpus[i], path)
  {
    var sorted :| IsSorting(sorted, RecordsAt(UnitsOf(roots)), t.cpus);
    assert |sorted| == |multiset(sorted)| == |RecordsAt(UnitsOf(roots))|;
    var at := PathHasUnit(roots, path);
    var k :| 0 <= k < |UnitsOf(roots)| && UnitsOf(roots)[k] == at;
    i := CpuOfUnit(UnitsOf(roots), sorted, t.cpus, k);
    RecordDepicts(roots, at);
  }

  lemma RecordOf(units: seq<Place>, sorted: seq<PuRec>, cpus: seq<Cpu>, i: nat) returns (k: nat)
    requires IsSorting(sorted, RecordsAt(units), cpus) && i < |cpus|
    ensures k < |units| && units[k] in units && cpus[i] == CpuOf(RecordAt(units[k]))
  {
    assert sorted[i] in multiset(RecordsAt(units));
    k :| 0 <= k < |units| && RecordsAt(units)[k] == sorted[i];
  }

  lemma CpuOfUnit(units: seq<Place>, sorted: seq<PuRec>, cpus: seq<Cpu>, k: nat) returns (i: nat)
    requires IsSorting(sorted, RecordsAt(units), cpus) && k < |units|
    ensures i < |cpus| && cpus[i] == CpuOf(RecordAt(units[k]))
  {
    assert RecordsAt(units)[k] in multiset(sorted);
    i :| 0 <= i < |sorted| && sorted[i] == RecordsAt(units)[k];
  }

  /** Two CPUs share a package exactly when the nearest package indices of their units, raised to zero, agree. */
  lemma SamePackageIff(a: Cpu, p: seq<Obj>, v: int, b: Cpu, q: seq<Obj>, w: int)
    requires Depicts(a, p) && Depicts(b, q) && IsNearest(p, Package, v) && IsNearest(q, Package, w)
    ensures a.packageId == b.packageId <==> Raised(v) == Raised(w)
  {
    var x :| IsNearest(p, Package, x) && a.packageId == if x < 0 then 0 else x;
    var y :| IsNearest(q, Package, y) && b.packageId == if y < 0 then 0 else y;
    NearestUnique(p, Package, v);
    NearestUnique(p, Package, x);
    NearestUnique(q, Package, w);
    NearestUnique(q, Package, y);
  }

  /** The package indices of the units, raised to zero. */
  ghost function RaisedPackages(units: seq<Place>): (r: seq<int>)
    ensures |r| == |units| && forall k :: 0 <= k < |units| ==> r[k] == Raised(NearestIndex(units[k].path, Package))
  {
    seq(|units|, k requires 0 <= k < |units| => Raised(NearestIndex(units[k].path, Package)))
  }

  lemma SortedUniqSize(xs: seq<int>)
    ensures |SortedUniq(xs)| == |ToSet(xs)|
  {
    assert ToSet(SortedUniq(xs)) == ToSet(xs);
    ToSetCardinality(SortedUniq(xs));
  }

  /** The report counts one socket per package index of the document, raised to zero. */
  lemma SocketCountIs(roots: seq<Obj>, t: Machine, h: ClusterHints)
    requires ReadFrom(t, roots) && Reports(h, t)
    ensures h.socketCount == |h.sockets| == |ToSet(RaisedPackages(UnitsOf(roots)))|
  {
    var units := UnitsOf(roots);
    var sorted :| IsSorting(sorted, RecordsAt(units), t.cpus);
    forall x: int
      ensures x in Packages(t.cpus) <==> x in RaisedPackages(units)
    {
      PackageInBoth(roots, units, sorted, t.cpus, x);
    }
    assert ToSet(Packages(t.cpus)) == ToSet(RaisedPackages(units));
    SortedUniqSize(Packages(t.cpus));
  }

  lemma PackageInBoth(roots: seq<Obj>, units: seq<Place>, sorted: seq<PuRec>, cpus: seq<Cpu>, x: int)
    requires units == UnitsOf(roots) && IsSorting(sorted, RecordsAt(units), cpus)
    ensures x in Packages(cpus) <==> x in RaisedPackages(units)
  {
    if x in Packages(cpus) {
      var i :| 0 <= i < |cpus| && Packages(cpus)[i] == x;
      var k := RecordOf(units, sorted, cpus, i);
      RecordDepicts(roots, units[k]);
      assert RaisedPackages(units)[k] == x;
    }
    if x in RaisedPackages(units) {
      var k :| 0 <= k < |units| && RaisedPackages(units)[k] == x;
      var i := CpuOfUnit(units, sorted, cpus, k);
      RecordDepicts(roots, units[k]);
      assert Packages(cpus)[i] == x;
    }
  }
}
