/**
 Physical cores in the report of a machine read from hwloc: which units end up under one (package,
 core) key, and when the number of keys is the number of cores.
 */
module CoreReport {
  import opened Collections
  import opened Text
  import opened Topology
  import opened Hwloc
  import opened HwlocCores
  import opened HwlocLaws
  import opened Hints

  // Keys and cores -------------------------------------------------------------------------------

  ghost function Pu(at: Place): int {
    RecordAt(at).pu
  }

  /** The index of the nearest package; a unit outside every package counts as in package 0. */
  ghost function Pkg(at: Place): int {
    var p := NearestIndex(at.path, Package);
    if p < 0 then 0 else p
  }

  /** The (package, core) key under which the report counts a unit. */
  ghost function Key(at: Place): (int, int) {
    (CpuOf(RecordAt(at)).packageId, CpuOf(RecordAt(at)).coreId)
  }

  /** The core a unit is really in; a unit outside every core stands for itself. */
  datatype Cell = InCore(pkg: int, pos: nat) | Bare(pkg: int, pu: int)

  ghost function CellOf(at: Place): Cell {
    if at.pos > 0 then InCore(Pkg(at), at.pos) else Bare(Pkg(at), Pu(at))
  }

  /** The number of the enclosing core, from the document's indices alone. */
  ghost function CoreIndex(doc: seq<Obj>, at: Place): int
    requires 0 < at.pos <= |doc|
  {
    Wrap(Counted(doc, at.pos))
  }

  /** The enclosing core's number is used as it is; otherwise the unit is keyed by its own index. */
  ghost predicate Seated(doc: seq<Obj>, at: Place) {
    0 < at.pos <= |doc| && CoreIndex(doc, at) >= 0
  }

  ghost function Seat(doc: seq<Obj>, at: Place): int {
    if Seated(doc, at) then CoreIndex(doc, at) else Pu(at)
  }

  lemma KeyIsSeat(doc: seq<Obj>, at: Place)
    requires Numbered(at, doc)
    ensures Key(at) == (Pkg(at), Seat(doc, at))
  {
    if at.pos > 0 {
      NumberClosedForm(doc, at.pos);
    }
  }

  // When keys and cores disagree ---------------------------------------------------------------------

  /**
   Two units of one package, in different cores, at one seat: their runs count the same number at
   their positions, or a run counts the index of a unit that is keyed by it, or both units are keyed
   by the same index.
   */
  ghost predicate Clash(doc: seq<Obj>, a: Place, b: Place) {
    && Pkg(a) == Pkg(b) && CellOf(a) != CellOf(b)
    && if Seated(doc, a) && Seated(doc, b) then (Counted(doc, a.pos) - Counted(doc, b.pos)) % TWO_64 == 0
       else if Seated(doc, a) then CoreIndex(doc, a) == Pu(b)
       else if Seated(doc, b) then CoreIndex(doc, b) == Pu(a)
       else Pu(a) == Pu(b)
  }

  /** Two units of one core that is numbered below zero, and are therefore keyed by different indices. */
  ghost predicate Split(doc: seq<Obj>, a: Place, b: Place) {
    CellOf(a) == CellOf(b) && !Seated(doc, a) && Pu(a) != Pu(b)
  }

  /** Two units share a key without sharing a core exactly when they clash. */
  lemma SharedKeyIff(doc: seq<Obj>, a: Place, b: Place)
    requires Numbered(a, doc) && Numbered(b, doc)
    ensures Key(a) == Key(b) && CellOf(a) != CellOf(b) <==> Clash(doc, a, b)
  {
    KeyIsSeat(doc, a);
    KeyIsSeat(doc, b);
    if Seated(doc, a) && Seated(doc, b) {
      WrapEqual(Counted(doc, a.pos), Counted(doc, b.pos));
    }
  }

  /** Two units share a core without sharing a key exactly when they are split. */
  lemma SharedCoreIff(doc: seq<Obj>, a: Place, b: Place)
    requires Numbered(a, doc) && Numbered(b, doc)
    ensures CellOf(a) == CellOf(b) && Key(a) != Key(b) <==> Split(doc, a, b)
  {
    KeyIsSeat(doc, a);
    KeyIsSeat(doc, b);
  }

  /** Two numbered cores clash only where two different runs meet. */
  lemma ClashMeansMeeting(doc: seq<Obj>, a: Place, b: Place)
    requires |doc| <= MAX_INT && Clash(doc, a, b) && Seated(doc, a) && Seated(doc, b)
    ensures RunStart(doc, a.pos) != RunStart(doc, b.pos) && !RunsApart(doc, RunStart(doc, a.pos), RunStart(doc, b.pos))
  {
    NumberClosedForm(doc, a.pos);
    NumberClosedForm(doc, b.pos);
    WrapEqual(Counted(doc, a.pos), Counted(doc, b.pos));
    if a.pos < b.pos {
      SharedMeansMeeting(doc, a.pos, b.pos);
    } else {
      SharedMeansMeeting(doc, b.pos, a.pos);
    }
  }

  ghost predicate NoClash(doc: seq<Obj>, units: seq<Place>) {
    forall i, j :: 0 <= i < |units| && 0 <= j < |units| ==> !Clash(doc, units[i], units[j])
  }

  ghost predicate NoSplit(doc: seq<Obj>, units: seq<Place>) {
    forall i, j :: 0 <= i < |units| && 0 <= j < |units| ==> !Split(doc, units[i], units[j])
  }

  // Counting -------------------------------------------------------------------------------------------

  ghost function Keys(units: seq<Place>): (r: seq<(int, int)>)
    ensures |r| == |units| && forall k :: 0 <= k < |units| ==> r[k] == Key(units[k])
  {
    seq(|units|, k requires 0 <= k < |units| => Key(units[k]))
  }

  ghost function Cells(units: seq<Place>): (r: seq<Cell>)
    ensures |r| == |units| && forall k :: 0 <= k < |units| ==> r[k] == CellOf(units[k])
  {
    seq(|units|, k requires 0 <= k < |units| => CellOf(units[k]))
  }

  /** Equal entries of `a` stand over equal entries of `b`. */
  ghost predicate Determines<A, B>(a: seq<A>, b: seq<B>) {
    |a| == |b| && forall i, j :: 0 <= i < |a| && 0 <= j < |a| && a[i] == a[j] ==> b[i] == b[j]
  }

  lemma SnocSet<T>(s: seq<T>, x: T)
    ensures |ToSet(s + [x])| == |ToSet(s)| + if x in s then 0 else 1
  {
    assert ToSet(s + [x]) == ToSet(s) + {x};
    if x in s {
      assert ToSet(s) + {x} == ToSet(s);
    }
  }

  /** What `a` determines has at most as many values, and as many exactly when it determines `a` in turn. */
  lemma {:induction false} DeterminedSize<A, B>(a: seq<A>, b: seq<B>)
    requires Determines(a, b)
    ensures |ToSet(b)| <= |ToSet(a)|
    ensures |ToSet(b)| == |ToSet(a)| <==> Determines(b, a)
  {
    if a != [] {
      var n := |a| - 1;
      var x, y := a[n], b[n];
      assert a == a[..n] + [x] && b == b[..n] + [y];
      DeterminedSize(a[..n], b[..n]);
      SnocSet(a[..n], x);
      SnocSet(b[..n], y);
      LastDetermined(a, b);
    }
  }

  /** Whether the last entries are new decides whether the determination still goes both ways. */
  lemma LastDetermined<A, B>(a: seq<A>, b: seq<B>)
    requires Determines(a, b) && a != []
    ensures var n := |a| - 1;
            && (a[n] in a[..n] ==> b[n] in b[..n])
            && (Determines(b, a) <==> Determines(b[..n], a[..n]) && (b[n] in b[..n] ==> a[n] in a[..n]))
  {
    var n := |a| - 1;
    if a[n] in a[..n] {
      var i :| 0 <= i < n && a[..n][i] == a[n];
      assert b[..n][i] == b[n];
    }
    if b[n] in b[..n] {
      var i :| 0 <= i < n && b[..n][i] == b[n];
      if Determines(b, a) {
        assert a[..n][i] == a[n];
      }
    }
  }

  lemma NoClashDetermines(doc: seq<Obj>, units: seq<Place>)
    requires AllNumbered(units, doc)
    ensures NoClash(doc, units) <==> Determines(Keys(units), Cells(units))
    ensures NoSplit(doc, units) <==> Determines(Cells(units), Keys(units))
  {
    forall i, j | 0 <= i < |units| && 0 <= j < |units|
      ensures Clash(doc, units[i], units[j]) <==> Keys(units)[i] == Keys(units)[j] && Cells(units)[i] != Cells(units)[j]
      ensures Split(doc, units[i], units[j]) <==> Keys(units)[i] != Keys(units)[j] && Cells(units)[i] == Cells(units)[j]
    {
      SharedKeyIff(doc, units[i], units[j]);
      SharedCoreIff(doc, units[i], units[j]);
    }
  }

  /**
   Clashes only lose cores and splits only add them: where one of the two is absent, the number of
   keys is the number of cores exactly when the other is absent as well.
   */
  lemma KeyCount(doc: seq<Obj>, units: seq<Place>)
    requires AllNumbered(units, doc)
    ensures NoSplit(doc, units) ==> |ToSet(Keys(units))| <= |ToSet(Cells(units))|
    ensures NoClash(doc, units) ==> |ToSet(Cells(units))| <= |ToSet(Keys(units))|
    ensures NoSplit(doc, units) || NoClash(doc, units) ==>
              (|ToSet(Keys(units))| == |ToSet(Cells(units))| <==> NoSplit(doc, units) && NoClash(doc, units))
  {
    NoClashDetermines(doc, units);
    if NoSplit(doc, units) {
      DeterminedSize(Cells(units), Keys(units));
    }
    if NoClash(doc, units) {
      DeterminedSize(Keys(units), Cells(units));
    }
  }

  // The report ---------------------------------------------------------------------------------------------

  /** The units of one package. */
  ghost function InPackage(units: seq<Place>, pkg: int): seq<Place> {
    if units == [] then []
    else
      var at := units[|units| - 1];
      InPackage(units[..|units| - 1], pkg) + if Pkg(at) == pkg then [at] else []
  }

  lemma {:induction false} InPackageMembers(units: seq<Place>, pkg: int, at: Place)
    ensures at in InPackage(units, pkg) <==> at in units && Pkg(at) == pkg
  {
    if units != [] {
      var front, last := units[..|units| - 1], units[|units| - 1];
      assert units == front + [last];
      InPackageMembers(front, pkg, at);
    }
  }

  lemma KeyOfCpu(units: seq<Place>, sorted: seq<PuRec>, cpus: seq<Cpu>, i: nat)
    requires IsSorting(sorted, RecordsAt(units), cpus) && i < |cpus|
    ensures exists k :: 0 <= k < |units| && Key(units[k]) == (cpus[i].packageId, cpus[i].coreId)
  {
    assert sorted[i] in multiset(RecordsAt(units));
    var k :| 0 <= k < |units| && RecordsAt(units)[k] == sorted[i];
    assert cpus[i] == CpuOf(RecordAt(units[k]));
  }

  lemma CpuOfKey(units: seq<Place>, sorted: seq<PuRec>, cpus: seq<Cpu>, k: nat)
    requires IsSorting(sorted, RecordsAt(units), cpus) && k < |units|
    ensures Key(units[k]) in CoreKeys(cpus)
  {
    assert RecordsAt(units)[k] in multiset(sorted);
    var i :| 0 <= i < |sorted| && sorted[i] == RecordsAt(units)[k];
    assert cpus[i] == CpuOf(RecordAt(units[k]));
  }

  lemma KeysOfCpus(units: seq<Place>, sorted: seq<PuRec>, cpus: seq<Cpu>, key: (int, int))
    requires IsSorting(sorted, RecordsAt(units), cpus)
    ensures key in CoreKeys(cpus) <==> key in Keys(units)
  {
    if key in CoreKeys(cpus) {
      var i :| 0 <= i < |cpus| && (cpus[i].packageId, cpus[i].coreId) == key;
      KeyOfCpu(units, sorted, cpus, i);
      var k :| 0 <= k < |units| && Key(units[k]) == key;
      assert Keys(units)[k] == key;
    }
    if key in Keys(units) {
      var k :| 0 <= k < |units| && Keys(units)[k] == key;
      CpuOfKey(units, sorted, cpus, k);
    }
  }

  /** A key is reported exactly if some unit of the document has it. */
  lemma ReportedKeys(roots: seq<Obj>, t: Machine)
    requires ReadFrom(t, roots)
    ensures CoreKeys(t.cpus) == ToSet(Keys(UnitsOf(roots)))
  {
    var sorted :| IsSorting(sorted, RecordsAt(UnitsOf(roots)), t.cpus);
    forall key: (int, int)
      ensures key in CoreKeys(t.cpus) <==> key in Keys(UnitsOf(roots))
    {
      KeysOfCpus(UnitsOf(roots), sorted, t.cpus, key);
    }
  }

  lemma KeysMember(units: seq<Place>, key: (int, int))
    ensures key in Keys(units) <==> exists at :: at in units && Key(at) == key
  {
    if key in Keys(units) {
      var k :| 0 <= k < |units| && Keys(units)[k] == key;
      assert units[k] in units;
    }
    if at :| at in units && Key(at) == key {
      var k :| 0 <= k < |units| && units[k] == at;
      assert Keys(units)[k] == key;
    }
  }

  /** What the report counts for a package: the keys of its units. */
  lemma SocketKeys(roots: seq<Obj>, t: Machine, pkg: int)
    requires ReadFrom(t, roots)
    ensures CoresIn(CoreKeys(t.cpus), pkg) == ToSet(Keys(InPackage(UnitsOf(roots), pkg)))
  {
    var units := UnitsOf(roots);
    ReportedKeys(roots, t);
    forall key: (int, int)
      ensures key in CoresIn(CoreKeys(t.cpus), pkg) <==> key in Keys(InPackage(units, pkg))
    {
      KeysMember(units, key);
      KeysMember(InPackage(units, pkg), key);
      if at :| at in units && Key(at) == key {
        InPackageMembers(units, pkg, at);
      }
      if at :| at in InPackage(units, pkg) && Key(at) == key {
        InPackageMembers(units, pkg, at);
      }
    }
  }

  lemma PackageNumbered(roots: seq<Obj>, pkg: int)
    ensures AllNumbered(InPackage(UnitsOf(roots), pkg), Document(roots))
  {
    var units, part := UnitsOf(roots), InPackage(UnitsOf(roots), pkg);
    RecordsNumbered(roots);
    forall k | 0 <= k < |part|
      ensures Numbered(part[k], Document(roots)) && EndsInUnit(part[k])
    {
      InPackageMembers(units, pkg, part[k]);
      var m :| 0 <= m < |units| && units[m] == part[k];
    }
  }

  /**
   The physical cores reported for a socket, against the cores the document has in it: clashes lose
   cores, splits add some, and where one of the two is absent the report is right exactly when the
   other is absent as well.
   */
  lemma SocketCoresRightIff(roots: seq<Obj>, t: Machine, h: ClusterHints, i: nat)
    requires ReadFrom(t, roots) && Reports(h, t) && i < |h.sockets|
    ensures var doc, units := Document(roots), InPackage(UnitsOf(roots), h.sockets[i].packageId);
            && (NoSplit(doc, units) ==> h.sockets[i].physicalCores <= |ToSet(Cells(units))|)
            && (NoClash(doc, units) ==> h.sockets[i].physicalCores >= |ToSet(Cells(units))|)
            && (NoSplit(doc, units) || NoClash(doc, units) ==>
                  (h.sockets[i].physicalCores == |ToSet(Cells(units))| <==> NoSplit(doc, units) && NoClash(doc, units)))
  {
    var pkg := h.sockets[i].packageId;
    SocketKeys(roots, t, pkg);
    PackageNumbered(roots, pkg);
    KeyCount(Document(roots), InPackage(UnitsOf(roots), pkg));
  }

  ghost predicate KeysMatchCores(units: seq<Place>) {
    forall i, j :: 0 <= i < |units| && 0 <= j < |units| ==>
      (Key(units[i]) == Key(units[j]) <==> CellOf(units[i]) == CellOf(units[j]))
  }

  /** Keys and cores of a package match one to one exactly when no two of its units clash or are split. */
  lemma KeysMatchCoresIff(roots: seq<Obj>, pkg: int)
    ensures var doc, units := Document(roots), InPackage(UnitsOf(roots), pkg);
            KeysMatchCores(units) <==> NoClash(doc, units) && NoSplit(doc, units)
  {
    var units := InPackage(UnitsOf(roots), pkg);
    PackageNumbered(roots, pkg);
    NoClashDetermines(Document(roots), units);
    MatchIsBothWays(units);
  }

  lemma MatchIsBothWays(units: seq<Place>)
    ensures KeysMatchCores(units) <==> Determines(Keys(units), Cells(units)) && Determines(Cells(units), Keys(units))
  {
    assert forall i :: 0 <= i < |units| ==> Keys(units)[i] == Key(units[i]) && Cells(units)[i] == CellOf(units[i]);
  }

  /** Two units in cores numbered from zero up, in one run or in runs that do not meet. */
  ghost predicate InRunsApart(doc: seq<Obj>, a: Place, b: Place) {
    && Seated(doc, a) && Seated(doc, b)
    && var s, t := RunStart(doc, a.pos), RunStart(doc, b.pos);
       s == t || RunsApart(doc, s, t)
  }

  lemma ApartIsRight(doc: seq<Obj>, a: Place, b: Place)
    requires |doc| <= MAX_INT && InRunsApart(doc, a, b)
    ensures !Clash(doc, a, b) && !Split(doc, a, b)
  {
    if Clash(doc, a, b) {
      ClashMeansMeeting(doc, a, b);
    }
  }

  ghost predicate AllApart(doc: seq<Obj>, units: seq<Place>) {
    forall i, j :: 0 <= i < |units| && 0 <= j < |units| ==> InRunsApart(doc, units[i], units[j])
  }

  lemma AllApartIsRight(doc: seq<Obj>, units: seq<Place>)
    requires |doc| <= MAX_INT && AllApart(doc, units)
    ensures NoClash(doc, units) && NoSplit(doc, units)
  {
    forall i, j | 0 <= i < |units| && 0 <= j < |units|
      ensures !Clash(doc, units[i], units[j]) && !Split(doc, units[i], units[j])
    {
      ApartIsRight(doc, units[i], units[j]);
    }
  }

  /** A package whose units are all in cores numbered from zero up, in runs that do not meet, is reported right. */
  lemma RunsApartMeansRight(roots: seq<Obj>, pkg: int)
    requires |Document(roots)| <= MAX_INT && AllApart(Document(roots), InPackage(UnitsOf(roots), pkg))
    ensures KeysMatchCores(InPackage(UnitsOf(roots), pkg))
  {
    AllApartIsRight(Document(roots), InPackage(UnitsOf(roots), pkg));
    KeysMatchCoresIff(roots, pkg);
  }

  // Documents on which the report is wrong ------------------------------------------------------------------------

  ghost function UnitIn(pkg: Obj, core: Obj, pu: Obj, n: int, pos: nat): Place {
    Place([] + [pkg] + [core] + [pu], n, pos)
  }

  lemma Leaf(pu: Obj, above: Place, k: Counter)
    requires IsPu(pu) && pu.children == []
    ensures Places(pu, above, k) == [Below(above, pu, k)] && NextCore(pu, k) == k && Cores(pu) == []
  {
    assert PlacesOf(pu.children, 0, Below(above, pu, k), k) == [] && CoresOf(pu.children, 0) == [];
  }

  lemma OneChild(o: Obj, above: Place, k: Counter)
    requires |o.children| == 1
    ensures Places(o, above, k) == PlaceHere(o, above, k) + Places(o.children[0], Below(above, o, k), Passed(o, k))
    ensures NextCore(o, k) == NextCore(o.children[0], Passed(o, k)) && Cores(o) == CoreHere(o) + Cores(o.children[0])
  {
    var os, at, m := o.children, Below(above, o, k), Passed(o, k);
    assert PlacesOf(os, 1, at, m) == PlacesOf(os, 0, at, m) + Places(os[0], at, NextCoreOf(os, 0, m));
    assert NextCoreOf(os, 1, m) == NextCore(os[0], NextCoreOf(os, 0, m));
    assert CoresOf(os, 1) == CoresOf(os, 0) + Cores(os[0]);
  }

  lemma TwoChildren(o: Obj, above: Place, k: Counter)
    requires |o.children| == 2
    ensures var os, at, m := o.children, Below(above, o, k), Passed(o, k);
            && Places(o, above, k) == PlaceHere(o, above, k) + (Places(os[0], at, m) + Places(os[1], at, NextCore(os[0], m)))
            && Cores(o) == CoreHere(o) + (Cores(os[0]) + Cores(os[1]))
  {
    var os, at, m := o.children, Below(above, o, k), Passed(o, k);
    assert PlacesOf(os, 1, at, m) == PlacesOf(os, 0, at, m) + Places(os[0], at, NextCoreOf(os, 0, m));
    assert NextCoreOf(os, 1, m) == NextCore(os[0], NextCoreOf(os, 0, m));
    assert CoresOf(os, 1) == CoresOf(os, 0) + Cores(os[0]);
    assert PlacesOf(os, 2, at, m) == PlacesOf(os, 1, at, m) + Places(os[1], at, NextCoreOf(os, 1, m));
    assert CoresOf(os, 2) == CoresOf(os, 1) + Cores(os[1]);
  }

  lemma OneRoot(o: Obj)
    ensures UnitsOf([o]) == Places(o, ROOT, START) && Document([o]) == Cores(o)
  {
    assert PlacesOf([o], 1, ROOT, START) == PlacesOf([o], 0, ROOT, START) + Places(o, ROOT, NextCoreOf([o], 0, START));
    assert CoresOf([o], 1) == CoresOf([o], 0) + Cores(o);
  }

  lemma CoreWithUnit(core: Obj, pu: Obj, above: Place, k: Counter)
    requires core.kind.Core? && core.children == [pu] && IsPu(pu) && pu.children == []
    ensures Places(core, above, k) == [Place(above.path + [core] + [pu], Deref(core.osIndex, k.next), k.passed + 1)]
    ensures NextCore(core, k) == Passed(core, k) && Cores(core) == [core]
  {
    OneChild(core, above, k);
    Leaf(pu, Below(above, core, k), Passed(core, k));
  }

  /** A package of two cores with one unit each. */
  lemma TwoCores(pkg: Obj, a: Obj, b: Obj, p: Obj, q: Obj)
    requires pkg.kind.Package? && pkg.children == [a, b] && a.kind.Core? && b.kind.Core? && a.children == [p] && b.children == [q]
    requires IsPu(p) && IsPu(q) && p.children == [] && q.children == []
    ensures var m := Deref(a.osIndex, 0);
            && UnitsOf([pkg]) == [UnitIn(pkg, a, p, m, 1), UnitIn(pkg, b, q, Deref(b.osIndex, Inc(m)), 2)]
            && Document([pkg]) == [a, b]
  {
    var at := Below(ROOT, pkg, START);
    var k := Passed(a, START);
    OneRoot(pkg);
    TwoChildren(pkg, ROOT, START);
    CoreWithUnit(a, p, at, START);
    CoreWithUnit(b, q, at, k);
  }

  /** A package of one core with two units. */
  lemma OneCore(pkg: Obj, a: Obj, p: Obj, q: Obj)
    requires pkg.kind.Package? && pkg.children == [a] && a.kind.Core? && a.children == [p, q]
    requires IsPu(p) && IsPu(q) && p.children == [] && q.children == []
    ensures var m := Deref(a.osIndex, 0);
            UnitsOf([pkg]) == [UnitIn(pkg, a, p, m, 1), UnitIn(pkg, a, q, m, 1)] && Document([pkg]) == [a]
  {
    var at := Below(ROOT, pkg, START);
    var k := Passed(a, START);
    OneRoot(pkg);
    OneChild(pkg, ROOT, START);
    TwoChildren(a, at, START);
    Leaf(p, Below(at, a, START), k);
    Leaf(q, Below(at, a, START), k);
  }

  lemma UnitKey(pkg: Obj, core: Obj, pu: Obj, n: int, pos: nat)
    requires pkg.kind.Package? && pkg.osIndex == Some(0) && core.kind.Core? && IsPu(pu)
    ensures Key(UnitIn(pkg, core, pu, n, pos)) == (0, if n < 0 then pu.osIndex.value else n)
  {
    PathStep([], pkg, Package);
    PathStep([] + [pkg], core, Package);
    PathStep([] + [pkg] + [core], pu, Package);
  }

  lemma ReportsTwo(roots: seq<Obj>, t: Machine, a: Place, b: Place)
    requires ReadFrom(t, roots) && UnitsOf(roots) == [a, b]
    ensures CoreKeys(t.cpus) == {Key(a), Key(b)}
  {
    ReportedKeys(roots, t);
    assert Keys([a, b]) == [Key(a), Key(b)];
  }

  function Unit(i: int64): Obj {
    Obj(ProcessingUnit, Some(i), [])
  }

  /** A core without an index followed by one with index 0, in one package: two cores, reported as one. */
  lemma MixedCoresCollapse() returns (roots: seq<Obj>)
    ensures |Document(roots)| == 2 && forall t :: ReadFrom(t, roots) ==> CoreKeys(t.cpus) == {(0, 0)}
  {
    var a, b := Obj(Core, None, [Unit(0)]), Obj(Core, Some(0), [Unit(1)]);
    var pkg := Obj(Package, Some(0), [a, b]);
    roots := [pkg];
    TwoCores(pkg, a, b, Unit(0), Unit(1));
    UnitKey(pkg, a, Unit(0), 0, 1);
    UnitKey(pkg, b, Unit(1), 0, 2);
    forall t | ReadFrom(t, roots)
      ensures CoreKeys(t.cpus) == {(0, 0)}
    {
      ReportsTwo(roots, t, UnitIn(pkg, a, Unit(0), 0, 1), UnitIn(pkg, b, Unit(1), 0, 2));
    }
  }

  /** A core with a negative index is keyed by its unit, which can be the index of another core: again two as one. */
  lemma NegativeIndexCollapses() returns (roots: seq<Obj>)
    ensures |Document(roots)| == 2 && forall t :: ReadFrom(t, roots) ==> CoreKeys(t.cpus) == {(0, 5)}
  {
    var a, b := Obj(Core, Some(-1), [Unit(5)]), Obj(Core, Some(5), [Unit(7)]);
    var pkg := Obj(Package, Some(0), [a, b]);
    roots := [pkg];
    TwoCores(pkg, a, b, Unit(5), Unit(7));
    UnitKey(pkg, a, Unit(5), -1, 1);
    UnitKey(pkg, b, Unit(7), 5, 2);
    forall t | ReadFrom(t, roots)
      ensures CoreKeys(t.cpus) == {(0, 5)}
    {
      ReportsTwo(roots, t, UnitIn(pkg, a, Unit(5), -1, 1), UnitIn(pkg, b, Unit(7), 5, 2));
    }
  }

  /** A core with a negative index and two units: one core, reported as two. */
  lemma NegativeIndexSplits() returns (roots: seq<Obj>)
    ensures |Document(roots)| == 1 && forall t :: ReadFrom(t, roots) ==> CoreKeys(t.cpus) == {(0, 5), (0, 6)}
  {
    var a := Obj(Core, Some(-1), [Unit(5), Unit(6)]);
    var pkg := Obj(Package, Some(0), [a]);
    roots := [pkg];
    OneCore(pkg, a, Unit(5), Unit(6));
    UnitKey(pkg, a, Unit(5), -1, 1);
    UnitKey(pkg, a, Unit(6), -1, 1);
    forall t | ReadFrom(t, roots)
      ensures CoreKeys(t.cpus) == {(0, 5), (0, 6)}
    {
      ReportsTwo(roots, t, UnitIn(pkg, a, Unit(5), -1, 1), UnitIn(pkg, a, Unit(6), -1, 1));
    }
  }
}
