/**
 How the walk numbers cores: an indexed core keeps its index, any other one continues from the
 core before it in the document, and mixing the two can give different cores the same number.
 */
module HwlocCores {
  import opened Collections
  import opened Text
  import opened Hwloc

  // The numbering, from the document alone --------------------------------------------------------

  /** The cores of a tree in document order. */
  ghost function Cores(o: Obj): seq<Obj>
    decreases o, 0
  {
    CoreHere(o) + CoresOf(o.children, |o.children|)
  }

  ghost function CoreHere(o: Obj): seq<Obj> {
    if o.kind.Core? then [o] else []
  }

  /** The cores of the first `n` trees. */
  ghost function CoresOf(os: seq<Obj>, n: nat): seq<Obj>
    requires n <= |os|
    decreases os, n
  {
    if n == 0 then [] else CoresOf(os, n - 1) + Cores(os[n - 1])
  }

  /** The number of the k-th core, counting from one: its index, or else one more than the core before it. */
  ghost function Number(doc: seq<Obj>, k: nat): int
    requires k <= |doc|
  {
    if k == 0 then -1 else Deref(doc[k - 1].osIndex, Inc(Number(doc, k - 1)))
  }

  /** The innermost core on the path, with or without an index. */
  ghost function InnermostCore(path: seq<Obj>): Option<Obj> {
    if path == [] then None
    else if path[|path| - 1].kind.Core? then Some(path[|path| - 1])
    else InnermostCore(path[..|path| - 1])
  }

  /** The place carries the position and the number of the innermost core on its path, or 0 and -1 if there is none. */
  ghost predicate Numbered(at: Place, doc: seq<Obj>) {
    && at.pos <= |doc| && at.core == Number(doc, at.pos)
    && InnermostCore(at.path) == if at.pos == 0 then None else Some(doc[at.pos - 1])
  }

  /** The counter after the cores of `doc`. */
  ghost function After(doc: seq<Obj>): Counter {
    Counter(Inc(Number(doc, |doc|)), |doc|)
  }

  // The walk follows it ---------------------------------------------------------------------------------

  lemma {:induction false} NumberOfPrefix(doc: seq<Obj>, more: seq<Obj>, k: nat)
    requires k <= |doc|
    ensures Number(doc + more, k) == Number(doc, k)
  {
    if k > 0 {
      NumberOfPrefix(doc, more, k - 1);
    }
  }

  lemma NumberedGrows(at: Place, doc: seq<Obj>, more: seq<Obj>)
    requires Numbered(at, doc)
    ensures Numbered(at, doc + more)
  {
    NumberOfPrefix(doc, more, at.pos);
  }

  lemma PassCore(o: Obj, doc: seq<Obj>)
    requires o.kind.Core?
    ensures Number(doc + [o], |doc| + 1) == Deref(o.osIndex, Inc(Number(doc, |doc|)))
    ensures Passed(o, After(doc)) == After(doc + [o])
  {
    NumberOfPrefix(doc, [o], |doc|);
    assert (doc + [o])[|doc|] == o;
  }

  lemma InnermostStep(path: seq<Obj>, o: Obj)
    ensures InnermostCore(path + [o]) == if o.kind.Core? then Some(o) else InnermostCore(path)
  {
    assert (path + [o])[..|path|] == path;
  }

  /** Entering `o`: its place is numbered, and the counter is one past the last core's number. */
  lemma EnterNumbered(o: Obj, above: Place, doc: seq<Obj>)
    requires Numbered(above, doc)
    ensures Numbered(Below(above, o, After(doc)), doc + CoreHere(o)) && Passed(o, After(doc)) == After(doc + CoreHere(o))
  {
    InnermostStep(above.path, o);
    if o.kind.Core? {
      PassCore(o, doc);
      assert (doc + [o])[|doc|] == o;
    } else {
      assert doc + CoreHere(o) == doc;
    }
  }

  ghost predicate EndsInUnit(at: Place) {
    at.path != [] && IsPu(at.path[|at.path| - 1])
  }

  ghost predicate AllNumbered(places: seq<Place>, doc: seq<Obj>) {
    forall k :: 0 <= k < |places| ==> Numbered(places[k], doc) && EndsInUnit(places[k])
  }

  lemma AllNumberedGrows(places: seq<Place>, doc: seq<Obj>, more: seq<Obj>)
    requires AllNumbered(places, doc)
    ensures AllNumbered(places, doc + more)
  {
    forall k | 0 <= k < |places|
      ensures Numbered(places[k], doc + more)
    {
      NumberedGrows(places[k], doc, more);
    }
  }

  /** Places numbered by part of the document, then places numbered by a longer part. */
  lemma JoinNumbered(done: seq<Place>, more: seq<Place>, doc: seq<Obj>, a: seq<Obj>, b: seq<Obj>)
    requires AllNumbered(done, doc + a) && AllNumbered(more, doc + a + b)
    ensures doc + a + b == doc + (a + b) && AllNumbered(done + more, doc + (a + b))
  {
    AllNumberedGrows(done, doc + a, b);
    assert doc + a + b == doc + (a + b);
  }

  lemma {:induction false} PlacesNumbered(o: Obj, above: Place, doc: seq<Obj>)
    requires Numbered(above, doc)
    ensures AllNumbered(Places(o, above, After(doc)), doc + Cores(o)) && NextCore(o, After(doc)) == After(doc + Cores(o))
    decreases o, 0
  {
    var k, n := After(doc), |o.children|;
    var at := Below(above, o, k);
    EnterNumbered(o, above, doc);
    ChildrenNumbered(o.children, n, at, doc + CoreHere(o));
    JoinNumbered(PlaceHere(o, above, k), PlacesOf(o.children, n, at, Passed(o, k)), doc, CoreHere(o), CoresOf(o.children, n));
  }

  lemma {:induction false} ChildrenNumbered(os: seq<Obj>, n: nat, above: Place, doc: seq<Obj>)
    requires Numbered(above, doc) && n <= |os|
    ensures AllNumbered(PlacesOf(os, n, above, After(doc)), doc + CoresOf(os, n))
    ensures NextCoreOf(os, n, After(doc)) == After(doc + CoresOf(os, n))
    decreases os, n
  {
    if n == 0 {
      assert doc + [] == doc;
    } else {
      var before := doc + CoresOf(os, n - 1);
      ChildrenNumbered(os, n - 1, above, doc);
      NumberedGrows(above, doc, CoresOf(os, n - 1));
      PlacesNumbered(os[n - 1], above, before);
      JoinNumbered(PlacesOf(os, n - 1, above, After(doc)), Places(os[n - 1], above, After(before)),
                   doc, CoresOf(os, n - 1), Cores(os[n - 1]));
    }
  }

  /** All cores of a document in order. */
  ghost function Document(roots: seq<Obj>): seq<Obj> {
    CoresOf(roots, |roots|)
  }

  /**
   Every record is of an indexed unit, and its core is the number, in document order, of the very
   core that most closely encloses the unit.
   */
  lemma RecordsNumbered(roots: seq<Obj>)
    ensures AllNumbered(UnitsOf(roots), Document(roots))
  {
    assert START == After([]);
    ChildrenNumbered(roots, |roots|, ROOT, []);
    assert [] + CoresOf(roots, |roots|) == CoresOf(roots, |roots|);
  }

  // The numbers in closed form ------------------------------------------------------------------------

  /** The k-th core starts a run: it is the first or has an index of its own. */
  ghost predicate Starts(doc: seq<Obj>, k: nat)
    requires 0 < k <= |doc|
  {
    k == 1 || doc[k - 1].osIndex.Some?
  }

  /** The start of the run the k-th core is in. */
  ghost function RunStart(doc: seq<Obj>, k: nat): (s: nat)
    requires 0 < k <= |doc|
    ensures 0 < s <= k && Starts(doc, s) && forall m :: s < m <= k ==> !Starts(doc, m)
  {
    if Starts(doc, k) then k else RunStart(doc, k - 1)
  }

  /** The last core of the run the k-th core is in. */
  ghost function RunLast(doc: seq<Obj>, k: nat): (e: nat)
    requires 0 < k <= |doc|
    ensures k <= e <= |doc| && (forall m :: k < m <= e ==> !Starts(doc, m)) && (e < |doc| ==> Starts(doc, e + 1))
    decreases |doc| - k
  {
    if k == |doc| || Starts(doc, k + 1) then k else RunLast(doc, k + 1)
  }

  ghost function RunLength(doc: seq<Obj>, s: nat): (n: nat)
    requires 0 < s <= |doc|
    ensures 0 < n <= |doc|
  {
    RunLast(doc, s) - s + 1
  }

  /** The number a run starts with: the index of its first core, or 0. */
  ghost function First(doc: seq<Obj>, s: nat): int
    requires 0 < s <= |doc|
  {
    Deref(doc[s - 1].osIndex, 0)
  }

  /** Before wrap-around: the first number of the run, plus the distance from its start. */
  ghost function Counted(doc: seq<Obj>, k: nat): int
    requires 0 < k <= |doc|
  {
    First(doc, RunStart(doc, k)) + (k - RunStart(doc, k))
  }

  /** The k-th core's number follows from the nearest index at or before it. */
  lemma {:induction false} NumberClosedForm(doc: seq<Obj>, k: nat)
    requires 0 < k <= |doc|
    ensures Number(doc, k) == Wrap(Counted(doc, k))
  {
    if !Starts(doc, k) {
      NumberClosedForm(doc, k - 1);
      IncWrap(Counted(doc, k - 1));
    } else if k == 1 {
      assert Number(doc, 0) == -1;
    }
  }

  /** Without any index the k-th core is number k - 1. */
  lemma {:induction false} UnindexedInOrder(doc: seq<Obj>, k: nat)
    requires k <= |doc| && k <= MAX_INT && forall m :: 0 <= m < |doc| ==> doc[m].osIndex.None?
    ensures Number(doc, k) == k - 1
  {
    if k > 0 {
      UnindexedInOrder(doc, k - 1);
    }
  }

  lemma InRun(doc: seq<Obj>, s: nat, k: nat)
    requires 0 < s <= k <= |doc| && Starts(doc, s) && k <= RunLast(doc, s)
    ensures RunStart(doc, k) == s
  {
    var r := RunStart(doc, k);
    assert r <= s <= r;
  }

  lemma WithinRun(doc: seq<Obj>, k: nat)
    requires 0 < k <= |doc|
    ensures k - RunStart(doc, k) < RunLength(doc, RunStart(doc, k))
  {
    assert k <= RunLast(doc, RunStart(doc, k));
  }

  // When two cores share a number ----------------------------------------------------------------------

  /** How far `y` lies behind `x`, counting upwards with wrap-around. */
  function Ahead(x: int, y: int): nat {
    (y - x) % TWO_64
  }

  /** The numbers counted by two runs do not meet. */
  ghost predicate RunsApart(doc: seq<Obj>, s: nat, t: nat)
    requires 0 < s <= |doc| && 0 < t <= |doc|
  {
    RunLength(doc, s) <= Ahead(First(doc, s), First(doc, t)) && RunLength(doc, t) <= Ahead(First(doc, t), First(doc, s))
  }

  /** Without wrap-around the runs are intervals, and apart means disjoint. */
  lemma ApartIsDisjoint(doc: seq<Obj>, s: nat, t: nat)
    requires 0 < s <= |doc| && 0 < t <= |doc|
    requires First(doc, s) + RunLength(doc, s) <= MAX_INT + 1 && First(doc, t) + RunLength(doc, t) <= MAX_INT + 1
    ensures RunsApart(doc, s, t) <==>
            First(doc, s) + RunLength(doc, s) <= First(doc, t) || First(doc, t) + RunLength(doc, t) <= First(doc, s)
  {
    var x, y := First(doc, s), First(doc, t);
    assert x <= y ==> Ahead(x, y) == y - x;
    assert y < x ==> Ahead(x, y) == TWO_64 + y - x;
    assert y <= x ==> Ahead(y, x) == x - y;
    assert x < y ==> Ahead(y, x) == TWO_64 + x - y;
  }

  lemma MeetAhead(x: int, y: int, d: nat, e: nat)
    requires (x + d - (y + e)) % TWO_64 == 0 && d < TWO_64 && e < TWO_64
    ensures d >= e ==> Ahead(x, y) == d - e
    ensures d < e ==> Ahead(y, x) == e - d
  {
  }

  /** Two cores of one run never share a number; two cores of different runs only if the runs meet. */
  lemma SharedMeansMeeting(doc: seq<Obj>, i: nat, j: nat)
    requires |doc| <= MAX_INT && 0 < i < j <= |doc| && Number(doc, i) == Number(doc, j)
    ensures RunStart(doc, i) != RunStart(doc, j) && !RunsApart(doc, RunStart(doc, i), RunStart(doc, j))
  {
    NumberClosedForm(doc, i);
    NumberClosedForm(doc, j);
    var s, t := RunStart(doc, i), RunStart(doc, j);
    WithinRun(doc, i);
    WithinRun(doc, j);
    WrapEqual(Counted(doc, i), Counted(doc, j));
    MeetAhead(First(doc, s), First(doc, t), i - s, j - t);
  }

  lemma AheadArrives(x: int, y: int)
    ensures Wrap(x + Ahead(x, y)) == Wrap(y)
  {
    WrapEqual(x + Ahead(x, y), y);
  }

  /** If run `t` starts within the numbers of run `s`, the core of `s` at that distance shares the number of `t`. */
  lemma MeetingShares(doc: seq<Obj>, s: nat, t: nat) returns (i: nat)
    requires 0 < s <= |doc| && 0 < t <= |doc| && s != t && Starts(doc, s) && Starts(doc, t)
    requires Ahead(First(doc, s), First(doc, t)) < RunLength(doc, s)
    ensures 0 < i <= |doc| && i != t && Number(doc, i) == Number(doc, t)
  {
    var x, y := First(doc, s), First(doc, t);
    i := s + Ahead(x, y);
    InRun(doc, s, i);
    InRun(doc, t, t);
    AheadArrives(x, y);
    assert Counted(doc, i) == x + Ahead(x, y) && Counted(doc, t) == y;
    NumberClosedForm(doc, i);
    NumberClosedForm(doc, t);
  }

  /** All cores of the document are numbered apart exactly when the runs that start at its indices do not meet. */
  lemma NumberedApartIff(doc: seq<Obj>)
    requires |doc| <= MAX_INT
    ensures (forall i, j :: 0 < i < j <= |doc| ==> Number(doc, i) != Number(doc, j)) <==>
            (forall s, t :: 0 < s <= |doc| && 0 < t <= |doc| && s != t && Starts(doc, s) && Starts(doc, t) ==> RunsApart(doc, s, t))
  {
    if i, j :| 0 < i < j <= |doc| && Number(doc, i) == Number(doc, j) {
      SharedMeansMeeting(doc, i, j);
    }
    if s, t :| 0 < s <= |doc| && 0 < t <= |doc| && s != t && Starts(doc, s) && Starts(doc, t) && !RunsApart(doc, s, t) {
      var front, back := if Ahead(First(doc, s), First(doc, t)) < RunLength(doc, s) then s else t,
                         if Ahead(First(doc, s), First(doc, t)) < RunLength(doc, s) then t else s;
      var i := MeetingShares(doc, front, back);
      assert i < back || back < i;
    }
  }
}
