/**
 Maximal runs of consecutive CPU ids and the text both range compactors print for them.
 */
module CpuRanges {
  import opened Collections
  import opened Text

  datatype Range = Range(lo: int, hi: int)

  // The sorted, duplicate-free list of ids -------------------------------------------------

  function Dedup(ids: seq<int>): (r: seq<int>)
    ensures Distinct(r) && forall x :: x in r <==> x in ids
  {
    if ids == [] then []
    else
      var front, x := ids[..|ids| - 1], ids[|ids| - 1];
      assert ids == front + [x];
      if x in front then Dedup(front) else Dedup(front) + [x]
  }

  /** The increasing list of the distinct ids. */
  ghost function SortedUniq(ids: seq<int>): (r: seq<int>)
    ensures StrictlySorted(r) && forall x :: x in r <==> x in ids
  {
    SortDistinct(Dedup(ids));
    SortIntsMembers(Dedup(ids));
    SortInts(Dedup(ids))
  }

  // Runs ------------------------------------------------------------------------------------

  /** `xs[m..i]` is a stretch of consecutive integers. */
  ghost predicate Consecutive(xs: seq<int>, m: nat, i: nat)
    requires m <= i <= |xs|
  {
    forall k :: m <= k < i ==> xs[k] == xs[m] + (k - m)
  }

  /** `xs[m..i]` is a stretch of consecutive integers that cannot be continued. */
  ghost predicate IsWholeRun(xs: seq<int>, m: nat, i: nat)
    requires m < i <= |xs|
  {
    Consecutive(xs, m, i) && (i < |xs| ==> xs[i] != xs[i - 1] + 1)
  }

  /** Where the run that starts at `m` ends. */
  function RunEnd(xs: seq<int>, m: nat): (e: nat)
    requires m < |xs|
    ensures m < e <= |xs| && IsWholeRun(xs, m, e)
    decreases |xs| - m
  {
    if m + 1 < |xs| && xs[m + 1] == xs[m] + 1 then RunEnd(xs, m + 1) else m + 1
  }

  function RunsFrom(xs: seq<int>, m: nat): seq<Range>
    requires m <= |xs|
    decreases |xs| - m
  {
    if m == |xs| then [] else [Range(xs[m], xs[RunEnd(xs, m) - 1])] + RunsFrom(xs, RunEnd(xs, m))
  }

  function Runs(xs: seq<int>): seq<Range> {
    RunsFrom(xs, 0)
  }

  /** Closing the run `xs[m..i]` splits it off the runs still to come. */
  lemma CloseRun(xs: seq<int>, m: nat, i: nat)
    requires m < i <= |xs| && IsWholeRun(xs, m, i)
    ensures RunEnd(xs, m) == i
    ensures RunsFrom(xs, m) == [Range(xs[m], xs[i - 1])] + RunsFrom(xs, i)
    ensures (xs[m] == xs[i - 1]) == (i == m + 1)
  {
    var e := RunEnd(xs, m);
    assert e <= i <= e;
  }

  ghost predicate Covers(rs: seq<Range>, x: int) {
    exists k :: 0 <= k < |rs| && rs[k].lo <= x <= rs[k].hi
  }

  /** Non-empty ranges in increasing order with at least one missing integer between any two. */
  ghost predicate Separated(rs: seq<Range>) {
    && (forall k :: 0 <= k < |rs| ==> rs[k].lo <= rs[k].hi)
    && (forall k, m :: 0 <= k < m < |rs| ==> rs[k].hi + 1 < rs[m].lo)
  }

  lemma CoversCons(r: Range, rs: seq<Range>, x: int)
    ensures Covers([r] + rs, x) <==> r.lo <= x <= r.hi || Covers(rs, x)
  {
    var all := [r] + rs;
    if r.lo <= x <= r.hi {
      assert all[0] == r;
    }
    if Covers(rs, x) {
      var k :| 0 <= k < |rs| && rs[k].lo <= x <= rs[k].hi;
      assert all[k + 1] == rs[k];
    }
  }

  /** The first run takes a stretch of the list; what follows starts after a gap. */
  lemma FirstRun(xs: seq<int>, m: nat)
    requires StrictlySorted(xs) && m < |xs|
    ensures var e := RunEnd(xs, m); var r := Range(xs[m], xs[e - 1]);
            && r.lo <= r.hi
            && (forall x :: x in xs[m..] <==> r.lo <= x <= r.hi || x in xs[e..])
            && (forall k :: e <= k < |xs| ==> r.hi + 1 < xs[k])
  {
    var e := RunEnd(xs, m);
    forall x: int
      ensures x in xs[m..] <==> xs[m] <= x <= xs[e - 1] || x in xs[e..]
    {
      assert xs[m..] == xs[m..e] + xs[e..];
      if xs[m] <= x <= xs[e - 1] {
        assert xs[m..e][x - xs[m]] == x;
      }
    }
  }

  /** The runs of an increasing list cover exactly its elements. */
  lemma {:induction false} RunsCover(xs: seq<int>, m: nat)
    requires StrictlySorted(xs) && m <= |xs|
    ensures forall x :: x in xs[m..] <==> Covers(RunsFrom(xs, m), x)
    decreases |xs| - m
  {
    if m < |xs| {
      var e := RunEnd(xs, m);
      FirstRun(xs, m);
      RunsCover(xs, e);
      forall x: int
        ensures x in xs[m..] <==> Covers(RunsFrom(xs, m), x)
      {
        CoversCons(Range(xs[m], xs[e - 1]), RunsFrom(xs, e), x);
      }
    }
  }

  lemma SeparatedCons(r: Range, rs: seq<Range>)
    requires Separated(rs) && r.lo <= r.hi && forall k :: 0 <= k < |rs| ==> r.hi + 1 < rs[k].lo
    ensures Separated([r] + rs)
  {
  }

  lemma {:induction false} RunEndsListed(xs: seq<int>, m: nat, k: nat)
    requires m <= |xs| && k < |RunsFrom(xs, m)|
    ensures exists i, j :: m <= i <= j < |xs| && RunsFrom(xs, m)[k] == Range(xs[i], xs[j])
    decreases |xs| - m
  {
    var e := RunEnd(xs, m);
    if k == 0 {
      assert RunsFrom(xs, m)[k] == Range(xs[m], xs[e - 1]);
    } else {
      assert RunsFrom(xs, m)[k] == RunsFrom(xs, e)[k - 1];
      RunEndsListed(xs, e, k - 1);
    }
  }

  /** No two runs can be joined: there is a gap between them. */
  lemma {:induction false} RunsSeparated(xs: seq<int>, m: nat)
    requires StrictlySorted(xs) && m <= |xs|
    ensures Separated(RunsFrom(xs, m))
    decreases |xs| - m
  {
    if m < |xs| {
      var e := RunEnd(xs, m);
      FirstRun(xs, m);
      RunsSeparated(xs, e);
      forall k | 0 <= k < |RunsFrom(xs, e)|
        ensures xs[e - 1] + 1 < RunsFrom(xs, e)[k].lo
      {
        RunEndsListed(xs, e, k);
      }
      SeparatedCons(Range(xs[m], xs[e - 1]), RunsFrom(xs, e));
    }
  }

  // Fewest ranges -----------------------------------------------------------------------------

  lemma GapNotCovered(rs: seq<Range>, k: nat)
    requires Separated(rs) && k < |rs|
    ensures !Covers(rs, rs[k].hi + 1)
  {
  }

  /** A range that stays inside the covered set cannot reach from one run into another. */
  lemma RangeMeetsOneRun(rs: seq<Range>, c: Range, k: nat, m: nat)
    requires Separated(rs) && k < m < |rs|
    requires forall x :: c.lo <= x <= c.hi ==> Covers(rs, x)
    ensures !(c.lo <= rs[k].lo <= c.hi && c.lo <= rs[m].lo <= c.hi)
  {
    GapNotCovered(rs, k);
  }

  ghost function IndexSet(n: nat): (r: set<int>)
    ensures |r| == n && forall j :: j in r <==> 0 <= j < n
  {
    if n == 0 then {} else IndexSet(n - 1) + {n - 1}
  }

  lemma Pigeonhole(f: seq<int>, n: nat)
    requires Distinct(f) && forall k :: 0 <= k < |f| ==> 0 <= f[k] < n
    ensures |f| <= n
  {
    ToSetCardinality(f);
    SubsetCardinality(ToSet(f), IndexSet(n));
  }

  /** `f[k]` names a range of `cs` that holds the first id of the k-th run. */
  ghost predicate Holds(f: seq<int>, rs: seq<Range>, cs: seq<Range>) {
    |f| <= |rs| && forall k :: 0 <= k < |f| ==> 0 <= f[k] < |cs| && cs[f[k]].lo <= rs[k].lo <= cs[f[k]].hi
  }

  lemma {:induction false} FindHolders(rs: seq<Range>, cs: seq<Range>, n: nat) returns (f: seq<int>)
    requires n <= |rs| && Separated(rs) && forall x :: Covers(rs, x) ==> Covers(cs, x)
    ensures |f| == n && Holds(f, rs, cs)
  {
    if n == 0 {
      return [];
    }
    f := FindHolders(rs, cs, n - 1);
    assert Covers(rs, rs[n - 1].lo);
    var j :| 0 <= j < |cs| && cs[j].lo <= rs[n - 1].lo <= cs[j].hi;
    f := f + [j];
  }

  /** Distinct runs are held by distinct ranges. */
  lemma HoldersDiffer(f: seq<int>, rs: seq<Range>, cs: seq<Range>, k: nat, m: nat)
    requires Separated(rs) && Holds(f, rs, cs) && k < m < |f|
    requires forall x :: Covers(cs, x) ==> Covers(rs, x)
    ensures f[k] != f[m]
  {
    var c := cs[f[k]];
    forall x | c.lo <= x <= c.hi
      ensures Covers(rs, x)
    {
      assert Covers(cs, x);
    }
    RangeMeetsOneRun(rs, c, k, m);
  }

  lemma SeparatedIsFewest(rs: seq<Range>, cs: seq<Range>)
    requires Separated(rs) && forall x :: Covers(cs, x) <==> Covers(rs, x)
    ensures |rs| <= |cs|
  {
    var f := FindHolders(rs, cs, |rs|);
    forall k, m | 0 <= k < m < |f|
      ensures f[k] != f[m]
    {
      HoldersDiffer(f, rs, cs, k, m);
    }
    Pigeonhole(f, |cs|);
  }

  /** Any list of ranges covering the same ids has at least as many entries as there are runs. */
  lemma RunsAreFewest(xs: seq<int>, cs: seq<Range>)
    requires StrictlySorted(xs) && forall x :: x in xs <==> Covers(cs, x)
    ensures |Runs(xs)| <= |cs|
  {
    RunsCover(xs, 0);
    RunsSeparated(xs, 0);
    assert xs[0..] == xs;
    SeparatedIsFewest(Runs(xs), cs);
  }

  // Text -----------------------------------------------------------------------------------------

  function RangeText(r: Range): string {
    if r.lo == r.hi then Itoa(r.lo) else Itoa(r.lo) + "-" + Itoa(r.hi)
  }

  function RangeTexts(rs: seq<Range>): (r: seq<string>)
    ensures |r| == |rs| && forall k :: 0 <= k < |rs| ==> r[k] == RangeText(rs[k])
  {
    seq(|rs|, k requires 0 <= k < |rs| => RangeText(rs[k]))
  }

  function Render(rs: seq<Range>): string {
    Join(RangeTexts(rs), ',')
  }

  /** The text both compactors are to produce: the maximal runs, comma separated. */
  ghost function CpuListText(ids: seq<int>): string {
    Render(Runs(SortedUniq(ids)))
  }

  lemma RenderSnoc(rs: seq<Range>, r: Range)
    ensures Render(rs + [r]) == if rs == [] then RangeText(r) else Render(rs) + "," + RangeText(r)
  {
    assert RangeTexts(rs + [r]) == RangeTexts(rs) + [RangeText(r)];
    if rs != [] {
      JoinSnoc(RangeTexts(rs), RangeText(r), ',');
    }
  }

  lemma RangeTextNonEmpty(r: Range)
    ensures RangeText(r) != []
  {
  }

  lemma RenderEmpty(rs: seq<Range>)
    ensures Render(rs) == [] <==> rs == []
  {
    if rs != [] {
      RangeTextNonEmpty(rs[0]);
    }
  }

  lemma MoveOver(done: seq<Range>, r: Range, todo: seq<Range>)
    ensures done + ([r] + todo) == (done + [r]) + todo
    ensures done + [] == done
  {
  }
}
