/**
 The Linux cpulist formatter, and the second compactor that builds `taskset` arguments.
 */
module CpuList {
  import opened Collections
  import opened Text
  import opened CpuRanges

  /** The ids are Go `int`s. */
  ghost predicate InRange(ids: seq<int>) {
    forall i :: 0 <= i < |ids| ==> MIN_INT <= ids[i] <= MAX_INT
  }

  /** On an increasing list of Go `int`s, incrementing with wrap-around finds the same runs. */
  lemma IncTest(xs: seq<int>, i: nat)
    requires StrictlySorted(xs) && InRange(xs) && 0 < i < |xs|
    ensures xs[i] == Inc(xs[i - 1]) <==> xs[i] == xs[i - 1] + 1
  {
  }

  lemma DedupSnoc(ids: seq<int>, i: nat)
    requires i < |ids|
    ensures Dedup(ids[..i + 1]) == if ids[i] in ids[..i] then Dedup(ids[..i]) else Dedup(ids[..i]) + [ids[i]]
    ensures ToSet(ids[..i + 1]) == ToSet(ids[..i]) + {ids[i]}
  {
    assert ids[..i + 1][..i] == ids[..i];
    assert ids[..i + 1] == ids[..i] + [ids[i]];
  }

  /** The dedupe loop both compactors open with. */
  method Unique(ids: seq<int>) returns (uniq: seq<int>)
    ensures uniq == Dedup(ids)
  {
    var seen: set<int> := {};
    uniq := [];
    for i := 0 to |ids|
      invariant seen == ToSet(ids[..i]) && uniq == Dedup(ids[..i])
    {
      DedupSnoc(ids, i);
      if ids[i] in seen {
        continue;
      }
      seen := seen + {ids[i]};
      uniq := uniq + [ids[i]];
    }
    assert ids[..|ids|] == ids;
  }

  /** `FormatCPUList`: one streaming pass that remembers where the current run started. */
  method FormatCPUList(ids: seq<int>) returns (s: string)
    ensures s == CpuListText(ids)
  {
    if |ids| == 0 {
      return "";
    }
    var uniq := Unique(ids);
    uniq := Ints(uniq);
    assert uniq == SortedUniq(ids) && ids[0] in uniq;
    s := StreamRuns(uniq);
  }

  /** What the loop appends to the builder when a run ends. */
  method WriteRange(b: string, start: int, prev: int, ghost done: seq<Range>) returns (s: string)
    requires b == Render(done)
    ensures s == Render(done + [Range(start, prev)])
  {
    RenderEmpty(done);
    RenderSnoc(done, Range(start, prev));
    s := b;
    if |s| > 0 {
      s := s + ",";
    }
    if start == prev {
      s := s + Itoa(start);
    } else {
      s := s + (Itoa(start) + "-" + Itoa(prev));
    }
  }

  method StreamRuns(uniq: seq<int>) returns (s: string)
    requires uniq != []
    ensures s == Render(Runs(uniq))
  {
    s := "";
    var start, prev, i := uniq[0], uniq[0], 1;
    ghost var m, done: seq<Range> := 0, [];
    ghost var all := Runs(uniq);
    while i <= |uniq|
      invariant 0 <= m <= |uniq| && 1 <= i <= |uniq| + 1 && (m == |uniq| ==> i == |uniq| + 1)
      invariant m < |uniq| ==> m < i <= |uniq| && start == uniq[m] && prev == uniq[i - 1] && Consecutive(uniq, m, i)
      invariant all == done + RunsFrom(uniq, m) && s == Render(done)
    {
      var next := -1;
      if i < |uniq| {
        next := uniq[i];
      }
      if i < |uniq| && next == prev + 1 {
        prev := next;
        i := i + 1;
        continue;
      }
      CloseRun(uniq, m, i);
      s := WriteRange(s, start, prev, done);
      MoveOver(done, Range(start, prev), RunsFrom(uniq, i));
      done, m := done + [Range(start, prev)], i;
      if i < |uniq| {
        start, prev := next, next;
      }
      i := i + 1;
    }
    assert done + [] == done;
  }

  /** `CPUsToTasksetSpec`: finds the end of each run with a second index. */
  method CPUsToTasksetSpec(cpuIDs: seq<int>) returns (s: string)
    ensures s == CpuListText(cpuIDs)
  {
    if |cpuIDs| == 0 {
      return "";
    }
    var xs := Unique(cpuIDs);
    xs := Ints(xs);
    s := ScanRuns(xs);
  }

  method ScanRuns(xs: seq<int>) returns (s: string)
    ensures s == Render(Runs(xs))
  {
    var parts: seq<string> := [];
    var i := 0;
    ghost var done: seq<Range> := [];
    ghost var all := Runs(xs);
    while i < |xs|
      invariant 0 <= i <= |xs|
      invariant all == done + RunsFrom(xs, i) && parts == RangeTexts(done)
    {
      var j := i + 1;
      while j < |xs| && xs[j] == xs[j - 1] + 1
        invariant i < j <= |xs|
        invariant Consecutive(xs, i, j)
      {
        j := j + 1;
      }
      CloseRun(xs, i, j);
      ghost var r := Range(xs[i], xs[j - 1]);
      assert RangeTexts(done + [r]) == RangeTexts(done) + [RangeText(r)];
      if j == i + 1 {
        parts := parts + [Itoa(xs[i])];
      } else {
        parts := parts + [Itoa(xs[i]) + "-" + Itoa(xs[j - 1])];
      }
      MoveOver(done, r, RunsFrom(xs, j));
      done := done + [r];
      i := j;
    }
    assert done + [] == done;
    s := Join(parts, ',');
  }
}
