/**
 `ParseCPUList`, and the character-level round trip between it and the formatter.
 */
module CpuParse {
  import opened Collections
  import opened Text
  import opened CpuRanges

  /** `Diverges` stands for a parse that never ends. */
  datatype ParseResult = Parsed(ids: seq<int>) | Invalid(part: string) | Diverges

  // The range loop, on Go's wrapping `int` --------------------------------------------------------

  /** The loop variable of `for i := lo; i <= hi; i++` after `n` increments. */
  function Stepped(lo: int, n: nat): int {
    if n == 0 then lo else Inc(Stepped(lo, n - 1))
  }

  /** The loop ends after `n` turns: the condition holds before each of them and fails then. */
  ghost predicate EndsAfter(lo: int, hi: int, n: nat) {
    Stepped(lo, n) > hi && forall m: nat :: m < n ==> Stepped(lo, m) <= hi
  }

  /** What the loop appends, if it ends at all. */
  ghost function RangeLoop(lo: int, hi: int): ParseResult {
    if n: nat :| EndsAfter(lo, hi, n) then Parsed(seq(n, m requires 0 <= m < n => Stepped(lo, m))) else Diverges
  }

  function Interval(lo: int, hi: int): seq<int>
    decreases hi - lo
  {
    if lo > hi then [] else [lo] + Interval(lo + 1, hi)
  }

  lemma {:induction false} SteppedBelow(lo: int, n: nat)
    requires lo + n <= MAX_INT
    ensures Stepped(lo, n) == lo + n
  {
    if n > 0 {
      SteppedBelow(lo, n - 1);
    }
  }

  lemma {:induction false} SteppedInRange(lo: int, n: nat)
    requires MIN_INT <= lo <= MAX_INT
    ensures MIN_INT <= Stepped(lo, n) <= MAX_INT
  {
    if n > 0 {
      SteppedInRange(lo, n - 1);
    }
  }

  /** The number of turns is determined: one per id, and only below the largest `int`. */
  lemma TurnsOfLoop(lo: int, hi: int, n: nat)
    requires MIN_INT <= lo <= hi <= MAX_INT
    ensures EndsAfter(lo, hi, n) <==> hi < MAX_INT && n == hi - lo + 1
  {
    if EndsAfter(lo, hi, n) {
      SteppedInRange(lo, n);
      if hi + 1 - lo < n {
        SteppedBelow(lo, hi + 1 - lo);
      } else {
        SteppedBelow(lo, n);
      }
    }
    if hi < MAX_INT && n == hi - lo + 1 {
      forall m: nat | m <= n
        ensures Stepped(lo, m) == lo + m
      {
        SteppedBelow(lo, m);
      }
    }
  }

  /** The loop ends exactly when its upper bound is below the largest `int`: otherwise `i++` wraps before `i <= hi` fails. */
  lemma LoopEndsIff(lo: int, hi: int)
    requires MIN_INT <= lo <= hi <= MAX_INT
    ensures (exists n: nat :: Stepped(lo, n) > hi) <==> hi < MAX_INT
    ensures RangeLoop(lo, hi) == if hi < MAX_INT then Parsed(Interval(lo, hi)) else Diverges
  {
    if n: nat :| Stepped(lo, n) > hi {
      SteppedInRange(lo, n);
    }
    forall n: nat
      ensures EndsAfter(lo, hi, n) <==> hi < MAX_INT && n == hi - lo + 1
    {
      TurnsOfLoop(lo, hi, n);
    }
    if hi < MAX_INT {
      var n := hi - lo + 1;
      assert EndsAfter(lo, hi, n);
      VisitedIsInterval(lo, hi, seq(n, m requires 0 <= m < n => Stepped(lo, m)));
    }
  }

  lemma VisitedIsInterval(lo: int, hi: int, ids: seq<int>)
    requires lo <= hi < MAX_INT && |ids| == hi - lo + 1 && forall m :: 0 <= m < |ids| ==> ids[m] == Stepped(lo, m)
    ensures ids == Interval(lo, hi)
  {
    IntervalAt(lo, hi, 0);
    forall m | 0 <= m < |ids|
      ensures Interval(lo, hi)[m] == ids[m]
    {
      SteppedBelow(lo, m);
      IntervalAt(lo, hi, m);
    }
    assert ids == Interval(lo, hi);
  }

  lemma {:induction false} IntervalAt(lo: int, hi: int, m: nat)
    requires lo + m <= hi
    ensures |Interval(lo, hi)| == hi - lo + 1 && Interval(lo, hi)[m] == lo + m
    decreases hi - lo
  {
    if m > 0 {
      IntervalAt(lo + 1, hi, m - 1);
    } else if lo < hi {
      IntervalAt(lo + 1, hi, 0);
    }
  }

  // The parser ---------------------------------------------------------------------------------------

  /** What one comma-separated part contributes. */
  ghost function ParsePart(raw: string): ParseResult {
    var part := TrimSpace(raw);
    if part == "" then Parsed([])
    else if '-' in part then
      var i := Index(part, '-');
      var lo, hi := Atoi(TrimSpace(part[..i])), Atoi(TrimSpace(part[i + 1..]));
      if lo.None? || hi.None? || lo.value > hi.value then Invalid(part)
      else RangeLoop(lo.value, hi.value)
    else
      var n := Atoi(part);
      if n.None? then Invalid(part) else Parsed([n.value])
  }

  function Prepend(out: seq<int>, r: ParseResult): ParseResult {
    if r.Parsed? then Parsed(out + r.ids) else r
  }

  /** What the parts from the k-th on contribute together: everything, or the first that is bad. */
  function Combine(heads: seq<ParseResult>, k: nat): ParseResult
    requires k <= |heads|
    decreases |heads| - k
  {
    if k == |heads| then Parsed([])
    else if heads[k].Parsed? then Prepend(heads[k].ids, Combine(heads, k + 1))
    else heads[k]
  }

  ghost function Heads(parts: seq<string>): (r: seq<ParseResult>)
    ensures |r| == |parts| && forall k :: 0 <= k < |parts| ==> r[k] == ParsePart(parts[k])
  {
    seq(|parts|, k requires 0 <= k < |parts| => ParsePart(parts[k]))
  }

  ghost function ParsedText(s: string): ParseResult {
    if TrimSpace(s) == "" then Parsed([]) else Combine(Heads(Split(TrimSpace(s), ',')), 0)
  }

  lemma {:induction false} IntervalSnoc(lo: int, hi: int)
    requires lo <= hi
    ensures Interval(lo, hi) == Interval(lo, hi - 1) + [hi]
    decreases hi - lo
  {
    if lo < hi {
      IntervalSnoc(lo + 1, hi);
    }
  }

  /** The loop body: one part, blank, range or single id. */
  method ParseOne(raw: string) returns (r: ParseResult)
    ensures r == ParsePart(raw)
  {
    var part := TrimSpace(raw);
    if part == "" {
      return Parsed([]);
    }
    if '-' in part {
      var i := Index(part, '-');
      var lo, hi := Atoi(TrimSpace(part[..i])), Atoi(TrimSpace(part[i + 1..]));
      if lo.None? || hi.None? || lo.value > hi.value {
        return Invalid(part);
      }
      LoopEndsIff(lo.value, hi.value);
      if hi.value == MAX_INT {
        return Diverges;
      }
      var out := CountUp(lo.value, hi.value);
      return Parsed(out);
    }
    var n := Atoi(part);
    if n.None? {
      return Invalid(part);
    }
    return Parsed([n.value]);
  }

  /** The range loop itself, for a bound that lets it end. */
  method CountUp(lo: int, hi: int) returns (out: seq<int>)
    requires MIN_INT <= lo <= hi < MAX_INT
    ensures out == Interval(lo, hi)
  {
    out := [];
    var i := lo;
    while i <= hi
      invariant lo <= i <= hi + 1 && out == Interval(lo, i - 1)
    {
      IntervalSnoc(lo, i);
      out := out + [i];
      i := Inc(i);
    }
  }

  method ParseCPUList(s: string) returns (r: ParseResult)
    ensures r == ParsedText(s)
  {
    var t := TrimSpace(s);
    if t == "" {
      return Parsed([]);
    }
    var out: seq<int> := [];
    var parts := Split(t, ',');
    ghost var heads := Heads(parts);
    ghost var all := Combine(heads, 0);
    for k := 0 to |parts|
      invariant all == Prepend(out, Combine(heads, k))
    {
      var h := ParseOne(parts[k]);
      assert h == heads[k];
      if !h.Parsed? {
        return h;
      }
      PrependAssoc(out, h.ids, Combine(heads, k + 1));
      out := out + h.ids;
    }
    return Parsed(out);
  }

  lemma PrependAssoc(a: seq<int>, b: seq<int>, r: ParseResult)
    ensures Prepend(a, Prepend(b, r)) == Prepend(a + b, r)
  {
    if r.Parsed? {
      assert a + (b + r.ids) == (a + b) + r.ids;
    }
  }

  // Everything the parser returns is a CPU id ----------------------------------------------

  lemma TrimmedOfUndashed(s: string)
    requires '-' !in s
    ensures '-' !in TrimSpace(s)
  {
    assert forall c :: c in TrimLeft(s) ==> c in s by { TrimLeftMembers(s); }
    TrimRightMembers(TrimLeft(s));
  }

  lemma {:induction false} TrimLeftMembers(s: string)
    ensures forall c :: c in TrimLeft(s) ==> c in s
  {
    if s != [] && IsSpace(s[0]) {
      TrimLeftMembers(s[1..]);
    }
  }

  lemma {:induction false} TrimRightMembers(s: string)
    ensures forall c :: c in TrimRight(s) ==> c in s
  {
    if s != [] && IsSpace(s[|s| - 1]) {
      TrimRightMembers(s[..|s| - 1]);
    }
  }

  lemma {:induction false} IntervalMembers(lo: int, hi: int)
    ensures forall x :: x in Interval(lo, hi) <==> lo <= x <= hi
    decreases hi - lo
  {
    if lo <= hi {
      IntervalMembers(lo + 1, hi);
    }
  }

  lemma PartInRange(raw: string)
    requires ParsePart(raw).Parsed?
    ensures forall x :: x in ParsePart(raw).ids ==> 0 <= x <= MAX_INT
  {
    var part := TrimSpace(raw);
    if part != "" && '-' in part {
      var i := Index(part, '-');
      TrimmedOfUndashed(part[..i]);
      AtoiUnsigned(TrimSpace(part[..i]));
      LoopEndsIff(Atoi(TrimSpace(part[..i])).value, Atoi(TrimSpace(part[i + 1..])).value);
      IntervalMembers(Atoi(TrimSpace(part[..i])).value, Atoi(TrimSpace(part[i + 1..])).value);
    } else if part != "" {
      AtoiUnsigned(part);
    }
  }

  lemma {:induction false} CombineMembers(heads: seq<ParseResult>, k: nat, x: int)
    requires k <= |heads| && Combine(heads, k).Parsed? && x in Combine(heads, k).ids
    ensures exists j :: k <= j < |heads| && heads[j].Parsed? && x in heads[j].ids
    decreases |heads| - k
  {
    if x !in heads[k].ids {
      CombineMembers(heads, k + 1, x);
    }
  }

  /** Whatever text is accepted, the ids are non-negative `int`s. */
  lemma ParsedInRange(s: string)
    requires ParsedText(s).Parsed?
    ensures forall x :: x in ParsedText(s).ids ==> 0 <= x <= MAX_INT
  {
    if TrimSpace(s) != "" {
      var parts := Split(TrimSpace(s), ',');
      forall x | x in ParsedText(s).ids
        ensures 0 <= x <= MAX_INT
      {
        CombineMembers(Heads(parts), 0, x);
        var j :| 0 <= j < |parts| && Heads(parts)[j].Parsed? && x in Heads(parts)[j].ids;
        PartInRange(parts[j]);
      }
    }
  }

  // Round trip -------------------------------------------------------------------------------

  predicate Plain(c: char) {
    IsDigit(c) || c == '-'
  }

  lemma ItoaPlain(n: int)
    ensures Itoa(n) != [] && forall c :: c in Itoa(n) ==> Plain(c)
    ensures n >= 0 ==> forall c :: c in Itoa(n) ==> IsDigit(c)
  {
  }

  lemma RangeTextPlain(r: Range)
    ensures RangeText(r) != [] && forall c :: c in RangeText(r) ==> Plain(c)
  {
    ItoaPlain(r.lo);
    ItoaPlain(r.hi);
  }

  /** A printed range parses exactly when it is non-negative and does not run up to the largest `int`. */
  predicate Parseable(r: Range) {
    0 <= r.lo && (r.lo == r.hi || r.hi < MAX_INT)
  }

  ghost predicate Int64Range(r: Range) {
    MIN_INT <= r.lo <= r.hi <= MAX_INT
  }

  lemma DashedPart(a: string, b: string)
    requires '-' !in a && (forall c :: c in a ==> Plain(c)) && (forall c :: c in b ==> Plain(c))
    ensures var s := a + "-" + b;
            && TrimSpace(s) == s && '-' in s && Index(s, '-') == |a|
            && TrimSpace(s[..|a|]) == a && TrimSpace(s[|a| + 1..]) == b
  {
    var s := a + "-" + b;
    assert s == a + ['-'] + b;
    IndexAfter(a, '-', b);
    assert s[..|a|] == a && s[|a| + 1..] == b;
    TrimSpaceBare(s);
    TrimSpaceBare(a);
    TrimSpaceBare(b);
  }

  lemma NegativePart(r: Range)
    requires Int64Range(r) && r.lo < 0
    ensures ParsePart(RangeText(r)).Invalid?
  {
    RangeTextPlain(r);
    var rest := RangeText(r)[1..];
    assert RangeText(r) == [] + "-" + rest;
    DashedPart([], rest);
  }

  lemma SinglePart(r: Range)
    requires Int64Range(r) && 0 <= r.lo == r.hi
    ensures ParsePart(RangeText(r)) == Parsed([r.lo])
  {
    RangeTextPlain(r);
    ItoaPlain(r.lo);
    AtoiItoa(r.lo);
    TrimSpaceBare(RangeText(r));
  }

  lemma ParseDashed(a: string, b: string, lo: int, hi: int)
    requires '-' !in a && (forall c :: c in a ==> Plain(c)) && (forall c :: c in b ==> Plain(c))
    requires Atoi(a) == Some(lo) && Atoi(b) == Some(hi) && lo <= hi
    ensures ParsePart(a + "-" + b) == if hi == MAX_INT then Diverges else Parsed(Interval(lo, hi))
  {
    DashedPart(a, b);
    LoopEndsIff(lo, hi);
  }

  lemma RangePart(r: Range)
    requires Int64Range(r) && 0 <= r.lo < r.hi
    ensures ParsePart(RangeText(r)) == if r.hi == MAX_INT then Diverges else Parsed(Interval(r.lo, r.hi))
  {
    ItoaPlain(r.lo);
    ItoaPlain(r.hi);
    AtoiItoa(r.lo);
    AtoiItoa(r.hi);
    ParseDashed(Itoa(r.lo), Itoa(r.hi), r.lo, r.hi);
  }

  lemma PartRoundTrip(r: Range)
    requires Int64Range(r)
    ensures HeadOf(ParsePart(RangeText(r)), r)
  {
    if r.lo < 0 {
      NegativePart(r);
    } else if r.lo == r.hi {
      SinglePart(r);
      assert Interval(r.lo, r.hi) == [r.lo] + Interval(r.lo + 1, r.hi);
    } else {
      RangePart(r);
    }
  }

  function Flatten(rs: seq<Range>, k: nat): seq<int>
    requires k <= |rs|
    decreases |rs| - k
  {
    if k == |rs| then [] else Interval(rs[k].lo, rs[k].hi) + Flatten(rs, k + 1)
  }

  /** What a printed range parses to. */
  ghost predicate HeadOf(head: ParseResult, r: Range) {
    if Parseable(r) then head == Parsed(Interval(r.lo, r.hi)) else if r.lo < 0 then head.Invalid? else head == Diverges
  }

  lemma {:induction false} CombineRanges(heads: seq<ParseResult>, rs: seq<Range>, k: nat)
    requires k <= |rs| == |heads|
    requires forall j :: 0 <= j < |rs| ==> HeadOf(heads[j], rs[j])
    ensures (forall j :: k <= j < |rs| ==> Parseable(rs[j])) ==> Combine(heads, k) == Parsed(Flatten(rs, k))
    ensures !(forall j :: k <= j < |rs| ==> Parseable(rs[j])) && (forall j :: k <= j < |rs| ==> 0 <= rs[j].lo) ==> Combine(heads, k) == Diverges
    decreases |rs| - k
  {
    if k < |rs| {
      assert HeadOf(heads[k], rs[k]);
      CombineRanges(heads, rs, k + 1);
    }
  }

  ghost predicate AllParseable(rs: seq<Range>) {
    forall j :: 0 <= j < |rs| ==> Parseable(rs[j])
  }

  /** A rendered list of ranges is split into the texts of the ranges again. */
  lemma RenderSplits(rs: seq<Range>)
    requires rs != []
    ensures ParsedText(Render(rs)) == Combine(Heads(RangeTexts(rs)), 0)
  {
    RenderEmpty(rs);
    var texts := RangeTexts(rs);
    forall k | 0 <= k < |rs|
      ensures AllPlain(texts[k])
    {
      RangeTextPlain(rs[k]);
    }
    JoinNoSpace(texts);
    TrimSpaceBare(Render(rs));
    SplitJoin(texts, ',');
  }

  /** Reading back a rendered list of ranges. */
  lemma RenderRoundTrip(rs: seq<Range>)
    requires forall j :: 0 <= j < |rs| ==> Int64Range(rs[j])
    ensures AllParseable(rs) ==> ParsedText(Render(rs)) == Parsed(Flatten(rs, 0))
    ensures rs != [] && rs[0].lo < 0 ==> ParsedText(Render(rs)).Invalid?
    ensures !AllParseable(rs) && (forall j :: 0 <= j < |rs| ==> 0 <= rs[j].lo) ==> ParsedText(Render(rs)) == Diverges
  {
    RenderEmpty(rs);
    if rs != [] {
      RenderSplits(rs);
      var heads := Heads(RangeTexts(rs));
      forall k | 0 <= k < |rs|
        ensures HeadOf(heads[k], rs[k])
      {
        PartRoundTrip(rs[k]);
      }
      CombineRanges(heads, rs, 0);
    }
  }

  ghost predicate AllPlain(s: string) {
    forall c :: c in s ==> Plain(c)
  }

  lemma {:induction false} JoinNoSpace(parts: seq<string>)
    requires forall k :: 0 <= k < |parts| ==> AllPlain(parts[k])
    ensures forall c :: c in Join(parts, ',') ==> !IsSpace(c)
  {
    if |parts| > 1 {
      JoinNoSpace(parts[1..]);
    }
  }

  // Runs flatten back to the list ------------------------------------------------------------------

  lemma {:induction false} StretchIsInterval(xs: seq<int>, m: nat, e: nat)
    requires m < e <= |xs| && Consecutive(xs, m, e)
    ensures Interval(xs[m], xs[e - 1]) == xs[m..e]
    decreases e - m
  {
    if m + 1 < e {
      StretchIsInterval(xs, m, e - 1);
      IntervalSnoc(xs[m], xs[e - 1]);
      assert xs[m..e] == xs[m..e - 1] + [xs[e - 1]];
    } else {
      assert Interval(xs[m], xs[m]) == [xs[m]] + Interval(xs[m] + 1, xs[m]);
    }
  }

  lemma {:induction false} FlattenCons(r: Range, rs: seq<Range>, k: nat)
    requires k <= |rs|
    ensures Flatten([r] + rs, k + 1) == Flatten(rs, k)
    decreases |rs| - k
  {
    if k < |rs| {
      assert ([r] + rs)[k + 1] == rs[k];
      FlattenCons(r, rs, k + 1);
    }
  }

  lemma FlattenFirst(r: Range, more: seq<Range>)
    ensures Flatten([r] + more, 0) == Interval(r.lo, r.hi) + Flatten(more, 0)
  {
    assert ([r] + more)[0] == r;
    FlattenCons(r, more, 0);
  }

  lemma {:induction false} RunsFlatten(xs: seq<int>, m: nat)
    requires m <= |xs|
    ensures Flatten(RunsFrom(xs, m), 0) == xs[m..]
    decreases |xs| - m
  {
    if m < |xs| {
      var e := RunEnd(xs, m);
      StretchIsInterval(xs, m, e);
      RunsFlatten(xs, e);
      var r, more := Range(xs[m], xs[e - 1]), RunsFrom(xs, e);
      FlattenFirst(r, more);
      assert RunsFrom(xs, m) == [r] + more;
      assert xs[m..] == xs[m..e] + xs[e..];
    }
  }

  /** Which id lists survive printing and parsing. */
  predicate Printable(ids: seq<int>) {
    (forall x :: x in ids ==> 0 <= x) && !(MAX_INT in ids && MAX_INT - 1 in ids)
  }

  /** Both ends of a run, and the id before its last, are listed. */
  lemma RunListed(xs: seq<int>, j: nat)
    requires StrictlySorted(xs) && j < |Runs(xs)|
    ensures var r := Runs(xs)[j];
            r.lo <= r.hi && r.lo in xs && r.hi in xs && (r.lo < r.hi ==> r.hi - 1 in xs)
  {
    var rs := Runs(xs);
    RunsSeparated(xs, 0);
    assert xs[0..] == xs;
    assert Covers(rs, rs[j].lo) && Covers(rs, rs[j].hi) && (rs[j].lo < rs[j].hi ==> Covers(rs, rs[j].hi - 1));
    RunsCover(xs, 0);
  }

  lemma ParseableRuns(xs: seq<int>)
    requires StrictlySorted(xs) && forall x :: x in xs ==> MIN_INT <= x <= MAX_INT
    ensures forall j :: 0 <= j < |Runs(xs)| ==> Int64Range(Runs(xs)[j])
    ensures AllParseable(Runs(xs)) <==> Printable(xs)
  {
    var rs := Runs(xs);
    forall j | 0 <= j < |rs|
      ensures Int64Range(rs[j]) && (Printable(xs) ==> Parseable(rs[j]))
    {
      RunListed(xs, j);
    }
    if !Printable(xs) {
      assert xs[0..] == xs;
      RunsCover(xs, 0);
      RunsSeparated(xs, 0);
      NotPrintable(xs, rs);
    }
  }

  lemma NotPrintable(xs: seq<int>, rs: seq<Range>)
    requires Separated(rs) && (forall x :: x in xs <==> Covers(rs, x)) && !Printable(xs)
    ensures exists j :: 0 <= j < |rs| && !Parseable(rs[j])
  {
    if x :| x in xs && x < 0 {
      assert Covers(rs, x);
    } else {
      assert Covers(rs, MAX_INT) && Covers(rs, MAX_INT - 1);
      var j :| 0 <= j < |rs| && rs[j].lo <= MAX_INT <= rs[j].hi;
      var k :| 0 <= k < |rs| && rs[k].lo <= MAX_INT - 1 <= rs[k].hi;
      assert j == k;
      assert !Parseable(rs[j]);
    }
  }

  /** The first run starts with the smallest id. */
  lemma FirstRun(xs: seq<int>)
    requires StrictlySorted(xs) && exists x :: x in xs && x < 0
    ensures Runs(xs) != [] && Runs(xs)[0].lo < 0
  {
    var i :| 0 <= i < |xs| && xs[i] < 0;
    assert xs[0] <= xs[i];
  }

  /**
   Printing and reading back gives the sorted, duplicate-free list exactly when no id is negative
   and the two largest `int`s are not both present. A negative id makes the text invalid; the two
   largest ids alone make the parser run forever.
   */
  lemma RoundTrip(ids: seq<int>)
    requires forall x :: x in ids ==> MIN_INT <= x <= MAX_INT
    ensures Printable(ids) ==> ParsedText(CpuListText(ids)) == Parsed(SortedUniq(ids))
    ensures (exists x :: x in ids && x < 0) ==> ParsedText(CpuListText(ids)).Invalid?
    ensures !Printable(ids) && (forall x :: x in ids ==> 0 <= x) ==> ParsedText(CpuListText(ids)) == Diverges
  {
    var xs := SortedUniq(ids);
    ParseableRuns(xs);
    RunsFlatten(xs, 0);
    assert xs[0..] == xs;
    RenderRoundTrip(Runs(xs));
    assert Printable(xs) <==> Printable(ids);
    if x :| x in ids && x < 0 {
      assert x in xs;
      FirstRun(xs);
    } else {
      forall j | 0 <= j < |Runs(xs)|
        ensures 0 <= Runs(xs)[j].lo
      {
        RunListed(xs, j);
      }
    }
  }

  /** Reformatting an accepted text keeps its set of ids, with that one exception. */
  lemma Reformat(s: string)
    requires ParsedText(s).Parsed?
    ensures var ids := ParsedText(s).ids;
            ParsedText(CpuListText(ids)) == Parsed(SortedUniq(ids)) <==> !(MAX_INT in ids && MAX_INT - 1 in ids)
  {
    ParsedInRange(s);
    RoundTrip(ParsedText(s).ids);
  }

  /** The two largest ids print as one range, which the parser never finishes. */
  lemma LargestIdsDoNotRoundTrip()
    ensures ParsedText(CpuListText([MAX_INT - 1, MAX_INT])) == Diverges
  {
    var ids := [MAX_INT - 1, MAX_INT];
    assert ids[0] in ids && ids[1] in ids;
    RoundTrip(ids);
  }
}
