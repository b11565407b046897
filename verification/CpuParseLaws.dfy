/**
 What the cpulist parser accepts, stated on the text: blanks, single ids, ranges, and everything
 else; and how the parts of a list combine.
 */
module CpuParseLaws {
  import opened Collections
  import opened Text
  import opened TextLaws
  import opened CpuRanges
  import opened CpuParse

  // Blanks ---------------------------------------------------------------------------------

  /** White space around a part never changes what it contributes. */
  lemma PartIgnoresBlanks(before: string, part: string, after: string)
    requires AllSpace(before) && AllSpace(after)
    ensures ParsePart(before + part + after) == ParsePart(part)
  {
    TrimIgnoresBlanks(before, part, after);
  }

  /** Nor does white space around the whole list. */
  lemma ListIgnoresBlanks(before: string, s: string, after: string)
    requires AllSpace(before) && AllSpace(after)
    ensures ParsedText(before + s + after) == ParsedText(s)
  {
    TrimIgnoresBlanks(before, s, after);
  }

  // The grammar of a part ------------------------------------------------------------------------

  /** A numeral without a dash. */
  ghost predicate IsSingle(part: string, v: int) {
    '-' !in part && Atoi(part) == Some(v)
  }

  /** Two numerals around the first dash, possibly with white space around them. */
  ghost predicate IsRange(part: string, a: string, b: string, lo: int, hi: int) {
    && part == a + "-" + b && '-' !in a
    && Atoi(TrimSpace(a)) == Some(lo) && Atoi(TrimSpace(b)) == Some(hi) && lo <= hi
  }

  lemma SplitAtDash(part: string, a: string, b: string)
    requires part == a + "-" + b && '-' !in a
    ensures '-' in part && Index(part, '-') == |a| && part[..|a|] == a && part[|a| + 1..] == b
  {
    assert part == a + ['-'] + b;
    IndexAfter(a, '-', b);
  }

  /** A blank part contributes nothing. */
  lemma BlankPart(raw: string)
    ensures AllSpace(raw) ==> ParsePart(raw) == Parsed([])
  {
    TrimsToNothingIff(raw);
  }

  lemma SinglePartIs(part: string, v: int)
    requires Trimmed(part) && IsSingle(part, v)
    ensures ParsePart(part) == Parsed([v])
  {
    TrimSpaceIs([], part, []);
    assert [] + part + [] == part;
  }

  lemma DashedOutcome(part: string, a: string, b: string)
    requires TrimSpace(part) == part && part == a + "-" + b && '-' !in a
    requires Atoi(TrimSpace(a)).Some? && Atoi(TrimSpace(b)).Some? && Atoi(TrimSpace(a)).value <= Atoi(TrimSpace(b)).value
    ensures ParsePart(part) == RangeLoop(Atoi(TrimSpace(a)).value, Atoi(TrimSpace(b)).value)
  {
    SplitAtDash(part, a, b);
  }

  /** A range contributes every id from its lower to its upper bound. */
  lemma RangePartIs(part: string, a: string, b: string, lo: int, hi: int)
    requires Trimmed(part) && IsRange(part, a, b, lo, hi)
    ensures ParsePart(part) == if hi < MAX_INT then Parsed(Interval(lo, hi)) else Diverges
  {
    assert [] + part + [] == part;
    TrimSpaceIs([], part, []);
    DashedOutcome(part, a, b);
    LoopEndsIff(lo, hi);
  }

  /** A non-blank part is refused, with its own text, exactly when it is neither a single id nor a range. */
  lemma InvalidPartIff(part: string)
    requires Trimmed(part) && part != ""
    ensures ParsePart(part) == Invalid(part) <==> !(exists v :: IsSingle(part, v)) && !(exists a, b, lo, hi :: IsRange(part, a, b, lo, hi))
    ensures ParsePart(part).Invalid? ==> ParsePart(part) == Invalid(part)
  {
    TrimSpaceIs([], part, []);
    assert [] + part + [] == part;
    if v :| IsSingle(part, v) {
      SinglePartIs(part, v);
    }
    if a, b, lo, hi :| IsRange(part, a, b, lo, hi) {
      RangePartIs(part, a, b, lo, hi);
    }
    if ParsePart(part) != Invalid(part) {
      AcceptedPart(part);
    }
  }

  lemma AcceptedPart(part: string)
    requires TrimSpace(part) == part != "" && ParsePart(part) != Invalid(part)
    ensures (exists v :: IsSingle(part, v)) || (exists a, b, lo, hi :: IsRange(part, a, b, lo, hi))
  {
    if '-' in part {
      var i := Index(part, '-');
      var a, b := part[..i], part[i + 1..];
      assert part == a + "-" + b;
      var lo, hi := Atoi(TrimSpace(a)), Atoi(TrimSpace(b));
      assert IsRange(part, a, b, lo.value, hi.value);
    } else {
      assert IsSingle(part, Atoi(part).value);
    }
  }

  // A list is its parts, left to right ------------------------------------------------------------------

  lemma {:induction false} CombinePrefix(heads: seq<ParseResult>, h: ParseResult, k: nat)
    requires k <= |heads|
    ensures Combine(heads + [h], k) ==
            if !Combine(heads, k).Parsed? then Combine(heads, k)
            else if h.Parsed? then Parsed(Combine(heads, k).ids + h.ids)
            else h
    decreases |heads| - k
  {
    var all := heads + [h];
    if k == |heads| {
      assert Combine(all, k + 1) == Parsed([]);
      if h.Parsed? {
        assert h.ids + [] == h.ids && [] + h.ids == h.ids;
      }
    } else {
      assert all[k] == heads[k];
      CombinePrefix(heads, h, k + 1);
      if heads[k].Parsed? && Combine(heads, k + 1).Parsed? && h.Parsed? {
        Reassociate(heads[k].ids, Combine(heads, k + 1).ids, h.ids);
      }
    }
  }

  /** One more part: its ids come after the earlier ones, unless an earlier part or the part itself is bad. */
  lemma OneMorePart(heads: seq<ParseResult>, h: ParseResult)
    ensures Combine([], 0) == Parsed([])
    ensures Combine(heads + [h], 0) ==
            if !Combine(heads, 0).Parsed? then Combine(heads, 0)
            else if h.Parsed? then Parsed(Combine(heads, 0).ids + h.ids)
            else h
  {
    CombinePrefix(heads, h, 0);
  }

  /** A non-blank list is split at its commas: the parts contain none, and joined with commas they are the list. */
  lemma ListIsParts(s: string)
    requires !AllSpace(s)
    ensures ParsedText(s) == Combine(Heads(Split(TrimSpace(s), ',')), 0)
    ensures Join(Split(TrimSpace(s), ','), ',') == TrimSpace(s)
    ensures forall k :: 0 <= k < |Split(TrimSpace(s), ',')| ==> ',' !in Split(TrimSpace(s), ',')[k]
  {
    TrimsToNothingIff(s);
    JoinSplit(TrimSpace(s), ',');
  }

  /** An empty or blank list has no ids. */
  lemma BlankList(s: string)
    requires AllSpace(s)
    ensures ParsedText(s) == Parsed([])
  {
    TrimsToNothingIff(s);
  }

  // The documented examples -----------------------------------------------------------------------------------

  lemma RunsOf(xs: seq<int>, m: nat, i: nat, rest: seq<Range>)
    requires m < i <= |xs| && IsWholeRun(xs, m, i) && RunsFrom(xs, i) == rest
    ensures RunsFrom(xs, m) == [Range(xs[m], xs[i - 1])] + rest
  {
    CloseRun(xs, m, i);
  }

  lemma SortedStays(xs: seq<int>)
    requires StrictlySorted(xs)
    ensures SortedUniq(xs) == xs
  {
    assert ToSet(SortedUniq(xs)) == ToSet(xs);
    StrictlySortedUnique(SortedUniq(xs), xs);
  }

  lemma TwoRanges(a: Range, b: Range)
    ensures Render([a, b]) == RangeText(a) + "," + RangeText(b)
  {
    var texts := [RangeText(a), RangeText(b)];
    assert RangeTexts([a, b]) == texts;
    assert texts[1..] == [RangeText(b)];
    assert Join(texts, ',') == texts[0] + [','] + Join(texts[1..], ',');
  }

  /** A stretch followed, after a gap, by a single id. */
  lemma StretchAndOne(xs: seq<int>, n: nat)
    requires |xs| == n + 1 && n > 0 && Consecutive(xs, 0, n) && xs[n - 1] + 1 < xs[n] && StrictlySorted(xs)
    ensures CpuListText(xs) == RangeText(Range(xs[0], xs[n - 1])) + "," + RangeText(Range(xs[n], xs[n]))
  {
    RunsOf(xs, n, n + 1, []);
    RunsOf(xs, 0, n, [Range(xs[n], xs[n])]);
    SortedStays(xs);
    assert Runs(xs) == [Range(xs[0], xs[n - 1]), Range(xs[n], xs[n])];
    TwoRanges(Range(xs[0], xs[n - 1]), Range(xs[n], xs[n]));
  }

  lemma PrintedParsesBack(xs: seq<int>)
    requires StrictlySorted(xs) && forall x :: x in xs ==> 0 <= x < MAX_INT
    ensures ParsedText(CpuListText(xs)) == Parsed(xs)
  {
    SortedStays(xs);
    RoundTrip(xs);
  }

  /** "0-3,8", printed and parsed. */
  lemma DocumentedList(xs: seq<int>, text: string)
    requires |xs| == 5 && xs[0] == 0 && xs[1] == 1 && xs[2] == 2 && xs[3] == 3 && xs[4] == 8 && text == "0-3" + "," + "8"
    ensures CpuListText(xs) == text && ParsedText(text) == Parsed(xs)
  {
    StretchAndOne(xs, 4);
    DocumentedParts();
    PrintedParsesBack(xs);
  }

  lemma DocumentedParts()
    ensures RangeText(Range(0, 3)) == "0-3" && RangeText(Range(8, 8)) == "8"
  {
    assert Itoa(0) == "0" && Itoa(3) == "3" && Itoa(8) == "8";
  }

  /** Two-digit bounds: "10-15". */
  lemma DocumentedRange()
    ensures RangeText(Range(10, 15)) == "10-15"
  {
    ItoaSnoc(1, 0);
    ItoaSnoc(1, 5);
    assert Itoa(1) == "1" && Itoa(10) == "10" && Itoa(15) == "15";
  }
}
