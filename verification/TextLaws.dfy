/**
 What the string operations mean, stated character by character and without their recursions:
 string order, trimming, splitting, decimal digits.
 */
module TextLaws {
  import opened Collections
  import opened Text

  // Order ------------------------------------------------------------------------------

  /** `a` and `b` agree up to position `k`, where `a` ends first or has the smaller character. */
  ghost predicate LessAt(a: string, b: string, k: nat) {
    && k <= |a| && k <= |b| && a[..k] == b[..k]
    && (k == |a| < |b| || (k < |a| && k < |b| && a[k] < b[k]))
  }

  lemma {:induction false} StrLessHasPosition(a: string, b: string) returns (k: nat)
    requires StrLess(a, b)
    ensures LessAt(a, b, k)
    decreases |a|
  {
    if a == [] || a[0] < b[0] {
      return 0;
    }
    k := StrLessHasPosition(a[1..], b[1..]);
    assert a[..k + 1] == [a[0]] + a[1..][..k] && b[..k + 1] == [b[0]] + b[1..][..k];
    k := k + 1;
  }

  lemma {:induction false} PositionMeansStrLess(a: string, b: string, k: nat)
    requires LessAt(a, b, k)
    ensures StrLess(a, b)
    decreases k
  {
    if k > 0 {
      assert a[0] == a[..k][0] && b[0] == b[..k][0];
      assert a[1..][..k - 1] == a[..k][1..] && b[1..][..k - 1] == b[..k][1..];
      PositionMeansStrLess(a[1..], b[1..], k - 1);
    }
  }

  /** Strings are compared at the first position where they differ, a prefix coming first. */
  lemma StrLessIff(a: string, b: string)
    ensures StrLess(a, b) <==> exists k :: LessAt(a, b, k)
  {
    if StrLess(a, b) {
      var k := StrLessHasPosition(a, b);
    }
    if k :| LessAt(a, b, k) {
      PositionMeansStrLess(a, b, k);
    }
  }

  // Trimming ---------------------------------------------------------------------------

  ghost predicate AllSpace(s: string) {
    forall i :: 0 <= i < |s| ==> IsSpace(s[i])
  }

  /** Among the ASCII characters: blank, tab, line feed, vertical tab, form feed, carriage return. */
  lemma AsciiSpaces(c: char)
    requires (c as int) < 0x80
    ensures IsSpace(c) <==> c == ' ' || c == '\t' || c == '\n' || c == '\r' || c as int == 0x0B || c as int == 0x0C
  {
  }

  /** Neither end is white space. */
  predicate Trimmed(s: string) {
    s == [] || (!IsSpace(s[0]) && !IsSpace(s[|s| - 1]))
  }

  lemma {:induction false} TrimLeftSkips(pre: string, s: string)
    requires AllSpace(pre)
    ensures TrimLeft(pre + s) == TrimLeft(s)
  {
    if pre == [] {
      assert pre + s == s;
    } else {
      assert (pre + s)[0] == pre[0] && (pre + s)[1..] == pre[1..] + s;
      TrimLeftSkips(pre[1..], s);
    }
  }

  lemma {:induction false} TrimRightSkips(s: string, post: string)
    requires AllSpace(post)
    ensures TrimRight(s + post) == TrimRight(s)
  {
    if post == [] {
      assert s + post == s;
    } else {
      var n := |post| - 1;
      assert (s + post)[|s| + n] == post[n] && (s + post)[..|s| + n] == s + post[..n];
      TrimRightSkips(s, post[..n]);
    }
  }

  /** Trimming removes exactly the white space at both ends. */
  lemma TrimSpaceIs(pre: string, core: string, post: string)
    requires AllSpace(pre) && AllSpace(post) && Trimmed(core)
    ensures TrimSpace(pre + core + post) == core
  {
    Reassociate(pre, core, post);
    TrimLeftSkips(pre, core + post);
    if core == [] {
      assert core + post == post + [];
      TrimLeftSkips(post, []);
    } else {
      assert (core + post)[0] == core[0];
      TrimRightSkips(core, post);
    }
  }

  lemma {:induction false} CutLeft(s: string) returns (pre: string, rest: string)
    ensures s == pre + rest && AllSpace(pre) && (rest == [] || !IsSpace(rest[0]))
  {
    if s == [] || !IsSpace(s[0]) {
      return [], s;
    }
    pre, rest := CutLeft(s[1..]);
    pre := [s[0]] + pre;
    assert s == [s[0]] + s[1..];
  }

  lemma {:induction false} CutRight(s: string) returns (rest: string, post: string)
    ensures s == rest + post && AllSpace(post) && (rest == [] || !IsSpace(rest[|rest| - 1]))
  {
    if s == [] || !IsSpace(s[|s| - 1]) {
      return s, [];
    }
    var n := |s| - 1;
    rest, post := CutRight(s[..n]);
    post := post + [s[n]];
    assert s == s[..n] + [s[n]];
  }

  /** Every string is white space, its trimmed core, white space. */
  lemma TrimParts(s: string) returns (pre: string, core: string, post: string)
    ensures s == pre + core + post && AllSpace(pre) && AllSpace(post) && Trimmed(core) && TrimSpace(s) == core
  {
    var rest;
    pre, rest := CutLeft(s);
    core, post := CutRight(rest);
    Reassociate(pre, core, post);
    if core != [] {
      assert rest[0] == core[0];
    }
    TrimSpaceIs(pre, core, post);
  }

  /** White space around a string makes no difference once it is trimmed. */
  lemma TrimIgnoresBlanks(before: string, s: string, after: string)
    requires AllSpace(before) && AllSpace(after)
    ensures TrimSpace(before + s + after) == TrimSpace(s)
  {
    var pre, core, post := TrimParts(s);
    assert before + s + after == (before + pre) + core + (post + after);
    TrimSpaceIs(before + pre, core, post + after);
  }

  /** Only white space trims to nothing. */
  lemma TrimsToNothingIff(s: string)
    ensures TrimSpace(s) == "" <==> AllSpace(s)
  {
    var pre, core, post := TrimParts(s);
    assert core != [] ==> s[|pre|] == core[0];
  }

  // Splitting ---------------------------------------------------------------------------

  /** The parts contain no separator, and joining them gives the text back. */
  lemma {:induction false} JoinSplit(s: string, sep: char)
    ensures Join(Split(s, sep), sep) == s
    ensures forall k :: 0 <= k < |Split(s, sep)| ==> sep !in Split(s, sep)[k]
    decreases |s|
  {
    if sep in s {
      var i := Index(s, sep);
      JoinSplit(s[i + 1..], sep);
      assert s == s[..i] + [sep] + s[i + 1..];
      assert Split(s, sep)[1..] == Split(s[i + 1..], sep);
    }
  }

  // Decimal digits ---------------------------------------------------------------------------

  /** The last character is the units digit, what precedes it the number of tens. */
  lemma ItoaSnoc(q: nat, d: nat)
    requires 0 < q && d < 10
    ensures |Itoa(10 * q + d)| == |Itoa(q)| + 1 && Itoa(10 * q + d)[..|Itoa(q)|] == Itoa(q)
    ensures Itoa(10 * q + d)[|Itoa(q)|] as int == '0' as int + d
  {
    assert (10 * q + d) / 10 == q && (10 * q + d) % 10 == d;
  }

  lemma ItoaDigit(d: nat)
    requires d < 10
    ensures |Itoa(d)| == 1 && Itoa(d)[0] as int == '0' as int + d
  {
  }

  lemma ItoaNegative(n: int)
    requires n < 0
    ensures Itoa(n) == "-" + Itoa(-n)
  {
  }

  /** Read from the left, each digit adds to ten times what stands before it. */
  lemma DigitsValueSnoc(s: string, c: char)
    requires (forall x :: x in s ==> IsDigit(x)) && IsDigit(c)
    ensures forall x :: x in s + [c] ==> IsDigit(x)
    ensures DigitsValue(s + [c]) == 10 * DigitsValue(s) + (c as int - '0' as int)
  {
    assert (s + [c])[..|s|] == s;
  }

  /** A text that `Atoi` accepts: at least one digit, after at most one sign. */
  ghost predicate Numeral(s: string, digits: string, negative: bool) {
    && digits != [] && (forall c :: c in digits ==> IsDigit(c))
    && if negative then s == "-" + digits else s == digits || s == "+" + digits
  }

  ghost predicate Denotes(s: string, v: int, digits: string, negative: bool) {
    Numeral(s, digits, negative) && v == if negative then 0 - DigitsValue(digits) else DigitsValue(digits)
  }

  lemma AtoiReads(s: string, digits: string, negative: bool)
    requires Numeral(s, digits, negative)
    ensures var v: int := if negative then 0 - DigitsValue(digits) else DigitsValue(digits);
            Atoi(s) == if MIN_INT <= v <= MAX_INT then Some(v) else None
  {
    assert digits[0] in digits;
    assert ("-" + digits)[1..] == digits && ("+" + digits)[1..] == digits;
  }

  lemma AtoiNeedsNumeral(s: string) returns (digits: string, negative: bool)
    requires Atoi(s).Some?
    ensures Numeral(s, digits, negative)
  {
    var signed := s != [] && (s[0] == '-' || s[0] == '+');
    digits, negative := if signed then s[1..] else s, signed && s[0] == '-';
    assert signed ==> s == [s[0]] + digits;
  }

  /** `Atoi` accepts exactly the numerals whose value fits an `int`, and returns that value. */
  lemma AtoiIff(s: string, v: int)
    ensures Atoi(s) == Some(v) <==> MIN_INT <= v <= MAX_INT && exists digits, negative :: Denotes(s, v, digits, negative)
  {
    if Atoi(s) == Some(v) {
      var digits, negative := AtoiNeedsNumeral(s);
      AtoiReads(s, digits, negative);
      assert Denotes(s, v, digits, negative);
    }
    if digits, negative :| MIN_INT <= v <= MAX_INT && Denotes(s, v, digits, negative) {
      AtoiReads(s, digits, negative);
    }
  }
}
