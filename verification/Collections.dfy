/**
 Values and library operations shared by the other modules: results, duplicate-free
 sequences, and the two library sorts the program calls (`sort.Ints`, `sort.Slice`).
 */
module Collections {

  datatype Option<+T> = None | Some(value: T)

  datatype Result<+T, +E> = Ok(value: T) | Err(error: E)

  ghost predicate Distinct<T>(s: seq<T>) {
    forall i, j :: 0 <= i < j < |s| ==> s[i] != s[j]
  }

  function ToSet<T>(s: seq<T>): set<T> {
    set x | x in s
  }

  lemma Rejoin<T>(s: seq<T>, n: nat)
    requires n <= |s|
    ensures s[..n] + s[n..] == s
  {
  }

  lemma Reassociate<T>(a: seq<T>, b: seq<T>, c: seq<T>)
    ensures (a + b) + c == a + (b + c)
  {
  }

  lemma SubsetCardinality<T>(a: set<T>, b: set<T>)
    requires a <= b
    ensures |a| <= |b|
    ensures |a| == |b| ==> a == b
  {
    assert b == a + (b - a);
    assert |b| == |a| + |b - a|;
    if |a| == |b| {
      assert b - a == {};
    }
  }

  lemma OneFewerLeft<T>(all: set<T>, done: set<T>, x: T)
    requires x in all - done
    ensures |all - (done + {x})| == |all - done| - 1
  {
    assert all - (done + {x}) == (all - done) - {x};
  }

  /** A sequence has at most as many values as places, and exactly as many when nothing repeats. */
  lemma {:induction false} ToSetCardinality<T>(s: seq<T>)
    ensures |ToSet(s)| <= |s|
    ensures |ToSet(s)| == |s| <==> Distinct(s)
  {
    if s != [] {
      var front, x := s[..|s| - 1], s[|s| - 1];
      ToSetCardinality(front);
      assert s == front + [x];
      assert ToSet(s) == ToSet(front) + {x};
      if x in front {
        assert ToSet(s) == ToSet(front);
        var i :| 0 <= i < |front| && front[i] == x;
        assert s[i] == s[|s| - 1];
      } else {
        assert forall i :: 0 <= i < |front| ==> s[i] == front[i];
        assert Distinct(s) <==> Distinct(front);
      }
    }
  }

  /** In a duplicate-free sequence every multiplicity is zero or one. */
  lemma {:induction false} DistinctMultiset<T>(s: seq<T>, x: T)
    requires Distinct(s)
    ensures multiset(s)[x] == if x in s then 1 else 0
  {
    if s != [] {
      var front := s[..|s| - 1];
      assert s == front + [s[|s| - 1]];
      DistinctMultiset(front, x);
    }
  }

  /** Two duplicate-free sequences with the same members are permutations of each other. */
  lemma DistinctPermutation<T>(a: seq<T>, b: seq<T>)
    requires Distinct(a) && Distinct(b) && ToSet(a) == ToSet(b)
    ensures multiset(a) == multiset(b)
  {
    forall x: T
      ensures multiset(a)[x] == multiset(b)[x]
    {
      DistinctMultiset(a, x);
      DistinctMultiset(b, x);
      assert x in a <==> x in ToSet(a);
      assert x in b <==> x in ToSet(b);
    }
  }

  /** Reading a missing key of a Go map of slices gives the empty slice. */
  function Lookup<K, V>(m: map<K, seq<V>>, k: K): seq<V> {
    if k in m then m[k] else []
  }

  ghost function Member<T>(s: set<T>): (x: T)
    requires s != {}
    ensures x in s
  {
    var x :| x in s;
    x
  }

  /** Map iteration yields the keys in no particular order. */
  method AnyKey(keys: set<int>) returns (k: int)
    requires keys != {}
    ensures k in keys
  {
    ghost var w: int := Member(keys);
    assert w in keys;
    k :| k in keys;
  }

  // sort.Ints ---------------------------------------------------------------------

  ghost predicate Sorted(s: seq<int>) {
    forall i, j :: 0 <= i < j < |s| ==> s[i] <= s[j]
  }

  ghost predicate StrictlySorted(s: seq<int>) {
    forall i, j :: 0 <= i < j < |s| ==> s[i] < s[j]
  }

  lemma InsertInt(s: seq<int>, x: int, k: nat)
    requires Sorted(s) && k <= |s|
    requires (forall i :: 0 <= i < k ==> s[i] <= x) && (forall i :: k <= i < |s| ==> x <= s[i])
    ensures Sorted(s[..k] + [x] + s[k..])
    ensures multiset(s[..k] + [x] + s[k..]) == multiset(s) + multiset{x}
  {
    assert s == s[..k] + s[k..];
  }

  lemma {:induction false} SortedExists(s: seq<int>) returns (r: seq<int>)
    ensures Sorted(r) && multiset(r) == multiset(s)
  {
    if s == [] {
      return [];
    }
    var front, x := s[..|s| - 1], s[|s| - 1];
    assert s == front + [x];
    var t := SortedExists(front);
    var k := 0;
    while k < |t| && t[k] <= x
      invariant 0 <= k <= |t| && forall i :: 0 <= i < k ==> t[i] <= x
    {
      k := k + 1;
    }
    InsertInt(t, x, k);
    r := t[..k] + [x] + t[k..];
  }

  /** The sorted arrangement of `s`; `SortedUnique` shows there is only one. */
  ghost function SortInts(s: seq<int>): (r: seq<int>)
    ensures Sorted(r) && multiset(r) == multiset(s) && |r| == |s|
  {
    var w := SortedArrangement(s);
    assert |w| == |multiset(w)| == |s|;
    w
  }

  ghost function SortedArrangement(s: seq<int>): (r: seq<int>)
    ensures Sorted(r) && multiset(r) == multiset(s)
  {
    assert exists w :: Sorted(w) && multiset(w) == multiset(s) by {
      var w := SortedExists(s);
    }
    var r :| Sorted(r) && multiset(r) == multiset(s);
    r
  }

  /** `sort.Ints` */
  method Ints(s: seq<int>) returns (r: seq<int>)
    ensures r == SortInts(s)
  {
    r := [];
    for i := 0 to |s|
      invariant Sorted(r) && multiset(r) == multiset(s[..i])
    {
      var k := 0;
      while k < |r| && r[k] <= s[i]
        invariant 0 <= k <= |r| && forall j :: 0 <= j < k ==> r[j] <= s[i]
      {
        k := k + 1;
      }
      assert s[..i + 1] == s[..i] + [s[i]];
      InsertInt(r, s[i], k);
      r := r[..k] + [s[i]] + r[k..];
    }
    assert s[..|s|] == s;
    SortedUnique(r, SortInts(s));
  }

  lemma SortIntsMembers(s: seq<int>)
    ensures forall x :: x in SortInts(s) <==> x in s
    ensures ToSet(SortInts(s)) == ToSet(s)
  {
    forall x: int
      ensures x in SortInts(s) <==> x in s
    {
      assert x in SortInts(s) <==> x in multiset(SortInts(s));
    }
  }

  lemma SortedHead(a: seq<int>, b: seq<int>)
    requires a != [] && Sorted(b) && multiset(a) == multiset(b)
    ensures b != [] && b[0] <= a[0]
  {
    assert a[0] in multiset(b);
    var j :| 0 <= j < |b| && b[j] == a[0];
  }

  lemma TailMultiset(s: seq<int>)
    requires s != []
    ensures multiset(s[1..]) == multiset(s) - multiset{s[0]}
  {
    assert s == [s[0]] + s[1..];
  }

  /** There is only one sorted arrangement of a multiset of integers. */
  lemma {:induction false} SortedUnique(a: seq<int>, b: seq<int>)
    requires Sorted(a) && Sorted(b) && multiset(a) == multiset(b)
    ensures a == b
  {
    if a == [] {
      assert |multiset(b)| == 0;
    } else {
      SortedHead(a, b);
      SortedHead(b, a);
      TailMultiset(a);
      TailMultiset(b);
      SortedUnique(a[1..], b[1..]);
      assert a == [a[0]] + a[1..] && b == [b[0]] + b[1..];
    }
  }

  /** Sorting a duplicate-free list gives a strictly increasing one. */
  lemma SortDistinct(s: seq<int>)
    requires Distinct(s)
    ensures StrictlySorted(SortInts(s)) && ToSet(SortInts(s)) == ToSet(s)
  {
    SortIntsMembers(s);
    ToSetCardinality(s);
    ToSetCardinality(SortInts(s));
  }

  /** A strictly increasing list is determined by its set of members. */
  lemma StrictlySortedUnique(a: seq<int>, b: seq<int>)
    requires StrictlySorted(a) && StrictlySorted(b) && ToSet(a) == ToSet(b)
    ensures a == b
  {
    DistinctPermutation(a, b);
    SortedUnique(a, b);
  }

  // sort.Slice --------------------------------------------------------------------

  /** What `sort.Slice` needs of its comparison: `!less(b, a)` is a total preorder. */
  ghost predicate StrictWeakOrder<T(!new)>(less: (T, T) -> bool) {
    && (forall a :: !less(a, a))
    && (forall a, b :: less(a, b) ==> !less(b, a))
    && (forall a, b, c :: !less(b, a) && !less(c, b) ==> !less(c, a))
  }

  ghost predicate SortedBy<T>(less: (T, T) -> bool, s: seq<T>) {
    forall i, j :: 0 <= i < j < |s| ==> !less(s[j], s[i])
  }

  /** What comes after the place of `x` in a sorted list is not before `x`. */
  lemma RestNotBefore<T(!new)>(less: (T, T) -> bool, r: seq<T>, x: T, k: nat, m: nat)
    requires StrictWeakOrder(less) && SortedBy(less, r) && k <= m < |r| && less(x, r[k])
    ensures !less(r[m], x)
  {
    assert !less(r[k], x);
    assert m == k || !less(r[m], r[k]);
  }

  lemma InsertKeepsOrder<T(!new)>(less: (T, T) -> bool, r: seq<T>, x: T, k: nat)
    requires SortedBy(less, r) && k <= |r|
    requires (forall m :: 0 <= m < k ==> !less(x, r[m])) && (forall m :: k <= m < |r| ==> !less(r[m], x))
    ensures SortedBy(less, r[..k] + [x] + r[k..])
  {
  }

  lemma InsertMultiset<T>(r: seq<T>, x: T, k: nat)
    requires k <= |r|
    ensures multiset(r[..k] + [x] + r[k..]) == multiset(r) + multiset{x}
  {
    Rejoin(r, k);
  }

  /** `sort.Slice` is not stable: the contract fixes the order of keys and the multiset, no more. */
  method SortSlice<T(!new)>(s: seq<T>, less: (T, T) -> bool) returns (r: seq<T>)
    requires StrictWeakOrder(less)
    ensures multiset(r) == multiset(s) && |r| == |s|
    ensures SortedBy(less, r)
  {
    r := [];
    for i := 0 to |s|
      invariant multiset(r) == multiset(s[..i]) && |r| == i
      invariant SortedBy(less, r)
    {
      var k := 0;
      while k < |r| && !less(s[i], r[k])
        invariant 0 <= k <= |r|
        invariant forall m :: 0 <= m < k ==> !less(s[i], r[m])
      {
        k := k + 1;
      }
      assert s[..i + 1] == s[..i] + [s[i]];
      forall m | k <= m < |r|
        ensures !less(r[m], s[i])
      {
        RestNotBefore(less, r, s[i], k, m);
      }
      InsertKeepsOrder(less, r, s[i], k);
      InsertMultiset(r, s[i], k);
      r := r[..k] + [s[i]] + r[k..];
    }
    assert s[..|s|] == s;
  }
}
