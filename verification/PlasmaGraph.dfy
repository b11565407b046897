/**
 The two graph operations of the Plasma coordinator: `AppendDAG` grows a live graph,
 `PickRunnable` is the scheduling policy.
 */
module PlasmaGraph {
  import opened Collections
  import opened Dag
  import opened Text
  import opened TextLaws
  import TopoSort

  datatype AppendError = Duplicate(id: string) | EmptyCmd(id: string) | UnknownDependency(id: string, dep: string) | NotADag

  /** The test `AppendDAG` applies to a non-empty addition, clause by clause. */
  ghost predicate Admissible(existing: seq<Node>, add: seq<Node>) {
    && (forall n :: n in add ==> n.id !in Ids(existing))
    && (forall n :: n in add ==> n.cmd != [])
    && (forall n, d :: n in add && d in n.dependsOn ==> d in Ids(existing) + Ids(add))
    && WellFormed(existing + add)
  }

  ghost predicate Accepts(existing: seq<Node>, add: seq<Node>) {
    add == [] || Admissible(existing, add)
  }

  /** The node has a command and its dependencies resolve. */
  ghost predicate Sound(n: Node, known: set<string>) {
    n.cmd != [] && forall d :: d in n.dependsOn ==> d in known
  }

  /** Node `i` is the first that is not sound, and `e` says what is wrong with it first. */
  ghost predicate FirstUnsound(add: seq<Node>, known: set<string>, i: int, e: AppendError) {
    && 0 <= i < |add| && (forall j :: 0 <= j < i ==> Sound(add[j], known))
    && if add[i].cmd == [] then e == EmptyCmd(add[i].id)
       else exists m :: FirstUnknownDep(add[i], known, m) && e == UnknownDependency(add[i].id, add[i].dependsOn[m])
  }

  ghost predicate FirstUnknownDep(n: Node, known: set<string>, m: int) {
    0 <= m < |n.dependsOn| && n.dependsOn[m] !in known && forall l :: 0 <= l < m ==> n.dependsOn[l] in known
  }

  ghost predicate FirstDuplicate(existing: seq<Node>, add: seq<Node>, i: int) {
    0 <= i < |add| && add[i].id in Ids(existing) && forall j :: 0 <= j < i ==> add[j].id !in Ids(existing)
  }

  /** What an error says: the first duplicate id; else the first unsound node; else that the merge is no DAG. */
  ghost predicate Explains(e: AppendError, existing: seq<Node>, add: seq<Node>) {
    var known := Ids(existing) + Ids(add);
    if exists n :: n in add && n.id in Ids(existing) then exists i :: FirstDuplicate(existing, add, i) && e == Duplicate(add[i].id)
    else if exists n :: n in add && !Sound(n, known) then exists i :: FirstUnsound(add, known, i, e)
    else e == NotADag
  }

  /** Commands are present and dependencies resolve, in the existing graph or in the addition. */
  method CheckAdded(add: seq<Node>, ids: set<string>, pending: set<string>) returns (r: Option<AppendError>)
    ensures r.None? ==> forall n :: n in add ==> Sound(n, ids + pending)
    ensures r.Some? ==> exists i :: FirstUnsound(add, ids + pending, i, r.value) && !Sound(add[i], ids + pending)
  {
    for i := 0 to |add|
      invariant forall k :: 0 <= k < i ==> Sound(add[k], ids + pending)
    {
      var n := add[i];
      if |n.cmd| == 0 {
        assert FirstUnsound(add, ids + pending, i, EmptyCmd(n.id));
        return Some(EmptyCmd(n.id));
      }
      for j := 0 to |n.dependsOn|
        invariant forall m :: 0 <= m < j ==> n.dependsOn[m] in ids + pending
      {
        var d := n.dependsOn[j];
        if d !in ids && d !in pending {
          assert FirstUnknownDep(n, ids + pending, j);
          assert FirstUnsound(add, ids + pending, i, UnknownDependency(n.id, d));
          return Some(UnknownDependency(n.id, d));
        }
      }
    }
    return None;
  }

  method AppendDAG(existing: seq<Node>, add: seq<Node>) returns (r: Result<seq<Node>, AppendError>)
    ensures r.Ok? <==> Accepts(existing, add)
    ensures r.Ok? ==> r.value == existing + add
    ensures add == [] ==> r == Ok(existing)
    ensures r.Err? ==> Explains(r.error, existing, add)
  {
    if |add| == 0 {
      return Ok(existing);
    }
    var ids: set<string> := {};
    for i := 0 to |existing|
      invariant ids == Ids(existing[..i])
    {
      assert existing[..i + 1] == existing[..i] + [existing[i]];
      ids := ids + {existing[i].id};
    }
    assert existing[..|existing|] == existing;
    var pending: set<string> := {};
    for i := 0 to |add|
      invariant pending == Ids(add[..i])
      invariant forall k :: 0 <= k < i ==> add[k].id !in ids
    {
      if add[i].id in ids {
        assert add[i] in add && FirstDuplicate(existing, add, i);
        return Err(Duplicate(add[i].id));
      }
      assert add[..i + 1] == add[..i] + [add[i]];
      pending := pending + {add[i].id};
    }
    assert add[..|add|] == add;
    assert forall n :: n in add ==> n.id !in Ids(existing);
    var bad := CheckAdded(add, ids, pending);
    if bad.Some? {
      ghost var i :| FirstUnsound(add, ids + pending, i, bad.value) && !Sound(add[i], ids + pending);
      assert add[i] in add;
      return Err(bad.value);
    }
    var merged := existing + add;
    var order := TopoSort.TopoOrder(merged);
    if order.Err? {
      return Err(NotADag);
    }
    return Ok(merged);
  }

  // When is a merge accepted? ----------------------------------------------------------

  lemma IdsOfConcat(a: seq<Node>, b: seq<Node>)
    ensures Ids(a + b) == Ids(a) + Ids(b)
  {
  }

  lemma DependsOfConcat(a: seq<Node>, b: seq<Node>, x: string, y: string)
    ensures Depends(a + b, x, y) <==> Depends(a, x, y) || Depends(b, x, y)
  {
    assert forall n :: n in a + b <==> n in a || n in b;
  }

  /** A chain that starts among the existing nodes never leaves them. */
  lemma {:induction false} ChainStaysInside(existing: seq<Node>, add: seq<Node>, p: seq<string>, i: nat)
    requires ClosedDeps(existing) && Ids(existing) !! Ids(add)
    requires IsChain(existing + add, p) && i < |p| && p[0] in Ids(existing)
    ensures p[i] in Ids(existing)
    ensures i > 0 ==> Depends(existing, p[i - 1], p[i])
  {
    if i > 0 {
      ChainStaysInside(existing, add, p, i - 1);
      assert Depends(existing + add, p[i - 1], p[i]);
      DependsOfConcat(existing, add, p[i - 1], p[i]);
    }
  }

  /** Every cycle of the merged graph lies in one of the two parts. */
  lemma CycleOnOneSide(existing: seq<Node>, add: seq<Node>, p: seq<string>)
    requires ClosedDeps(existing) && Ids(existing) !! Ids(add)
    requires IsCycle(existing + add, p)
    ensures IsCycle(existing, p) || IsCycle(add, p)
  {
    if p[0] in Ids(existing) {
      forall i | 0 <= i < |p| - 1
        ensures Depends(existing, p[i], p[i + 1])
      {
        ChainStaysInside(existing, add, p, i + 1);
      }
    } else {
      forall i | 0 <= i < |p| - 1
        ensures Depends(add, p[i], p[i + 1])
      {
        if p[i] in Ids(existing) {
          ChainSuffix(existing + add, p, i);
          ChainStaysInside(existing, add, p[i..], |p| - 1 - i);
          assert false;
        }
        assert Depends(existing + add, p[i], p[i + 1]);
        DependsOfConcat(existing, add, p[i], p[i + 1]);
      }
    }
  }

  lemma CycleLifts(existing: seq<Node>, add: seq<Node>, p: seq<string>)
    requires IsCycle(add, p) || IsCycle(existing, p)
    ensures IsCycle(existing + add, p)
  {
    forall i | 0 <= i < |p| - 1
      ensures Depends(existing + add, p[i], p[i + 1])
    {
      DependsOfConcat(existing, add, p[i], p[i + 1]);
    }
  }

  /**
   Merging into a well-formed graph is accepted exactly when the added ids are fresh and
   pairwise distinct, every command is non-empty, every dependency resolves, and the added
   nodes are acyclic by themselves.
   */
  lemma AcceptedMerge(existing: seq<Node>, add: seq<Node>)
    requires WellFormed(existing) && add != []
    ensures Accepts(existing, add) <==>
            && Ids(existing) !! Ids(add)
            && DistinctIds(add)
            && (forall n :: n in add ==> n.cmd != [])
            && (forall n, d :: n in add && d in n.dependsOn ==> d in Ids(existing) + Ids(add))
            && Acyclic(add)
  {
    IdsOfConcat(existing, add);
    var all := existing + add;
    if Admissible(existing, add) {
      forall i, j | 0 <= i < j < |add|
        ensures add[i].id != add[j].id
      {
        assert all[|existing| + i] == add[i] && all[|existing| + j] == add[j];
      }
      forall p | IsCycle(add, p)
        ensures false
      {
        CycleLifts(existing, add, p);
      }
    }
    if Ids(existing) !! Ids(add) && DistinctIds(add) {
      MergeDistinct(existing, add);
      if Acyclic(add) {
        forall p | IsCycle(all, p)
          ensures false
        {
          CycleOnOneSide(existing, add, p);
        }
      }
    }
  }

  lemma MergeDistinct(existing: seq<Node>, add: seq<Node>)
    requires DistinctIds(existing) && DistinctIds(add) && Ids(existing) !! Ids(add)
    ensures DistinctIds(existing + add)
  {
    var all := existing + add;
    forall i, j | 0 <= i < j < |all|
      ensures all[i].id != all[j].id
    {
      if i < |existing| <= j {
        assert existing[i] in existing && add[j - |existing|] in add;
        assert all[i].id in Ids(existing) && all[j].id in Ids(add);
      }
    }
  }

  /** Once a graph has a cycle nothing can be added to it. */
  lemma CyclicGraphIsFrozen(existing: seq<Node>, add: seq<Node>)
    requires !Acyclic(existing)
    ensures Accepts(existing, add) ==> add == []
  {
    var p :| IsCycle(existing, p);
    CycleLifts(existing, add, p);
  }

  // PickRunnable ----------------------------------------------------------------------

  /** Not done, not running, and nothing it depends on is outstanding. */
  predicate Ready(n: Node, completed: set<string>, running: set<string>) {
    n.id !in completed && n.id !in running && forall d :: d in n.dependsOn ==> d in completed
  }

  /** `next` is the lexicographically least ready node, or there is none. */
  ghost predicate IsPick(nodes: seq<Node>, completed: set<string>, running: set<string>, next: Option<Node>) {
    match next
    case None => forall n :: n in nodes ==> !Ready(n, completed, running)
    case Some(m) =>
      && m in nodes && Ready(m, completed, running)
      && forall n :: n in nodes && Ready(n, completed, running) ==> !StrLess(n.id, m.id)
  }

  lemma IdOrderIsWeak()
    ensures StrictWeakOrder((a: Node, b: Node) => StrLess(a.id, b.id))
  {
    forall a: string, b: string {
      StrLessTrichotomy(a, b);
    }
    forall a: string, b: string, c: string | !StrLess(b, a) && !StrLess(c, b)
      ensures !StrLess(c, a)
    {
      if StrLess(c, a) {
        if StrLess(a, b) {
          StrLessTransitive(c, a, b);
        }
      }
    }
  }

  /** The pick spelled out: what makes a node eligible, and which of the eligible ids is taken. */
  lemma PickMeans(nodes: seq<Node>, completed: set<string>, running: set<string>, next: Option<Node>)
    requires IsPick(nodes, completed, running, next)
    ensures next.None? ==> forall n :: n in nodes ==>
              n.id in completed || n.id in running || exists d :: d in n.dependsOn && d !in completed
    ensures next.Some? ==>
              && next.value in nodes && next.value.id !in completed && next.value.id !in running
              && forall d :: d in next.value.dependsOn ==> d in completed
    ensures next.Some? ==> forall n :: n in nodes && n.id !in completed && n.id !in running && (forall d :: d in n.dependsOn ==> d in completed) ==>
              n.id == next.value.id || exists k :: LessAt(next.value.id, n.id, k)
  {
    if next.None? {
      forall n | n in nodes
        ensures n.id in completed || n.id in running || exists d :: d in n.dependsOn && d !in completed
      {
        assert !Ready(n, completed, running);
      }
    } else {
      forall n | n in nodes && Ready(n, completed, running)
        ensures n.id == next.value.id || exists k :: LessAt(next.value.id, n.id, k)
      {
        StrLessTrichotomy(next.value.id, n.id);
        StrLessIff(next.value.id, n.id);
      }
    }
  }

  method PickRunnable(nodes: seq<Node>, completed: set<string>, running: set<string>) returns (next: Option<Node>)
    ensures IsPick(nodes, completed, running, next)
  {
    var c: seq<Node> := [];
    for i := 0 to |nodes|
      invariant forall n :: n in c <==> n in nodes[..i] && Ready(n, completed, running)
    {
      var n := nodes[i];
      assert nodes[..i + 1] == nodes[..i] + [n];
      if n.id in completed || n.id in running {
        continue;
      }
      var ready, j := true, 0;
      while j < |n.dependsOn|
        invariant 0 <= j <= |n.dependsOn| && ready
        invariant forall m :: 0 <= m < j ==> n.dependsOn[m] in completed
      {
        if n.dependsOn[j] !in completed {
          ready := false;
          break;
        }
        j := j + 1;
      }
      if ready {
        c := c + [n];
      }
    }
    assert nodes[..|nodes|] == nodes;
    if |c| == 0 {
      return None;
    }
    IdOrderIsWeak();
    var sorted := SortSlice(c, (a: Node, b: Node) => StrLess(a.id, b.id));
    assert sorted[0] in multiset(c);
    forall n | n in c
      ensures !StrLess(n.id, sorted[0].id)
    {
      assert n in multiset(sorted);
      var k :| 0 <= k < |sorted| && sorted[k] == n;
      StrLessTrichotomy(n.id, n.id);
    }
    return Some(sorted[0]);
  }

  /** With distinct ids the pick is determined by the state, whatever order the nodes are listed in. */
  lemma PickUnique(a: seq<Node>, b: seq<Node>, completed: set<string>, running: set<string>, x: Option<Node>, y: Option<Node>)
    requires DistinctIds(a) && forall n :: n in a <==> n in b
    requires IsPick(a, completed, running, x) && IsPick(b, completed, running, y)
    ensures x == y
  {
    if x.Some? && y.Some? {
      StrLessTrichotomy(x.value.id, y.value.id);
      assert x.value in a && y.value in a;
    }
  }

  /** In a well-formed graph with work left and nothing running there is always a node to pick. */
  lemma Progress(nodes: seq<Node>, completed: set<string>, next: Option<Node>)
    requires WellFormed(nodes) && !(Ids(nodes) <= completed)
    requires IsPick(nodes, completed, {}, next)
    ensures next.Some?
  {
    if next.None? {
      var c := BlockedMeansCycle(nodes, completed);
      assert false;
    }
  }

  lemma BlockedWaits(nodes: seq<Node>, completed: set<string>, x: string)
    requires ClosedDeps(nodes) && x in Ids(nodes) - completed
    requires IsPick(nodes, completed, {}, None)
    ensures HasDepIn(nodes, Ids(nodes) - completed, x)
  {
    var n :| n in nodes && n.id == x;
    assert !Ready(n, completed, {});
    var d :| d in n.dependsOn && d !in completed;
    assert Depends(nodes, x, d);
  }

  /** With nothing running, no pick and work left, the unfinished nodes contain a cycle. */
  lemma BlockedMeansCycle(nodes: seq<Node>, completed: set<string>) returns (c: seq<string>)
    requires ClosedDeps(nodes) && !(Ids(nodes) <= completed)
    requires IsPick(nodes, completed, {}, None)
    ensures IsCycle(nodes, c) && ToSet(c) !! completed
  {
    var u := Ids(nodes) - completed;
    assert exists x :: x in Ids(nodes) && x in u;
    forall x | x in u
      ensures HasDepIn(nodes, u, x)
    {
      BlockedWaits(nodes, completed, x);
    }
    c := NoMinimalMeansCycle(nodes, u);
  }
}
