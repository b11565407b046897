/**
 `PrimaryNUMANodeForCPUs`: the NUMA node all the given CPUs live on, if there is one.
 */
module NumaBind {
  import opened Collections
  import opened Topology

  /** How many CPU records the id set selects. */
  ghost function Matches(cpus: seq<Cpu>, want: set<int>): nat {
    if cpus == [] then 0
    else Matches(cpus[..|cpus| - 1], want) + if cpus[|cpus| - 1].id in want then 1 else 0
  }

  /** Every selected record has this node. */
  ghost predicate AllOn(cpus: seq<Cpu>, want: set<int>, node: int) {
    forall i :: 0 <= i < |cpus| && cpus[i].id in want ==> cpus[i].numaNode == node
  }

  /** The verdict as the code reaches it: one shared node, and as many records as distinct ids. */
  ghost predicate Verdict(cpus: seq<Cpu>, want: set<int>, node: int) {
    0 <= node && want != {} && AllOn(cpus, want, node) && Matches(cpus, want) == |want|
  }

  method PrimaryNUMANodeForCPUs(t: Option<Machine>, cpus: seq<int>) returns (node: int, ok: bool)
    ensures ok ==> t.Some? && Verdict(t.value.cpus, ToSet(cpus), node)
    ensures !ok ==> node == -1 && (t.Some? ==> forall n :: !Verdict(t.value.cpus, ToSet(cpus), n))
  {
    if t.None? || |cpus| == 0 {
      assert |cpus| == 0 ==> ToSet(cpus) == {};
      return -1, false;
    }
    var want: set<int> := {};
    for i := 0 to |cpus|
      invariant want == ToSet(cpus[..i])
    {
      assert cpus[..i + 1] == cpus[..i] + [cpus[i]];
      want := want + {cpus[i]};
    }
    assert cpus[..|cpus|] == cpus;
    var all := t.value.cpus;
    var first: Option<int> := None;
    var seen := 0;
    for i := 0 to |all|
      invariant seen == Matches(all[..i], want)
      invariant first.None? <==> seen == 0
      invariant first.None? ==> forall k :: 0 <= k < i ==> all[k].id !in want
      invariant first.Some? ==> first.value >= 0 && AllOn(all[..i], want, first.value)
      invariant first.Some? ==> exists k :: 0 <= k < i && all[k].id in want
    {
      assert all[..i + 1][..i] == all[..i];
      if all[i].id !in want {
        continue;
      }
      seen := seen + 1;
      var nid := all[i].numaNode;
      if nid < 0 {
        return -1, false;
      }
      if first.None? {
        first := Some(nid);
      } else if first.value != nid {
        ghost var k :| 0 <= k < i && all[k].id in want;
        assert all[..i][k].numaNode == first.value;
        return -1, false;
      }
    }
    assert all[..|all|] == all;
    if first.None? || seen != |want| {
      return -1, false;
    }
    return first.value, true;
  }

  // When the count means what it is meant to -----------------------------------------------------

  /** No id of a CPU with a known node is listed twice. */
  ghost predicate RepeatsUnknown(cpus: seq<Cpu>) {
    forall i, j :: 0 <= i < j < |cpus| && cpus[i].id == cpus[j].id ==> cpus[i].numaNode < 0 && cpus[j].numaNode < 0
  }

  /** The verdict says of this list what it is meant to say: every id is known and on that node. */
  ghost predicate MeansAllOnNode(t: Machine, cpus: seq<int>, node: int) {
    Verdict(t.cpus, ToSet(cpus), node) <==> cpus != [] && 0 <= node && forall x :: x in cpus ==> OnNode(t, x, node)
  }

  lemma MeetGrows(ids: set<int>, x: int, want: set<int>)
    requires x in want ==> x !in ids
    ensures |(ids + {x}) * want| == |ids * want| + if x in want then 1 else 0
  {
    if x in want {
      assert (ids + {x}) * want == ids * want + {x};
    } else {
      assert (ids + {x}) * want == ids * want;
    }
  }

  /** If no selected id is listed twice, the number of selected records is that of the known selected ids. */
  lemma {:induction false} MatchesUnique(cpus: seq<Cpu>, want: set<int>)
    requires forall i, j :: 0 <= i < j < |cpus| && cpus[i].id in want ==> cpus[i].id != cpus[j].id
    ensures Matches(cpus, want) == |ToSet(CpuIds(cpus)) * want|
  {
    if cpus != [] {
      var front, x := cpus[..|cpus| - 1], cpus[|cpus| - 1].id;
      MatchesUnique(front, want);
      assert CpuIds(cpus) == CpuIds(front) + [x];
      assert ToSet(CpuIds(cpus)) == ToSet(CpuIds(front)) + {x};
      MeetGrows(ToSet(CpuIds(front)), x, want);
    } else {
      assert ToSet(CpuIds(cpus)) * want == {};
    }
  }

  lemma KnownIffListed(cpus: seq<Cpu>, x: int)
    ensures x in ToSet(CpuIds(cpus)) <==> exists i :: 0 <= i < |cpus| && cpus[i].id == x
  {
    if x in CpuIds(cpus) {
      var i :| 0 <= i < |cpus| && CpuIds(cpus)[i] == x;
    }
    if i :| 0 <= i < |cpus| && cpus[i].id == x {
      assert CpuIds(cpus)[i] == x;
    }
  }

  /** Where all selected records are on a known node, the count decides whether every id is known. */
  lemma CountMeansKnown(t: Machine, want: set<int>, node: int)
    requires RepeatsUnknown(t.cpus) && 0 <= node && AllOn(t.cpus, want, node)
    ensures Matches(t.cpus, want) == |want| <==> want <= ToSet(CpuIds(t.cpus))
  {
    var ids := ToSet(CpuIds(t.cpus));
    MatchesUnique(t.cpus, want);
    SubsetCardinality(ids * want, want);
    assert want <= ids <==> ids * want == want;
  }

  lemma KnownOnNode(t: Machine, x: int, want: set<int>, node: int)
    requires AllOn(t.cpus, want, node) && x in want && x in ToSet(CpuIds(t.cpus))
    ensures OnNode(t, x, node)
  {
    KnownIffListed(t.cpus, x);
    var i :| 0 <= i < |t.cpus| && t.cpus[i].id == x;
    assert t.cpus[i] in t.cpus;
  }

  lemma AllKnownOn(t: Machine, cpus: seq<int>, node: int)
    requires RepeatsUnknown(t.cpus) && 0 <= node && forall x :: x in cpus ==> OnNode(t, x, node)
    ensures AllOn(t.cpus, ToSet(cpus), node) && ToSet(cpus) <= ToSet(CpuIds(t.cpus))
  {
    forall x | x in cpus
      ensures x in ToSet(CpuIds(t.cpus))
    {
      var c :| c in t.cpus && c.id == x && c.numaNode == node;
      KnownIffListed(t.cpus, x);
    }
    forall i | 0 <= i < |t.cpus| && t.cpus[i].id in cpus
      ensures t.cpus[i].numaNode == node
    {
      var c :| c in t.cpus && c.id == t.cpus[i].id && c.numaNode == node;
      var j :| 0 <= j < |t.cpus| && t.cpus[j] == c;
      assert i < j || j < i || i == j;
    }
  }

  /** Unless an id of known node repeats: a verdict is given exactly for ids that are all known and on that node. */
  lemma VerdictMeansAllOnNode(t: Machine, cpus: seq<int>, node: int)
    requires RepeatsUnknown(t.cpus)
    ensures MeansAllOnNode(t, cpus, node)
  {
    var want := ToSet(cpus);
    assert cpus != [] ==> cpus[0] in want;
    if Verdict(t.cpus, want, node) {
      CountMeansKnown(t, want, node);
      forall x | x in cpus
        ensures OnNode(t, x, node)
      {
        KnownOnNode(t, x, want, node);
      }
    }
    if cpus != [] && 0 <= node && forall x :: x in cpus ==> OnNode(t, x, node) {
      AllKnownOn(t, cpus, node);
      CountMeansKnown(t, want, node);
    }
  }

  lemma {:induction false} MatchesAtLeast(cpus: seq<Cpu>, want: set<int>, j: nat)
    requires j < |cpus| && cpus[j].id in want
    ensures Matches(cpus, want) >= 1
    ensures forall i :: 0 <= i < j && cpus[i].id in want ==> Matches(cpus, want) >= 2
  {
    var front := cpus[..|cpus| - 1];
    if j < |front| {
      MatchesAtLeast(front, want, j);
    } else if i :| 0 <= i < j && cpus[i].id in want {
      MatchesAtLeast(front, want, i);
    }
  }

  /** A repeated id with a known node on either record is refused, although it is on that node. */
  lemma RepeatIsRefused(t: Machine, i: nat, j: nat, node: int)
    requires i < j < |t.cpus| && t.cpus[i].id == t.cpus[j].id && 0 <= node
    requires node == t.cpus[i].numaNode || node == t.cpus[j].numaNode
    ensures !MeansAllOnNode(t, [t.cpus[i].id], node)
  {
    var x := t.cpus[i].id;
    assert ToSet([x]) == {x};
    MatchesAtLeast(t.cpus, {x}, j);
    assert OnNode(t, x, node) by {
      assert t.cpus[i] in t.cpus && t.cpus[j] in t.cpus;
    }
    assert forall y :: y in [x] ==> y == x;
  }

  /** The verdict means what it is meant to for every list of ids exactly when no id of known node repeats. */
  lemma VerdictMeaningIff(t: Machine)
    ensures (forall cpus, node :: MeansAllOnNode(t, cpus, node)) <==> RepeatsUnknown(t.cpus)
  {
    if RepeatsUnknown(t.cpus) {
      forall cpus: seq<int>, node: int
        ensures MeansAllOnNode(t, cpus, node)
      {
        VerdictMeansAllOnNode(t, cpus, node);
      }
    } else {
      var i, j :| 0 <= i < j < |t.cpus| && t.cpus[i].id == t.cpus[j].id && !(t.cpus[i].numaNode < 0 && t.cpus[j].numaNode < 0);
      RepeatIsRefused(t, i, j, if t.cpus[i].numaNode >= 0 then t.cpus[i].numaNode else t.cpus[j].numaNode);
    }
  }

  /** A repeated id can also make up for an unknown one. */
  lemma DuplicateIdsFoolTheCount() returns (t: Machine, cpus: seq<int>)
    ensures !RepeatsUnknown(t.cpus) && Verdict(t.cpus, ToSet(cpus), 0)
    ensures exists x :: x in cpus && forall node :: !OnNode(t, x, node)
  {
    var c := Cpu(0, 0, 0, 0, []);
    t, cpus := Machine([c, c], []), [0, 1];
    assert t.cpus[0].id == t.cpus[1].id && t.cpus[0].numaNode == 0;
    assert ToSet(cpus) == {0, 1} by {
      assert cpus[0] == 0 && cpus[1] == 1;
    }
    assert [c, c][..1] == [c] && [c][..0] == [];
    assert Matches([c], {0, 1}) == 1;
    assert 1 in cpus;
  }
}
