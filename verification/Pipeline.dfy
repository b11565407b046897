/**
 `Validate`: the checks a pipeline file passes before it is run. They do not include
 acyclicity.
 */
module Pipelines {
  import opened Collections
  import opened Dag
  import opened Text
  import opened TextLaws

  datatype Pipeline = Pipeline(name: string, nodes: seq<Node>)

  datatype SpecError =
    | NilPipeline
    | NoName
    | NodeWithoutId
    | DuplicateId(id: string)
    | EmptyCmd(id: string)
    | UnknownDependency(id: string, dep: string)

  predicate Blank(s: string) {
    TrimSpace(s) == ""
  }

  /** A blank string consists of white space only. */
  lemma BlankIff(s: string)
    ensures Blank(s) <==> forall i :: 0 <= i < |s| ==> IsSpace(s[i])
  {
    TrimsToNothingIff(s);
  }

  predicate Filled(n: Node) {
    !Blank(n.id) && n.cmd != []
  }

  ghost predicate AcceptedBySpec(p: Pipeline) {
    && !Blank(p.name)
    && (forall n :: n in p.nodes ==> !Blank(n.id) && n.cmd != [])
    && DistinctIds(p.nodes) && ClosedDeps(p.nodes)
  }

  // What an error says ------------------------------------------------------------------------

  /** Node `i` is the first to fail the first pass, and `e` is the first thing wrong with it. */
  ghost predicate FirstMalformed(nodes: seq<Node>, i: int, e: SpecError) {
    && 0 <= i < |nodes| && (forall j :: 0 <= j < i ==> !Blank(nodes[j].id) && nodes[j].cmd != []) && DistinctIds(nodes[..i])
    && if Blank(nodes[i].id) then e == NodeWithoutId
       else if nodes[i].id in Ids(nodes[..i]) then e == DuplicateId(nodes[i].id)
       else nodes[i].cmd == [] && e == EmptyCmd(nodes[i].id)
  }

  /** Dependency `m` of node `i` is the first that does not resolve. */
  ghost predicate FirstUnresolved(nodes: seq<Node>, ids: set<string>, i: int, m: int) {
    && 0 <= i < |nodes| && 0 <= m < |nodes[i].dependsOn| && nodes[i].dependsOn[m] !in ids
    && (forall l :: 0 <= l < m ==> nodes[i].dependsOn[l] in ids)
    && (forall j, d :: 0 <= j < i && d in nodes[j].dependsOn ==> d in ids)
  }

  ghost predicate Explains(e: SpecError, p: Option<Pipeline>) {
    if p.None? then e == NilPipeline
    else if Blank(p.value.name) then e == NoName
    else
      || (exists i :: FirstMalformed(p.value.nodes, i, e))
      || (&& DistinctIds(p.value.nodes) && (forall n :: n in p.value.nodes ==> !Blank(n.id) && n.cmd != [])
          && exists i, m :: FirstUnresolved(p.value.nodes, Ids(p.value.nodes), i, m)
                            && e == UnknownDependency(p.value.nodes[i].id, p.value.nodes[i].dependsOn[m]))
  }

  // The code -----------------------------------------------------------------------------------

  /** The second pass: is some dependency not among `ids`? */
  method FirstUnknown(nodes: seq<Node>, ids: set<string>) returns (r: Option<SpecError>)
    ensures r.None? <==> forall n, d :: n in nodes && d in n.dependsOn ==> d in ids
    ensures r.Some? ==> exists i, m :: FirstUnresolved(nodes, ids, i, m) && r.value == UnknownDependency(nodes[i].id, nodes[i].dependsOn[m])
  {
    for i := 0 to |nodes|
      invariant forall k, d :: 0 <= k < i && d in nodes[k].dependsOn ==> d in ids
    {
      var n := nodes[i];
      for j := 0 to |n.dependsOn|
        invariant forall m :: 0 <= m < j ==> n.dependsOn[m] in ids
      {
        var d := n.dependsOn[j];
        if d !in ids {
          assert n in nodes && d in n.dependsOn;
          assert FirstUnresolved(nodes, ids, i, j);
          return Some(UnknownDependency(n.id, d));
        }
      }
    }
    return None;
  }

  lemma PrefixDistinct(nodes: seq<Node>, i: nat)
    requires i <= |nodes| && !DistinctIds(nodes[..i])
    ensures !DistinctIds(nodes)
  {
    var j, k :| 0 <= j < k < i && nodes[..i][j].id == nodes[..i][k].id;
    assert nodes[j].id == nodes[k].id;
  }

  /** The first pass: ids and commands of all nodes, and the ids seen. */
  method FirstPass(nodes: seq<Node>) returns (r: Option<SpecError>, ids: set<string>)
    ensures r.None? <==> DistinctIds(nodes) && forall n :: n in nodes ==> Filled(n)
    ensures r.None? ==> ids == Ids(nodes)
    ensures r.Some? ==> exists i :: FirstMalformed(nodes, i, r.value)
  {
    ids := {};
    for i := 0 to |nodes|
      invariant ids == Ids(nodes[..i]) && DistinctIds(nodes[..i])
      invariant forall k :: 0 <= k < i ==> Filled(nodes[k])
    {
      var n := nodes[i];
      assert n in nodes;
      OneMoreNode(nodes, i);
      if Blank(n.id) {
        assert FirstMalformed(nodes, i, NodeWithoutId);
        return Some(NodeWithoutId), ids;
      }
      if n.id in ids {
        PrefixDistinct(nodes, i + 1);
        assert FirstMalformed(nodes, i, DuplicateId(n.id));
        return Some(DuplicateId(n.id)), ids;
      }
      ids := ids + {n.id};
      if |n.cmd| == 0 {
        assert FirstMalformed(nodes, i, EmptyCmd(n.id));
        return Some(EmptyCmd(n.id)), ids;
      }
    }
    assert nodes[..|nodes|] == nodes;
    r := None;
  }

  method Validate(p: Option<Pipeline>) returns (r: Result<(), SpecError>)
    ensures r.Ok? <==> p.Some? && AcceptedBySpec(p.value)
    ensures r.Err? ==> Explains(r.error, p)
  {
    if p.None? {
      return Err(NilPipeline);
    }
    if Blank(p.value.name) {
      return Err(NoName);
    }
    var bad, ids := FirstPass(p.value.nodes);
    if bad.Some? {
      return Err(bad.value);
    }
    var missing := FirstUnknown(p.value.nodes, ids);
    if missing.Some? {
      return Err(missing.value);
    }
    return Ok(());
  }

  /** Two nodes waiting for each other pass validation. */
  lemma CyclicPipelineAccepted() returns (p: Pipeline)
    ensures AcceptedBySpec(p) && !Acyclic(p.nodes)
  {
    var a := Node("a", ["true"], 0, None, ["b"]);
    var b := Node("b", ["true"], 0, None, ["a"]);
    p := Pipeline("p", [a, b]);
    assert a in p.nodes && b in p.nodes;
    assert "a" in Ids(p.nodes) && "b" in Ids(p.nodes);
    assert TrimLeft("p") == "p" && TrimLeft("a") == "a" && TrimLeft("b") == "b";
    assert Depends(p.nodes, "a", "b") && Depends(p.nodes, "b", "a");
    assert IsCycle(p.nodes, ["a", "b", "a"]);
  }
}
