/**
 What a client of the coordinator may rely on: one reply per request, in order; an
 acknowledged branch is in the graph for good; an acknowledged sample is logged exactly once.
 */
module CoordinatorReplies {
  import opened Collections
  import opened Dag
  import opened PlasmaGraph
  import opened Coordinator
  import opened CoordinatorProgress
  import opened CoordinatorSafety

  function Pending(phase: Phase): seq<Reply> {
    if phase.Notify? || phase.Replying? then [phase.pending] else []
  }

  /** Which replies a request may get; an acknowledged branch is part of the graph. */
  ghost predicate Answers(nodes: seq<Node>, req: Request, rep: Reply) {
    match req
    case Hello => rep.Ack?
    case SampleMsg(_) => rep.Ack?
    case Branch(_, add) => (rep.Ack? && forall n :: n in add ==> n in nodes) || rep.Error?
    case RequestFd(_) => rep.FdReply? || rep.Error?
    case Malformed => rep.Error?
    case UnknownOp(_) => rep.Error?
  }

  /** The replies written, then the one being prepared, answer the requests read one by one. */
  ghost predicate ConnInv(nodes: seq<Node>, k: Conn) {
    var all := k.replies + Pending(k.phase);
    |all| == |k.requests| && forall i :: 0 <= i < |all| ==> Answers(nodes, k.requests[i], all[i])
  }

  ghost predicate ReplyInv(s: State) {
    forall c :: c in s.conns ==> ConnInv(s.sh.nodes, s.conns[c])
  }

  ghost predicate IsSampleRequest(s: State, c: nat, i: nat) {
    c in s.conns && i < |s.conns[c].requests| && s.conns[c].requests[i].SampleMsg?
  }

  /** The sample log and the sample requests read so far are in one-to-one correspondence. */
  ghost predicate SampleInv(s: State) {
    && |s.origin| == |s.sh.samples|
    && Distinct(s.origin)
    && (forall k :: 0 <= k < |s.origin| ==>
          var (c, i) := s.origin[k];
          IsSampleRequest(s, c, i) && s.conns[c].requests[i].record == s.sh.samples[k])
    && (forall c: nat, i: nat :: IsSampleRequest(s, c, i) ==> (c, i) in s.origin)
  }

  lemma ConnInvGrows(nodes: seq<Node>, nodes': seq<Node>, k: Conn)
    requires nodes <= nodes' && ConnInv(nodes, k)
    ensures ConnInv(nodes', k)
  {
    assert forall n :: n in nodes ==> n in nodes';
  }

  lemma ReceiveReply(s: State, t: State, e: Event)
    requires ReplyInv(s) && Next(s, t, e) && e.Receive?
    ensures ConnInv(t.sh.nodes, t.conns[e.c])
  {
    var k, k' := s.conns[e.c], t.conns[e.c];
    ConnInvGrows(s.sh.nodes, t.sh.nodes, k);
    assert k.replies + [] == k.replies;
    assert k'.replies + Pending(k'.phase) == k.replies + [k'.phase.pending];
    assert Answers(t.sh.nodes, e.req, k'.phase.pending);
  }

  /** The handler's other steps keep what it has answered and is about to answer. */
  lemma OwnStep(s: State, t: State, e: Event)
    requires ReplyInv(s) && Next(s, t, e) && !LoopEvent(e) && !e.Receive?
    ensures ConnInv(t.sh.nodes, t.conns[e.c])
  {
    if !e.Connect? {
      var k, k' := s.conns[e.c], t.conns[e.c];
      var all, n := k.replies + Pending(k.phase), |k.replies|;
      if e.WriteReply? && k.phase.pending.FdReply? && !e.sent {
        assert all[n] == FdReply && k.requests[n].RequestFd?;
        assert k'.replies + Pending(k'.phase) == all[n := Error];
      } else {
        assert k'.replies + Pending(k'.phase) == all;
      }
    }
  }

  lemma ReplyStep(s: State, t: State, e: Event)
    requires ReplyInv(s) && Next(s, t, e)
    ensures ReplyInv(t)
  {
    forall c | c in t.conns
      ensures ConnInv(t.sh.nodes, t.conns[c])
    {
      if !LoopEvent(e) && c == e.c {
        if e.Receive? {
          ReceiveReply(s, t, e);
        } else {
          OwnStep(s, t, e);
        }
      } else {
        ConnInvGrows(s.sh.nodes, t.sh.nodes, s.conns[c]);
      }
    }
  }

  lemma SameSamples(s: State, t: State)
    requires SampleInv(s) && t.origin == s.origin && t.sh.samples == s.sh.samples
    requires forall c: nat, i: nat :: IsSampleRequest(t, c, i) ==> IsSampleRequest(s, c, i)
    requires forall c: nat, i: nat :: IsSampleRequest(s, c, i) ==>
               IsSampleRequest(t, c, i) && t.conns[c].requests[i] == s.conns[c].requests[i]
    ensures SampleInv(t)
  {
    forall k | 0 <= k < |t.origin|
      ensures var (c, i) := t.origin[k]; IsSampleRequest(t, c, i) && t.conns[c].requests[i].record == t.sh.samples[k]
    {
      assert IsSampleRequest(s, s.origin[k].0, s.origin[k].1);
    }
  }

  lemma NewSample(s: State, t: State, c: nat, x: Sample)
    requires SampleInv(s) && c in s.conns
    requires t.origin == s.origin + [(c, |s.conns[c].requests|)] && t.sh.samples == s.sh.samples + [x]
    requires c in t.conns && t.conns[c].requests == s.conns[c].requests + [SampleMsg(x)]
    requires t.conns.Keys == s.conns.Keys && forall b :: b in s.conns && b != c ==> t.conns[b] == s.conns[b]
    ensures SampleInv(t)
  {
    var last := |s.conns[c].requests|;
    forall k | 0 <= k < |s.origin|
      ensures s.origin[k] != (c, last)
    {
      assert IsSampleRequest(s, s.origin[k].0, s.origin[k].1);
    }
    forall b: nat, i: nat | IsSampleRequest(t, b, i)
      ensures (b, i) in t.origin
    {
      if b != c || i != last {
        assert IsSampleRequest(s, b, i);
      } else {
        assert t.origin[|s.origin|] == (b, i);
      }
    }
    forall k | 0 <= k < |t.origin|
      ensures var (b, i) := t.origin[k]; IsSampleRequest(t, b, i) && t.conns[b].requests[i].record == t.sh.samples[k]
    {
      if k < |s.origin| {
        assert IsSampleRequest(s, s.origin[k].0, s.origin[k].1);
      }
    }
  }

  lemma SampleStep(s: State, t: State, e: Event)
    requires SampleInv(s) && Next(s, t, e)
    ensures SampleInv(t)
  {
    if e.Receive? && e.req.SampleMsg? {
      NewSample(s, t, e.c, e.req.record);
    } else {
      SameSamples(s, t);
    }
  }

  /** Both facts hold in every state of every interleaving. */
  lemma {:induction false} RunReplies(pipeline: seq<Node>, states: seq<State>, events: seq<Event>, i: nat)
    requires IsRun(pipeline, states, events) && i < |states|
    ensures ReplyInv(states[i]) && SampleInv(states[i])
  {
    if i > 0 {
      RunReplies(pipeline, states, events, i - 1);
      ReplyStep(states[i - 1], states[i], events[i - 1]);
      SampleStep(states[i - 1], states[i], events[i - 1]);
    }
  }

  // Failing writes ------------------------------------------------------------------------------

  /** The replies the client receives: the written ones without those whose write failed. */
  function Kept(replies: seq<Reply>, lost: set<nat>, n: nat): seq<Reply>
    requires n <= |replies|
  {
    if n == 0 then [] else Kept(replies, lost, n - 1) + if n - 1 in lost then [] else [replies[n - 1]]
  }

  function Received(k: Conn): seq<Reply> {
    Kept(k.replies, k.lost, |k.replies|)
  }

  lemma {:induction false} KeptAll(replies: seq<Reply>, lost: set<nat>, n: nat)
    requires n <= |replies|
    ensures |Kept(replies, lost, n)| <= n
    ensures (forall m :: m in lost ==> n <= m) ==> Kept(replies, lost, n) == replies[..n]
    ensures (exists m :: m in lost && m < n) ==> |Kept(replies, lost, n)| < n
  {
    if n > 0 {
      KeptAll(replies, lost, n - 1);
      assert replies[..n] == replies[..n - 1] + [replies[n - 1]];
    }
  }

  /** By then the last write for some request has failed; one of a descriptor is followed by another write. */
  ghost predicate LastWriteFailed(states: seq<State>, events: seq<Event>, c: nat, i: nat) {
    exists j :: 0 <= j < i && LosesReply(states, events, c, j)
  }

  ghost predicate LosesReply(states: seq<State>, events: seq<Event>, c: nat, j: nat) {
    && j < |events| && j < |states| && events[j] == WriteReply(c, false)
    && c in states[j].conns && states[j].conns[c].phase != Replying(FdReply)
  }

  lemma {:induction false} LostIffFailed(pipeline: seq<Node>, states: seq<State>, events: seq<Event>, i: nat, c: nat)
    requires IsRun(pipeline, states, events) && i < |states| && c in states[i].conns
    ensures forall m :: m in states[i].conns[c].lost ==> m < |states[i].conns[c].replies|
    ensures states[i].conns[c].lost != {} <==> LastWriteFailed(states, events, c, i)
  {
    if i > 0 {
      var s, t, e := states[i - 1], states[i], events[i - 1];
      assert Next(s, t, e);
      if c in s.conns {
        LostIffFailed(pipeline, states, events, i - 1, c);
        var now := LosesReply(states, events, c, i - 1);
        assert LastWriteFailed(states, events, c, i) <==> LastWriteFailed(states, events, c, i - 1) || now;
        assert now ==> |s.conns[c].replies| in t.conns[c].lost;
        assert !now ==> t.conns[c].lost == s.conns[c].lost;
      } else {
        UnconnectedNeverWrote(pipeline, states, events, i - 1, c);
        assert !LosesReply(states, events, c, i - 1);
      }
    }
  }

  lemma {:induction false} UnconnectedNeverWrote(pipeline: seq<Node>, states: seq<State>, events: seq<Event>, i: nat, c: nat)
    requires IsRun(pipeline, states, events) && i < |states| && c !in states[i].conns
    ensures !LastWriteFailed(states, events, c, i)
  {
    if i > 0 {
      assert Next(states[i - 1], states[i], events[i - 1]);
      UnconnectedNeverWrote(pipeline, states, events, i - 1, c);
      assert !LosesReply(states, events, c, i - 1);
    }
  }

  /**
   The client has received exactly one reply for every request whose handling is over, in request
   order, exactly when no last write for a request of its connection has failed; otherwise it is
   short of replies.
   */
  lemma OneReplyEachIff(pipeline: seq<Node>, states: seq<State>, events: seq<Event>, i: nat, c: nat)
    requires IsRun(pipeline, states, events) && i < |states| && c in states[i].conns
    ensures var k := states[i].conns[c];
            && (|Received(k)| + |Pending(k.phase)| == |k.requests| <==> !LastWriteFailed(states, events, c, i))
            && (!LastWriteFailed(states, events, c, i) ==> Received(k) == k.replies)
  {
    var k := states[i].conns[c];
    RunReplies(pipeline, states, events, i);
    LostIffFailed(pipeline, states, events, i, c);
    KeptAll(k.replies, k.lost, |k.replies|);
    assert k.replies[..|k.replies|] == k.replies;
    assert ConnInv(states[i].sh.nodes, k);
    if k.lost != {} {
      var m := Member(k.lost);
      assert m in k.lost && m < |k.replies|;
    }
  }

  /** A greeting whose answer cannot be written: handled, waiting for nothing, and never answered. */
  lemma ReplyCanBeLost() returns (states: seq<State>, events: seq<Event>)
    ensures IsRun([], states, events) && 0 in states[|events|].conns
    ensures var k := states[|events|].conns[0]; k.requests == [Hello] && k.phase.Reading? && Received(k) == []
  {
    var s0 := Init([]);
    var s1 := s0.(conns := map[0 := Conn([], [], {}, Reading)]);
    var s2 := s0.(conns := map[0 := Conn([Hello], [], {}, Replying(Ack))]);
    var s3 := s0.(conns := map[0 := Conn([Hello], [Ack], {0}, Reading)]);
    states, events := [s0, s1, s2, s3], [Connect(0), Receive(0, Hello, true), WriteReply(0, false)];
    assert [] + [Hello] == [Hello] && [] + [Ack] == [Ack] && {} + {0} == {0};
    assert Kept([Ack], {0}, 1) == Kept([Ack], {0}, 0) + [];
  }

  /** Which reply a request leads to, before anything is written. */
  lemma PreparedReply(s: State, t: State, c: nat, req: Request, fdOk: bool)
    requires Next(s, t, Receive(c, req, fdOk))
    ensures req.Hello? || req.SampleMsg? ==> Pending(t.conns[c].phase) == [Ack]
    ensures t.conns[c].phase.Notify? <==> req.SampleMsg? || (req.Branch? && Accepts(s.sh.nodes, req.add))
    ensures req.Malformed? || req.UnknownOp? ==> Pending(t.conns[c].phase) == [Error]
    ensures req.RequestFd? ==> Pending(t.conns[c].phase) == [if fdOk then FdReply else Error]
    ensures req.Branch? ==> Pending(t.conns[c].phase) == [if Accepts(s.sh.nodes, req.add) then Ack else Error]
    ensures req.SampleMsg? ==> t.sh.samples == s.sh.samples + [req.record]
    ensures !req.SampleMsg? ==> t.sh.samples == s.sh.samples
    ensures t.sh.nodes == s.sh.nodes + if req.Branch? && Accepts(s.sh.nodes, req.add) then req.add else []
  {
    assert s.sh.nodes + [] == s.sh.nodes;
  }

  /** A descriptor that is available and can be sent is what the client gets. */
  lemma DescriptorIsSent(s: State, t: State, u: State, v: State, c: nat, kind: string)
    requires Next(s, t, Receive(c, RequestFd(kind), true)) && c in u.conns && u.conns[c] == t.conns[c] && Next(u, v, WriteReply(c, true))
    ensures v.conns[c].replies == s.conns[c].replies + [FdReply] && v.conns[c].lost == s.conns[c].lost && v.conns[c].phase.Reading?
  {
    PreparedReply(s, t, c, RequestFd(kind), true);
  }

  /** A descriptor that cannot be sent is answered by an error instead: still one reply. */
  lemma FailedDescriptorIsAnswered(s: State, t: State, u: State, c: nat)
    requires Next(s, t, WriteReply(c, false)) && s.conns[c].phase == Replying(FdReply) && Next(t, u, WriteReply(c, true))
    ensures u.conns[c].replies == s.conns[c].replies + [Error] && u.conns[c].lost == s.conns[c].lost && u.conns[c].phase.Reading?
  {
  }

  /** The r-th reply of a connection answers its r-th request; if it acknowledges a branch, the nodes are there from then on. */
  lemma AcknowledgedBranchStays(pipeline: seq<Node>, states: seq<State>, events: seq<Event>, i: nat, j: nat, c: nat, r: nat)
    requires IsRun(pipeline, states, events) && i <= j < |states|
    requires c in states[i].conns && r < |states[i].conns[c].replies|
    ensures r < |states[i].conns[c].requests|
    ensures Answers(states[j].sh.nodes, states[i].conns[c].requests[r], states[i].conns[c].replies[r])
  {
    RunReplies(pipeline, states, events, i);
    RunGrows(pipeline, states, events, i, j);
    var k := states[i].conns[c];
    ConnInvGrows(states[i].sh.nodes, states[j].sh.nodes, k);
    assert (k.replies + Pending(k.phase))[r] == k.replies[r];
  }

  /** A sample request that has been replied to has exactly one entry in the log, then and later. */
  lemma AcknowledgedSampleLoggedOnce(pipeline: seq<Node>, states: seq<State>, events: seq<Event>, i: nat, j: nat, c: nat, r: nat)
    returns (k: nat)
    requires IsRun(pipeline, states, events) && i <= j < |states|
    requires IsSampleRequest(states[i], c, r)
    ensures k < |states[j].origin| == |states[j].sh.samples|
    ensures states[j].sh.samples[k] == states[i].conns[c].requests[r].record
    ensures forall m :: 0 <= m < |states[j].origin| ==> (states[j].origin[m] == (c, r) <==> m == k)
  {
    RunReplies(pipeline, states, events, j);
    RunGrows(pipeline, states, events, i, j);
    assert states[i].conns[c].requests <= states[j].conns[c].requests;
    assert IsSampleRequest(states[j], c, r);
    k :| 0 <= k < |states[j].origin| && states[j].origin[k] == (c, r);
  }

  /**
   In every reachable state of an acyclic pipeline, a non-empty branch is acknowledged exactly
   when it is fresh, distinct, executable, resolvable and acyclic by itself; otherwise it gets an
   error and the graph stays as it was.
   */
  lemma BranchVerdict(pipeline: seq<Node>, states: seq<State>, events: seq<Event>, i: nat)
    requires WellFormed(pipeline) && IsRun(pipeline, states, events) && i < |events|
    requires events[i].Receive? && events[i].req.Branch? && events[i].req.add != []
    ensures var s, t, c, add := states[i], states[i + 1], events[i].c, events[i].req.add;
            && c in t.conns
            && Pending(t.conns[c].phase) == [if s.sh.nodes + add == t.sh.nodes then Ack else Error]
            && (s.sh.nodes + add == t.sh.nodes <==>
                  && Ids(s.sh.nodes) !! Ids(add) && DistinctIds(add) && Acyclic(add)
                  && (forall n :: n in add ==> n.cmd != [])
                  && (forall n, d :: n in add && d in n.dependsOn ==> d in Ids(s.sh.nodes) + Ids(add)))
            && (s.sh.nodes + add == t.sh.nodes || t.sh == s.sh)
  {
    var s, t, e := states[i], states[i + 1], events[i];
    RunInv(pipeline, states, events, i);
    RunAcyclic(pipeline, states, events, i);
    AcceptedMerge(s.sh.nodes, e.req.add);
    assert Next(s, t, e);
    assert |s.sh.nodes + e.req.add| > |s.sh.nodes|;
  }
}
