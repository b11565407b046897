/**
 No wake-up of the coordinator loop is lost: while a merged branch is unseen, a wake-up is pending
 or a handler is about to signal one.
 */
module CoordinatorWake {
  import opened Dag
  import opened Coordinator
  import opened CoordinatorSafety
  import opened CoordinatorProgress

  /** The loop rests: it found nothing at its latest pick, or it polls. */
  predicate Resting(pc: Pc) {
    FoundNothing(pc) || pc.Polling?
  }

  ghost predicate Notifies(s: State, c: nat) {
    c in s.conns && s.conns[c].phase.Notify?
  }

  ghost predicate WakeComing(s: State) {
    s.sh.wake || exists c :: Notifies(s, c)
  }

  /** While the loop rests, nodes it has not seen come with a wake-up. */
  ghost predicate WakeInv(s: State) {
    Resting(s.pc) && s.sh.nodes != s.seen ==> WakeComing(s)
  }

  lemma WakeStep(s: State, t: State, e: Event)
    requires WakeInv(s) && Next(s, t, e)
    ensures WakeInv(t)
  {
    if Resting(t.pc) && t.sh.nodes != t.seen && !t.sh.wake {
      if e.Receive? && t.sh.nodes != s.sh.nodes {
        assert Notifies(t, e.c);
      } else {
        assert s.sh.nodes != s.seen && !s.sh.wake;
        var c :| Notifies(s, c);
        StillNotifies(s, t, e, c);
      }
    }
  }

  /** A handler that is about to signal is still about to, until it has. */
  lemma StillNotifies(s: State, t: State, e: Event, c: nat)
    requires Notifies(s, c) && Next(s, t, e) && !t.sh.wake
    ensures Notifies(t, c)
  {
    assert LoopEvent(e) || e.c != c;
  }

  /** In every state of every interleaving. */
  lemma {:induction false} RunWake(pipeline: seq<Node>, states: seq<State>, events: seq<Event>, i: nat)
    requires IsRun(pipeline, states, events) && i < |states|
    ensures WakeInv(states[i])
  {
    if i > 0 {
      RunWake(pipeline, states, events, i - 1);
      WakeStep(states[i - 1], states[i], events[i - 1]);
    }
  }

  /** A resting loop with no wake-up coming, idle exits included, has completed the whole graph. */
  lemma QuietMeansComplete(pipeline: seq<Node>, states: seq<State>, events: seq<Event>, i: nat)
    requires WellFormed(pipeline) && IsRun(pipeline, states, events) && i < |states|
    requires FoundNothing(states[i].pc) && !WakeComing(states[i])
    ensures states[i].sh.completed == Ids(states[i].sh.nodes)
  {
    RunWake(pipeline, states, events, i);
    IdleExitDone(pipeline, states, events, i);
  }

  /** The handler's signal, if the wake-up is not pending yet. */
  lemma WakeArrives(pipeline: seq<Node>, states: seq<State>, events: seq<Event>) returns (states': seq<State>, events': seq<Event>)
    requires IsRun(pipeline, states, events) && WakeComing(states[|events|])
    ensures IsRun(pipeline, states', events') && states <= states' && |events'| <= |events| + 1
    ensures var s, t := states[|events|], states'[|events'|];
            t.sh.wake && t.pc == s.pc && t.seen == s.seen && t.sh == s.sh.Signal()
  {
    var s := states[|events|];
    if s.sh.wake {
      return states, events;
    }
    var c :| Notifies(s, c);
    var t := s.(sh := s.sh.Signal(), conns := s.conns[c := s.conns[c].(phase := Replying(s.conns[c].phase.pending))]);
    ExtendRun(pipeline, states, events, HandlerSignal(c), t);
    states', events' := states + [t], events + [HandlerSignal(c)];
  }

  /** An idle loop that has not seen a branch can be woken and picks a node within three steps. */
  lemma UnseenBranchIsPicked(pipeline: seq<Node>, states: seq<State>, events: seq<Event>)
    returns (states': seq<State>, events': seq<Event>)
    requires WellFormed(pipeline) && IsRun(pipeline, states, events)
    requires states[|events|].pc.IdleWait? && states[|events|].sh.nodes != states[|events|].seen
    ensures IsRun(pipeline, states', events') && states <= states' && |events'| <= |events| + 3
    ensures states'[|events'|].pc.Picked? && states'[|events'|].pc.next.Some?
  {
    RunWake(pipeline, states, events, |events|);
    IdleExitDone(pipeline, states, events, |events|);
    states', events' := WakeArrives(pipeline, states, events);
    var s := states'[|events'|];
    var woken := s.(pc := Head, sh := s.sh.TakeWake());
    ExtendRun(pipeline, states', events', IdleWake, woken);
    states', events' := states' + [woken], events' + [IdleWake];
    var next := PickExists(woken.sh.nodes, woken.sh.completed, woken.sh.running);
    HeadFindsWork(pipeline, states', events', |events'|, next);
    var t := woken.(pc := Picked(next, |woken.sh.running|), seen := woken.sh.nodes);
    ExtendRun(pipeline, states', events', Pick(next), t);
    states', events' := states' + [t], events' + [Pick(next)];
  }

  /** Only handlers move between the states `i` and `j`. */
  ghost predicate LoopIdle(events: seq<Event>, i: nat, j: nat) {
    forall k :: i <= k < j && k < |events| ==> !LoopEvent(events[k])
  }

  lemma {:induction false} HandlersLeaveLoop(pipeline: seq<Node>, states: seq<State>, events: seq<Event>, i: nat, j: nat)
    requires IsRun(pipeline, states, events) && i <= j < |states| && LoopIdle(events, i, j)
    ensures states[j].pc == states[i].pc && states[j].seen == states[i].seen
    ensures states[j].sh.completed == states[i].sh.completed && states[j].sh.running == states[i].sh.running
    decreases j
  {
    if i < j {
      HandlersLeaveLoop(pipeline, states, events, i, j - 1);
      assert Next(states[j - 1], states[j], events[j - 1]);
    }
  }

  /** Unseen nodes are unfinished, and stay so while nothing is executed. */
  lemma UnseenStayUnfinished(pipeline: seq<Node>, states: seq<State>, events: seq<Event>, i: nat, j: nat)
    requires WellFormed(pipeline) && IsRun(pipeline, states, events) && i <= j < |states|
    requires states[i].pc.IdleWait? && states[i].sh.nodes != states[i].seen
    requires states[j].sh.completed == states[i].sh.completed
    ensures states[j].sh.completed != Ids(states[j].sh.nodes)
  {
    IdleExitDone(pipeline, states, events, i);
    RunInv(pipeline, states, events, i);
    RunGrows(pipeline, states, events, i, j);
    assert Ids(states[i].sh.nodes) <= Ids(states[j].sh.nodes);
  }

  /**
   In every continuation: once an idle loop that has not seen a branch has taken two steps (`a` and
   `b` are its next two) without being cancelled or exiting, it has picked a node.
   */
  lemma SecondStepPicks(pipeline: seq<Node>, states: seq<State>, events: seq<Event>, i: nat, a: nat, b: nat)
    requires WellFormed(pipeline) && IsRun(pipeline, states, events) && i <= a < b < |events|
    requires states[i].pc.IdleWait? && states[i].sh.nodes != states[i].seen
    requires LoopIdle(events, i, a) && LoopEvent(events[a]) && LoopIdle(events, a + 1, b) && LoopEvent(events[b])
    requires !events[a].Cancel? && !events[a].IdleExit? && !events[b].Cancel?
    ensures states[b + 1].pc.Picked? && states[b + 1].pc.next.Some?
  {
    HandlersLeaveLoop(pipeline, states, events, i, a);
    assert Next(states[a], states[a + 1], events[a]);
    HandlersLeaveLoop(pipeline, states, events, a + 1, b);
    assert Next(states[b], states[b + 1], events[b]);
    UnseenStayUnfinished(pipeline, states, events, i, b);
    HeadFindsWork(pipeline, states, events, b, events[b].next);
  }
}
