/**
 The code of `loop` and `handleConn`, section by section on the guarded fields, under any schedule:
 whatever it does is a run of the transition system, so the laws of runs are laws of the code.
 */
module CoordinatorLoop {
  import opened Collections
  import opened Dag
  import opened Coordinator
  import CoordinatorProgress
  import CoordinatorSafety

  /** What the environment decides when the loop has to wait: cancellation, a failing command, a timer. */
  datatype Turn = Go | Cancelled | CommandFails | TimerFires | IdleLongEnough

  /** Who moves next, and what the environment decides for it. */
  datatype Choice =
    | LoopMoves(turn: Turn)
    | Accept(c: nat)
    | Arrives(c: nat, req: Request, fdOk: bool)
    | HandlerMoves(c: nat, sent: bool)
    | HangsUp(c: nat)

  // What a choice leads to ------------------------------------------------------------------------

  /** The step the loop takes when the environment decides `turn`. */
  ghost predicate Decides(s: State, turn: Turn, e: Event) {
    match s.pc
    case Head => if turn.Cancelled? then e == Cancel else e.Pick?
    case Picked(n, cnt) => e == if n.Some? then Mark else if cnt > 0 then Poll else Quiesce
    case Executing(_) => e == if turn.CommandFails? then ExecFail else ExecOk
    case Notifying => e == SignalDone
    case Polling => e == if turn.Cancelled? then Cancel else PollEnd(turn.Go? && s.sh.wake)
    case IdleWait =>
      e == if turn.Cancelled? then Cancel
           else if turn.Go? && s.sh.wake then IdleWake
           else if turn.IdleLongEnough? then IdleExit
           else IdleTick
    case Returned(_) => false
  }

  /** A choice can be carried out: the loop has not returned, the connection is where the choice needs it. */
  ghost predicate Possible(s: State, x: Choice) {
    match x
    case LoopMoves(_) => !s.pc.Returned?
    case Accept(c) => c !in s.conns
    case Arrives(c, _, _) => c in s.conns && s.conns[c].phase.Reading?
    case HandlerMoves(c, _) => c in s.conns && (s.conns[c].phase.Notify? || s.conns[c].phase.Replying?)
    case HangsUp(c) => c in s.conns && s.conns[c].phase.Reading?
  }

  /** The step a possible choice takes. */
  ghost predicate Causes(s: State, x: Choice, e: Event) {
    match x
    case LoopMoves(turn) => LoopEvent(e) && Decides(s, turn, e)
    case Accept(c) => e == Connect(c)
    case Arrives(c, req, fdOk) => e == Receive(c, req, fdOk)
    case HandlerMoves(c, sent) => c in s.conns && e == if s.conns[c].phase.Notify? then HandlerSignal(c) else WriteReply(c, sent)
    case HangsUp(c) => e == Close(c)
  }

  /** From `s` the choice leads to `t`; one that is not possible changes nothing. */
  ghost predicate Follows(s: State, x: Choice, t: State) {
    if Possible(s, x) then exists e :: Causes(s, x, e) && Next(s, t, e) else t == s
  }

  /** `trace[i]` is the state before the i-th choice of the schedule. */
  ghost predicate IsTrace(pipeline: seq<Node>, schedule: seq<Choice>, trace: seq<State>) {
    && |trace| == |schedule| + 1 && trace[0] == Init(pipeline)
    && forall i {:trigger schedule[i]} :: 0 <= i < |schedule| ==> Follows(trace[i], schedule[i], trace[i + 1])
  }

  // The code -----------------------------------------------------------------------------------------

  /** One section of `loop`, from one lock boundary to the next. */
  method LoopSection(f: Fields, pc: Pc, turn: Turn, ghost s: State) returns (next: Pc, ghost t: State, ghost e: Event)
    requires s.sh == f.View() && s.pc == pc && !pc.Returned?
    modifies f
    ensures LoopEvent(e) && Next(s, t, e) && t.sh == f.View() && t.pc == next && Decides(s, turn, e)
    ensures pc.Executing? && turn.CommandFails? ==>
              && next == Returned(Failed(pc.node.id)) && f.completed == old(f.completed) && f.running == old(f.running) - {pc.node.id}
    ensures pc.Executing? && !turn.CommandFails? ==>
              && next == Notifying && f.completed == old(f.completed) + {pc.node.id} && f.running == old(f.running) - {pc.node.id}
    ensures pc.Picked? && pc.next.Some? ==> next == Executing(pc.next.value) && f.running == old(f.running) + {pc.next.value.id}
    ensures turn.Cancelled? && (pc.Head? || pc.Polling? || pc.IdleWait?) ==> next == Returned(Outcome.Cancelled) && f.View() == old(f.View())
    ensures turn.IdleLongEnough? && pc.IdleWait? ==> next == Returned(IdleTimeout) && f.View() == old(f.View())
    ensures turn.Go? && old(f.wake) && (pc.Polling? || pc.IdleWait?) ==> next == Head && !f.wake
    ensures pc.Notifying? ==> next == Head && f.wake
    ensures f.nodes == old(f.nodes) && f.samples == old(f.samples)
  {
    match pc
    case Head =>
      if turn.Cancelled? {
        next, e := Returned(Outcome.Cancelled), Cancel;
      } else {
        var n, cnt := f.Pick();
        next, e := Picked(n, cnt), Pick(n);
      }
      t := if e.Pick? then s.(pc := next, seen := s.sh.nodes) else s.(pc := next);
    case Picked(n, cnt) =>
      next, t, e := AfterPick(f, n, cnt, s);
    case Executing(n) =>
      f.Finish(n, turn.CommandFails?);
      next, e := if turn.CommandFails? then Returned(Failed(n.id)) else Notifying, if turn.CommandFails? then ExecFail else ExecOk;
      t := s.(pc := next, sh := f.View());
    case Notifying =>
      f.SignalWake();
      next, e := Head, SignalDone;
      t := s.(pc := next, sh := f.View());
    case Polling =>
      next, t, e := Wait(f, pc, turn, s);
    case IdleWait =>
      next, t, e := Wait(f, pc, turn, s);
  }

  /** The section after the pick: mark the node, or poll, or announce quiescence. */
  method AfterPick(f: Fields, n: Option<Node>, cnt: nat, ghost s: State) returns (next: Pc, ghost t: State, ghost e: Event)
    requires s.sh == f.View() && s.pc == Picked(n, cnt)
    modifies f
    ensures LoopEvent(e) && Next(s, t, e) && t.sh == f.View() && t.pc == next
    ensures e == if n.Some? then Mark else if cnt > 0 then Poll else Quiesce
  {
    if n.Some? {
      f.MarkRunning(n.value);
      next, e := Executing(n.value), Mark;
      t := s.(pc := next, sh := f.View(), started := s.started + [n.value.id]);
    } else if cnt > 0 {
      next, e := Polling, Poll;
      t := s.(pc := next);
    } else {
      f.AnnounceQuiescence();
      next, e := IdleWait, Quiesce;
      t := s.(pc := next, sh := f.View());
    }
  }

  /** The two `select` statements: cancellation, a wake-up if one is pending, or the timer. */
  method Wait(f: Fields, pc: Pc, turn: Turn, ghost s: State) returns (next: Pc, ghost t: State, ghost e: Event)
    requires s.sh == f.View() && s.pc == pc && (pc.Polling? || pc.IdleWait?)
    modifies f
    ensures LoopEvent(e) && Next(s, t, e) && t.sh == f.View() && t.pc == next && Decides(s, turn, e)
  {
    next := Head;
    if turn.Cancelled? {
      next, e := Returned(Outcome.Cancelled), Cancel;
    } else if turn.Go? && f.wake {
      f.TakeWake();
      e := if pc.Polling? then PollEnd(true) else IdleWake;
    } else if pc.Polling? {
      e := PollEnd(false);
    } else if turn.IdleLongEnough? {
      next, e := Returned(IdleTimeout), IdleExit;
    } else {
      e := IdleTick;
    }
    t := s.(pc := next, sh := f.View());
  }

  /** The switch of `handleConn` on a decoded frame, up to the first lock boundary after it. */
  method Dispatch(f: Fields, c: nat, conn: Conn, req: Request, fdOk: bool, ghost s: State) returns (after: Conn, ghost t: State)
    requires s.sh == f.View() && c in s.conns && s.conns[c] == conn && conn.phase.Reading?
    modifies f
    ensures Next(s, t, Receive(c, req, fdOk)) && t.sh == f.View() && t.conns == s.conns[c := after] && t.pc == s.pc
  {
    var phase: Phase := Replying(Error);
    ghost var origin := s.origin;
    match req {
      case Hello =>
        phase := Replying(Ack);
      case SampleMsg(x) =>
        f.RecordSample(x);
        origin := origin + [(c, |conn.requests|)];
        phase := Notify(Ack);
      case Branch(_, add) =>
        var ok := f.MergeBranch(add);
        if ok {
          phase := Notify(Ack);
        }
      case RequestFd(_) =>
        if fdOk {
          phase := Replying(FdReply);
        }
      case Malformed =>
      case UnknownOp(_) =>
    }
    after := conn.(requests := conn.requests + [req], phase := phase);
    t := s.(sh := f.View(), conns := s.conns[c := after], origin := origin);
  }

  /** The rest of a handler's turn: signal the loop, then write the reply. */
  method HandlerSection(f: Fields, c: nat, conn: Conn, sent: bool, ghost s: State) returns (after: Conn, ghost t: State, ghost e: Event)
    requires s.sh == f.View() && c in s.conns && s.conns[c] == conn && (conn.phase.Notify? || conn.phase.Replying?)
    modifies f
    ensures !LoopEvent(e) && Next(s, t, e) && t.sh == f.View() && t.conns == s.conns[c := after] && t.pc == s.pc
    ensures e == if conn.phase.Notify? then HandlerSignal(c) else WriteReply(c, sent)
  {
    if conn.phase.Notify? {
      f.SignalWake();
      after, e := conn.(phase := Replying(conn.phase.pending)), HandlerSignal(c);
    } else {
      after, e := conn.Written(sent), WriteReply(c, sent);
    }
    t := s.(sh := f.View(), conns := s.conns[c := after]);
  }

  /** One choice of the schedule; a choice that is not possible now is skipped. */
  method Move(f: Fields, pc: Pc, conns: map<nat, Conn>, x: Choice, ghost s: State)
    returns (next: Pc, after: map<nat, Conn>, moved: bool, ghost t: State, ghost e: Event)
    requires s.sh == f.View() && s.pc == pc && s.conns == conns
    modifies f
    ensures t.sh == f.View() && t.pc == next && t.conns == after
    ensures moved <==> Possible(s, x)
    ensures if moved then Causes(s, x, e) && Next(s, t, e) else t == s
  {
    next, after, moved, t, e := pc, conns, true, s, Cancel;
    match x {
      case LoopMoves(turn) =>
        if !pc.Returned? {
          next, t, e := LoopSection(f, pc, turn, s);
          return;
        }
      case Accept(c) =>
        if c !in conns {
          after, e := conns[c := Conn([], [], {}, Reading)], Connect(c);
          t := s.(conns := after);
          return;
        }
      case Arrives(c, req, fdOk) =>
        if c in conns && conns[c].phase.Reading? {
          var conn;
          conn, t := Dispatch(f, c, conns[c], req, fdOk, s);
          after, e := conns[c := conn], Receive(c, req, fdOk);
          return;
        }
      case HandlerMoves(c, sent) =>
        if c in conns && (conns[c].phase.Notify? || conns[c].phase.Replying?) {
          var conn;
          conn, t, e := HandlerSection(f, c, conns[c], sent, s);
          after := conns[c := conn];
          return;
        }
      case HangsUp(c) =>
        if c in conns && conns[c].phase.Reading? {
          after, e := conns[c := conns[c].(phase := Closed)], Close(c);
          t := s.(conns := after);
          return;
        }
    }
    moved := false;
  }

  /**
   Running any schedule on the fields: every choice has the effect it should, and the whole is a run
   of the transition system that ends in the fields' contents.
   */
  method Interleave(pipeline: seq<Node>, schedule: seq<Choice>)
    returns (f: Fields, pc: Pc, conns: map<nat, Conn>, ghost trace: seq<State>, ghost states: seq<State>, ghost events: seq<Event>)
    ensures IsTrace(pipeline, schedule, trace)
    ensures IsRun(pipeline, states, events) && states[|events|] == trace[|schedule|]
    ensures var s := trace[|schedule|]; s.sh == f.View() && s.pc == pc && s.conns == conns
    ensures DistinctIds(pipeline) && ClosedDeps(pipeline) ==> CoordinatorSafety.Inv(trace[|schedule|])
  {
    f := new Fields(pipeline);
    pc, conns := Head, map[];
    trace, states, events := [Init(pipeline)], [Init(pipeline)], [];
    for i := 0 to |schedule|
      invariant fresh(f)
      invariant IsTrace(pipeline, schedule[..i], trace)
      invariant IsRun(pipeline, states, events) && states[|events|] == trace[i]
      invariant trace[i].sh == f.View() && trace[i].pc == pc && trace[i].conns == conns
    {
      ghost var t, e;
      var moved;
      pc, conns, moved, t, e := Move(f, pc, conns, schedule[i], trace[i]);
      if moved {
        CoordinatorProgress.ExtendRun(pipeline, states, events, e, t);
        states, events := states + [t], events + [e];
      }
      ExtendTrace(pipeline, schedule, i, trace, t);
      trace := trace + [t];
    }
    assert schedule[..|schedule|] == schedule;
    if DistinctIds(pipeline) && ClosedDeps(pipeline) {
      CoordinatorSafety.RunInv(pipeline, states, events, |events|);
    }
  }

  lemma ExtendTrace(pipeline: seq<Node>, schedule: seq<Choice>, i: nat, trace: seq<State>, t: State)
    requires i < |schedule| && IsTrace(pipeline, schedule[..i], trace) && Follows(trace[i], schedule[i], t)
    ensures IsTrace(pipeline, schedule[..i + 1], trace + [t])
  {
    var longer := trace + [t];
    forall k | 0 <= k < i + 1
      ensures Follows(longer[k], schedule[..i + 1][k], longer[k + 1])
    {
      if k < i {
        assert Follows(trace[k], schedule[..i][k], trace[k + 1]);
      }
    }
  }

  // Returning is final ------------------------------------------------------------------------------

  /** Once the loop has returned, nothing starts or completes any more, whatever the connections do. */
  lemma {:induction false} ReturnIsFinal(pipeline: seq<Node>, schedule: seq<Choice>, trace: seq<State>, i: nat, j: nat)
    requires IsTrace(pipeline, schedule, trace) && i <= j < |trace| && trace[i].pc.Returned?
    ensures trace[j].pc == trace[i].pc && trace[j].started == trace[i].started && trace[j].sh.completed == trace[i].sh.completed
    decreases j
  {
    if i < j {
      ReturnIsFinal(pipeline, schedule, trace, i, j - 1);
      assert Follows(trace[j - 1], schedule[j - 1], trace[j]);
    }
  }

  /** A failing command ends the loop with its id; nothing is started after it and it is never completed. */
  lemma FailureEndsLoop(pipeline: seq<Node>, schedule: seq<Choice>, trace: seq<State>, i: nat, j: nat)
    requires IsTrace(pipeline, schedule, trace) && i < j < |trace|
    requires trace[i].pc.Executing? && schedule[i] == LoopMoves(CommandFails)
    ensures trace[j].pc == Returned(Failed(trace[i].pc.node.id))
    ensures trace[j].started == trace[i].started && trace[j].sh.completed == trace[i].sh.completed
  {
    assert Follows(trace[i], schedule[i], trace[i + 1]);
    ReturnIsFinal(pipeline, schedule, trace, i + 1, j);
  }

  /** So does cancellation wherever the loop looks for it, and an idle wait that has lasted long enough. */
  lemma CancelOrTimeoutEndsLoop(pipeline: seq<Node>, schedule: seq<Choice>, trace: seq<State>, i: nat, j: nat)
    requires IsTrace(pipeline, schedule, trace) && i < j < |trace| && schedule[i].LoopMoves?
    requires if schedule[i].turn.Cancelled? then trace[i].pc.Head? || trace[i].pc.Polling? || trace[i].pc.IdleWait?
             else schedule[i].turn.IdleLongEnough? && trace[i].pc.IdleWait?
    ensures trace[j].pc == Returned(if schedule[i].turn.Cancelled? then Outcome.Cancelled else IdleTimeout)
    ensures trace[j].started == trace[i].started && trace[j].sh.completed == trace[i].sh.completed
  {
    assert Follows(trace[i], schedule[i], trace[i + 1]);
    ReturnIsFinal(pipeline, schedule, trace, i + 1, j);
  }
}
