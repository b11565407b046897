/**
 The Plasma coordinator: the fields its mutexes guard, the critical sections of `loop` and
 `handleConn` as methods on them, and the transition system in which the loop and any number
 of connection handlers interleave at the lock boundaries.
 */
module Coordinator {
  import opened Collections
  import opened Dag
  import opened PlasmaGraph

  datatype Sample = Sample(nodeId: string, cycles: Option<nat>, instructions: Option<nat>, tsNs: int)

  // The guarded fields and what each critical section does to them ---------------------

  datatype Shared = Shared(nodes: seq<Node>, completed: set<string>, running: set<string>, idleAnnounced: bool,
                           wake: bool, samples: seq<Sample>)
  {
    function Merge(add: seq<Node>): Shared {
      this.(nodes := nodes + add, idleAnnounced := false)
    }

    function Record(x: Sample): Shared {
      this.(samples := samples + [x])
    }

    function Mark(id: string): Shared {
      this.(running := running + {id})
    }

    function Complete(id: string): Shared {
      this.(running := running - {id}, completed := completed + {id}, idleAnnounced := false)
    }

    function Abandon(id: string): Shared {
      this.(running := running - {id})
    }

    /** The counting test of the idle branch. */
    predicate CountsQuiescent() {
      |running| == 0 && |nodes| > 0 && |completed| == |nodes|
    }

    function Announce(): Shared {
      if CountsQuiescent() && !idleAnnounced then this.(idleAnnounced := true) else this
    }

    function Signal(): Shared {
      this.(wake := true)
    }

    function TakeWake(): Shared {
      this.(wake := false)
    }
  }

  class Fields {
    var nodes: seq<Node>
    var completed: set<string>
    var running: set<string>
    var idleAnnounced: bool
    var wake: bool
    var samples: seq<Sample>

    function View(): Shared
      reads this
    {
      Shared(nodes, completed, running, idleAnnounced, wake, samples)
    }

    constructor (pipeline: seq<Node>)
      ensures View() == Shared(pipeline, {}, {}, false, false, [])
    {
      nodes, completed, running := pipeline, {}, {};
      idleAnnounced, wake, samples := false, false, [];
    }

    method Pick() returns (next: Option<Node>, runningCnt: nat)
      ensures IsPick(nodes, completed, running, next) && runningCnt == |running|
    {
      next := PickRunnable(nodes, completed, running);
      runningCnt := |running|;
    }

    method MarkRunning(n: Node)
      modifies this
      ensures View() == old(View()).Mark(n.id)
    {
      running := running + {n.id};
    }

    /** The critical section after a command ends. */
    method Finish(n: Node, failed: bool)
      modifies this
      ensures View() == if failed then old(View()).Abandon(n.id) else old(View()).Complete(n.id)
    {
      running := running - {n.id};
      if failed {
        return;
      }
      completed := completed + {n.id};
      idleAnnounced := false;
    }

    method AnnounceQuiescence()
      modifies this
      ensures View() == old(View()).Announce()
    {
      var st, total, done := |running|, |nodes|, |completed|;
      if st == 0 && total > 0 && done == total && !idleAnnounced {
        idleAnnounced := true;
      }
    }

    /** A send on a channel of capacity one that gives up when the slot is taken. */
    method SignalWake()
      modifies this
      ensures View() == old(View()).Signal()
    {
      if !wake {
        wake := true;
      }
    }

    /** A receive on that channel. */
    method TakeWake()
      modifies this
      ensures View() == old(View()).TakeWake()
    {
      wake := false;
    }

    method MergeBranch(add: seq<Node>) returns (ok: bool)
      modifies this
      ensures ok <==> Accepts(old(nodes), add)
      ensures View() == if ok then old(View()).Merge(add) else old(View())
    {
      var r := AppendDAG(nodes, add);
      if r.Err? {
        return false;
      }
      nodes := r.value;
      idleAnnounced := false;
      return true;
    }

    method RecordSample(x: Sample)
      modifies this
      ensures View() == old(View()).Record(x)
    {
      samples := samples + [x];
    }
  }

  // Transition system ------------------------------------------------------------------

  datatype Outcome = Cancelled | Failed(id: string) | IdleTimeout

  /** Where the loop is, between two critical sections. */
  datatype Pc =
    | Head
    | Picked(next: Option<Node>, runningCnt: nat)
    | Executing(node: Node)
    | Notifying
    | Polling
    | IdleWait
    | Returned(outcome: Outcome)

  /** A decoded non-empty frame. */
  datatype Request =
    | Hello
    | SampleMsg(record: Sample)
    | Branch(parent: string, add: seq<Node>)
    | RequestFd(kind: string)
    | Malformed
    | UnknownOp(op: string)

  datatype Reply = Ack | Error | FdReply

  datatype Phase = Reading | Notify(pending: Reply) | Replying(pending: Reply) | Closed

  /** One connection: the frames its handler has read, the replies it has written, and which of those writes failed. */
  datatype Conn = Conn(requests: seq<Request>, replies: seq<Reply>, lost: set<nat>, phase: Phase)
  {
    /**
     The handler ignores whether the write succeeds and reads on, except that an error reply
     follows a descriptor that could not be sent.
     */
    function Written(sent: bool): Conn
      requires phase.Replying?
    {
      if phase.pending.FdReply? && !sent then this.(phase := Replying(Error))
      else Conn(requests, replies + [phase.pending], if sent then lost else lost + {|replies|}, Reading)
    }
  }

  /**
   `started`, `origin` and `seen` are history: the ids executed so far, which request each
   sample came from, and the node list at the latest pick.
   */
  datatype State = State(sh: Shared, pc: Pc, conns: map<nat, Conn>, started: seq<string>, origin: seq<(nat, nat)>,
                         seen: seq<Node>)

  function Init(pipeline: seq<Node>): State {
    State(Shared(pipeline, {}, {}, false, false, []), Head, map[], [], [], [])
  }

  datatype Event =
    | Cancel
    | Pick(next: Option<Node>)
    | Mark
    | ExecOk
    | ExecFail
    | SignalDone
    | Poll
    | PollEnd(woken: bool)
    | Quiesce
    | IdleWake
    | IdleTick
    | IdleExit
    | Connect(c: nat)
    | Receive(c: nat, req: Request, fdOk: bool)
    | HandlerSignal(c: nat)
    | WriteReply(c: nat, sent: bool)
    | Close(c: nat)

  /** A step of the loop itself. */
  predicate LoopEvent(e: Event) {
    !e.Connect? && !e.Receive? && !e.HandlerSignal? && !e.WriteReply? && !e.Close?
  }

  ghost predicate LoopNext(s: State, t: State, e: Event)
    requires LoopEvent(e)
  {
    && t.conns == s.conns && t.origin == s.origin
    && (e.Mark? || t.started == s.started)
    && (e.Pick? || t.seen == s.seen)
    && match e
       case Cancel => (s.pc.Head? || s.pc.Polling? || s.pc.IdleWait?) && t.pc == Returned(Cancelled) && t.sh == s.sh
       case Pick(next) =>
         && s.pc.Head? && IsPick(s.sh.nodes, s.sh.completed, s.sh.running, next)
         && t.pc == Picked(next, |s.sh.running|) && t.sh == s.sh && t.seen == s.sh.nodes
       case Mark =>
         && s.pc.Picked? && s.pc.next.Some?
         && t.pc == Executing(s.pc.next.value) && t.sh == s.sh.Mark(s.pc.next.value.id)
         && t.started == s.started + [s.pc.next.value.id]
       case ExecOk => s.pc.Executing? && t.pc == Notifying && t.sh == s.sh.Complete(s.pc.node.id)
       case ExecFail => s.pc.Executing? && t.pc == Returned(Failed(s.pc.node.id)) && t.sh == s.sh.Abandon(s.pc.node.id)
       case SignalDone => s.pc.Notifying? && t.pc == Head && t.sh == s.sh.Signal()
       case Poll => s.pc.Picked? && s.pc.next.None? && s.pc.runningCnt > 0 && t.pc == Polling && t.sh == s.sh
       case PollEnd(woken) => s.pc.Polling? && (woken ==> s.sh.wake) && t.pc == Head && t.sh == (if woken then s.sh.TakeWake() else s.sh)
       case Quiesce => s.pc.Picked? && s.pc.next.None? && s.pc.runningCnt == 0 && t.pc == IdleWait && t.sh == s.sh.Announce()
       case IdleWake => s.pc.IdleWait? && s.sh.wake && t.pc == Head && t.sh == s.sh.TakeWake()
       case IdleTick => s.pc.IdleWait? && t.pc == Head && t.sh == s.sh
       case IdleExit => s.pc.IdleWait? && t.pc == Returned(IdleTimeout) && t.sh == s.sh
  }

  /** The critical section a request runs, and the reply it leads to. */
  ghost predicate Handled(s: State, t: State, c: nat, req: Request, fdOk: bool, phase: Phase)
    requires c in s.conns
  {
    match req
    case Hello => t.sh == s.sh && t.origin == s.origin && phase == Replying(Ack)
    case SampleMsg(x) =>
      t.sh == s.sh.Record(x) && t.origin == s.origin + [(c, |s.conns[c].requests|)] && phase == Notify(Ack)
    case Branch(_, add) =>
      && t.origin == s.origin
      && if Accepts(s.sh.nodes, add) then t.sh == s.sh.Merge(add) && phase == Notify(Ack)
         else t.sh == s.sh && phase == Replying(Error)
    case RequestFd(_) => t.sh == s.sh && t.origin == s.origin && phase == Replying(if fdOk then FdReply else Error)
    case Malformed => t.sh == s.sh && t.origin == s.origin && phase == Replying(Error)
    case UnknownOp(_) => t.sh == s.sh && t.origin == s.origin && phase == Replying(Error)
  }

  ghost predicate HandlerNext(s: State, t: State, e: Event)
    requires !LoopEvent(e)
  {
    && t.pc == s.pc && t.started == s.started && t.seen == s.seen
    && (e.Connect? || e.c in s.conns)
    && (e.Receive? || t.origin == s.origin)
    && match e
       case Connect(c) => c !in s.conns && t.sh == s.sh && t.conns == s.conns[c := Conn([], [], {}, Reading)]
       case Receive(c, req, fdOk) =>
         && s.conns[c].phase.Reading?
         && c in t.conns && Handled(s, t, c, req, fdOk, t.conns[c].phase)
         && t.conns == s.conns[c := s.conns[c].(requests := s.conns[c].requests + [req], phase := t.conns[c].phase)]
       case HandlerSignal(c) =>
         && s.conns[c].phase.Notify? && t.sh == s.sh.Signal()
         && t.conns == s.conns[c := s.conns[c].(phase := Replying(s.conns[c].phase.pending))]
       case WriteReply(c, sent) =>
         && s.conns[c].phase.Replying? && t.sh == s.sh
         && t.conns == s.conns[c := s.conns[c].Written(sent)]
       case Close(c) =>
         && s.conns[c].phase.Reading? && t.sh == s.sh
         && t.conns == s.conns[c := s.conns[c].(phase := Closed)]
  }

  ghost predicate Next(s: State, t: State, e: Event) {
    if LoopEvent(e) then LoopNext(s, t, e) else HandlerNext(s, t, e)
  }

  /** An interleaving: `states[i]` steps to `states[i + 1]` by `events[i]`. */
  ghost predicate IsRun(pipeline: seq<Node>, states: seq<State>, events: seq<Event>) {
    && |states| == |events| + 1
    && states[0] == Init(pipeline)
    && forall i {:trigger events[i]} :: 0 <= i < |events| ==> Next(states[i], states[i + 1], events[i])
  }
}
