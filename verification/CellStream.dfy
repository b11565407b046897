/**
 `RunInCell` after a successful start: two pumps copy a child's stdout and stderr into one
 mutex-guarded stream, then one final chunk reports the exit.
 */
module CellStream {
  import opened Collections
  import opened Frames

  const BUF_SIZE: int := 8192

  // Two pumps and the final chunk, interleaved ---------------------------------------------------

  datatype Chunk = Chunk(stdout: seq<byte>, stderr: seq<byte>, exitCode: int, finished: bool)

  datatype Side = Stdout | Stderr

  /** `Holding(b, last)`: read `b`, about to send it; `last` if the same read reported the end. */
  datatype Phase = Ready | Holding(bytes: seq<byte>, last: bool) | Done

  /** `got` is history: everything read from the pipe so far. */
  datatype Pump = Pump(input: seq<byte>, got: seq<byte>, phase: Phase)

  datatype Wait = Clean | Exit(code: int) | WaitFailed(message: seq<byte>)

  datatype State = State(out: seq<Chunk>, o: Pump, e: Pump, finished: bool)
  {
    function At(side: Side): Pump {
      if side.Stdout? then o else e
    }

    function With(side: Side, p: Pump): State {
      if side.Stdout? then this.(o := p) else this.(e := p)
    }
  }

  datatype Event = Read(side: Side, n: nat, err: bool) | Send(side: Side) | Finish(wait: Wait)

  function Int32(x: int): int {
    var m := x % TWO_32;
    if m >= 0x8000_0000 then m - TWO_32 else m
  }

  const NEWLINE: byte := 10

  function DataChunk(side: Side, b: seq<byte>): Chunk {
    if side.Stdout? then Chunk(b, [], 0, false) else Chunk([], b, 0, false)
  }

  function FinalChunk(w: Wait): Chunk {
    match w
    case Clean => Chunk([], [], 0, true)
    case Exit(code) => Chunk([], [], Int32(code), true)
    case WaitFailed(message) => Chunk([], message + [NEWLINE], -1, true)
  }

  /** What the final chunk tells the client: no output but the text of a failed wait, and the exit code as 32 bits. */
  ghost predicate TellsExit(w: Wait, last: Chunk) {
    && last.finished && last.stdout == []
    && (w.Clean? ==> last.exitCode == 0 && last.stderr == [])
    && (w.Exit? ==>
          && last.stderr == [] && -0x8000_0000 <= last.exitCode < 0x8000_0000 && (last.exitCode - w.code) % 0x1_0000_0000 == 0
          && (-0x8000_0000 <= w.code < 0x8000_0000 ==> last.exitCode == w.code))
    && (w.WaitFailed? ==> last.exitCode == -1 && last.stderr == w.message + [10])
  }

  lemma FinalChunkTellsExit(w: Wait)
    ensures TellsExit(w, FinalChunk(w))
  {
    if w.Exit? {
      Int32Congruent(w.code);
    }
  }

  lemma Int32Congruent(x: int)
    ensures -0x8000_0000 <= Int32(x) < 0x8000_0000 && (Int32(x) - x) % TWO_32 == 0
    ensures -0x8000_0000 <= x < 0x8000_0000 ==> Int32(x) == x
  {
    assert x == (x / TWO_32) * TWO_32 + x % TWO_32;
    assert Int32(x) - x == TWO_32 * (-(x / TWO_32)) || Int32(x) - x == TWO_32 * (-(x / TWO_32) - 1);
  }

  function Init(stdout: seq<byte>, stderr: seq<byte>): State {
    State([], Pump(stdout, [], Ready), Pump(stderr, [], Ready), false)
  }

  ghost predicate Next(s: State, t: State, e: Event) {
    match e
    case Read(side, n, err) =>
      var p := s.At(side);
      && p.phase.Ready? && n <= BUF_SIZE && n <= |p.input| && (n == 0 ==> err)
      && t == s.With(side, Pump(p.input[n..], p.got + p.input[..n], if n > 0 then Holding(p.input[..n], err) else Done))
    case Send(side) =>
      var p := s.At(side);
      && p.phase.Holding?
      && t == s.With(side, p.(phase := if p.phase.last then Done else Ready)).(out := s.out + [DataChunk(side, p.phase.bytes)])
    case Finish(w) =>
      !s.finished && s.o.phase.Done? && s.e.phase.Done? && t == s.(out := s.out + [FinalChunk(w)], finished := true)
  }

  ghost predicate IsRun(stdout: seq<byte>, stderr: seq<byte>, states: seq<State>, events: seq<Event>) {
    && |states| == |events| + 1 && states[0] == Init(stdout, stderr)
    && forall i {:trigger events[i]} :: 0 <= i < |events| ==> Next(states[i], states[i + 1], events[i])
  }

  /** The bytes a list of chunks carries for one side. */
  function Collect(chunks: seq<Chunk>, side: Side): seq<byte> {
    if chunks == [] then []
    else
      var c := chunks[|chunks| - 1];
      Collect(chunks[..|chunks| - 1], side) + if side.Stdout? then c.stdout else c.stderr
  }

  /** Everything sent before the final chunk. */
  function Body(s: State): seq<Chunk> {
    if s.finished && |s.out| > 0 then s.out[..|s.out| - 1] else s.out
  }

  function Held(p: Pump): seq<byte> {
    if p.phase.Holding? then p.phase.bytes else []
  }

  /** The data sent for a side plus what its pump holds is what was read; the rest is still to come. */
  ghost predicate PumpInv(body: seq<Chunk>, p: Pump, side: Side, input: seq<byte>) {
    && Collect(body, side) + Held(p) == p.got
    && p.got + p.input == input
    && (p.phase.Holding? ==> 0 < |p.phase.bytes| <= BUF_SIZE)
  }

  ghost predicate IsData(c: Chunk) {
    !c.finished && 0 < |c.stdout| + |c.stderr| <= BUF_SIZE
  }

  ghost predicate Inv(s: State, stdout: seq<byte>, stderr: seq<byte>) {
    && (s.finished ==> s.out != [] && s.out[|s.out| - 1].finished && s.o.phase.Done? && s.e.phase.Done?)
    && (forall k :: 0 <= k < |Body(s)| ==> IsData(Body(s)[k]))
    && PumpInv(Body(s), s.o, Stdout, stdout) && PumpInv(Body(s), s.e, Stderr, stderr)
  }

  lemma CollectSnoc(chunks: seq<Chunk>, c: Chunk, side: Side)
    ensures Collect(chunks + [c], side) == Collect(chunks, side) + if side.Stdout? then c.stdout else c.stderr
  {
    assert (chunks + [c])[..|chunks|] == chunks;
  }

  lemma PumpReads(body: seq<Chunk>, p: Pump, side: Side, input: seq<byte>, n: nat, phase: Phase)
    requires PumpInv(body, p, side, input) && p.phase.Ready? && n <= |p.input| && n <= BUF_SIZE
    requires if n > 0 then phase.Holding? && phase.bytes == p.input[..n] else phase.Done?
    ensures PumpInv(body, Pump(p.input[n..], p.got + p.input[..n], phase), side, input)
  {
    Rejoin(p.input, n);
    Reassociate(p.got, p.input[..n], p.input[n..]);
    assert Collect(body, side) + [] == Collect(body, side);
    assert n == 0 ==> p.got + p.input[..n] == p.got;
  }

  lemma PumpSends(body: seq<Chunk>, p: Pump, side: Side, input: seq<byte>, phase: Phase)
    requires PumpInv(body, p, side, input) && p.phase.Holding? && !phase.Holding?
    ensures PumpInv(body + [DataChunk(side, p.phase.bytes)], p.(phase := phase), side, input)
  {
    CollectSnoc(body, DataChunk(side, p.phase.bytes), side);
  }

  /** The other pump's chunk adds nothing on this side. */
  lemma OtherSends(body: seq<Chunk>, p: Pump, side: Side, input: seq<byte>, other: Side, b: seq<byte>)
    requires PumpInv(body, p, side, input) && other != side
    ensures PumpInv(body + [DataChunk(other, b)], p, side, input)
  {
    CollectSnoc(body, DataChunk(other, b), side);
  }

  lemma ReadStep(s: State, t: State, side: Side, n: nat, err: bool, stdout: seq<byte>, stderr: seq<byte>)
    requires Inv(s, stdout, stderr) && Next(s, t, Read(side, n, err))
    ensures Inv(t, stdout, stderr)
  {
    assert Body(t) == Body(s);
    if side.Stdout? {
      PumpReads(Body(s), s.o, side, stdout, n, t.o.phase);
    } else {
      PumpReads(Body(s), s.e, side, stderr, n, t.e.phase);
    }
  }

  lemma SendStep(s: State, t: State, side: Side, stdout: seq<byte>, stderr: seq<byte>)
    requires Inv(s, stdout, stderr) && Next(s, t, Send(side))
    ensures Inv(t, stdout, stderr)
  {
    assert !s.finished;
    if side.Stdout? {
      PumpSends(s.out, s.o, side, stdout, t.o.phase);
      OtherSends(s.out, s.e, Stderr, stderr, side, s.o.phase.bytes);
    } else {
      PumpSends(s.out, s.e, side, stderr, t.e.phase);
      OtherSends(s.out, s.o, Stdout, stdout, side, s.e.phase.bytes);
    }
  }

  lemma StepInv(s: State, t: State, e: Event, stdout: seq<byte>, stderr: seq<byte>)
    requires Inv(s, stdout, stderr) && Next(s, t, e)
    ensures Inv(t, stdout, stderr)
  {
    match e
    case Read(side, n, err) => ReadStep(s, t, side, n, err, stdout, stderr);
    case Send(side) => SendStep(s, t, side, stdout, stderr);
    case Finish(w) => assert Body(t) == s.out;
  }

  lemma {:induction false} RunInv(stdout: seq<byte>, stderr: seq<byte>, states: seq<State>, events: seq<Event>, i: nat)
    requires IsRun(stdout, stderr, states, events) && i < |states|
    ensures Inv(states[i], stdout, stderr)
  {
    if i > 0 {
      RunInv(stdout, stderr, states, events, i - 1);
      StepInv(states[i - 1], states[i], events[i - 1], stdout, stderr);
    }
  }

  /**
   In every interleaving the stream, once finished, is data chunks followed by one Finished
   chunk; the data chunks of each side concatenate to exactly what was read from its pipe, which
   is an initial part of what the child wrote.
   */
  lemma StreamIsFaithful(stdout: seq<byte>, stderr: seq<byte>, states: seq<State>, events: seq<Event>, i: nat)
    requires IsRun(stdout, stderr, states, events) && i < |states| && states[i].finished
    ensures var out := states[i].out;
            && out != [] && out[|out| - 1].finished
            && (forall k :: 0 <= k < |out| - 1 ==> !out[k].finished && 0 < |out[k].stdout| + |out[k].stderr| <= 8192)
            && Collect(out[..|out| - 1], Stdout) == states[i].o.got <= stdout
            && Collect(out[..|out| - 1], Stderr) == states[i].e.got <= stderr
  {
    RunInv(stdout, stderr, states, events, i);
    var s := states[i];
    assert forall k :: 0 <= k < |s.out| - 1 ==> Body(s)[k] == s.out[k];
    assert Collect(Body(s), Stdout) + [] == s.o.got;
    assert Collect(Body(s), Stderr) + [] == s.e.got;
  }

  /** Nothing happens after the Finished chunk. */
  lemma {:induction false} NothingAfterFinished(stdout: seq<byte>, stderr: seq<byte>, states: seq<State>, events: seq<Event>, i: nat)
    requires IsRun(stdout, stderr, states, events) && i < |states| && states[i].finished
    ensures i == |events|
  {
    assert i < |events| ==> Next(states[i], states[i + 1], events[i]);
    RunInv(stdout, stderr, states, events, i);
  }

  // The pumps on the heap: one read buffer each, reused for every read ----------------------------

  method Fill(buf: array<byte>, bytes: seq<byte>)
    requires |bytes| <= buf.Length
    modifies buf
    ensures buf[..|bytes|] == bytes
  {
    forall i | 0 <= i < |bytes| {
      buf[i] := bytes[i];
    }
  }

  /** A chunk as handed to `stream.Send`: the side it is for, and its bytes by reference. */
  datatype Sent = Sent(side: Side, bytes: array<byte>)

  /** The chunks sent currently hold these contents. */
  ghost predicate Stores(sent: seq<Sent>, chunks: seq<Chunk>)
    reads set k | 0 <= k < |sent| :: sent[k].bytes
  {
    |sent| == |chunks| && forall k :: 0 <= k < |sent| ==> chunks[k] == DataChunk(sent[k].side, sent[k].bytes[..])
  }

  /** `append([]byte(nil), buf[:n]...)` */
  method CopyOf(buf: array<byte>, n: nat) returns (b: array<byte>)
    requires n <= buf.Length
    ensures fresh(b) && b[..] == buf[..n]
  {
    b := new byte[n];
    forall i | 0 <= i < n {
      b[i] := buf[i];
    }
  }

  /** Where a pump is: about to read, about to send the first `n` bytes of its buffer, or through. */
  datatype Stage = Reading | Filled(n: nat, last: bool) | Through

  ghost function PhaseOf(stage: Stage, buf: seq<byte>): Phase {
    match stage
    case Reading => Ready
    case Filled(n, last) => if n <= |buf| then Holding(buf[..n], last) else Done
    case Through => Done
  }

  /** The pump of that side, as its buffer, its pipe and its stage make it up. */
  ghost predicate Matches(s: State, side: Side, buf: seq<byte>, input: seq<byte>, stage: Stage) {
    && s.At(side).input == input && s.At(side).phase == PhaseOf(stage, buf)
    && (stage.Filled? ==> stage.n <= |buf|)
  }

  function Other(side: Side): Side {
    if side.Stdout? then Stderr else Stdout
  }

  function StageRank(stage: Stage): nat {
    match stage case Through => 0 case Reading => 1 case Filled(_, _) => 2
  }

  /** How many bytes a read delivers when the pipe offers `n`. */
  function Delivered(n: nat, input: seq<byte>): nat {
    Frames.Min(Frames.Min(n, |input|), BUF_SIZE)
  }

  /** The step a pump takes next, given what a read would deliver. */
  function PumpEvent(side: Side, stage: Stage, input: seq<byte>, n: nat, err: bool): Event {
    if stage.Filled? then Send(side) else Read(side, Delivered(n, input), Delivered(n, input) == 0 || err)
  }

  /** One pump moves: it reads what the pipe offers into its buffer, or sends what is there. */
  method PumpMoves(side: Side, buf: array<byte>, input: seq<byte>, stage: Stage, n: nat, err: bool, sent: seq<Sent>, ghost s: State)
    returns (input': seq<byte>, stage': Stage, sent': seq<Sent>, ghost t: State)
    requires buf.Length == BUF_SIZE && !stage.Through? && !s.finished && Matches(s, side, buf[..], input, stage)
    requires Stores(sent, s.out) && forall k :: 0 <= k < |sent| ==> sent[k].bytes != buf
    modifies buf
    ensures Next(s, t, PumpEvent(side, stage, input, n, err)) && !t.finished && Matches(t, side, buf[..], input', stage')
    ensures t.At(Other(side)) == s.At(Other(side))
    ensures stage.Filled? ==> input' == input && stage' == (if stage.last then Through else Reading)
    ensures stage.Reading? ==>
              var m := Delivered(n, input);
              input' == input[m..] && stage' == (if m > 0 then Filled(m, err) else Through) && sent' == sent
    ensures Stores(sent', t.out) && sent <= sent' && forall k :: |sent| <= k < |sent'| ==> fresh(sent'[k].bytes)
  {
    input', stage', sent' := input, stage, sent;
    var p := s.At(side);
    if stage.Filled? {
      var b := CopyOf(buf, stage.n);
      sent' := sent + [Sent(side, b)];
      stage' := if stage.last then Through else Reading;
      t := s.With(side, p.(phase := if p.phase.last then Done else Ready)).(out := s.out + [DataChunk(side, b[..])]);
    } else {
      var m := Delivered(n, input);
      Fill(buf, input[..m]);
      input' := input[m..];
      stage' := if m > 0 then Filled(m, err) else Through;
      t := s.With(side, Pump(p.input[m..], p.got + p.input[..m], if m > 0 then Holding(p.input[..m], err) else Done));
    }
  }

  /** What the child writes to that side. */
  function Written(side: Side, stdout: seq<byte>, stderr: seq<byte>): seq<byte> {
    if side.Stdout? then stdout else stderr
  }

  /** What the i-th read of a pump offers: a number of bytes, and whether it reports an error or the end. */
  type Reads = nat -> (nat, bool)

  /** How many bytes a pump still reads until it returns. */
  function Taken(input: seq<byte>, stage: Stage, offers: Reads, i: nat): (k: nat)
    ensures k <= |input|
    decreases |input|, StageRank(stage)
  {
    match stage
    case Through => 0
    case Filled(_, last) => if last then 0 else Taken(input, Reading, offers, i)
    case Reading =>
      var m := Delivered(offers(i).0, input);
      if m == 0 then 0 else if offers(i).1 then m else m + Taken(input[m..], Reading, offers, i + 1)
  }

  /** What a pump leaves unread when it returns. */
  function Remains(input: seq<byte>, stage: Stage, offers: Reads, i: nat): seq<byte> {
    input[Taken(input, stage, offers, i)..]
  }

  lemma MoveTakes(input: seq<byte>, stage: Stage, offers: Reads, i: nat)
    requires !stage.Through?
    ensures stage.Filled? ==> Remains(input, stage, offers, i) == Remains(input, if stage.last then Through else Reading, offers, i)
    ensures stage.Reading? ==>
              var m := Delivered(offers(i).0, input);
              Remains(input, stage, offers, i) == Remains(input[m..], if m > 0 then Filled(m, offers(i).1) else Through, offers, i + 1)
  {
  }

  /**
   `pipeToStream`, from wherever its loop is until it returns. Each chunk is a fresh copy, so
   refilling the buffer leaves the chunks already sent as they were; what was sent for the side is
   exactly what was read, nothing was sent for the other, and reading goes on until a read reports
   an error or the end.
   */
  method PipeToStream(side: Side, buf: array<byte>, input: seq<byte>, stage: Stage, offers: Reads, sent: seq<Sent>,
                      ghost stdout: seq<byte>, ghost stderr: seq<byte>, ghost states: seq<State>, ghost events: seq<Event>)
    returns (sent': seq<Sent>, ghost states': seq<State>, ghost events': seq<Event>)
    requires IsRun(stdout, stderr, states, events) && !states[|events|].finished
    requires buf.Length == BUF_SIZE && Matches(states[|events|], side, buf[..], input, stage)
    requires Stores(sent, states[|events|].out) && forall k :: 0 <= k < |sent| ==> sent[k].bytes != buf
    modifies buf
    ensures IsRun(stdout, stderr, states', events') && states <= states' && !states'[|events'|].finished
    ensures Stores(sent', states'[|events'|].out) && sent <= sent' && forall k :: |sent| <= k < |sent'| ==> fresh(sent'[k].bytes)
    ensures var s, t := states[|events|], states'[|events'|];
            && t.At(side).phase.Done? && t.At(Other(side)) == s.At(Other(side))
            && t.At(side).input == Remains(input, stage, offers, 0)
            && Collect(t.out, side) == t.At(side).got <= Written(side, stdout, stderr)
            && Collect(t.out, Other(side)) == Collect(s.out, Other(side))
  {
    var rest, now, i := input, stage, 0;
    sent', states', events' := sent, states, events;
    while !now.Through?
      invariant IsRun(stdout, stderr, states', events') && states <= states' && !states'[|events'|].finished
      invariant Matches(states'[|events'|], side, buf[..], rest, now)
      invariant Remains(rest, now, offers, i) == Remains(input, stage, offers, 0)
      invariant states'[|events'|].At(Other(side)) == states[|events|].At(Other(side))
      invariant Stores(sent', states'[|events'|].out) && sent <= sent' && forall k :: |sent| <= k < |sent'| ==> fresh(sent'[k].bytes)
      invariant forall k :: 0 <= k < |sent'| ==> sent'[k].bytes != buf
      decreases |rest|, StageRank(now)
    {
      var (n, err) := offers(i);
      ghost var t;
      ghost var e := PumpEvent(side, now, rest, n, err);
      MoveTakes(rest, now, offers, i);
      if now.Reading? {
        i := i + 1;
      }
      rest, now, sent', t := PumpMoves(side, buf, rest, now, n, err, sent', states'[|events'|]);
      ExtendRun(stdout, stderr, states', events', e, t);
      states', events' := states' + [t], events' + [e];
    }
    SentIsRead(stdout, stderr, states, events, states', events', side);
  }

  /** What two states of a run say about a pump that is through and one that has not moved. */
  lemma SentIsRead(stdout: seq<byte>, stderr: seq<byte>, states: seq<State>, events: seq<Event>,
                   states': seq<State>, events': seq<Event>, side: Side)
    requires IsRun(stdout, stderr, states, events) && IsRun(stdout, stderr, states', events')
    requires !states[|events|].finished && !states'[|events'|].finished && states'[|events'|].At(side).phase.Done?
    requires states'[|events'|].At(Other(side)) == states[|events|].At(Other(side))
    ensures var s, t := states[|events|], states'[|events'|];
            && Collect(t.out, side) == t.At(side).got <= Written(side, stdout, stderr)
            && Collect(t.out, Other(side)) == Collect(s.out, Other(side))
  {
    var s, t := states[|events|], states'[|events'|];
    RunInv(stdout, stderr, states, events, |events|);
    RunInv(stdout, stderr, states', events', |events'|);
    assert Collect(t.out, side) + [] == Collect(t.out, side);
    var held := Held(t.At(Other(side)));
    assert Collect(t.out, Other(side)) + held == Collect(s.out, Other(side)) + held;
    CancelSuffix(Collect(t.out, Other(side)), Collect(s.out, Other(side)), held);
  }

  lemma CancelSuffix(a: seq<byte>, b: seq<byte>, c: seq<byte>)
    requires a + c == b + c
    ensures a == b
  {
    assert |a| == |b|;
    assert a == (a + c)[..|a|] && b == (b + c)[..|b|];
  }

  // The whole call -------------------------------------------------------------------------------------

  /** Whose turn it is, and what a read of that pump would offer. */
  datatype Turn = Turn(side: Side, n: nat, err: bool)

  /** Reads deliver something while there is anything, and report nothing but the end. */
  predicate Steady(schedule: seq<Turn>) {
    forall i :: 0 <= i < |schedule| ==> schedule[i].n > 0 && !schedule[i].err
  }

  ghost predicate SteadyReads(offers: Reads) {
    forall i: nat :: offers(i).0 > 0 && !offers(i).1
  }

  /** The pump has not stopped before the end of its input and will not. */
  predicate Unbroken(stage: Stage, input: seq<byte>) {
    (stage.Through? ==> input == []) && (stage.Filled? ==> !stage.last)
  }

  lemma {:induction false} SteadyTakesAll(input: seq<byte>, stage: Stage, offers: Reads, i: nat)
    requires SteadyReads(offers) && Unbroken(stage, input)
    ensures Taken(input, stage, offers, i) == |input|
    decreases |input|, StageRank(stage)
  {
    if stage.Filled? {
      SteadyTakesAll(input, Reading, offers, i);
    } else if stage.Reading? {
      var m := Delivered(offers(i).0, input);
      assert input != [] ==> m > 0;
      if m > 0 {
        SteadyTakesAll(input[m..], Reading, offers, i + 1);
      }
    }
  }

  /**
   `RunInCell` after a successful start: both pumps move under any schedule and then until they
   return; only then comes the final chunk. The execution is a run of the transition system, at its
   end the chunks sent still hold what was sent, and steady reads deliver the whole output.
   */
  method RunInCell(stdout: seq<byte>, stderr: seq<byte>, schedule: seq<Turn>, outReads: Reads, errReads: Reads, w: Wait)
    returns (sent: seq<Sent>, last: Chunk, ghost states: seq<State>, ghost events: seq<Event>)
    ensures IsRun(stdout, stderr, states, events) && states[|events|].finished && TellsExit(w, last)
    ensures var s := states[|events|];
            && s.out == Body(s) + [last] && Stores(sent, Body(s))
            && Collect(Body(s), Stdout) == s.o.got <= stdout && Collect(Body(s), Stderr) == s.e.got <= stderr
    ensures Steady(schedule) && SteadyReads(outReads) && SteadyReads(errReads) ==>
              states[|events|].o.got == stdout && states[|events|].e.got == stderr
  {
    var outBuf, errBuf := new byte[BUF_SIZE], new byte[BUF_SIZE];
    var outIn, errIn, o, e;
    sent, outIn, errIn, o, e, states, events := Pumps(outBuf, errBuf, stdout, stderr, schedule);
    sent, states, events := PipeToStream(Stdout, outBuf, outIn, o, outReads, sent, stdout, stderr, states, events);
    sent, states, events := PipeToStream(Stderr, errBuf, errIn, e, errReads, sent, stdout, stderr, states, events);
    if Steady(schedule) && SteadyReads(outReads) && SteadyReads(errReads) {
      SteadyTakesAll(outIn, o, outReads, 0);
      SteadyTakesAll(errIn, e, errReads, 0);
      AllRead(stdout, stderr, states, events);
    }
    last := FinalChunk(w);
    FinalChunkTellsExit(w);
    ghost var t := states[|events|].(out := states[|events|].out + [last], finished := true);
    ExtendRun(stdout, stderr, states, events, Finish(w), t);
    states, events := states + [t], events + [Finish(w)];
    StreamIsFaithful(stdout, stderr, states, events, |events|);
  }

  lemma AllRead(stdout: seq<byte>, stderr: seq<byte>, states: seq<State>, events: seq<Event>)
    requires IsRun(stdout, stderr, states, events) && states[|events|].o.input == [] && states[|events|].e.input == []
    ensures states[|events|].o.got == stdout && states[|events|].e.got == stderr
  {
    RunInv(stdout, stderr, states, events, |events|);
    var s := states[|events|];
    assert s.o.got + [] == s.o.got && s.e.got + [] == s.e.got;
  }

  /** The step a turn takes: the pump whose turn it is moves, unless it is through. */
  ghost predicate TakesTurn(s: State, x: Turn, t: State) {
    var p := s.At(x.side);
    match p.phase
    case Done => t == s
    case Holding(_, _) => Next(s, t, Send(x.side))
    case Ready => Next(s, t, Read(x.side, Delivered(x.n, p.input), Delivered(x.n, p.input) == 0 || x.err))
  }

  /** One turn of a schedule. */
  method OneTurn(x: Turn, buf: array<byte>, input: seq<byte>, stage: Stage, sent: seq<Sent>,
                 ghost stdout: seq<byte>, ghost stderr: seq<byte>, ghost states: seq<State>, ghost events: seq<Event>)
    returns (input': seq<byte>, stage': Stage, sent': seq<Sent>, ghost t: State, ghost states': seq<State>, ghost events': seq<Event>)
    requires IsRun(stdout, stderr, states, events) && !states[|events|].finished
    requires buf.Length == BUF_SIZE && Matches(states[|events|], x.side, buf[..], input, stage)
    requires Stores(sent, states[|events|].out) && forall k :: 0 <= k < |sent| ==> sent[k].bytes != buf
    modifies buf
    ensures IsRun(stdout, stderr, states', events') && states'[|events'|] == t && !t.finished
    ensures TakesTurn(states[|events|], x, t) && Matches(t, x.side, buf[..], input', stage')
    ensures t.At(Other(x.side)) == states[|events|].At(Other(x.side))
    ensures x.n > 0 && !x.err && Unbroken(stage, input) ==> Unbroken(stage', input')
    ensures Stores(sent', t.out) && sent <= sent' && forall k :: |sent| <= k < |sent'| ==> fresh(sent'[k].bytes)
  {
    input', stage', sent', states', events' := input, stage, sent, states, events;
    t := states[|events|];
    if !stage.Through? {
      ghost var e := PumpEvent(x.side, stage, input, x.n, x.err);
      input', stage', sent', t := PumpMoves(x.side, buf, input, stage, x.n, x.err, sent, states[|events|]);
      ExtendRun(stdout, stderr, states, events, e, t);
      states', events' := states + [t], events + [e];
    }
  }

  /** Both pumps with their buffers, under any schedule of their moves: a run of the transition system. */
  method Pumps(outBuf: array<byte>, errBuf: array<byte>, stdout: seq<byte>, stderr: seq<byte>, schedule: seq<Turn>)
    returns (sent: seq<Sent>, outIn: seq<byte>, errIn: seq<byte>, o: Stage, e: Stage, ghost states: seq<State>, ghost events: seq<Event>)
    requires outBuf != errBuf && outBuf.Length == errBuf.Length == BUF_SIZE
    modifies outBuf, errBuf
    ensures IsRun(stdout, stderr, states, events) && Stores(sent, states[|events|].out) && !states[|events|].finished
    ensures forall k :: 0 <= k < |sent| ==> fresh(sent[k].bytes)
    ensures Matches(states[|events|], Stdout, outBuf[..], outIn, o) && Matches(states[|events|], Stderr, errBuf[..], errIn, e)
    ensures Steady(schedule) ==> Unbroken(o, outIn) && Unbroken(e, errIn)
    ensures exists trace :: FollowsTurns(trace, stdout, stderr, schedule) && trace[|schedule|] == states[|events|]
  {
    outIn, errIn := stdout, stderr;
    sent, o, e := [], Reading, Reading;
    states, events := [Init(stdout, stderr)], [];
    ghost var trace := states;
    for i := 0 to |schedule|
      invariant forall k :: 0 <= k < |sent| ==> fresh(sent[k].bytes)
      invariant IsRun(stdout, stderr, states, events) && Stores(sent, states[|events|].out) && !states[|events|].finished
      invariant Matches(states[|events|], Stdout, outBuf[..], outIn, o) && Matches(states[|events|], Stderr, errBuf[..], errIn, e)
      invariant Steady(schedule) ==> Unbroken(o, outIn) && Unbroken(e, errIn)
      invariant FollowsTurns(trace, stdout, stderr, schedule[..i]) && trace[i] == states[|events|]
    {
      var x := schedule[i];
      ghost var t;
      if x.side.Stdout? {
        outIn, o, sent, t, states, events := OneTurn(x, outBuf, outIn, o, sent, stdout, stderr, states, events);
      } else {
        errIn, e, sent, t, states, events := OneTurn(x, errBuf, errIn, e, sent, stdout, stderr, states, events);
      }
      ExtendTurns(trace, stdout, stderr, schedule, i, t);
      trace := trace + [t];
    }
    assert schedule[..|schedule|] == schedule;
  }

  /** `trace[i]` is the state before the i-th turn. */
  ghost predicate FollowsTurns(trace: seq<State>, stdout: seq<byte>, stderr: seq<byte>, schedule: seq<Turn>) {
    && |trace| == |schedule| + 1 && trace[0] == Init(stdout, stderr)
    && forall i {:trigger schedule[i]} :: 0 <= i < |schedule| ==> TakesTurn(trace[i], schedule[i], trace[i + 1])
  }

  lemma ExtendTurns(trace: seq<State>, stdout: seq<byte>, stderr: seq<byte>, schedule: seq<Turn>, i: nat, t: State)
    requires i < |schedule| && FollowsTurns(trace, stdout, stderr, schedule[..i]) && TakesTurn(trace[i], schedule[i], t)
    ensures FollowsTurns(trace + [t], stdout, stderr, schedule[..i + 1])
  {
    var longer := trace + [t];
    forall k | 0 <= k < i + 1
      ensures TakesTurn(longer[k], schedule[..i + 1][k], longer[k + 1])
    {
      if k < i {
        assert TakesTurn(trace[k], schedule[..i][k], trace[k + 1]);
      }
    }
  }

  lemma ExtendRun(stdout: seq<byte>, stderr: seq<byte>, states: seq<State>, events: seq<Event>, e: Event, t: State)
    requires IsRun(stdout, stderr, states, events) && Next(states[|events|], t, e)
    ensures IsRun(stdout, stderr, states + [t], events + [e])
  {
    var ss, es := states + [t], events + [e];
    forall i | 0 <= i < |es|
      ensures Next(ss[i], ss[i + 1], es[i])
    {
      assert i < |events| ==> Next(states[i], states[i + 1], events[i]);
    }
  }
}
