/**
 Every schedule delivers: as long as nothing goes wrong and nothing more is read, whatever the tunnel does next
 brings it closer to having put out everything.
 */
module TunnelSchedules {
  import opened Bytes
  import opened Parsers
  import opened Transport
  import opened FrameStreams
  import opened Senders
  import opened Tunnel
  import opened TunnelInvariant
  import opened TunnelSteps
  import opened TunnelTheorems
  import opened TunnelLiveness

  /** The tunnel's own steps: no read, no crash, no error and no end of the connection. */
  predicate Undisturbed(step: Step) {
    step.Send? || step.Forward? || (step.Poll? && (step.event.Pending? || step.event.Packet?))
  }

  /** What is left to do: hunks by how far they have to go, and bytes. */
  function Measure(s: State): nat {
    3 * |s.outbox| + 2 * |s.channel| + |s.wire| + |InFlight(s)|
  }

  /** The steps of a run that change something. */
  function Changes(c: Session, s: State, steps: seq<Step>): nat
    requires Runs(c, s, steps)
    decreases |steps|
  {
    if steps == [] then 0
    else (if Apply(c, s, steps[0]) == s then 0 else 1) + Changes(c, Apply(c, s, steps[0]), steps[1..])
  }

  /** Nothing the tunnel can do by itself changes anything. */
  ghost predicate Exhausted(c: Session, s: State) {
    forall step :: Undisturbed(step) && Enabled(c, s, step) ==> Apply(c, s, step) == s
  }

  /** A served session that nothing has gone wrong with. */
  predicate AtWork(c: Session, s: State) {
    && Inv(c, s) && !c.request.command.Bind? && (c.direction.Upload? ==> Authentic(c))
    && s.phase != Closed(Broke) && s.phase != Closed(Crashed)
  }

  /** Is every byte that was read out? */
  predicate BytesOut(c: Session, s: State) {
    (if c.request.command.Udp? then Flatten(Payloads(s.delivered)) else s.out) == Flatten(s.input)
  }

  // ---------------------------------------------------------------- one step

  lemma MoveLowers(c: Session, s: State, step: Step)
    requires Enabled(c, s, step) && (step.Send? || step.Forward?)
    ensures Measure(Apply(c, s, step)) < Measure(s)
  {
    MoveKeepsPipeline(c, s, step);
    hide Pipeline, Flatten;
  }

  lemma DrainLowers(s: State, e: Event, room: nat)
    requires 0 < room && (e.Pending? || (e.Packet? && s.wire != [] && e.data == s.wire[0]))
    requires !PollGrpc(s.buf, room, e).poll.NotReady?
    ensures !PollGrpc(s.buf, room, e).poll.Err? && Measure(Drain(s, e, room)) < Measure(s)
  {
    var p := PollGrpc(s.buf, room, e);
    assert !p.poll.Err? && (|Reported(p.poll)| > 0 || (p.took && e.Packet?));
    DrainMovesBytes(s, e, room);
    hide InFlight, PollGrpc;
  }

  lemma SameMeasure(s: State, s': State)
    requires s'.outbox == s.outbox && s'.channel == s.channel && s'.wire == s.wire && s'.buf == s.buf
    ensures Measure(s') == Measure(s)
  {
    SamePipeline(s, s');
    hide InFlight;
  }

  lemma PollLowers(c: Session, s: State, e: Event, room: nat)
    requires Enabled(c, s, Step.Poll(e, room)) && (e.Pending? || e.Packet?)
    requires Apply(c, s, Step.Poll(e, room)) != s
    ensures var t := Apply(c, s, Step.Poll(e, room));
      Measure(t) < Measure(s) && t.input == s.input && t.phase != Closed(Broke) && t.phase != Closed(Crashed)
  {
    var t, s1, p := Apply(c, s, Step.Poll(e, room)), Drain(s, e, room), PollGrpc(s.buf, room, e).poll;
    PollCases(c, s, e, room);
    assert 0 < room && !s.phase.Closed? && s1.input == s.input && s1.phase == s.phase;
    DrainLowers(s, e, room);
    hide Measure, PollGrpc, Drain, Ask, Receive;
    if p.data != [] {
      PollReceives(c, s, e, room);
      ReceiveLeaves(c, s1, p.data);
    }
    SameMeasure(s1, t);
  }

  /** Every step that changes something leaves less to do. */
  lemma StepLowers(c: Session, s: State, step: Step)
    requires Enabled(c, s, step) && Undisturbed(step) && Apply(c, s, step) != s
    ensures var t := Apply(c, s, step); Measure(t) < Measure(s) && t.input == s.input
    ensures var t := Apply(c, s, step);
      s.phase != Closed(Broke) && s.phase != Closed(Crashed) ==> t.phase != Closed(Broke) && t.phase != Closed(Crashed)
  {
    if step.Poll? {
      PollLowers(c, s, step.event, step.room);
    } else {
      MoveLowers(c, s, step);
      hide Measure;
    }
  }

  lemma StepKeepsAtWork(c: Session, s: State, step: Step)
    requires Plausible(c) && AtWork(c, s) && Enabled(c, s, step) && Undisturbed(step)
    ensures var t := Apply(c, s, step);
      && AtWork(c, t) && t.input == s.input
      && Measure(t) + (if t == s then 0 else 1) <= Measure(s)
  {
    hide Inv, Enabled, Apply, Measure, Undisturbed, Plausible, Authentic;
    StepKeepsInv(c, s, step);
    if Apply(c, s, step) != s { StepLowers(c, s, step); }
  }

  // ---------------------------------------------------------------- when nothing is left

  lemma MoveChanges(c: Session, s: State)
    ensures s.channel != [] ==> Enabled(c, s, Forward) && Apply(c, s, Forward) != s
    ensures s.channel == [] && s.outbox != [] ==> Enabled(c, s, Send) && Apply(c, s, Send) != s
  {
    if s.channel != [] {
      assert |Apply(c, s, Forward).channel| < |s.channel|;
    } else if s.outbox != [] {
      assert |Apply(c, s, Send).outbox| < |s.outbox|;
    }
  }

  lemma ExhaustedMoved(c: Session, s: State)
    requires Exhausted(c, s)
    ensures s.channel == [] && s.outbox == []
  {
    MoveChanges(c, s);
    hide Enabled, Apply;
  }

  lemma PollChanges(c: Session, s: State)
    requires Plausible(c) && Inv(c, s) && !s.phase.Closed? && (s.buf != [] || s.wire != [])
    ensures Undisturbed(PollStep(s)) && Enabled(c, s, PollStep(s)) && Apply(c, s, PollStep(s)) != s
  {
    PollEnabled(c, s);
    WantedIsOffered(c, s);
    hide Inv, Enabled, Apply, Wanted, Plausible;
    if s.buf != [] || s.wire[0] != [] {
      PollProgress(c, s);
    } else {
      EmptyStops(c, s);
    }
  }

  lemma ExhaustedPolled(c: Session, s: State)
    requires Plausible(c) && Inv(c, s) && !s.phase.Closed? && Exhausted(c, s)
    ensures s.buf == [] && s.wire == []
  {
    hide Inv, Plausible, Enabled, Apply, Undisturbed;
    if s.buf != [] || s.wire != [] { PollChanges(c, s); }
  }

  lemma EmptyStops(c: Session, s: State)
    requires Inv(c, s) && !s.phase.Closed? && s.buf == [] && s.wire != [] && s.wire[0] == []
    requires Enabled(c, s, PollStep(s)) && 0 < Wanted(s)
    ensures Undisturbed(PollStep(s)) && Apply(c, s, PollStep(s)).phase.Closed?
  {
    hide Inv, Wanted, Enabled, Receive;
  }

  /** A receiver at work with nothing left to do has no hunk on its way. */
  lemma ExhaustedIsQuiescent(c: Session, s: State)
    requires Plausible(c) && Inv(c, s) && !s.phase.Closed? && Exhausted(c, s)
    ensures Quiescent(s)
  {
    ExhaustedMoved(c, s);
    ExhaustedPolled(c, s);
    hide Inv, Exhausted;
  }

  lemma CameOutIsBytesOut(c: Session, s: State)
    requires CameOut(c, s)
    ensures BytesOut(c, s)
  {
    PayloadsFramed(c.request, s.input);
    hide Flatten, Payloads, Framed;
  }

  /** So everything is out. */
  lemma ExhaustedIsOut(c: Session, s: State)
    requires InStep(c) && AtWork(c, s) && Exhausted(c, s)
    ensures BytesOut(c, s)
    ensures c.request.command.Connect? || c.direction.Download? || !Ended(s.input) ==> CameOut(c, s)
  {
    hide *;
    StepIsPlausible(c);
    AtWorkParts(c, s);
    if !s.phase.Closed? {
      OpenIsOut(c, s);
    } else if s.phase == Closed(Drained) {
      DrainedCameOut(c, s);
      CameOutIsBytesOut(c, s);
    } else if s.phase == Closed(Eof) {
      EofIsOut(c, s);
    } else {
      RefusedForAReason(c, s);
    }
  }

  lemma AtWorkParts(c: Session, s: State)
    requires AtWork(c, s)
    ensures Inv(c, s) && !c.request.command.Bind? && (c.direction.Upload? ==> Authentic(c))
    ensures s.phase.Closed? ==> s.phase.why.Drained? || s.phase.why.Eof? || s.phase.why.Refused?
  {
    hide Inv, Authentic;
  }

  lemma OpenIsOut(c: Session, s: State)
    requires InStep(c) && Inv(c, s) && !c.request.command.Bind? && (c.direction.Upload? ==> Authentic(c))
    requires !s.phase.Closed? && Exhausted(c, s)
    ensures BytesOut(c, s) && CameOut(c, s)
  {
    hide *;
    StepIsPlausible(c);
    ExhaustedIsQuiescent(c, s);
    QuiescentIsRest(s);
    MakeUnderWay(c, s);
    RestIsComplete(c, s);
    CameOutIsBytesOut(c, s);
  }

  lemma MakeUnderWay(c: Session, s: State)
    requires Inv(c, s) && !c.request.command.Bind? && (c.direction.Upload? ==> Authentic(c)) && !s.phase.Closed?
    ensures UnderWay(c, s)
  {
    hide Inv, Authentic;
  }

  lemma EofIsOut(c: Session, s: State)
    requires InStep(c) && Inv(c, s) && (c.direction.Upload? ==> Authentic(c)) && s.phase == Closed(Eof)
    ensures BytesOut(c, s)
    ensures !c.request.command.Connect? && !c.direction.Download? && Ended(s.input)
  {
    StepIsPlausible(c);
    hide *;
    EofEnded(c, s);
    EofIsUdp(c, s);
    EofTookAll(c, s);
    EofBytes(c, s);
  }

  lemma EofBytes(c: Session, s: State)
    requires c.request.command.Udp? && Flatten(Payloads(s.delivered)) == Flatten(s.input)
    ensures BytesOut(c, s)
  {
    hide Flatten, Payloads;
  }

  // ---------------------------------------------------------------- every schedule

  lemma {:induction false} RunLowers(c: Session, s: State, steps: seq<Step>)
    requires Plausible(c) && AtWork(c, s) && Runs(c, s, steps)
    requires forall i :: 0 <= i < |steps| ==> Undisturbed(steps[i])
    ensures var t := Final(c, s, steps);
      AtWork(c, t) && t.input == s.input && Measure(t) + Changes(c, s, steps) <= Measure(s)
    decreases |steps|
  {
    hide AtWork, Apply, Enabled, Measure, Undisturbed, Plausible;
    if steps != [] {
      StepKeepsAtWork(c, s, steps[0]);
      RunLowers(c, Apply(c, s, steps[0]), steps[1..]);
    }
  }

  /** From every state of a served session in step, whatever the tunnel does by itself, in whatever order: only so
      many of its steps change anything, and when none would change anything any more, every byte that was read is
      out. For a TCP stream, a download, and a client whose stream has not ended, every datagram is. */
  lemma EveryScheduleDelivers(c: Session, s: State, steps: seq<Step>)
    requires InStep(c) && Reachable(c, s) && Runs(c, s, steps)
    requires !c.request.command.Bind? && (c.direction.Upload? ==> Authentic(c))
    requires s.phase != Closed(Broke) && s.phase != Closed(Crashed)
    requires forall i :: 0 <= i < |steps| ==> Undisturbed(steps[i])
    ensures Changes(c, s, steps) <= Measure(s)
    ensures var t := Final(c, s, steps);
      && t.input == s.input
      && (Exhausted(c, t) ==> BytesOut(c, t))
      && (Exhausted(c, t) && (c.request.command.Connect? || c.direction.Download? || !Ended(s.input)) ==> CameOut(c, t))
  {
    StepIsPlausible(c);
    ReachedInv(c, s);
    assert AtWork(c, s);
    hide *;
    RunLowers(c, s, steps);
    var t := Final(c, s, steps);
    if Exhausted(c, t) { ExhaustedIsOut(c, t); }
  }
}
