/**
 From which states everything read can still come out. The one obstacle is an empty read of a UDP loop: the
 reader takes an empty hunk that it meets with nothing left over for the end of the stream.
 */
module TunnelLiveness {
  import opened Bytes
  import opened Parsers
  import opened Transport
  import opened Framing
  import opened FrameStreams
  import opened Senders
  import opened Tunnel
  import opened TunnelInvariant
  import opened TunnelSteps
  import opened TunnelInStep
  import opened TunnelHunks
  import opened TunnelTheorems

  /** A session whose receiver is at work and serves this client. */
  predicate UnderWay(c: Session, s: State) {
    && Inv(c, s) && !s.phase.Closed? && !c.request.command.Bind?
    && (c.direction.Upload? ==> Authentic(c))
  }

  /** The next hunk is empty and there is no leftover: the next poll that sees it ends the stream. */
  predicate Blocked(s: State) {
    s.buf == [] && Pipeline(s) != [] && Pipeline(s)[0] == []
  }

  // ---------------------------------------------------------------- states with everything taken

  /** A receiver at work that has taken everything for the first `m` reads has put all of it out. */
  lemma TakenComesOut(c: Session, s: State, m: nat)
    requires InStep(c) && UnderWay(c, s) && m <= |s.input| && Taken(s) == Everything(c, s.input[..m])
    ensures Past(c, s) && s.acc == []
    ensures if c.request.command.Udp? then s.delivered == Framed(c.request, s.input[..m])
            else s.out == Flatten(s.input[..m])
  {
    InvParts(c, s);
    hide Inv, Conserved, Ordered, InputShape, FramesTaken, Taken, Everything, Framed, Flatten;
    if c.request.command.Udp? {
      TakenUpTo(c, s, m);
    } else {
      EverythingIsLonger(c, s.input[..m]);
      HeaderTakenByThen(c, s);
      HeaderInStep(c, s);
      CopyPhase(c, s);
      CopyTaken(s);
      EverythingCopied(c, s.input[..m]);
      CancelLeft(s.header, s.out, Flatten(s.input[..m]));
    }
  }

  lemma CopyPhase(c: Session, s: State)
    requires Plausible(c) && Inv(c, s) && c.request.command.Connect? && Past(c, s) && !s.phase.Closed?
    ensures s.phase.Copy? && s.frames == [] && s.acc == []
  {
    hide HeaderTaken, ParseTrojan, Conserved, Ordered, FrameTaken, Ask;
  }

  /** A receiver at work with no byte on its way has put out everything. */
  lemma RestIsComplete(c: Session, s: State)
    requires InStep(c) && UnderWay(c, s) && InFlight(s) == []
    ensures Past(c, s) && Idle(s) && CameOut(c, s)
  {
    InvParts(c, s);
    assert s.input[..|s.input|] == s.input;
    hide Inv, InFlight, Taken, Everything, Flatten, Framed, Ordered, InputShape, FramesTaken, Accepted, Past;
    NoTail(Taken(s), InFlight(s));
    TakenComesOut(c, s, |s.input|);
  }

  lemma QuiescentIsRest(s: State)
    requires Quiescent(s)
    ensures InFlight(s) == []
  {
  }

  /** And one that is past the header and has put out everything has no byte on its way. */
  lemma CameOutIsRest(c: Session, s: State)
    requires InStep(c) && UnderWay(c, s) && Past(c, s) && CameOut(c, s)
    ensures Idle(s)
  {
    InvParts(c, s);
    if c.request.command.Udp? {
      hide Inv, Conserved, Ordered, InputShape, FramesTaken, Accepted, InFlight, Past, InStep, Control, Ask;
      AccInStep(c, s);
    } else {
      CopyIsRest(c, s);
    }
  }

  lemma CopyIsRest(c: Session, s: State)
    requires InStep(c) && UnderWay(c, s) && Past(c, s) && !c.request.command.Udp? && s.out == Flatten(s.input)
    ensures Idle(s)
  {
    InvParts(c, s);
    hide Inv, Ordered, InputShape, FramesTaken, Accepted, InFlight, Taken, Everything, Flatten, Past, Control, Preamble;
    HeaderInStep(c, s);
    CopyPhase(c, s);
    CopyTaken(s);
    EverythingCopied(c, s.input);
    assert |InFlight(s)| == 0;
  }

  /** In a blocked state the next hunk is an empty read of the client, and everything up to it was taken. */
  lemma BlockedTaken(c: Session, s: State) returns (i: nat)
    requires Plausible(c) && UnderWay(c, s) && Blocked(s)
    ensures c.direction.Upload? && Ended(s.input) && i < |s.input| && |s.input[i]| == 0
    ensures HunksTaken(c, s) == PayloadIndex(c, i)
    ensures Flatten(s.input) == Flatten(s.input[..i + 1]) && Taken(s) == Everything(c, s.input[..i + 1])
  {
    HeadOfPipeline(c, s);
    assert Inv(c, s) && s.buf == [] && !s.phase.Closed?;
    hide Inv, AllHunks, HunksTaken, Pipeline, PayloadIndex, Taken, Everything, Flatten, Ended, Plausible;
    i := TakenAtEmpty(c, s, HunksTaken(c, s));
  }

  /** So every byte that was read is out. */
  lemma BlockedMeansEnd(c: Session, s: State) returns (m: nat)
    requires InStep(c) && UnderWay(c, s) && Blocked(s)
    ensures c.direction.Upload? && Ended(s.input) && m <= |s.input| && Past(c, s)
    ensures if c.request.command.Udp? then s.delivered == Framed(c.request, s.input[..m]) else CameOut(c, s)
    ensures c.request.command.Udp? ==> Flatten(Payloads(s.delivered)) == Flatten(s.input)
  {
    StepIsPlausible(c);
    hide *;
    var i := BlockedTaken(c, s);
    m := i + 1;
    TakenComesOut(c, s, m);
    BlockedOut(c, s, m);
  }

  lemma BlockedOut(c: Session, s: State, m: nat)
    requires m <= |s.input| && Flatten(s.input) == Flatten(s.input[..m])
    requires if c.request.command.Udp? then s.delivered == Framed(c.request, s.input[..m])
             else s.out == Flatten(s.input[..m])
    ensures if c.request.command.Udp? then Flatten(Payloads(s.delivered)) == Flatten(s.input) else CameOut(c, s)
  {
    hide Flatten, Framed, Payloads;
    PayloadsFramed(c.request, s.input[..m]);
  }

  lemma BlockedAtPayload(c: Session, s: State) returns (i: nat)
    requires InStep(c) && UnderWay(c, s) && Blocked(s) && c.request.command.Udp?
    ensures i < |s.input| && s.input[i] == [] && HunksTaken(c, s) == PayloadIndex(c, i)
    ensures s.acc == [] && |s.delivered| == i + 1
  {
    StepIsPlausible(c);
    hide *;
    i := BlockedTaken(c, s);
    TakenComesOut(c, s, i + 1);
  }

  lemma HeadOfPipeline(c: Session, s: State)
    requires Inv(c, s) && Pipeline(s) != []
    ensures 0 <= HunksTaken(c, s) < |AllHunks(c, s.input)|
    ensures AllHunks(c, s.input)[HunksTaken(c, s)] == Pipeline(s)[0]
  {
    InvParts(c, s);
    hide Inv, AllHunks, Pipeline, Suffix;
  }

  // ---------------------------------------------------------------- a schedule

  function Wanted(s: State): nat {
    var w := if s.phase.Header? then Ask(TrojanHeader, s.acc) else Ask(UdpFrame({}), s.acc);
    if s.phase.Copy? || !w.More? then 1 else w.n
  }

  function PollStep(s: State): Step {
    Step.Poll(if s.wire != [] then Packet(s.wire[0]) else Pending, Wanted(s))
  }

  /** A schedule that works: put everything on the wire first, so that the reader never looks ahead in vain. */
  function NextStep(s: State): Step {
    if s.channel != [] then Forward else if s.outbox != [] then Send else PollStep(s)
  }

  predicate Less(a: State, b: State) {
    || |a.outbox| < |b.outbox|
    || (|a.outbox| == |b.outbox| && |a.channel| < |b.channel|)
    || (|a.outbox| == |b.outbox| && |a.channel| == |b.channel| && |a.wire| < |b.wire|)
    || (|a.outbox| == |b.outbox| && |a.channel| == |b.channel| && |a.wire| == |b.wire| && |a.buf| < |b.buf|)
  }

  lemma WantedIsOffered(c: Session, s: State)
    requires Inv(c, s) && !s.phase.Closed?
    ensures 0 < Wanted(s) && Offers(s, Wanted(s))
  {
    hide Inv, Conserved, Accepted, Ordered, InputShape, FramesTaken, Control, Ask;
    InvParts(c, s);
    OpenAsks(c, s);
  }

  lemma OpenAsks(c: Session, s: State)
    requires Control(c, s) && !s.phase.Closed?
    ensures s.phase.Header? ==> Ask(TrojanHeader, s.acc).More?
    ensures s.phase.Frames? ==> Ask(UdpFrame({}), s.acc).More?
  {
    hide Ask, Past;
  }

  /** Polling with a non-empty hunk or a leftover at hand delivers something and shortens the queue. */
  lemma UsefulPoll(s: State, e: Event, room: nat)
    requires 0 < room && (s.buf != [] || (s.wire != [] && s.wire[0] != []))
    requires e == if s.wire != [] then Packet(s.wire[0]) else Pending
    ensures var p := PollGrpc(s.buf, room, e);
      && p.poll.Ok? && p.poll.data != [] && |p.poll.data| <= room && Less(Drain(s, e, room), s)
      && (p.buf == [] && s.wire != [] ==> p.took && |s.wire[0]| <= |p.poll.data|)
    ensures var s1 := Drain(s, e, room);
      && s1.input == s.input && s1.phase == s.phase && s1.outbox == s.outbox && s1.channel == s.channel
      && (s1.wire == s.wire || (s.wire != [] && s1.wire == s.wire[1..]))
  {
  }

  lemma ReceiveLeaves(c: Session, s: State, b: bytes)
    requires !s.phase.Closed?
    ensures var t := Receive(c, s, b);
      && t.input == s.input && t.outbox == s.outbox && t.channel == s.channel && t.wire == s.wire && t.buf == s.buf
      && (t.phase.Closed? ==> t.phase == Closed(Refused))
  {
    hide Ask, ParseTrojan, ParseFrame;
  }

  /** What the receiver gets by such a poll. */
  lemma PollDelivers(c: Session, s: State)
    requires Inv(c, s) && !s.phase.Closed? && (s.buf != [] || (s.wire != [] && s.wire[0] != []))
    ensures PollStep(s).Poll? && PollStep(s).room == Wanted(s) && Enabled(c, s, PollStep(s))
    ensures PollStep(s).event == if s.wire != [] then Packet(s.wire[0]) else Pending
    ensures var p, s1 := PollGrpc(s.buf, Wanted(s), PollStep(s).event), Drain(s, PollStep(s).event, Wanted(s));
      p.poll.Ok? && p.poll.data != [] && Apply(c, s, PollStep(s)) == Receive(c, s1, p.poll.data)
  {
    PollEnabled(c, s);
    hide *;
    WantedIsOffered(c, s);
    UsefulPoll(s, PollStep(s).event, Wanted(s));
    PollReceives(c, s, PollStep(s).event, Wanted(s));
  }

  lemma PollEnabled(c: Session, s: State)
    requires Inv(c, s) && !s.phase.Closed?
    ensures PollStep(s) == Step.Poll(if s.wire != [] then Packet(s.wire[0]) else Pending, Wanted(s))
    ensures Enabled(c, s, PollStep(s))
  {
    hide Wanted, Inv, Offers, Ask;
    WantedIsOffered(c, s);
  }

  /** The state after such a poll. */
  lemma PollProgress(c: Session, s: State)
    requires Plausible(c) && Inv(c, s) && !s.phase.Closed? && (s.buf != [] || (s.wire != [] && s.wire[0] != []))
    ensures Enabled(c, s, PollStep(s))
    ensures var t := Apply(c, s, PollStep(s));
      && Inv(c, t) && t.input == s.input && Less(t, s) && (t.phase.Closed? ==> t.phase == Closed(Refused))
      && t.outbox == s.outbox && t.channel == s.channel && (t.wire == s.wire || (s.wire != [] && t.wire == s.wire[1..]))
  {
    hide *;
    PollDelivers(c, s);
    var e, room := PollStep(s).event, Wanted(s);
    WantedIsOffered(c, s);
    UsefulPoll(s, e, room);
    var s1, b := Drain(s, e, room), PollGrpc(s.buf, room, e).poll.data;
    ReceiveLeaves(c, s1, b);
    SameQueue(s1, Receive(c, s1, b), s);
    PollKeepsInv(c, s, e, room);
  }

  lemma SameQueue(a: State, a': State, b: State)
    requires Less(a, b) && a'.outbox == a.outbox && a'.channel == a.channel && a'.wire == a.wire && a'.buf == a.buf
    ensures Less(a', b)
  {
  }

  /** In step the receiver stays at work. */
  lemma PollStaysUnderWay(c: Session, s: State)
    requires InStep(c) && UnderWay(c, s) && (s.buf != [] || (s.wire != [] && s.wire[0] != []))
    ensures Enabled(c, s, PollStep(s)) && UnderWay(c, Apply(c, s, PollStep(s)))
  {
    hide Wanted, Enabled, Apply, Inv, PollGrpc, Receive, Drain;
    PollProgress(c, s);
    var t := Apply(c, s, PollStep(s));
    if t.phase.Closed? {
      RefusedForAReason(c, t);
    }
  }

  /** Receiving bytes that leave the receiver between frames completes a header or a frame. */
  lemma UnitCompleted(c: Session, s: State, b: bytes)
    requires c.request.command.Udp? && !s.phase.Copy? && !s.phase.Closed? && b != []
    requires var t := Receive(c, s, b); t.acc == [] && !t.phase.Closed?
    ensures var t := Receive(c, s, b);
      if s.phase.Header? then t.delivered == s.delivered else |t.delivered| == |s.delivered| + 1
  {
    hide Ask, ParseTrojan, ParseFrame;
  }

  /** A poll cannot take the whole header of an empty payload and nothing of an earlier frame: the first read
      of a frame asks for one byte. */
  lemma NeverAWholeHeader(c: Session, s: State, i: nat)
    requires InStep(c) && UnderWay(c, s) && InPairs(c) && s.phase.Frames?
    requires i < |s.input| && s.input[i] == [] && |s.delivered| == i
    ensures Wanted(s) < |UdpHead(c.request, s.input[i])|
  {
    var ds := Framed(c.request, s.input);
    AccInStep(c, s);
    EmptyWaits({});
    UdpHeadSize(c.request, s.input[i]);
    assert |EncodeFrame(ds[i])| == |UdpHead(c.request, s.input[i])|;
    assert Ask(UdpFrame({}), s.acc).More?;
    hide Inv, Ask, UdpHead, EncodeFrame;
  }

  /** A poll that leaves nothing over, with more hunks to come, took a whole hunk. */
  lemma TookWholeHunk(c: Session, s: State)
    requires Plausible(c) && Inv(c, s) && !s.phase.Closed? && s.channel == [] && s.outbox == []
    requires s.buf != [] || (s.wire != [] && s.wire[0] != [])
    requires Enabled(c, s, PollStep(s)) && Blocked(Apply(c, s, PollStep(s)))
    ensures var s1, b := Drain(s, PollStep(s).event, Wanted(s)), PollGrpc(s.buf, Wanted(s), PollStep(s).event).poll;
      && b.Ok? && b.data != [] && Apply(c, s, PollStep(s)) == Receive(c, s1, b.data)
      && s1 == s.(buf := s1.buf, wire := s1.wire)
      && s.wire != [] && |s.wire[0]| <= |b.data| <= Wanted(s)
      && Pipeline(s) != [] && Pipeline(s)[0] == s.wire[0] && |Pipeline(Apply(c, s, PollStep(s)))| + 1 == |Pipeline(s)|
  {
    PollDelivers(c, s);
    WantedIsOffered(c, s);
    UsefulPoll(s, PollStep(s).event, Wanted(s));
    var s1, b := Drain(s, PollStep(s).event, Wanted(s)), PollGrpc(s.buf, Wanted(s), PollStep(s).event).poll;
    assert s1 == s.(buf := s1.buf, wire := s1.wire);
    hide Inv, Wanted, Receive, Enabled, Apply, Less, Plausible;
    ReceiveLeaves(c, s1, b.data);
  }

  /** The hunk a poll took, if the next one is the payload of read `i`, is the header before it. */
  lemma TookHeader(c: Session, s: State, t: State, i: nat)
    requires Plausible(c) && Inv(c, s) && InPairs(c) && i < |s.input|
    requires t.input == s.input && HunksTaken(c, t) == PayloadIndex(c, i)
    requires Pipeline(s) != [] && |Pipeline(t)| + 1 == |Pipeline(s)|
    ensures Pipeline(s)[0] == UdpHead(c.request, s.input[i])
  {
    HeadOfPipeline(c, s);
    HunkAt(c, s.input, i);
    hide Inv, AllHunks, Pipeline, UdpHead, Plausible;
  }

  lemma GulpedFrame(c: Session, s: State, s1: State, b: bytes, i: nat)
    requires InStep(c) && UnderWay(c, s) && InPairs(c) && s1 == s.(buf := s1.buf, wire := s1.wire) && b != []
    requires var t := Receive(c, s1, b); t.acc == [] && !t.phase.Closed? && |t.delivered| == i + 1
    ensures s.phase.Frames? && |s.delivered| == i
  {
    StepIsPlausible(c);
    InvParts(c, s);
    OutputsByCommand(c, s);
    assert !s.phase.Copy?;
    hide Inv, InStep, Plausible, Conserved, Ordered, InputShape, Accepted, FramesTaken, Receive;
    UnitCompleted(c, s1, b);
  }

  /** With the whole pipeline on the wire the reader swallows an empty payload together with its header. */
  lemma NotBlockedAgain(c: Session, s: State)
    requires InStep(c) && UnderWay(c, s) && InPairs(c)
    requires s.channel == [] && s.outbox == [] && (s.buf != [] || (s.wire != [] && s.wire[0] != []))
    ensures Enabled(c, s, PollStep(s)) && !Blocked(Apply(c, s, PollStep(s)))
  {
    StepIsPlausible(c);
    assert Inv(c, s) && !s.phase.Closed?;
    hide *;
    PollProgress(c, s);
    PollStaysUnderWay(c, s);
    var e, room, t := PollStep(s).event, Wanted(s), Apply(c, s, PollStep(s));
    if Blocked(t) {
      TookWholeHunk(c, s);
      var i := BlockedAtPayload(c, t);
      GulpedFrame(c, s, Drain(s, e, room), PollGrpc(s.buf, room, e).poll.data, i);
      TookHeader(c, s, t, i);
      NeverAWholeHeader(c, s, i);
    }
  }

  lemma MoveProgress(c: Session, s: State)
    requires Inv(c, s) && (s.channel != [] || s.outbox != [])
    ensures Enabled(c, s, NextStep(s))
    ensures var t := Apply(c, s, NextStep(s));
      Inv(c, t) && t.phase == s.phase && t.input == s.input && Less(t, s) && (Blocked(t) <==> Blocked(s))
  {
    assert Enabled(c, s, NextStep(s));
    MoveKeepsInv(c, s, NextStep(s));
    MoveKeepsPipeline(c, s, NextStep(s));
    hide Inv, Pipeline;
  }

  /** Every step of the schedule shortens the queue; the receiver stays at work, and if it gets blocked
      everything has come out. */
  lemma Progress(c: Session, s: State)
    requires InStep(c) && UnderWay(c, s) && !Quiescent(s) && !Blocked(s)
    ensures Enabled(c, s, NextStep(s))
    ensures var t := Apply(c, s, NextStep(s));
      UnderWay(c, t) && t.input == s.input && Less(t, s) && (Blocked(t) ==> CameOut(c, t))
  {
    if s.channel != [] || s.outbox != [] {
      MoveProgress(c, s);
    } else {
      assert Pipeline(s) == s.wire;
      PollProgress(c, s);
      PollStaysUnderWay(c, s);
      var t := Apply(c, s, NextStep(s));
      hide Inv, Apply, Enabled, Wanted, Pipeline, Receive, PollGrpc, CameOut, InStep, Less, Drain;
      if Blocked(t) {
        var m := BlockedMeansEnd(c, t);
        if c.request.command.Udp? { NotBlockedAgain(c, s); }
      }
    }
  }

  /** From a state that is not blocked some schedule puts out everything read, with no further read needed
      and without the receiver stopping. */
  lemma {:induction false} CatchUp(c: Session, s: State) returns (steps: seq<Step>)
    requires InStep(c) && UnderWay(c, s) && (Blocked(s) ==> CameOut(c, s))
    ensures Runs(c, s, steps)
    ensures var t := Final(c, s, steps);
      UnderWay(c, t) && t.input == s.input && CameOut(c, t) && (Quiescent(t) || Blocked(t))
    decreases |s.outbox|, |s.channel|, |s.wire|, |s.buf|
  {
    if Quiescent(s) {
      QuiescentIsRest(s);
      RestIsComplete(c, s);
      return [];
    }
    if Blocked(s) { return []; }
    Progress(c, s);
    hide UnderWay, Apply, CameOut, NextStep, Enabled, Quiescent, Blocked;
    var t := Apply(c, s, NextStep(s));
    var rest := CatchUp(c, t);
    steps := [NextStep(s)] + rest;
    assert steps[1..] == rest;
  }

  // ---------------------------------------------------------------- blocked for good

  /** Nothing more is delivered: the receiver is blocked or has stopped. */
  predicate Stuck(s: State, ds: seq<Datagram>) {
    s.delivered == ds && (Blocked(s) || s.phase.Closed?)
  }

  lemma StepKeepsStuck(c: Session, s: State, step: Step, ds: seq<Datagram>)
    requires Plausible(c) && Stuck(s, ds) && Enabled(c, s, step)
    ensures var t := Apply(c, s, step); Stuck(t, ds) && |s.input| <= |t.input|
  {
    var t := Apply(c, s, step);
    match step
    case Poll(e, room) =>
      EmptyPoll(s.buf, room, e);
      assert e.Packet? ==> Pipeline(s)[0] == s.wire[0];
      assert e.Pending? ==> t == s;
    case Read(chunk) => assert Pipeline(t) == Pipeline(s) + Hunks(c, chunk);
    case Crash =>
    case _ => MoveKeepsPipeline(c, s, step);
  }

  lemma {:induction false} RunKeepsStuck(c: Session, s: State, steps: seq<Step>, ds: seq<Datagram>)
    requires Plausible(c) && Stuck(s, ds) && Runs(c, s, steps)
    ensures var t := Final(c, s, steps); t.delivered == ds && |s.input| <= |t.input|
    decreases |steps|
  {
    hide Apply, Enabled, Blocked;
    if steps != [] {
      StepKeepsStuck(c, s, steps[0], ds);
      RunKeepsStuck(c, Apply(c, s, steps[0]), steps[1..], ds);
    }
  }

  /** Can what was read still come out? */
  ghost predicate CanComeOut(c: Session, s: State) {
    exists more :: Runs(c, s, more) && CameOut(c, Final(c, s, more))
  }

  lemma BlockedForGood(c: Session, s: State)
    requires InStep(c) && UnderWay(c, s) && Blocked(s) && !CameOut(c, s)
    ensures !CanComeOut(c, s)
  {
    StepIsPlausible(c);
    var m := BlockedMeansEnd(c, s);
    assert s.input[..|s.input|] == s.input;
    assert |s.delivered| < |s.input| && c.request.command.Udp? && Stuck(s, s.delivered);
    hide InStep, Plausible, UnderWay, Blocked, Stuck, Flatten, Payloads;
    forall more | Runs(c, s, more) ensures !CameOut(c, Final(c, s, more)) {
      RunKeepsStuck(c, s, more, s.delivered);
    }
  }

  lemma NotBlockedComesOut(c: Session, s: State)
    requires InStep(c) && UnderWay(c, s) && !Blocked(s)
    ensures exists more :: Runs(c, s, more) && Final(c, s, more).input == s.input && CameOut(c, Final(c, s, more))
    ensures CanComeOut(c, s)
  {
    hide UnderWay, CameOut, Blocked;
    var more := CatchUp(c, s);
  }

  lemma AlreadyOut(c: Session, s: State)
    requires CameOut(c, s)
    ensures CanComeOut(c, s)
  {
    hide CameOut;
    assert Runs(c, s, []);
  }

  lemma DrainedCameOut(c: Session, s: State)
    requires InStep(c) && Inv(c, s) && s.phase == Closed(Drained)
    ensures CameOut(c, s)
  {
    StepIsPlausible(c);
    DrainedTookAll(c, s);
    DrainedCopied(c, s);
    InvParts(c, s);
    hide Inv, InStep, Plausible, Conserved, Ordered, InputShape, Accepted, FramesTaken, Control, Preamble, Flatten;
    HeaderInStep(c, s);
    CancelLeft(s.header, s.out, Flatten(s.input));
  }

  lemma ComesOutIff(c: Session, s: State)
    requires InStep(c) && UnderWay(c, s)
    ensures CanComeOut(c, s) <==> CameOut(c, s) || !Blocked(s)
    ensures c.request.command.Connect? || c.direction.Download? || !Ended(s.input) ==> CanComeOut(c, s)
  {
    hide InStep, UnderWay, Blocked, CanComeOut, CameOut, Ended;
    if CameOut(c, s) { AlreadyOut(c, s); }
    if Blocked(s) {
      var m := BlockedMeansEnd(c, s);
      if !CameOut(c, s) { BlockedForGood(c, s); }
    } else {
      NotBlockedComesOut(c, s);
    }
  }

  /** After every run whose receiver has not been stopped by an error, a crash or an empty read inside a frame: what
      was read can still come out if and only if it already has or the receiver is not blocked, and then no
      further read is needed. For a TCP stream, a download, and a client whose stream has not ended this
      is always so. */
  lemma EverythingCanBeDelivered(c: Session, steps: seq<Step>)
    requires InStep(c) && Runs(c, Start(c), steps) && !c.request.command.Bind?
    requires c.direction.Upload? ==> Authentic(c)
    requires var s := Final(c, Start(c), steps); s.phase.Closed? ==> s.phase == Closed(Drained)
    ensures var s := Final(c, Start(c), steps);
      && (CanComeOut(c, s) <==> CameOut(c, s) || !Blocked(s))
      && (c.request.command.Connect? || c.direction.Download? || !Ended(s.input) ==> CanComeOut(c, s))
      && (!s.phase.Closed? && !Blocked(s) ==>
          exists more :: Runs(c, s, more) && Final(c, s, more).input == s.input && CameOut(c, Final(c, s, more)))
  {
    StepIsPlausible(c);
    ReachableInv(c, steps);
    hide Inv, Blocked, Start, InStep, Plausible, CanComeOut, CameOut, Ended, Runs, Final, Authentic;
    var s := Final(c, Start(c), steps);
    if s.phase.Closed? {
      DrainedCameOut(c, s);
      AlreadyOut(c, s);
    } else {
      ComesOutIff(c, s);
      if !Blocked(s) { NotBlockedComesOut(c, s); }
    }
  }

  // ---------------------------------------------------------------- a run that gets blocked

  /** Polling alone takes everything off the wire, if no hunk on it is empty. */
  lemma {:induction false} PollOut(c: Session, s: State) returns (steps: seq<Step>)
    requires InStep(c) && UnderWay(c, s) && forall i :: 0 <= i < |s.wire| ==> s.wire[i] != []
    ensures Runs(c, s, steps)
    ensures var t := Final(c, s, steps);
      && UnderWay(c, t) && t.input == s.input && t.outbox == s.outbox && t.channel == s.channel
      && t.wire == [] && t.buf == []
    decreases |s.wire|, |s.buf|
  {
    if s.wire == [] && s.buf == [] { return []; }
    PollProgress(c, s);
    PollStaysUnderWay(c, s);
    hide UnderWay, Apply, Enabled, PollGrpc, Receive, Drain;
    var t := Apply(c, s, PollStep(s));
    var rest := PollOut(c, t);
    steps := [PollStep(s)] + rest;
    assert steps[1..] == rest;
  }

  /** The header taken and nothing read yet. */
  lemma ReachIdle(c: Session) returns (s: State)
    requires InStep(c) && c.direction.Upload? && !c.request.command.Bind? && Authentic(c)
    ensures Reachable(c, s) && UnderWay(c, s) && s.input == [] && Quiescent(s)
  {
    var s0 := Start(c);
    StartInv(c);
    PreambleNotEmpty(c);
    hide Preamble, Inv;
    assert Runs(c, s0, []) && Reachable(c, s0);
    assert Pipeline(s0)[0] == Preamble(c);
    var more := CatchUp(c, s0);
    s := Final(c, s0, more);
    ReachMore(c, s0, more);
    hide Reachable, Start, UnderWay, Runs;
    if Blocked(s) { var m := BlockedMeansEnd(c, s); }
  }

  /** An idle receiver, then an empty read whose header goes through while its payload lags behind. */
  lemma ReachBlocked(c: Session, s: State) returns (t: State)
    requires InStep(c) && InPairs(c) && Authentic(c)
    requires Reachable(c, s) && UnderWay(c, s) && s.input == [] && Quiescent(s)
    ensures Reachable(c, t) && UnderWay(c, t) && |t.input| == 1 && t.outbox == [[]] && t.channel == []
    ensures t.wire == [] && t.buf == []
  {
    hide UdpHead, Reachable, Inv;
    UdpHeadSize(c.request, []);
    assert s.outbox == [] && s.channel == [] && s.wire == [];
    var s2 := Apply(c, s, Read([]));
    ReachStep(c, s, Read([]));
    var s3 := Apply(c, s2, Send);
    ReachStep(c, s2, Send);
    var s4 := Apply(c, s3, Forward);
    ReachStep(c, s3, Forward);
    ReachedInv(c, s4);
    var more := PollOut(c, s4);
    ReachMore(c, s4, more);
    t := Final(c, s4, more);
  }

  /** One more empty read, behind the empty hunk. */
  lemma ReadBehind(c: Session, t: State) returns (s: State)
    requires Plausible(c) && InPairs(c) && Authentic(c) && Reachable(c, t) && UnderWay(c, t)
    requires |t.input| == 1 && t.outbox == [[]] && t.channel == [] && t.wire == [] && t.buf == []
    ensures Reachable(c, s) && UnderWay(c, s) && Blocked(s)
    ensures Ended(s.input) && |s.input| == 2 && s.delivered == t.delivered
  {
    hide UdpHead, Reachable, Inv, Plausible, Authentic;
    var t1 := Apply(c, t, Send);
    ReachStep(c, t, Send);
    s := Apply(c, t1, Read([]));
    ReachStep(c, t1, Read([]));
    ReachedInv(c, s);
    assert Pipeline(s)[0] == [];
  }

  /** The condition is needed: every authentic UDP client can end its stream so that an empty datagram is
      stuck for good behind an empty hunk. */
  lemma EndedUdpGetsStuck(c: Session) returns (s: State)
    requires InStep(c) && InPairs(c) && Authentic(c)
    ensures Reachable(c, s) && !s.phase.Closed? && Ended(s.input) && Blocked(s) && !CanComeOut(c, s)
  {
    hide Reachable, Inv, Blocked, Ended, CanComeOut;
    var s1 := ReachIdle(c);
    var t := ReachBlocked(c, s1);
    DeliveredArePrefix(c, t);
    s := ReadBehind(c, t);
    assert |s.delivered| <= 1 && |Framed(c.request, s.input)| == 2;
    BlockedForGood(c, s);
  }
}
