/** The receiver's steps keep the tunnel's invariant, and so does every run. */
module TunnelSteps {
  import opened Bytes
  import opened Protocol
  import opened Parsers
  import opened Transport
  import opened Reading
  import opened Framing
  import opened FrameStreams
  import opened Handshake
  import opened Access
  import opened Senders
  import opened Tunnel
  import opened TunnelInvariant

  // ---------------------------------------------------------------- one poll

  /** An empty read with room means that the next hunk is empty and nothing was left over. */
  lemma EmptyPoll(buf: bytes, room: nat, e: Event)
    requires 0 < room
    ensures var p := PollGrpc(buf, room, e);
      && (p.poll == Ok([]) ==> p.took && buf == [] && p.buf == [] && e == Packet([]))
      && (p.poll.NotReady? ==> buf == [] && p.buf == [] && e.Pending?)
  {
  }

  lemma SplitFront(buf: bytes, data: bytes, later: bytes, b: bytes, left: bytes)
    requires buf + data == b + [] + left
    ensures buf + (data + later) == b + (left + later)
  {
    assert buf + (data + later) == (b + [] + left) + later;
  }

  /** A poll moves bytes from the front of what is in flight to the receiver and touches nothing else. */
  lemma DrainMovesBytes(s: State, e: Event, room: nat)
    requires e.Packet? ==> s.wire != [] && e.data == s.wire[0]
    requires !PollGrpc(s.buf, room, e).poll.Err?
    ensures var b, s1 := Reported(PollGrpc(s.buf, room, e).poll), Drain(s, e, room);
      |b| <= room && InFlight(s) == b + InFlight(s1)
  {
    GrpcAccounts(s.buf, room, e);
    var p, s1 := PollGrpc(s.buf, room, e), Drain(s, e, room);
    hide PollGrpc;
    var b := Reported(p.poll);
    if p.took && e.Packet? {
      assert Pipeline(s)[0] == e.data && Pipeline(s)[1..] == Pipeline(s1);
      SplitFront(s.buf, e.data, Flatten(Pipeline(s1)), b, s1.buf);
    } else {
      assert Pipeline(s1) == Pipeline(s);
      SplitFront(s.buf, [], Flatten(Pipeline(s)), b, s1.buf);
    }
  }

  lemma DrainPipeline(s: State, e: Event, room: nat)
    requires e.Packet? ==> s.wire != [] && e.data == s.wire[0]
    ensures var s1, p := Drain(s, e, room), PollGrpc(s.buf, room, e);
      if p.took && e.Packet? then Pipeline(s) != [] && Pipeline(s)[0] == e.data && Pipeline(s1) == Pipeline(s)[1..]
      else Pipeline(s1) == Pipeline(s)
  {
    hide PollGrpc;
  }

  lemma DrainKeepsOrdered(c: Session, s: State, e: Event, room: nat)
    requires Ordered(c, s) && (e.Packet? ==> s.wire != [] && e.data == s.wire[0])
    ensures Ordered(c, Drain(s, e, room))
    ensures e == Packet([]) && PollGrpc(s.buf, room, e) == Polled(Ok([]), [], true, []) ==>
      SawEmpty(c, Drain(s, e, room))
  {
    GrpcAccounts(s.buf, room, e);
    DrainPipeline(s, e, room);
    var p, a := PollGrpc(s.buf, room, e), AllHunks(c, s.input);
    hide PollGrpc, Pipeline, AllHunks, TailOf, AfterEmpty, Suffix;
    if p.took && e.Packet? {
      TailTakes(a, Pipeline(s), s.buf, p.buf);
    } else {
      TailDrains(a, Pipeline(s), s.buf, p.buf);
    }
  }

  // ---------------------------------------------------------------- bytes arrive

  /** Receiving adds the bytes to what was taken and changes nothing in flight. */
  lemma ReceiveTakes(c: Session, s: State, b: bytes)
    requires Plausible(c) && !s.phase.Closed? && Control(c, s) && Accepted(c, s)
    ensures var s' := Receive(c, s, b);
      && Taken(s') == Taken(s) + b && s'.phase != Closed(Broke)
      && s' == s.(phase := s'.phase, acc := s'.acc, header := s'.header, target := s'.target,
                  frames := s'.frames, delivered := s'.delivered, out := s'.out)
  {
    var s', f := Receive(c, s, b), Flatten(s.frames);
    hide Ask, ParseTrojan, ParseFrame, Validate, Secret, HeaderTaken, Flatten;
    FlattenSnoc(s.frames, s.acc + b);
    NoBytes();
    if s.phase.Header? {
      assert Taken(s) == s.acc;
    } else if s.phase.Copy? {
      assert s.header + f + (s.out + b) + [] == (s.header + f + s.out + []) + b;
    } else if s'.acc == [] {
      assert s.header + (f + (s.acc + b)) + [] + [] == (s.header + f + [] + s.acc) + b;
    } else {
      assert s.header + f + [] + (s.acc + b) == (s.header + f + [] + s.acc) + b;
    }
  }

  lemma NoBytes()
    ensures Flatten([]) == []
  {
  }

  /** For a client that has a secret, the command byte stands where the parser looks for it. */
  lemma CommandTaken(c: Session, t: bytes, rest: bytes)
    requires Plausible(c) && c.direction.Upload? && c.client.Some?
    requires Ask(TrojanHeader, t).Full? && t <= Preamble(c) + rest
    ensures ParseTrojan(t).command == c.request.command
  {
    var h := Preamble(c);
    assert |Secret(c.client)| == HEX_SIZE;
    hide ToBigEndian, RawAddress, Secret, AskEndpoint, AddressAt;
    assert t[HEX_SIZE + 2] == (h + rest)[HEX_SIZE + 2] == CommandByte(c.request.command);
  }

  /** A complete header that is accepted is the client's. */
  lemma HeaderAccepted(c: Session, acc: bytes, b: bytes, rest: bytes)
    requires Plausible(c) && c.direction.Upload?
    requires Ask(TrojanHeader, acc).More? && |b| <= Ask(TrojanHeader, acc).n && acc + b <= Preamble(c) + rest
    requires Ask(TrojanHeader, acc + b).Full? && !Unwelcome(c, acc + b)
    ensures HeaderTaken(acc + b) && acc + b != [] && Authentic(c)
    ensures ParseTrojan(acc + b).command == c.request.command && !c.request.command.Bind?
  {
    var t := acc + b;
    StopsExactly(TrojanHeader, acc, b);
    Acceptance(c.client, c.server, c.request, rest, t);
    CommandTaken(c, t, rest);
    HeaderNotEmpty(t);
    hide Ask, FullLength, ParseTrojan, Preamble, Validate;
  }

  lemma ReceiveHeader(c: Session, s: State, b: bytes)
    requires s.phase.Header?
    ensures var t, s' := s.acc + b, Receive(c, s, b);
      && (Ask(TrojanHeader, t).More? ==> s' == s.(acc := t))
      && (Ask(TrojanHeader, t).Refuse? ==> s' == s.(acc := t, phase := Closed(Refused)))
      && (Ask(TrojanHeader, t).Full? && Unwelcome(c, t) ==> s' == s.(acc := t, phase := Closed(Refused)))
      && (Ask(TrojanHeader, t).Full? && !Unwelcome(c, t) ==>
          s' == s.(acc := [], header := t, target := Some(Endpoint(ParseTrojan(t).addr, ParseTrojan(t).port)),
                   phase := if ParseTrojan(t).command.Udp? then Frames else Copy))
  {
    hide Ask, ParseTrojan, Validate, Secret;
  }

  /** The receiver's part of the invariant for a header in progress or refused. */
  lemma HeaderGoesOn(c: Session, s: State, s': State, t: bytes)
    requires Accepted(c, s) && FramesTaken(s) && Control(c, s) && s.phase.Header?
    requires s' == s.(acc := t, phase := s'.phase)
    requires if s'.phase.Header? then Ask(TrojanHeader, t).More?
      else s'.phase == Closed(Refused)
           && (Ask(TrojanHeader, t).Refuse? || (Ask(TrojanHeader, t).Full? && Unwelcome(c, t)))
    ensures Accepted(c, s') && FramesTaken(s') && Control(c, s')
  {
    hide Ask, ParseTrojan, Unwelcome, HeaderTaken, FrameTaken;
  }

  lemma HeaderDone(c: Session, s: State, s': State, t: bytes)
    requires Plausible(c) && Accepted(c, s) && FramesTaken(s) && Control(c, s) && s.phase.Header?
    requires HeaderTaken(t) && t != [] && Authentic(c) && ParseTrojan(t).command == c.request.command
    requires !c.request.command.Bind?
    requires s' == s.(acc := [], header := t, target := Some(Endpoint(ParseTrojan(t).addr, ParseTrojan(t).port)),
                      phase := if ParseTrojan(t).command.Udp? then Frames else Copy)
    ensures Accepted(c, s') && FramesTaken(s') && Control(c, s')
  {
    EmptyWaits({});
    hide Ask, ParseTrojan, HeaderTaken, FrameTaken, Plausible, Authentic;
  }

  lemma HeaderReceives(c: Session, s: State, b: bytes)
    requires Plausible(c) && Accepted(c, s) && FramesTaken(s) && Control(c, s) && s.phase.Header?
    requires |b| <= Ask(TrojanHeader, s.acc).n && Taken(s) + b <= Everything(c, s.input)
    ensures var s' := Receive(c, s, b); Accepted(c, s') && FramesTaken(s') && Control(c, s')
  {
    var t := s.acc + b;
    HeaderStart(c, s);
    assert Everything(c, s.input) == Preamble(c) + Body(c, s.input);
    hide *;
    ReceiveHeader(c, s, b);
    if Ask(TrojanHeader, t).Full? && !Unwelcome(c, t) {
      HeaderAccepted(c, s.acc, b, Body(c, s.input));
      HeaderDone(c, s, Receive(c, s, b), t);
    } else {
      HeaderGoesOn(c, s, Receive(c, s, b), t);
    }
  }

  lemma HeaderStart(c: Session, s: State)
    requires Accepted(c, s) && Control(c, s) && s.phase.Header?
    ensures c.direction.Upload? && Ask(TrojanHeader, s.acc).More? && Taken(s) == s.acc
  {
    NoBytes();
    hide Ask;
  }

  lemma HeaderNotEmpty(t: bytes)
    requires Ask(TrojanHeader, t).Full?
    ensures |t| > HEX_SIZE
  {
  }

  lemma FramesReceive(c: Session, s: State, b: bytes)
    requires Accepted(c, s) && FramesTaken(s) && Control(c, s) && s.phase.Frames?
    requires |b| <= Ask(UdpFrame({}), s.acc).n
    ensures var s' := Receive(c, s, b); Accepted(c, s') && FramesTaken(s') && Control(c, s')
  {
    var s', f := Receive(c, s, b), s.acc + b;
    if Ask(UdpFrame({}), f).Full? {
      StopsExactly(UdpFrame({}), s.acc, b);
      EmptyWaits({});
      assert FrameTaken(f, ParseFrame(f));
    }
    hide Ask, ParseTrojan, ParseFrame, FullLength, FrameTaken, HeaderTaken;
  }

  lemma CopyReceives(c: Session, s: State, b: bytes)
    requires Plausible(c) && Accepted(c, s) && FramesTaken(s) && Control(c, s) && s.phase.Copy?
    ensures var s' := Receive(c, s, b); Accepted(c, s') && FramesTaken(s') && Control(c, s')
  {
    hide Ask, ParseTrojan, FrameTaken, HeaderTaken;
  }

  // ---------------------------------------------------------------- a poll keeps the invariant

  lemma DrainLeaves(c: Session, s: State, e: Event, room: nat)
    requires Enabled(c, s, Step.Poll(e, room))
    ensures var s1 := Drain(s, e, room); s1 == s.(buf := s1.buf, wire := s1.wire) && Taken(s1) == Taken(s)
    ensures !s.phase.Closed? && (e.Packet? ==> s.wire != [] && e.data == s.wire[0])
    ensures PollGrpc(s.buf, room, e).poll.Ok? ==>
      Reported(PollGrpc(s.buf, room, e).poll) == PollGrpc(s.buf, room, e).poll.data
  {
    hide PollGrpc, Ask;
  }

  /** The bytes a poll reports come off what is in flight; nothing else of the invariant changes. */
  lemma DrainKeeps(c: Session, s: State, e: Event, room: nat)
    requires Inv(c, s) && Enabled(c, s, Step.Poll(e, room)) && PollGrpc(s.buf, room, e).poll.Ok?
    ensures var s1, b := Drain(s, e, room), PollGrpc(s.buf, room, e).poll.data;
      && |b| <= room && s1 == s.(buf := s1.buf, wire := s1.wire)
      && Taken(s1) == Taken(s) && Taken(s1) + b + InFlight(s1) == Everything(c, s.input)
      && Ordered(c, s1) && Accepted(c, s1) && FramesTaken(s1) && Control(c, s1)
  {
    var s1, b := Drain(s, e, room), PollGrpc(s.buf, room, e).poll.data;
    DrainLeaves(c, s, e, room);
    hide *;
    InvParts(c, s);
    DrainMovesBytes(s, e, room);
    DrainKeepsOrdered(c, s, e, room);
    OpenConserved(c, s);
    Reassociate(Taken(s), b, InFlight(s1));
    SameReceiver(c, s, s1);
  }

  lemma OpenConserved(c: Session, s: State)
    requires Conserved(c, s) && !s.phase.Closed?
    ensures Taken(s) + InFlight(s) == Everything(c, s.input)
  {
  }

  lemma MakeConserved(c: Session, s: State)
    requires Taken(s) + InFlight(s) == Everything(c, s.input)
    ensures Conserved(c, s)
  {
    hide Taken, InFlight, Everything;
  }

  /** Bytes within the room offered keep the receiver's part of the invariant. */
  lemma ReceiveKeepsReceiver(c: Session, s: State, b: bytes, room: nat)
    requires Plausible(c) && Accepted(c, s) && FramesTaken(s) && Control(c, s)
    requires Offers(s, room) && |b| <= room && Taken(s) + b <= Everything(c, s.input)
    ensures var s' := Receive(c, s, b); Accepted(c, s') && FramesTaken(s') && Control(c, s')
  {
    hide Ask, Receive, Accepted, FramesTaken, Control, Taken, Everything;
    match s.phase
    case Header => HeaderReceives(c, s, b);
    case Frames => FramesReceive(c, s, b);
    case Copy => CopyReceives(c, s, b);
  }

  lemma PollReceives(c: Session, s: State, e: Event, room: nat)
    requires Enabled(c, s, Step.Poll(e, room))
    requires PollGrpc(s.buf, room, e).poll.Ok? && PollGrpc(s.buf, room, e).poll.data != []
    ensures Apply(c, s, Step.Poll(e, room)) == Receive(c, Drain(s, e, room), PollGrpc(s.buf, room, e).poll.data)
    ensures Offers(s, room) && Offers(Drain(s, e, room), room) && !s.phase.Closed?
  {
    hide Receive, PollGrpc, Ask;
  }

  lemma SamePipeline(s: State, s': State)
    requires s'.outbox == s.outbox && s'.channel == s.channel && s'.wire == s.wire && s'.buf == s.buf
    ensures Pipeline(s') == Pipeline(s) && InFlight(s') == InFlight(s)
  {
    hide Flatten;
  }

  lemma OrderedHasBounds(c: Session, s: State)
    requires Ordered(c, s)
    ensures |s.channel| <= CHANNEL_SIZE
  {
  }

  lemma BytesKeepInv(c: Session, s: State, e: Event, room: nat)
    requires Plausible(c) && Inv(c, s) && Enabled(c, s, Step.Poll(e, room))
    requires PollGrpc(s.buf, room, e).poll.Ok? && PollGrpc(s.buf, room, e).poll.data != []
    ensures Inv(c, Apply(c, s, Step.Poll(e, room)))
  {
    var s1, b := Drain(s, e, room), PollGrpc(s.buf, room, e).poll.data;
    hide *;
    var s' := Receive(c, s1, b);
    InvParts(c, s);
    PollReceives(c, s, e, room);
    DrainKeeps(c, s, e, room);
    ReceiveTakes(c, s1, b);
    SamePipeline(s1, s');
    MakeConserved(c, s');
    PrefixOfAll(Taken(s1) + b, InFlight(s1));
    ReceiveKeepsReceiver(c, s1, b, room);
    OrderedHasBounds(c, s1);
    SameOrdered(c, s1, s');
    MakeInv(c, s');
  }

  lemma PrefixOfAll(a: bytes, b: bytes)
    ensures a <= a + b
  {
  }

  lemma EmptyReadKeepsInv(c: Session, s: State, room: nat)
    requires Inv(c, s) && Enabled(c, s, Step.Poll(Packet([]), room)) && s.buf == []
    ensures Inv(c, Apply(c, s, Step.Poll(Packet([]), room)))
  {
    var e := Packet([]);
    var s1 := Drain(s, e, room);
    var s' := s1.(phase := Closed(if s.phase.Copy? then Drained else Eof));
    assert PollGrpc(s.buf, room, e) == Polled(Ok([]), [], true, []);
    assert s' == Apply(c, s, Step.Poll(e, room)) && !s.phase.Closed? && s.wire != [] && s.wire[0] == [];
    hide *;
    InvParts(c, s);
    DrainKeeps(c, s, e, room);
    DrainKeepsOrdered(c, s, e, room);
    SamePipeline(s1, s');
    SameBytes(s1, s');
    NoTail(Taken(s1), []);
    MakeConserved(c, s');
    OrderedHasBounds(c, s1);
    SameOrdered(c, s1, s');
    EndKeepsReceiver(c, s1, s');
    MakeInv(c, s');
  }

  /** A receiver that meets an empty hunk stops with what it took. */
  lemma EndKeepsReceiver(c: Session, s: State, s': State)
    requires Accepted(c, s) && FramesTaken(s) && Control(c, s) && !s.phase.Closed? && SawEmpty(c, s')
    requires s' == s.(phase := Closed(if s.phase.Copy? then Drained else Eof))
    ensures Accepted(c, s') && FramesTaken(s') && Control(c, s')
  {
    hide Ask, HeaderTaken, FrameTaken, ParseTrojan, SawEmpty;
  }

  lemma BrokenConserved(c: Session, s: State, s': State)
    requires Conserved(c, s) && s'.phase == Closed(Broke) && s'.input == s.input && Taken(s') == Taken(s)
    ensures Conserved(c, s')
  {
    hide InFlight, Everything;
  }

  lemma ErrorKeepsInv(c: Session, s: State, e: Event, room: nat)
    requires Inv(c, s) && Enabled(c, s, Step.Poll(e, room)) && PollGrpc(s.buf, room, e).poll.Err?
    ensures Inv(c, Apply(c, s, Step.Poll(e, room)))
  {
    var s1 := Drain(s, e, room);
    var s' := s1.(phase := Closed(Broke));
    assert s' == Apply(c, s, Step.Poll(e, room)) && !s.phase.Closed? && Taken(s') == Taken(s);
    assert s1 == s.(buf := s1.buf, wire := s1.wire) && !e.Packet?;
    hide *;
    InvParts(c, s);
    DrainKeepsOrdered(c, s, e, room);
    SamePipeline(s1, s');
    OrderedHasBounds(c, s1);
    SameOrdered(c, s1, s');
    BrokenConserved(c, s, s');
    StopKeepsReceiver(c, s, s');
    MakeInv(c, s');
  }

  lemma PollCases(c: Session, s: State, e: Event, room: nat)
    requires Enabled(c, s, Step.Poll(e, room))
    ensures var p := PollGrpc(s.buf, room, e).poll;
      && (p.NotReady? ==> Apply(c, s, Step.Poll(e, room)) == s)
      && (p == Ok([]) ==> s.buf == [] && e == Packet([]))
  {
    EmptyPoll(s.buf, room, e);
    hide Ask, PollGrpc, Receive;
  }

  lemma PollKeepsInv(c: Session, s: State, e: Event, room: nat)
    requires Plausible(c) && Inv(c, s) && Enabled(c, s, Step.Poll(e, room))
    ensures Inv(c, Apply(c, s, Step.Poll(e, room)))
  {
    hide *;
    PollCases(c, s, e, room);
    match PollGrpc(s.buf, room, e).poll
    case NotReady =>
    case Err => ErrorKeepsInv(c, s, e, room);
    case Ok(b) =>
      if b == [] {
        EmptyReadKeepsInv(c, s, room);
      } else {
        BytesKeepInv(c, s, e, room);
      }
  }

  /** Every step keeps the invariant, in step or not. */
  lemma StepKeepsInv(c: Session, s: State, step: Step)
    requires Plausible(c) && Inv(c, s) && Enabled(c, s, step)
    ensures Inv(c, Apply(c, s, step))
  {
    hide Inv, Apply;
    match step
    case Read(chunk) => ReadKeepsInv(c, s, chunk);
    case Send => MoveKeepsInv(c, s, step);
    case Forward => MoveKeepsInv(c, s, step);
    case Poll(e, room) => PollKeepsInv(c, s, e, room);
    case Crash => CrashKeepsInv(c, s);
  }

  lemma {:induction false} RunKeepsInv(c: Session, s: State, steps: seq<Step>)
    requires Plausible(c) && Inv(c, s) && Runs(c, s, steps)
    ensures Inv(c, Final(c, s, steps))
    decreases |steps|
  {
    hide Inv, Apply, Enabled;
    if steps != [] {
      StepKeepsInv(c, s, steps[0]);
      RunKeepsInv(c, Apply(c, s, steps[0]), steps[1..]);
    }
  }

  /** So the invariant holds in every state of every run. */
  lemma ReachableInv(c: Session, steps: seq<Step>)
    requires Plausible(c) && Runs(c, Start(c), steps)
    ensures Inv(c, Final(c, Start(c), steps))
  {
    hide Inv, Runs, Final, Start;
    StartInv(c);
    RunKeepsInv(c, Start(c), steps);
  }

  // ---------------------------------------------------------------- building runs

  lemma {:induction false} RunsConcat(c: Session, s: State, a: seq<Step>, b: seq<Step>)
    requires Runs(c, s, a) && Runs(c, Final(c, s, a), b)
    ensures Runs(c, s, a + b) && Final(c, s, a + b) == Final(c, Final(c, s, a), b)
    decreases |a|
  {
    hide Enabled, Apply;
    if a == [] {
      assert a + b == b;
    } else {
      assert (a + b)[1..] == a[1..] + b;
      RunsConcat(c, Apply(c, s, a[0]), a[1..], b);
    }
  }

  ghost predicate Reachable(c: Session, s: State) {
    exists steps :: Runs(c, Start(c), steps) && Final(c, Start(c), steps) == s
  }

  lemma ReachMore(c: Session, s: State, more: seq<Step>)
    requires Reachable(c, s) && Runs(c, s, more)
    ensures Reachable(c, Final(c, s, more))
  {
    var steps :| Runs(c, Start(c), steps) && Final(c, Start(c), steps) == s;
    hide Start;
    RunsConcat(c, Start(c), steps, more);
    assert Runs(c, Start(c), steps + more);
  }

  lemma ReachStep(c: Session, s: State, step: Step)
    requires Reachable(c, s) && Enabled(c, s, step)
    ensures Reachable(c, Apply(c, s, step))
  {
    hide Reachable, Enabled, Apply;
    var one := [step];
    assert one[1..] == [] && Runs(c, Apply(c, s, step), []);
    assert Runs(c, s, one) && Final(c, s, one) == Apply(c, s, step);
    ReachMore(c, s, one);
  }

  lemma ReachedInv(c: Session, s: State)
    requires Plausible(c) && Reachable(c, s)
    ensures Inv(c, s)
  {
    hide Inv;
    var steps :| Runs(c, Start(c), steps) && Final(c, Start(c), steps) == s;
    ReachableInv(c, steps);
  }
}
