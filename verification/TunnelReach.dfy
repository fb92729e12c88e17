/** What does happen: every way a tunnel can end, and a full channel, are reached by some run. */
module TunnelReach {
  import opened Bytes
  import opened Parsers
  import opened Transport
  import opened Senders
  import opened Tunnel
  import opened TunnelInvariant
  import opened TunnelSteps
  import opened TunnelInStep
  import opened TunnelTheorems
  import opened TunnelLiveness
  import opened TunnelFlow

  // ---------------------------------------------------------------- errors

  /** In every state a receiver at work may crash, keeping what it has taken. */
  lemma MayCrash(c: Session, s: State) returns (t: State)
    requires Reachable(c, s) && !s.phase.Closed?
    ensures Reachable(c, t) && t == s.(phase := Closed(Crashed))
  {
    hide Reachable;
    t := Apply(c, s, Crash);
    ReachStep(c, s, Crash);
  }

  /** In every state the connection may end or fail under a receiver at work. A read that the leftover fills does not
      notice; any other breaks, and the leftover it had drained is lost. */
  lemma MayBreak(c: Session, s: State, e: Event) returns (t: State)
    requires Plausible(c) && Reachable(c, s) && !s.phase.Closed? && (e.End? || e.Error?)
    ensures Enabled(c, s, Step.Poll(e, Wanted(s))) && t == Apply(c, s, Step.Poll(e, Wanted(s))) && Reachable(c, t)
    ensures |s.buf| <= Wanted(s) ==> t == s.(phase := Closed(Broke), buf := [])
    ensures |s.buf| > Wanted(s) ==> t.phase != Closed(Broke) && t.buf == s.buf[Wanted(s)..]
  {
    hide *;
    ReachedInv(c, s);
    PollBreaks(c, s, e);
    t := Apply(c, s, Step.Poll(e, Wanted(s)));
    ReachStep(c, s, Step.Poll(e, Wanted(s)));
  }

  lemma PollBreaks(c: Session, s: State, e: Event)
    requires Inv(c, s) && !s.phase.Closed? && (e.End? || e.Error?)
    ensures Enabled(c, s, Step.Poll(e, Wanted(s)))
    ensures var t := Apply(c, s, Step.Poll(e, Wanted(s)));
      && (|s.buf| <= Wanted(s) ==> t == s.(phase := Closed(Broke), buf := []))
      && (|s.buf| > Wanted(s) ==> t.phase != Closed(Broke) && t.buf == s.buf[Wanted(s)..])
  {
    hide Inv, Wanted, Offers;
    WantedIsOffered(c, s);
    ClosingDrain(s, e, Wanted(s));
    ReceiveLeaves(c, Drain(s, e, Wanted(s)), s.buf[..if Wanted(s) <= |s.buf| then Wanted(s) else 0]);
    hide Receive, Drain, PollGrpc;
  }

  lemma ClosingDrain(s: State, e: Event, room: nat)
    requires 0 < room && (e.End? || e.Error?)
    ensures var p, s1 := PollGrpc(s.buf, room, e), Drain(s, e, room);
      && (|s.buf| <= room ==> p.poll.Err? && s1 == s.(buf := []))
      && (|s.buf| > room ==> p.poll == Ok(s.buf[..room]) && s.buf[..room] != [] && s1 == s.(buf := s.buf[room..]))
  {
  }

  /** A copy may offer any room, and gets as much of the leftover and the next hunk as fits it. */
  lemma CopyTakesRoom(c: Session, s: State, room: nat)
    requires s.phase.Copy? && 0 < room && (s.buf != [] || (s.wire != [] && s.wire[0] != []))
    ensures var e := if s.wire != [] then Packet(s.wire[0]) else Pending;
      var all := if |s.buf| <= room && s.wire != [] then s.buf + s.wire[0] else s.buf;
      && Enabled(c, s, Step.Poll(e, room))
      && Apply(c, s, Step.Poll(e, room)).out == s.out + all[..Min(room, |all|)]
  {
    var e := if s.wire != [] then Packet(s.wire[0]) else Pending;
    GrpcPollIsGreedy(s.buf, room, e);
    hide PollGrpc;
  }

  // ---------------------------------------------------------------- the end of the data

  /** The client's stream ends while its tunnel rests: the server's copy ends by itself. */
  lemma CopyDoesEnd(c: Session) returns (t: State)
    requires InStep(c) && c.direction.Upload? && c.request.command.Connect? && Authentic(c)
    ensures Reachable(c, t) && t.phase == Closed(Drained) && t.input == [[]]
  {
    StepIsPlausible(c);
    hide Reachable, Inv, InStep, Authentic, Plausible;
    var s := ReachIdle(c);
    assert s.outbox == [] && s.channel == [] && s.wire == [] && s.buf == [];
    var s1 := Apply(c, s, Read([]));
    ReachStep(c, s, Read([]));
    t := EmptyArrives(c, s1);
    InvParts(c, s);
    QuiescentIsRest(s);
    RestIsComplete(c, s);
    CopyPhase(c, s);
  }

  /** An empty hunk on its way to a reader with nothing left over ends the stream for the receiver. */
  lemma EmptyArrives(c: Session, s: State) returns (t: State)
    requires Plausible(c) && Reachable(c, s) && !s.phase.Closed?
    requires s.outbox == [[]] && s.channel == [] && s.wire == [] && s.buf == []
    ensures Reachable(c, t) && t.input == s.input && t.phase == Closed(if s.phase.Copy? then Drained else Eof)
  {
    hide Reachable, Inv, Plausible;
    var s2 := Apply(c, s, Send);
    ReachStep(c, s, Send);
    assert s2.channel == [[]];
    var s3 := Apply(c, s2, Forward);
    ReachStep(c, s2, Forward);
    assert s3.wire == [[]] && s3.phase == s.phase && s3.buf == [] && s3.input == s.input;
    hide Apply, Enabled;
    ReachedInv(c, s3);
    EmptyPolled(c, s3);
    t := Apply(c, s3, Step.Poll(Packet([]), Wanted(s3)));
    ReachStep(c, s3, Step.Poll(Packet([]), Wanted(s3)));
  }

  lemma EmptyPolled(c: Session, s: State)
    requires Inv(c, s) && !s.phase.Closed? && s.wire == [[]] && s.buf == []
    ensures Enabled(c, s, Step.Poll(Packet([]), Wanted(s)))
    ensures var t := Apply(c, s, Step.Poll(Packet([]), Wanted(s)));
      t.input == s.input && t.phase == Closed(if s.phase.Copy? then Drained else Eof)
  {
    hide Inv, Offers, Wanted, Receive;
    WantedIsOffered(c, s);
    assert PollGrpc(s.buf, Wanted(s), Packet([])).poll == Ok([]);
    hide PollGrpc;
  }

  /** And the UDP loop stops at the empty payload of an empty datagram that lags behind its header. */
  lemma LoopDoesEnd(c: Session) returns (t: State)
    requires InStep(c) && c.direction.Upload? && c.request.command.Udp? && Authentic(c)
    ensures Reachable(c, t) && t.phase == Closed(Eof) && |t.input| == 1
  {
    StepIsPlausible(c);
    hide Reachable, Inv, Plausible, InStep, Authentic, Control;
    var s1 := ReachIdle(c);
    var s := ReachBlocked(c, s1);
    InvParts(c, s);
    NotCopying(c, s);
    t := EmptyArrives(c, s);
  }

  lemma NotCopying(c: Session, s: State)
    requires Control(c, s) && c.request.command.Udp?
    ensures !s.phase.Copy?
  {
    hide Ask, Past, SawEmpty;
  }

  // ---------------------------------------------------------------- refusals

  /** A stranger with a secret of their own is refused in some run, and so is BIND. */
  lemma StrangerIsRefused(c: Session) returns (t: State)
    requires InStep(c) && c.direction.Upload? && c.client.Some? && (c.request.command.Bind? || !Authentic(c))
    ensures Reachable(c, t) && t.phase == Closed(Refused) && t.input == []
  {
    StepIsPlausible(c);
    var s := Start(c);
    assert Runs(c, s, []) && Reachable(c, s) && NoEmptyRead(s.input) && !s.phase.Closed? && s.input == [];
    hide Reachable, Start, Inv, Plausible, Authentic;
    ReachedInv(c, s);
    var more := Flow(c, s);
    t := Final(c, s, more);
    ReachMore(c, s, more);
    HeaderSent(c);
    if t.phase != Closed(Refused) { StrangerRefused(c, t); }
  }

  lemma HeaderSent(c: Session)
    requires InStep(c) && c.direction.Upload? && c.client.Some?
    ensures Ask(TrojanHeader, Everything(c, [])).Full?
  {
    PreambleTaken(c);
    assert Framed(c.request, []) == [];
    NoTail(Preamble(c), []);
    hide Ask, Preamble;
  }

  // ---------------------------------------------------------------- backpressure

  /** The channel takes sixteen hunks, and then the sender's loop has to wait. */
  lemma {:induction false} ChannelFillsUp(c: Session, s: State) returns (t: State)
    requires !c.request.command.Bind? && Reachable(c, s) && |s.channel| <= 16 && !Ended(s.input)
    ensures Reachable(c, t) && |t.channel| == 16 && t.outbox != [] && !Enabled(c, t, Send)
    decreases 16 - |s.channel|
  {
    hide Reachable, UdpHead;
    var s1 := s;
    if s.outbox == [] {
      s1 := Apply(c, s, Read([0]));
      ReachStep(c, s, Read([0]));
    }
    if |s.channel| == 16 { return s1; }
    ReachStep(c, s1, Send);
    t := ChannelFillsUp(c, Apply(c, s1, Send));
  }
}
