/** What holds in every reachable state of every interleaving of a tunnel. */
module TunnelTheorems {
  import opened Bytes
  import opened Protocol
  import opened Parsers
  import opened Framing
  import opened FrameStreams
  import opened Handshake
  import opened Access
  import opened Senders
  import opened Tunnel
  import opened TunnelInvariant
  import opened TunnelSteps
  import opened TunnelInStep
  import opened TunnelHunks

  /** Has everything read come out, as the same datagrams or as the same bytes? */
  predicate CameOut(c: Session, s: State) {
    if c.request.command.Udp? then s.delivered == Framed(c.request, s.input) else s.out == Flatten(s.input)
  }

  /** And at the endpoint asked for? Datagrams carry theirs, a TCP tunnel has one target. */
  predicate AllOut(c: Session, s: State) {
    CameOut(c, s) && (!c.request.command.Udp? ==> s.target == Some(Endpoint(c.request.addr, c.request.port)))
  }

  /** No hunk is on its way. */
  predicate Quiescent(s: State) {
    s.buf == [] && Pipeline(s) == []
  }

  /** No byte is on its way and the receiver is not inside a unit. */
  predicate Idle(s: State) {
    InFlight(s) == [] && s.acc == []
  }

  // ---------------------------------------------------------------- datagrams

  lemma OutputsByCommand(c: Session, s: State)
    requires Plausible(c) && Inv(c, s)
    ensures !c.request.command.Udp? ==> s.delivered == []
    ensures !c.request.command.Connect? ==> s.out == []
    ensures !Past(c, s) ==> s.delivered == [] && s.out == [] && s.target.None?
  {
    hide HeaderTaken, ParseTrojan, Conserved, Ordered, Control, FrameTaken;
  }

  lemma DeliveredArePrefix(c: Session, s: State)
    requires InStep(c) && Inv(c, s)
    ensures s.delivered <= Framed(c.request, s.input)
  {
    OutputsByCommand(c, s);
    if Past(c, s) && c.request.command.Udp? {
      DeliveredInStep(c, s);
    }
  }

  /** In every run, in step, the datagrams delivered are a prefix of those framed: same address, port,
      boundaries and payload, in order, none twice and none made up. */
  lemma UdpSafety(c: Session, steps: seq<Step>)
    requires InStep(c) && Runs(c, Start(c), steps)
    ensures var s := Final(c, Start(c), steps); s.delivered <= Framed(c.request, s.input)
  {
    ReachableInv(c, steps);
    DeliveredArePrefix(c, Final(c, Start(c), steps));
  }

  // ---------------------------------------------------------------- bytes

  lemma OutIsPrefix(c: Session, s: State)
    requires InStep(c) && Inv(c, s)
    ensures s.out <= Flatten(s.input)
  {
    OutputsByCommand(c, s);
    if Past(c, s) && c.request.command.Connect? {
      BodyTaken(c, s);
      assert Flatten(s.frames) == [];
      hide Inv, InFlight, Past, InStep, Flatten;
      MiddleIsPrefix(Flatten(s.frames), s.out, s.acc, Flatten(s.input));
    }
  }

  lemma MiddleIsPrefix(a: bytes, b: bytes, d: bytes, all: bytes)
    requires a == [] && a + b + d <= all
    ensures b <= all
  {
    assert a + b + d == b + d;
  }

  lemma CopyTaken(s: State)
    requires s.frames == [] && s.acc == []
    ensures Taken(s) == s.header + s.out
  {
    NoBytes();
    NoTail(s.header, Flatten(s.frames));
    NoTail(s.header + s.out, s.acc);
  }

  lemma DrainedCopied(c: Session, s: State)
    requires Plausible(c) && Inv(c, s) && s.phase == Closed(Drained)
    ensures c.request.command.Connect? && c.direction.Upload? && s.header != [] && s.frames == [] && s.acc == []
  {
    InvParts(c, s);
    hide Inv, Conserved, Ordered, InputShape, FramesTaken, SawEmpty, HeaderTaken, ParseTrojan;
  }

  lemma EverythingCopied(c: Session, input: seq<bytes>)
    requires !c.request.command.Udp?
    ensures Everything(c, input) == Preamble(c) + Flatten(input)
  {
  }

  /** A copy that ended by itself has copied everything the receiver did not take for the header. */
  lemma DrainedTookAll(c: Session, s: State)
    requires Plausible(c) && Inv(c, s) && s.phase == Closed(Drained)
    ensures c.direction.Upload? && s.header != [] && Ended(s.input)
    ensures s.header + s.out == Preamble(c) + Flatten(s.input)
  {
    DrainedCopied(c, s);
    hide *;
    EofSawEmpty(c, s);
    var i := TakenAtEmpty(c, s, HunksTaken(c, s) - 1);
    CopyTaken(s);
    EverythingCopied(c, s.input[..i + 1]);
  }

  /** In every run, in step, the bytes copied are a prefix of the bytes read; and the copy ends by itself only after
      the client's stream has ended and every byte of it is out. */
  lemma EndOfDataSoundness(c: Session, steps: seq<Step>)
    requires InStep(c) && Runs(c, Start(c), steps)
    ensures var s := Final(c, Start(c), steps);
      && s.out <= Flatten(s.input)
      && (s.phase == Closed(Drained) ==> Ended(s.input) && s.out == Flatten(s.input))
  {
    var s := Final(c, Start(c), steps);
    ReachableInv(c, steps);
    OutIsPrefix(c, s);
    if s.phase == Closed(Drained) {
      DrainedTookAll(c, s);
      HeaderInStep(c, s);
      CancelLeft(s.header, s.out, Flatten(s.input));
    }
  }

  // ---------------------------------------------------------------- access

  /** In every run of every upload, whatever the address: nothing leaves the server and no target is
      accepted unless the two sides have the same secret, and then the command is the client's. */
  lemma OnlyAuthenticClientsPass(c: Session, steps: seq<Step>)
    requires Plausible(c) && c.direction.Upload? && Runs(c, Start(c), steps)
    ensures var s := Final(c, Start(c), steps);
      && (s.target.Some? || s.phase.Frames? || s.phase.Copy? || s.delivered != [] || s.out != [] ==> Authentic(c))
      && (s.phase.Frames? || s.delivered != [] ==> c.request.command.Udp?)
      && (s.phase.Copy? || s.out != [] ==> c.request.command.Connect?)
  {
    ReachableInv(c, steps);
    hide Runs, Final, Start, Inv, Plausible, Authentic;
    AuthenticPast(c, Final(c, Start(c), steps));
  }

  lemma AuthenticPast(c: Session, s: State)
    requires Plausible(c) && c.direction.Upload? && Inv(c, s)
    ensures s.target.Some? || s.phase.Frames? || s.phase.Copy? || s.delivered != [] || s.out != [] ==> Authentic(c)
    ensures s.phase.Frames? || s.delivered != [] ==> c.request.command.Udp?
    ensures s.phase.Copy? || s.out != [] ==> c.request.command.Connect?
  {
    InvParts(c, s);
    OutputsByCommand(c, s);
    hide Inv, Conserved, Ordered, InputShape, FramesTaken, HeaderTaken, ParseTrojan, Ask, SawEmpty, Authentic;
  }

  // ---------------------------------------------------------------- why a receiver stops

  lemma FrameFits(ds: seq<Datagram>, k: nat, m: nat)
    requires k < m <= |ds|
    ensures |EncodeFrames(ds[..k])| + |EncodeFrame(ds[k])| <= |EncodeFrames(ds[..m])| && 8 <= |EncodeFrame(ds[k])|
  {
    assert ds[..m] == ds[..k] + ds[k..m] && ds[k..m][0] == ds[k];
    EncodeFramesConcat(ds[..k], ds[k..m]);
  }

  /** A receiver whose encoded frames end where some datagram does is between frames there. */
  lemma FramesCut(ds: seq<Datagram>, k: nat, acc: bytes, m: nat)
    requires k <= |ds| && m <= |ds| && |EncodeFrames(ds[..k])| + |acc| == |EncodeFrames(ds[..m])|
    requires k < |ds| ==> |acc| < |EncodeFrame(ds[k])|
    requires k == |ds| ==> acc == []
    ensures k == m && acc == []
  {
    hide EncodeFrames, EncodeFrame;
    if k < m { FrameFits(ds, k, m); }
    if k > m { FrameFits(ds, m, k); }
  }

  /** An authentic UDP receiver that has taken everything for the first `m` reads has delivered those. */
  lemma TakenUpTo(c: Session, s: State, m: nat)
    requires InStep(c) && Inv(c, s) && c.request.command.Udp? && m <= |s.input|
    requires c.direction.Upload? ==> Authentic(c)
    requires Taken(s) == Everything(c, s.input[..m])
    requires s.phase.Header? || s.phase.Frames? || s.phase == Closed(Eof)
    ensures Past(c, s) && s.acc == [] && s.delivered == Framed(c.request, s.input[..m])
  {
    if Past(c, s) {
      DeliveredUpTo(c, s, m);
    } else {
      HeaderPhaseInStep(c, s);
    }
  }

  lemma FramesLengths(c: Session, s: State, m: nat)
    requires InStep(c) && Inv(c, s) && c.request.command.Udp? && m <= |s.input| && Past(c, s)
    requires Taken(s) == Everything(c, s.input[..m]) && (s.phase.Frames? || s.phase == Closed(Eof))
    ensures |Flatten(s.frames)| + |s.acc| == |EncodeFrames(Framed(c.request, s.input[..m]))|
    ensures Ask(UdpFrame({}), s.acc).More?
  {
    InvParts(c, s);
    StepIsPlausible(c);
    OutputsByCommand(c, s);
    HeaderInStep(c, s);
    hide Inv, Preamble, Flatten, EncodeFrames, Framed, Ask, InStep, Conserved, Ordered, InputShape, FramesTaken;
    hide SawEmpty, HeaderTaken, ParseTrojan, Past;
  }

  lemma DeliveredUpTo(c: Session, s: State, m: nat)
    requires InStep(c) && Inv(c, s) && c.request.command.Udp? && m <= |s.input| && Past(c, s)
    requires Taken(s) == Everything(c, s.input[..m])
    requires s.phase.Frames? || s.phase == Closed(Eof)
    ensures s.acc == [] && s.delivered == Framed(c.request, s.input[..m])
  {
    var ds, k := Framed(c.request, s.input), |s.delivered|;
    assert Framed(c.request, s.input[..m]) == ds[..m];
    FramesLengths(c, s, m);
    hide *;
    DeliveredInStep(c, s);
    AccInStep(c, s);
    FramesCut(ds, k, s.acc, m);
  }

  /** A UDP receiver that stopped at an empty read has every payload byte that was read. */
  lemma EofTookAll(c: Session, s: State)
    requires InStep(c) && Inv(c, s) && Authentic(c) && s.phase == Closed(Eof)
    requires c.direction.Upload? && c.request.command.Udp?
    ensures Past(c, s) && Flatten(Payloads(s.delivered)) == Flatten(s.input)
  {
    StepIsPlausible(c);
    hide *;
    var m := TakenAtEof(c, s);
    TakenUpTo(c, s, m);
    PayloadsFramed(c.request, s.input[..m]);
  }

  lemma TakenAtEof(c: Session, s: State) returns (m: nat)
    requires Plausible(c) && Inv(c, s) && s.phase == Closed(Eof)
    ensures m <= |s.input| && Flatten(s.input) == Flatten(s.input[..m]) && Taken(s) == Everything(c, s.input[..m])
  {
    hide *;
    EofSawEmpty(c, s);
    var i := TakenAtEmpty(c, s, HunksTaken(c, s) - 1);
    m := i + 1;
  }

  lemma StepIsPlausible(c: Session)
    requires InStep(c)
    ensures Plausible(c)
  {
    hide Plausible;
  }

  /** Only an empty hunk makes a receiver stop that way. */
  lemma EofSawEmpty(c: Session, s: State)
    requires Inv(c, s) && (s.phase == Closed(Eof) || s.phase == Closed(Drained))
    ensures s.buf == [] && 0 < HunksTaken(c, s) <= |AllHunks(c, s.input)|
    ensures AllHunks(c, s.input)[HunksTaken(c, s) - 1] == []
    ensures s.phase == Closed(Eof) ==> if Past(c, s) then c.request.command.Udp? else Ask(TrojanHeader, s.acc).More?
  {
    InvParts(c, s);
    assert SawEmpty(c, s);
    LastWasEmpty(c, s);
    hide Inv, Conserved, Ordered, InputShape, Accepted, FramesTaken, HunksTaken, AllHunks, Ask, SawEmpty, Past;
  }

  lemma PayloadsFramed(r: InboundRequest, input: seq<bytes>)
    ensures Payloads(Framed(r, input)) == input
  {
  }

  lemma RefusedForAReason(c: Session, s: State)
    requires InStep(c) && Inv(c, s) && s.phase == Closed(Refused)
    ensures c.direction.Upload? && (c.request.command.Bind? || !Authentic(c))
  {
    if Past(c, s) {
      AccInStep(c, s);
    } else if Authentic(c) {
      var t := s.acc;
      HeaderPhaseInStep(c, s);
      TakenIsPrefix(c, s);
      assert Taken(s) == t;
      CommandTaken(c, t, Body(c, s.input));
      Acceptance(c.client, c.server, c.request, Body(c, s.input), t);
    }
  }

  /** A receiver of an authentic client that has taken the whole header is past it. */
  lemma HeaderTakenByThen(c: Session, s: State)
    requires InStep(c) && Inv(c, s) && c.direction.Upload? && Authentic(c)
    requires |Preamble(c)| <= |Taken(s)|
    requires !Past(c, s) ==> Ask(TrojanHeader, s.acc).More?
    ensures Past(c, s)
  {
    if !Past(c, s) {
      HeaderPhaseInStep(c, s);
    }
  }

  lemma EverythingIsLonger(c: Session, input: seq<bytes>)
    ensures |Preamble(c)| <= |Everything(c, input)|
  {
    hide Preamble, Body;
  }

  lemma EofEnded(c: Session, s: State)
    requires Plausible(c) && Inv(c, s) && s.phase == Closed(Eof)
    ensures c.direction.Upload? && Ended(s.input) && |Preamble(c)| <= |Taken(s)|
  {
    hide *;
    EofSawEmpty(c, s);
    var i := TakenAtEmpty(c, s, HunksTaken(c, s) - 1);
    EverythingIsLonger(c, s.input[..i + 1]);
  }

  lemma EofIsUdp(c: Session, s: State)
    requires InStep(c) && Inv(c, s) && s.phase == Closed(Eof) && Authentic(c) && c.direction.Upload?
    requires |Preamble(c)| <= |Taken(s)|
    ensures c.request.command.Udp?
  {
    hide *;
    EofSawEmpty(c, s);
    HeaderTakenByThen(c, s);
  }

  /** Why a receiver stops. It refuses only strangers, BIND and names out of step. An empty read stops it only
      after the client's stream has ended; for an authentic client in step it stops only the UDP loop, and then
      every payload byte has come out, so such a session is never cut short by anything but an error, a crash or
      the end of the data. */
  lemma StopsForAReason(c: Session, steps: seq<Step>)
    requires Plausible(c) && Runs(c, Start(c), steps)
    ensures var s := Final(c, Start(c), steps);
      && (s.phase == Closed(Refused) ==>
          c.direction.Upload? && (c.request.command.Bind? || !Authentic(c) || !Aligned(c.request.addr)))
      && (s.phase == Closed(Eof) ==> c.direction.Upload? && Ended(s.input))
      && (s.phase == Closed(Eof) && Authentic(c) && Aligned(c.request.addr) ==>
          c.request.command.Udp? && Flatten(Payloads(s.delivered)) == Flatten(s.input))
  {
    ReachableInv(c, steps);
    assert c.direction.Download? || Aligned(c.request.addr) ==> InStep(c);
    hide *;
    var s := Final(c, Start(c), steps);
    if s.phase == Closed(Refused) && InStep(c) {
      RefusedForAReason(c, s);
    } else if s.phase == Closed(Eof) {
      EofEnded(c, s);
      if Authentic(c) && InStep(c) {
        EofIsUdp(c, s);
        EofTookAll(c, s);
      }
    }
  }

  /** Strangers and BIND are refused, whatever the address: once every byte sent has been taken and the bytes hold
      a whole header, the receiver has refused, unless an error or a crash came first. */
  lemma StrangersAreRefused(c: Session, steps: seq<Step>)
    requires Plausible(c) && c.direction.Upload? && Runs(c, Start(c), steps)
    requires c.request.command.Bind? || !Authentic(c)
    requires var s := Final(c, Start(c), steps);
      InFlight(s) == [] && s.phase != Closed(Broke) && s.phase != Closed(Crashed)
      && Ask(TrojanHeader, Everything(c, s.input)).Full?
    ensures Final(c, Start(c), steps).phase == Closed(Refused)
  {
    ReachableInv(c, steps);
    hide Runs, Final, Start, Plausible, Authentic, Everything, InFlight, Inv;
    StrangerRefused(c, Final(c, Start(c), steps));
  }

  lemma StrangerRefused(c: Session, s: State)
    requires Inv(c, s) && c.direction.Upload? && (c.request.command.Bind? || !Authentic(c))
    requires InFlight(s) == [] && s.phase != Closed(Broke) && s.phase != Closed(Crashed)
    requires Ask(TrojanHeader, Everything(c, s.input)).Full?
    ensures s.phase == Closed(Refused)
  {
    hide Inv, Conserved, Ordered, InputShape, FramesTaken, Everything, InFlight, Taken, Ask, SawEmpty, Authentic;
    hide ParseTrojan, HeaderTaken, Unwelcome;
    InvParts(c, s);
    AllTaken(c, s);
    if !Past(c, s) { OnlyHeaderTaken(c, s); }
  }

  lemma AllTaken(c: Session, s: State)
    requires Conserved(c, s) && InFlight(s) == [] && s.phase != Closed(Broke)
    ensures Taken(s) == Everything(c, s.input)
  {
    hide InFlight, Taken, Everything;
    NoTail(Taken(s), InFlight(s));
  }

  lemma OnlyHeaderTaken(c: Session, s: State)
    requires Accepted(c, s) && !Past(c, s)
    ensures Taken(s) == s.acc
  {
    NoBytes();
    hide Flatten;
  }
}
