/**
 Domain names in an upload. The header that `handshake` writes for a name has no length byte, so the server
 takes the name's first byte for one. This file says exactly what still works.
 */
module TunnelNames {
  import opened Bytes
  import opened Protocol
  import opened Parsers
  import opened Reading
  import opened Framing
  import opened Handshake
  import opened Access
  import opened Senders
  import opened Tunnel
  import opened TunnelInvariant
  import opened TunnelSteps
  import opened TunnelInStep
  import opened TunnelHunks
  import opened TunnelTheorems
  import opened TunnelLiveness
  import opened TunnelFlow

  /** A request an upload can serve: a TCP stream to an IP address, or datagrams to an aligned address. */
  predicate Deliverable(r: InboundRequest) {
    if r.command.Udp? then Aligned(r.addr) else !r.addr.Domain?
  }

  // ---------------------------------------------------------------- where the header ends

  /** The byte after the type of a written name, which the server takes for the length. */
  function FirstByte(r: InboundRequest): byte
    requires r.addr.Domain?
  {
    if r.addr.name == [] then r.port / 256 else r.addr.name[0]
  }

  /** Where the server believes the header of a name to end. */
  function HeaderEnd(r: InboundRequest): nat
    requires r.addr.Domain?
  {
    HEX_SIZE + 9 + FirstByte(r)
  }

  /** The header from the name on. */
  lemma PreambleFromName(c: Session)
    requires Plausible(c) && c.direction.Upload? && c.client.Some? && c.request.addr.Domain?
    ensures |Preamble(c)| == HEX_SIZE + 8 + |c.request.addr.name|
    ensures Preamble(c)[HEX_SIZE + 4..] == c.request.addr.name + ToBigEndian(2, c.request.port) + CRLF
  {
    var r := c.request;
    SecretSize(c.client);
    var front := Secret(c.client) + CRLF + [CommandByte(r.command)] + [AtypeByte(r.atype)];
    assert |front| == HEX_SIZE + 4;
    hide Secret, ToBigEndian;
    assert Preamble(c) == front + (r.addr.name + ToBigEndian(2, r.port) + CRLF);
  }

  lemma NameHeader(c: Session, rest: bytes)
    requires Plausible(c) && c.direction.Upload? && c.client.Some? && c.request.addr.Domain?
    ensures var all := Preamble(c) + rest;
      && (Ask(TrojanHeader, all).Full? <==> HeaderEnd(c.request) <= |all|)
      && (Ask(TrojanHeader, all).Full? ==> FullLength(TrojanHeader, all) == HeaderEnd(c.request))
    ensures |Preamble(c)| == HEX_SIZE + 8 + |c.request.addr.name|
    ensures HeaderEnd(c.request) == |Preamble(c)| <==> Aligned(c.request.addr)
  {
    var r, all := c.request, Preamble(c) + rest;
    SecretSize(c.client);
    DomainBytes(Secret(c.client), r, rest);
    hide HandshakeBytes, Secret;
    assert r.addr.name != [] ==> all[HEX_SIZE + 4] == all[HEX_SIZE + 4..HEX_SIZE + 4 + |r.addr.name|][0];
  }

  lemma NameHeaderLength(c: Session, h: bytes, body: bytes)
    requires Plausible(c) && c.direction.Upload? && c.client.Some? && c.request.addr.Domain?
    requires HeaderTaken(h) && h <= Preamble(c) + body
    ensures |h| == |Preamble(c)| <==> Aligned(c.request.addr)
  {
    var all := Preamble(c) + body;
    NameHeader(c, body);
    hide Ask, FullLength, Preamble;
    assert all == h + all[|h|..];
    FullExtends(TrojanHeader, h, all[|h|..]);
  }

  lemma HeaderLength(c: Session, s: State)
    requires Plausible(c) && c.direction.Upload? && Inv(c, s) && Past(c, s)
    ensures |s.header| == |Preamble(c)| <==> Aligned(c.request.addr)
  {
    InvParts(c, s);
    hide Inv, Conserved, Ordered, InputShape, FramesTaken, Control, Preamble, Body, HeaderTaken, ParseTrojan, Plausible;
    if c.request.addr.Domain? {
      TakenIsPrefix(c, s);
      NameHeaderLength(c, s.header, Body(c, s.input));
    } else {
      HeaderInStep(c, s);
    }
  }

  // ---------------------------------------------------------------- TCP: the end of the data

  /** In every run of every TCP upload whose copy ended by itself, whatever the address: exactly the bytes read were
      copied if and only if the address is aligned. */
  lemma DrainedIffAligned(c: Session, steps: seq<Step>)
    requires Plausible(c) && Runs(c, Start(c), steps)
    ensures var s := Final(c, Start(c), steps);
      s.phase == Closed(Drained) ==> (s.out == Flatten(s.input) <==> Aligned(c.request.addr))
  {
    var s := Final(c, Start(c), steps);
    ReachableInv(c, steps);
    hide Runs, Final, Start;
    if s.phase == Closed(Drained) {
      DrainedTookAll(c, s);
      HeaderLength(c, s);
      hide Inv, Preamble, Flatten;
      assert |s.header| + |s.out| == |Preamble(c)| + |Flatten(s.input)|;
      if Aligned(c.request.addr) {
        HeaderInStep(c, s);
        CancelLeft(s.header, s.out, Flatten(s.input));
      }
    }
  }

  // ---------------------------------------------------------------- exactly when an upload works

  /** A frame that was taken is as long as the encoding of its datagram. */
  lemma FrameTakenLength(f: bytes, d: Datagram)
    requires FrameTaken(f, d)
    ensures |f| == |EncodeFrame(d)|
  {
    AddressCanonical(f);
  }

  lemma {:induction false} FramesTakenLength(frames: seq<bytes>, ds: seq<Datagram>)
    requires |frames| == |ds| && forall i :: 0 <= i < |frames| ==> FrameTaken(frames[i], ds[i])
    ensures |Flatten(frames)| == |EncodeFrames(ds)|
  {
    hide FrameTaken, EncodeFrame;
    if frames != [] {
      FrameTakenLength(frames[0], ds[0]);
      FramesTakenLength(frames[1..], ds[1..]);
    }
  }

  /** In an idle state the header, the frames and the copied bytes are all that was sent. */
  lemma IdleTaken(c: Session, s: State)
    requires Plausible(c) && c.direction.Upload? && Inv(c, s) && !s.phase.Closed? && Idle(s)
    ensures Past(c, s)
    ensures |s.header| + |EncodeFrames(s.delivered)| + |s.out| == |Preamble(c)| + |Body(c, s.input)|
  {
    InvParts(c, s);
    NoBytes();
    FramesTakenLength(s.frames, s.delivered);
    PreambleNotEmpty(c);
    assert |Taken(s)| == |s.header| + |EncodeFrames(s.delivered)| + |s.out|;
    assert |InFlight(s)| == 0;
    hide Inv, Preamble, Body, EncodeFrames, Ask, FrameTaken, Ordered, InputShape, InFlight, ParseTrojan, HeaderTaken;
  }

  /** In every idle state of every upload: everything read is out, and at the endpoint asked for, if and
      only if the request is deliverable. */
  lemma IdleWorksIffDeliverable(c: Session, s: State)
    requires Plausible(c) && c.direction.Upload? && !c.request.command.Bind?
    requires Inv(c, s) && !s.phase.Closed? && Idle(s)
    ensures AllOut(c, s) <==> Deliverable(c.request)
  {
    IdleTaken(c, s);
    InvParts(c, s);
    HeaderLength(c, s);
    OutputsByCommand(c, s);
    assert Authentic(c);
    if Aligned(c.request.addr) {
      HeaderInStep(c, s);
      PreambleTaken(c);
      RestIsComplete(c, s);
      assert c.request.addr.Domain? ==> |c.request.addr.name[1..]| < |c.request.addr.name|;
      hide Inv, Conserved, Ordered, InputShape, FramesTaken, Control, HeaderTaken, ParseTrojan, CameOut, Preamble;
    } else {
      assert |s.header| != |Preamble(c)|;
      hide Inv, Conserved, Ordered, InputShape, FramesTaken, Control, Accepted, Preamble, Framed, EncodeFrames, Flatten;
    }
  }

  /** For every authentic upload and everything a client can read, up to the end of its stream and beyond: there
      is a run that reads exactly this input, ends with no byte on its way and the receiver idle, and has put
      out everything at the endpoint asked for, if and only if the request is deliverable. */
  lemma UploadWorksIffDeliverable(c: Session, input: seq<bytes>)
    requires Plausible(c) && c.direction.Upload? && !c.request.command.Bind? && Authentic(c) && InputShape(c, input)
    ensures (exists s :: Reachable(c, s) && s.input == input && !s.phase.Closed? && Idle(s) && AllOut(c, s))
      <==> Deliverable(c.request)
  {
    hide Reachable, Inv, AllOut, InputShape, Idle;
    if Deliverable(c.request) {
      var s := ReachIdleWith(c, input);
      IdleWorksIffDeliverable(c, s);
    }
    forall s | Reachable(c, s) && s.input == input && !s.phase.Closed? && Idle(s) && AllOut(c, s)
      ensures Deliverable(c.request)
    {
      ReachedInv(c, s);
      IdleWorksIffDeliverable(c, s);
    }
  }

  lemma ReachIdleWith(c: Session, input: seq<bytes>) returns (s: State)
    requires InStep(c) && c.direction.Upload? && !c.request.command.Bind? && Authentic(c) && InputShape(c, input)
    ensures Reachable(c, s) && Inv(c, s) && s.input == input && !s.phase.Closed? && Idle(s)
  {
    hide Reachable, Inv, Runs, Final, Blocked, Idle, Quiescent, InputShape, CameOut, Past;
    var s0 := ReachInput(c, input);
    ReachedInv(c, s0);
    NothingTaken(c, s0);
    if Blocked(s0) { var m := BlockedMeansEnd(c, s0); }
    var more := CatchUp(c, s0);
    s := Final(c, s0, more);
    ReachMore(c, s0, more);
    if Blocked(s) {
      var m := BlockedMeansEnd(c, s);
      CameOutIsRest(c, s);
    } else {
      QuiescentIsRest(s);
      RestIsComplete(c, s);
    }
  }

  lemma NothingTaken(c: Session, s: State)
    requires Inv(c, s) && s.phase.Header?
    ensures !Past(c, s)
  {
    InvParts(c, s);
    hide Inv, Conserved, Ordered, InputShape, Accepted, FramesTaken, Ask;
  }

  // ---------------------------------------------------------------- TCP: safety

  /** A payload that no proper tail of itself begins. */
  const MARKER: bytes := seq(256, _ => 1) + [0]

  lemma MarkerTail(k: nat)
    requires 0 < k <= 256
    ensures !(MARKER[k..] <= MARKER)
  {
    assert MARKER[k..][256 - k] == 0 && MARKER[256 - k] == 1;
  }

  /** An input for which a TCP upload to a name out of step copies other bytes. */
  lemma CopyOutOfStep(c: Session) returns (input: seq<bytes>)
    requires Plausible(c) && c.direction.Upload? && c.client.Some? && c.request.command.Connect?
    requires !Aligned(c.request.addr)
    ensures InputShape(c, input) && !ReferenceSafe(c, input)
  {
    var p, e := Preamble(c), HeaderEnd(c.request);
    if e < |p| {
      input := [];
      NameHeader(c, []);
      NoBytes();
      NoTail(p, []);
      hide Ask, FullLength, Preamble;
      assert |p[e..]| > 0;
    } else {
      input := [MARKER];
      NameHeader(c, MARKER);
      hide Ask, FullLength, Preamble, HeaderEnd;
      assert Flatten([MARKER]) == MARKER + Flatten([]) == MARKER;
      assert (p + MARKER)[e..] == MARKER[e - |p|..];
      MarkerTail(e - |p|);
    }
  }

  /** For every authentic TCP upload: in every reachable state the bytes copied are a prefix of the bytes
      read if and only if the address is aligned. */
  lemma TcpSafeIffAligned(c: Session)
    requires Plausible(c) && c.direction.Upload? && c.request.command.Connect? && Authentic(c)
    ensures (forall s :: Reachable(c, s) ==> Safe(c, s)) <==> Aligned(c.request.addr)
  {
    hide Reachable, Safe, Inv;
    if Aligned(c.request.addr) {
      forall s | Reachable(c, s) ensures Safe(c, s) {
        ReachedInv(c, s);
        SafeInStep(c, s);
      }
    } else {
      var input := CopyOutOfStep(c);
      SafeIffReferenceIs(c, input);
    }
  }

  lemma SafeInStep(c: Session, s: State)
    requires InStep(c) && Inv(c, s)
    ensures Safe(c, s)
  {
    hide Inv, InStep;
    DeliveredArePrefix(c, s);
    OutIsPrefix(c, s);
  }

  // ---------------------------------------------------------------- UDP: a datagram from nowhere

  const PHANTOM: bytes := [0, 9, 9, 13, 10, 1, 127, 0, 0, 1, 0, 53, 0, 0, 13, 10]

  /** What the server finds behind the header of this name. */
  lemma PhantomRest(c: Session) returns (rest: bytes)
    requires Plausible(c) && c.direction.Upload? && c.client.Some? && c.request.addr == Domain(PHANTOM)
    ensures AfterHeader(c, Preamble(c)) == Some(rest)
    ensures |rest| == 15 && rest[0] == 1 && rest[7] == 0 && rest[8] == 0
  {
    var p, z := Preamble(c), ToBigEndian(2, c.request.port) + CRLF;
    PreambleFromName(c);
    PhantomEnd(c);
    assert |z| == 4;
    hide *;
    rest := p[HEX_SIZE + 9..];
    DropTwice(p, HEX_SIZE + 4, 5);
    Reassociate(PHANTOM, ToBigEndian(2, c.request.port), CRLF);
    PhantomTail(z);
  }

  lemma PhantomEnd(c: Session)
    requires Plausible(c) && c.direction.Upload? && c.client.Some? && c.request.addr == Domain(PHANTOM)
    ensures |Preamble(c)| == HEX_SIZE + 24 && AfterHeader(c, Preamble(c)) == Some(Preamble(c)[HEX_SIZE + 9..])
  {
    NameHeader(c, []);
    NoTail(Preamble(c), []);
    assert |PHANTOM| == 16 && FirstByte(c.request) == 0;
    hide Ask, FullLength, Preamble;
  }

  lemma PhantomTail(z: bytes)
    requires |z| == 4
    ensures var rest := (PHANTOM + z)[5..]; |rest| == 15 && rest[0] == 1 && rest[7] == 0 && rest[8] == 0
  {
  }

  lemma PhantomParses(rest: bytes)
    requires |rest| == 15 && rest[0] == 1 && rest[7] == 0 && rest[8] == 0
    ensures Ask(UdpFrame({}), rest).Full?
  {
    PortOf(rest, 7);
  }

  /** The header of this name holds a whole frame. */
  lemma PhantomFrame(c: Session)
    requires Plausible(c) && c.direction.Upload? && c.client.Some? && c.request.command.Udp?
    requires c.request.addr == Domain(PHANTOM)
    ensures Deframed(c, []) != []
  {
    assert Framed(c.request, []) == [];
    NoTail(Preamble(c), []);
    hide AfterHeader, Ask, Preamble, Plausible;
    var rest := PhantomRest(c);
    PhantomParses(rest);
  }

  /** So safety fails for UDP uploads to some names out of step: for this one a datagram comes out although
      nothing was read. */
  lemma DatagramFromNowhere(c: Session) returns (s: State)
    requires Plausible(c) && c.direction.Upload? && c.request.command.Udp? && Authentic(c)
    requires c.request.addr == Domain(PHANTOM)
    ensures Reachable(c, s) && s.input == [] && s.delivered != []
  {
    PhantomFrame(c);
    hide Reachable, Deframed;
    var s0 := ReachInput(c, []);
    s := ReferenceIsReached(c, s0);
  }
}
