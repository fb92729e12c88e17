/**
 An accident. A receiver that has put out every datagram may still be out of step: for the name and payload
 below the frame looks the same eight bytes early. So it takes an idle receiver, not merely an empty
 tunnel, to conclude that a name is aligned.
 */
module TunnelEcho {
  import opened Bytes
  import opened Protocol
  import opened Parsers
  import opened Reading
  import opened Framing
  import opened Handshake
  import opened Access
  import opened Senders
  import opened Tunnel
  import opened TunnelInvariant
  import opened TunnelSteps
  import opened TunnelInStep
  import opened TunnelTheorems
  import opened TunnelFlow
  import opened TunnelNames

  const NAME: bytes := [1, 0, 1, 0, 13, 10, 3, 10, 1, 0]
  const TAIL: bytes := [1, 0, 1, 0, 13, 10, 13, 10]
  const FRONT: bytes :=
    [3, 10, 1, 0, 1, 0, 13, 10] + ([3, 10] + NAME + [1, 0, 13, 10, 13, 10])
  const PAYLOAD: bytes := seq(3338, i requires 0 <= i => TAIL[i % 8])

  predicate Echoes(c: Session) {
    && Plausible(c) && c.direction.Upload? && c.request.command.Udp? && Authentic(c)
    && c.request.addr == Domain(NAME) && c.request.port == 256
  }

  lemma EchoPieces(n: bytes)
    ensures [3] + ([10] + n) + [1, 0] + [13, 10] + CRLF == [3, 10] + n + [1, 0, 13, 10, 13, 10]
  {
  }

  lemma EchoHead(r: InboundRequest)
    requires r.addr == Domain(NAME) && r.port == 256 && r.atype == DomainName
    ensures UdpHead(r, PAYLOAD) == [3, 10] + NAME + [1, 0, 13, 10, 13, 10]
  {
    assert ToBigEndian(2, 256) == [1, 0] && ToBigEndian(2, 3338) == [13, 10];
    EchoPieces(NAME);
    WrittenHeader(r.addr, 256, 3338);
    assert |PAYLOAD| == 3338 && AtypeByte(DomainName) == 3 && AddressField(r.addr) == [10] + NAME;
    hide ToBigEndian, AddressField, UdpHeaderBytes;
  }

  /** The payload is the same again eight bytes later. */
  lemma EchoShift(a: bytes)
    requires |a| == 26 && a[18..] == TAIL
    ensures (a + PAYLOAD[..3330])[18..] == PAYLOAD
  {
    var f := a + PAYLOAD[..3330];
    forall k | 0 <= k < 3338 ensures f[18..][k] == PAYLOAD[k] {
      if k < 8 {
        assert f[18..][k] == a[18..][k];
      } else {
        assert f[18..][k] == PAYLOAD[k - 8] && (k - 8) % 8 == k % 8;
      }
    }
  }

  lemma EchoParses(f: bytes, d: Datagram)
    requires d == Datagram(Domain(NAME), 256, PAYLOAD)
    requires |f| == 3356 && f[0] == 3 && f[1] == 10 && f[2..12] == NAME
    requires f[12] == 1 && f[13] == 0 && f[14] == 13 && f[15] == 10 && f[18..] == PAYLOAD
    ensures FrameTaken(f, d)
  {
    PortOf(f, 12);
    PortOf(f, 14);
    assert f[18..3356] == f[18..];
  }

  lemma EchoFront()
    ensures |FRONT| == 26 && FRONT[18..] == TAIL && FRONT[2..12] == NAME
    ensures FRONT[0] == 3 && FRONT[1] == 10
    ensures FRONT[12] == 1 && FRONT[13] == 0 && FRONT[14] == 13 && FRONT[15] == 10
  {
  }

  /** Eight bytes early the frame of this payload looks just the same. */
  lemma EchoFrame(a: bytes, b: bytes, d: Datagram)
    requires d == Datagram(Domain(NAME), 256, PAYLOAD)
    requires a == FRONT && b == PAYLOAD[..3330]
    ensures FrameTaken(a + b, d)
  {
    EchoFront();
    EchoShift(a);
    hide *;
    var f := a + b;
    assert |f| == 3356 && f[2..12] == a[2..12];
    assert f[0] == a[0] && f[1] == a[1] && f[12] == a[12] && f[13] == a[13] && f[14] == a[14] && f[15] == a[15];
    EchoParses(f, d);
  }

  lemma EchoTail()
    ensures PAYLOAD == PAYLOAD[..3330] + PAYLOAD[3330..]
    ensures Ask(UdpFrame({}), PAYLOAD[3330..]).More?
  {
    assert PAYLOAD[3330..][0] == 1 && |PAYLOAD[3330..]| == 8;
  }

  /** The last eight bytes of the header. */
  lemma EchoPreamble(c: Session)
    requires Echoes(c)
    ensures |Preamble(c)| == 74 && HeaderEnd(c.request) == 66
    ensures Preamble(c)[66..] == [3, 10, 1, 0, 1, 0, 13, 10]
  {
    var p := Preamble(c);
    NameHeader(c, []);
    SecretSize(c.client);
    DomainBytes(Secret(c.client), c.request, []);
    NoTail(p, []);
    hide HandshakeBytes, Secret;
    assert p[60..70] == NAME;
    assert p[66] == p[60..70][6] && p[67] == p[60..70][7] && p[68] == p[60..70][8] && p[69] == p[60..70][9];
  }

  lemma EchoBody(c: Session)
    requires Echoes(c)
    ensures Framed(c.request, [PAYLOAD]) == [Datagram(Domain(NAME), 256, PAYLOAD)]
    ensures Body(c, [PAYLOAD]) == [3, 10] + NAME + [1, 0, 13, 10, 13, 10] + PAYLOAD
  {
    var d := Datagram(Domain(NAME), 256, PAYLOAD);
    EchoHead(c.request);
    assert Framed(c.request, [PAYLOAD]) == [d];
    assert EncodeFrame(d) == UdpHead(c.request, PAYLOAD) + PAYLOAD;
    hide UdpHead, EncodeFrame;
    assert EncodeFrames([d]) == EncodeFrame(d) + EncodeFrames([]) == EncodeFrame(d);
  }

  lemma EchoRest(c: Session)
    requires Echoes(c)
    ensures AfterHeader(c, Everything(c, [PAYLOAD])) == Some(FRONT + PAYLOAD[..3330] + PAYLOAD[3330..])
  {
    EchoServes(c);
    EchoFrontIs();
    hide *;
    var p, body, x := Preamble(c), Body(c, [PAYLOAD]), PAYLOAD;
    var w, h := p[66..], [3, 10] + NAME + [1, 0, 13, 10, 13, 10];
    EchoPreamble(c);
    EchoBody(c);
    EchoTail();
    EchoAfter(c, body);
    DropInto(p, 66, body);
    Reassociate(w, h, x);
    Reassociate(w + h, x[..3330], x[3330..]);
  }

  lemma EchoServes(c: Session)
    requires Echoes(c)
    ensures Everything(c, [PAYLOAD]) == Preamble(c) + Body(c, [PAYLOAD])
  {
  }

  lemma EchoFrontIs()
    ensures FRONT == [3, 10, 1, 0, 1, 0, 13, 10] + ([3, 10] + NAME + [1, 0, 13, 10, 13, 10])
  {
  }

  lemma EchoAfter(c: Session, body: bytes)
    requires Echoes(c)
    ensures AfterHeader(c, Preamble(c) + body) == Some((Preamble(c) + body)[66..])
  {
    EchoPreamble(c);
    NameHeader(c, body);
    hide Ask, FullLength, Preamble, HeaderEnd;
  }

  lemma EchoReference(c: Session)
    requires Echoes(c)
    ensures Deframed(c, [PAYLOAD]) == Framed(c.request, [PAYLOAD])
  {
    var d := Datagram(Domain(NAME), 256, PAYLOAD);
    EchoRest(c);
    EchoBody(c);
    EchoTail();
    EchoFrame(FRONT, PAYLOAD[..3330], d);
    hide FrameTaken, AfterHeader, Everything, Ask;
    DeframeFirst(FRONT + PAYLOAD[..3330], d, PAYLOAD[3330..]);
  }

  /** What the receiver has not put out after that datagram. */
  lemma EchoLeft(c: Session, s: State) returns (x: bytes)
    requires Echoes(c) && Inv(c, s) && s.input == [PAYLOAD] && s.delivered == Framed(c.request, [PAYLOAD])
    ensures s.acc + x == PAYLOAD[3330..]
  {
    var f := Flatten(s.frames);
    InvParts(c, s);
    OutputsByCommand(c, s);
    EchoBody(c);
    EchoLengths(c, s);
    EchoRest(c);
    hide Inv, Conserved, Ordered, InputShape, Accepted, FramesTaken, Control, AfterHeader, Everything, Flatten;
    hide EncodeFrames, Framed, Plausible, Authentic;
    x := SplitAll(c, s);
    AfterTakenHeader(c, s, f + s.out + s.acc + x);
    DropEmpty(f, s.out, s.acc, x);
    CancelEqual(f, s.acc + x, FRONT + PAYLOAD[..3330], PAYLOAD[3330..]);
  }

  lemma EchoLengths(c: Session, s: State)
    requires Echoes(c) && FramesTaken(s) && s.delivered == [Datagram(Domain(NAME), 256, PAYLOAD)]
    ensures |Flatten(s.frames)| == |FRONT + PAYLOAD[..3330]|
  {
    FramesTakenLength(s.frames, s.delivered);
    EchoBody(c);
    EchoFront();
    hide FrameTaken, Flatten;
  }

  lemma EchoPast(c: Session, s: State)
    requires Echoes(c) && Inv(c, s) && s.input == [PAYLOAD] && s.delivered == Framed(c.request, [PAYLOAD])
    ensures s.phase == Closed(Refused) ==> Ask(UdpFrame({}), s.acc).Refuse?
  {
    hide Inv, Conserved, Ordered, InputShape, Accepted, FramesTaken, Ask, Plausible, Authentic, Framed, SawEmpty;
    InvParts(c, s);
    OutputsByCommand(c, s);
    EchoBody(c);
  }

  /** After that datagram the receiver waits inside a frame; it does not refuse. */
  lemma EchoNotRefused(c: Session, s: State)
    requires Echoes(c) && Inv(c, s) && s.input == [PAYLOAD] && s.delivered == Framed(c.request, [PAYLOAD])
    ensures s.phase != Closed(Refused)
  {
    EchoPast(c, s);
    hide *;
    if s.phase == Closed(Refused) {
      var x := EchoLeft(c, s);
      EchoTail();
      RefuseExtends(s.acc, x);
    }
  }

  lemma CancelEqual(a: bytes, b: bytes, p: bytes, q: bytes)
    requires a + b == p + q && |a| == |p|
    ensures b == q
  {
    assert b == (a + b)[|a|..] && q == (p + q)[|p|..];
  }

  /** A run that reads this payload and ends with nothing on its way, the receiver at work and exactly the
      datagram read put out, although the name is out of step. */
  lemma QuiescentIsNotEnough(c: Session) returns (s: State)
    requires Echoes(c)
    ensures !Aligned(c.request.addr)
    ensures Reachable(c, s) && s.input == [PAYLOAD] && !s.phase.Closed? && Quiescent(s) && AllOut(c, s)
  {
    EchoReference(c);
    EchoReadable(c);
    hide *;
    var s0 := ReachInput(c, [PAYLOAD]);
    ReachedInv(c, s0);
    var more := Flow(c, s0);
    s := Final(c, s0, more);
    ReachMore(c, s0, more);
    FlowIsReference(c, s);
    ReferenceAllOut(c, s);
    EchoNotRefused(c, s);
    RestIsQuiescent(c, s);
  }

  lemma EchoReadable(c: Session)
    requires Echoes(c)
    ensures InputShape(c, [PAYLOAD]) && NoEmptyRead([PAYLOAD]) && !Start(c).phase.Closed?
    ensures Plausible(c) && Authentic(c) && c.request.command.Udp? && !Aligned(c.request.addr)
  {
    hide Plausible, Authentic, Preamble;
  }

  lemma ReferenceAllOut(c: Session, s: State)
    requires ReferenceOut(c, s) && c.request.command.Udp? && Deframed(c, s.input) == Framed(c.request, s.input)
    ensures AllOut(c, s) && s.delivered == Framed(c.request, s.input)
  {
    hide Deframed;
  }
}
