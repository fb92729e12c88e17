/** What the invariant means for a tunnel whose receiver reads the header in step. */
module TunnelInStep {
  import opened Bytes
  import opened Protocol
  import opened Parsers
  import opened Reading
  import opened Framing
  import opened FrameStreams
  import opened Handshake
  import opened Access
  import opened Senders
  import opened Tunnel
  import opened TunnelInvariant

  lemma SecretSize(d: Option<bytes>)
    requires ValidDigest(d) && d.Some?
    ensures |Secret(d)| == HEX_SIZE
  {
  }

  /** The written header is one the parser accepts exactly at its last byte. */
  lemma PreambleTaken(c: Session)
    requires InStep(c) && c.direction.Upload? && c.client.Some?
    ensures HeaderTaken(Preamble(c))
    ensures ParseTrojan(Preamble(c)).addr == Seen(c.request.addr) && ParseTrojan(Preamble(c)).port == c.request.port
  {
    SecretSize(c.client);
    hide Secret, HandshakeBytes, Ask, FullLength, ParseTrojan;
    HandshakeDecodes(Secret(c.client), c.request);
  }

  lemma TakenIsPrefix(c: Session, s: State)
    requires Conserved(c, s)
    ensures Taken(s) <= Everything(c, s.input)
    ensures s.header <= Everything(c, s.input)
  {
    hide InFlight, Everything;
    assert s.header <= Taken(s);
  }

  /** The receiver that got past the header took exactly the header. */
  lemma HeaderInStep(c: Session, s: State)
    requires InStep(c) && Conserved(c, s) && Accepted(c, s) && Past(c, s)
    ensures s.header == Preamble(c)
  {
    if c.direction.Upload? {
      PreambleTaken(c);
      TakenIsPrefix(c, s);
      hide Ask, FullLength, ParseTrojan, Preamble, Conserved;
      PrefixVerdict(TrojanHeader, Preamble(c), Body(c, s.input), s.header);
    }
  }

  /** A receiver still in the header of a client with a secret has not come to its end, nor refused it. */
  lemma HeaderPhaseInStep(c: Session, s: State)
    requires InStep(c) && c.direction.Upload? && c.client.Some?
    requires Conserved(c, s) && Accepted(c, s) && !Past(c, s)
    ensures !Ask(TrojanHeader, s.acc).Refuse?
    ensures Ask(TrojanHeader, s.acc).More? ==> |s.acc| < |Preamble(c)|
  {
    PreambleTaken(c);
    TakenIsPrefix(c, s);
    assert Taken(s) == s.acc;
    hide Ask, FullLength, ParseTrojan, Preamble, Conserved, Taken;
    PrefixVerdict(TrojanHeader, Preamble(c), Body(c, s.input), s.acc);
  }

  /** What was taken after the header, together with what is in flight, is what was read. */
  lemma BodyTaken(c: Session, s: State)
    requires InStep(c) && Conserved(c, s) && Accepted(c, s) && Past(c, s)
    ensures var t := Flatten(s.frames) + s.out + s.acc;
      && t <= Body(c, s.input)
      && (s.phase != Closed(Broke) ==> t + InFlight(s) == Body(c, s.input))
  {
    HeaderInStep(c, s);
    var h, t, body := Preamble(c), Flatten(s.frames) + s.out + s.acc, Body(c, s.input);
    hide Accepted, Body, Preamble, InFlight, Flatten;
    TakenSplits(s);
    if s.phase != Closed(Broke) {
      Reassociate(h, t, InFlight(s));
      CancelLeft(h, t + InFlight(s), body);
    } else {
      PrefixAfter(h, t, body);
    }
  }

  lemma TakenSplits(s: State)
    ensures Taken(s) == s.header + (Flatten(s.frames) + s.out + s.acc)
  {
    hide Flatten;
  }

  lemma PrefixAfter(h: bytes, t: bytes, body: bytes)
    requires h + t <= h + body
    ensures t <= body
  {
    assert t == (h + t)[|h|..] && body == (h + body)[|h|..];
  }

  // ---------------------------------------------------------------- frames

  /** Frames taken one after the other along encoded datagrams are those datagrams. */
  lemma {:induction false} FramesAreFirst(frames: seq<bytes>, taken: seq<Datagram>, ds: seq<Datagram>)
    requires |frames| == |taken| && forall i :: 0 <= i < |frames| ==> FrameTaken(frames[i], taken[i])
    requires AllFramable(ds) && Flatten(frames) <= EncodeFrames(ds)
    ensures |taken| <= |ds| && taken == ds[..|taken|] && Flatten(frames) == EncodeFrames(ds[..|taken|])
    decreases |frames|
  {
    hide FrameTaken, Framable, EncodeFrame;
    if frames != [] {
      var f, rest := frames[0], Flatten(frames[1..]);
      TakenNotEmpty(f, taken[0]);
      assert |f + rest| > 0;
      var more := EncodeFrames(ds[1..]);
      FirstIsFrame(f, taken[0], ds[0], rest, more);
      FramesAreFirst(frames[1..], taken[1..], ds[1..]);
      var k := |taken|;
      assert ds[..k][1..] == ds[1..][..k - 1] && taken == [taken[0]] + taken[1..];
    }
  }

  lemma TakenNotEmpty(f: bytes, d: Datagram)
    requires FrameTaken(f, d)
    ensures f != []
  {
    EmptyWaits({});
    hide Ask;
  }

  lemma FirstIsFrame(f: bytes, taken: Datagram, d: Datagram, rest: bytes, more: bytes)
    requires FrameTaken(f, taken) && Framable(d) && f + rest <= EncodeFrame(d) + more
    ensures f == EncodeFrame(d) && taken == d && rest <= more
  {
    FrameDecodes({}, d);
    hide Ask, FullLength, EncodeFrame, ParseFrame, Framable;
    var e := EncodeFrame(d);
    assert f == (f + rest)[..|f|] == (e + more)[..|f|];
    PrefixVerdict(UdpFrame({}), e, more, f);
    PrefixAfter(f, rest, more);
  }

  lemma FramedIsFramable(c: Session, input: seq<bytes>)
    requires Plausible(c) && InputShape(c, input)
    ensures AllFramable(Framed(c.request, input))
  {
  }

  /** What was taken after the header of a UDP tunnel, together with what is in flight. */
  lemma FramesBody(c: Session, s: State)
    requires InStep(c) && Conserved(c, s) && Accepted(c, s) && Past(c, s) && c.request.command.Udp?
    ensures s.out == []
    ensures var all := EncodeFrames(Framed(c.request, s.input));
      && Flatten(s.frames) + s.acc <= all
      && (s.phase != Closed(Broke) ==> Flatten(s.frames) + s.acc + InFlight(s) == all)
  {
    BodyTaken(c, s);
    assert s.out == [];
    hide Conserved, Accepted, InFlight, Flatten, Framed, EncodeFrames, InStep, Past;
    assert Flatten(s.frames) + [] == Flatten(s.frames);
  }

  /** In step, the datagrams delivered are the first ones framed, and the bytes of the others are ahead. */
  lemma DeliveredInStep(c: Session, s: State)
    requires InStep(c) && Inv(c, s) && Past(c, s) && c.request.command.Udp?
    ensures var ds, k := Framed(c.request, s.input), |s.delivered|;
      && k <= |ds| && s.delivered == ds[..k] && Flatten(s.frames) == EncodeFrames(ds[..k])
      && s.acc <= EncodeFrames(ds[k..])
      && (s.phase != Closed(Broke) ==> s.acc + InFlight(s) == EncodeFrames(ds[k..]))
  {
    InvParts(c, s);
    FramedIsFramable(c, s.input);
    assert FramesTaken(s);
    FramesTakenFirst(s, Framed(c.request, s.input), c);
    hide *;
    FramesBody(c, s);
    var ds, k := Framed(c.request, s.input), |s.delivered|;
    EncodeFramesSplit(ds, k);
    AfterFrames(Flatten(s.frames), s.acc, InFlight(s), EncodeFrames(ds[k..]));
  }

  lemma FramesTakenFirst(s: State, ds: seq<Datagram>, c: Session)
    requires InStep(c) && Conserved(c, s) && Accepted(c, s) && Past(c, s) && c.request.command.Udp? && FramesTaken(s)
    requires ds == Framed(c.request, s.input) && AllFramable(ds)
    ensures var k := |s.delivered|;
      k <= |ds| && s.delivered == ds[..k] && Flatten(s.frames) == EncodeFrames(ds[..k])
  {
    FramesBody(c, s);
    hide Conserved, Accepted, InFlight, Flatten, FrameTaken, AllFramable, Framed, EncodeFrames, Past, InStep;
    FramesAreFirst(s.frames, s.delivered, ds);
  }

  lemma EncodeFramesSplit(ds: seq<Datagram>, k: nat)
    requires k <= |ds|
    ensures EncodeFrames(ds) == EncodeFrames(ds[..k]) + EncodeFrames(ds[k..])
  {
    assert ds == ds[..k] + ds[k..];
    EncodeFramesConcat(ds[..k], ds[k..]);
  }

  lemma AfterFrames(f: bytes, acc: bytes, x: bytes, rest: bytes)
    requires f + acc <= f + rest
    ensures acc <= rest && (f + acc + x == f + rest ==> acc + x == rest)
  {
    PrefixAfter(f, acc, rest);
    Reassociate(f, acc, x);
    if f + acc + x == f + rest { CancelLeft(f, acc + x, rest); }
  }

  /** In step, a receiver of frames never refuses, and between frames only when it has them all. */
  lemma AccInStep(c: Session, s: State)
    requires InStep(c) && Inv(c, s) && Past(c, s) && c.request.command.Udp?
    ensures var ds, k := Framed(c.request, s.input), |s.delivered|;
      && k <= |ds|
      && (k == |ds| ==> s.acc == [] && (s.phase != Closed(Broke) ==> InFlight(s) == []))
      && (k < |ds| && Ask(UdpFrame({}), s.acc).More? ==>
          s.acc < EncodeFrame(ds[k]) && |s.acc| + Ask(UdpFrame({}), s.acc).n <= |EncodeFrame(ds[k])|)
      && !Ask(UdpFrame({}), s.acc).Refuse?
  {
    var ds, k := Framed(c.request, s.input), |s.delivered|;
    DeliveredInStep(c, s);
    FramedIsFramable(c, s.input);
    EmptyWaits({});
    hide Inv, Ask, EncodeFrame, FullLength, InFlight, Framable, Framed, FrameTaken;
    if k == |ds| {
      assert ds[k..] == [];
    } else {
      FrameDecodes({}, ds[k]);
      assert ds[k..][1..] == ds[k + 1..];
      PrefixVerdict(UdpFrame({}), EncodeFrame(ds[k]), EncodeFrames(ds[k + 1..]), s.acc);
    }
  }
}
