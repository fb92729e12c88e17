/**
 What comes out of a tunnel, in step or not, is determined by the bytes sent: a reference that parses the
 whole byte stream at once bounds every interleaving, and some interleaving reaches it.
 */
module TunnelFlow {
  import opened Bytes
  import opened Protocol
  import opened Parsers
  import opened Transport
  import opened Reading
  import opened Framing
  import opened FrameStreams
  import opened Handshake
  import opened Access
  import opened Senders
  import opened Tunnel
  import opened TunnelInvariant
  import opened TunnelSteps
  import opened TunnelInStep
  import opened TunnelHunks
  import opened TunnelTheorems
  import opened TunnelLiveness

  // ---------------------------------------------------------------- the reference

  lemma FrameLength(s: bytes)
    requires Ask(UdpFrame({}), s).Full?
    ensures 0 < FullLength(UdpFrame({}), s) <= |s|
  {
  }

  /** The datagrams at the front of a byte string. */
  function Deframe(s: bytes): seq<Datagram>
    decreases |s|
  {
    if !Ask(UdpFrame({}), s).Full? then []
    else
      FrameLength(s);
      [ParseFrame(s)] + Deframe(s[FullLength(UdpFrame({}), s)..])
  }

  /** The bytes after the header, if the header is complete. */
  function AfterHeader(c: Session, all: bytes): Option<bytes> {
    if c.direction.Download? then Some(all)
    else if Ask(TrojanHeader, all).Full? then
      FullLengthFits(TrojanHeader, all);
      Some(all[FullLength(TrojanHeader, all)..])
    else None
  }

  function Deframed(c: Session, input: seq<bytes>): seq<Datagram> {
    match AfterHeader(c, Everything(c, input))
    case None => []
    case Some(rest) => Deframe(rest)
  }

  function Copied(c: Session, input: seq<bytes>): bytes {
    match AfterHeader(c, Everything(c, input))
    case None => []
    case Some(rest) => rest
  }

  // ---------------------------------------------------------------- the reference on whole frames

  lemma FrameExtends(f: bytes, d: Datagram, x: bytes)
    requires FrameTaken(f, d)
    ensures Ask(UdpFrame({}), f + x).Full? && FullLength(UdpFrame({}), f + x) == |f| && ParseFrame(f + x) == d
  {
    FullExtends(UdpFrame({}), f, x);
    UdpHeaderExtends(f, x);
    var h := ParseUdpHeader(f);
    assert (f + x)[h.end..h.end + h.size] == f[h.end..h.end + h.size];
  }

  lemma DeframeFirst(f: bytes, d: Datagram, x: bytes)
    requires FrameTaken(f, d)
    ensures Deframe(f + x) == [d] + Deframe(x)
  {
    FrameExtends(f, d, x);
    hide Ask, FullLength, ParseFrame;
    assert (f + x)[|f|..] == x;
  }

  lemma {:induction false} DeframeFrames(frames: seq<bytes>, ds: seq<Datagram>, x: bytes)
    requires |frames| == |ds| && forall i :: 0 <= i < |frames| ==> FrameTaken(frames[i], ds[i])
    ensures Deframe(Flatten(frames) + x) == ds + Deframe(x)
    decreases |frames|
  {
    hide FrameTaken, Deframe;
    if frames == [] {
      assert [] + x == x;
    } else {
      var f, rest := frames[0], Flatten(frames[1..]);
      Reassociate(f, rest, x);
      DeframeFirst(f, ds[0], rest + x);
      DeframeFrames(frames[1..], ds[1..], x);
      assert ds == [ds[0]] + ds[1..];
      assert [ds[0]] + (ds[1..] + Deframe(x)) == ds + Deframe(x);
    }
  }

  /** The reference inverts the encoder. */
  lemma {:induction false} DeframeEncodes(ds: seq<Datagram>)
    requires AllFramable(ds)
    ensures Deframe(EncodeFrames(ds)) == ds
  {
    hide Framable, EncodeFrame;
    if ds == [] {
      EmptyWaits({});
    } else {
      FrameDecodes({}, ds[0]);
      DeframeFirst(EncodeFrame(ds[0]), ds[0], EncodeFrames(ds[1..]));
      DeframeEncodes(ds[1..]);
    }
  }

  /** What is refused stays refused whatever follows. */
  lemma RefuseExtends(acc: bytes, x: bytes)
    requires Ask(UdpFrame({}), acc).Refuse?
    ensures Ask(UdpFrame({}), acc + x).Refuse?
  {
    if AskEndpoint(acc, 0, true, 3).Full? {
      UdpHeaderExtends(acc, x);
    } else {
      assert (acc + x)[0] == acc[0];
    }
  }

  // ---------------------------------------------------------------- every run

  lemma AfterTakenHeader(c: Session, s: State, rest: bytes)
    requires Accepted(c, s) && Past(c, s) && Everything(c, s.input) == s.header + rest
    ensures AfterHeader(c, Everything(c, s.input)) == Some(rest)
  {
    if c.direction.Upload? {
      FullExtends(TrojanHeader, s.header, rest);
      hide Ask, FullLength, ParseTrojan, Everything;
      assert (s.header + rest)[|s.header|..] == rest;
    } else {
      assert [] + rest == rest;
    }
  }

  /** Everything sent, as what was taken and what was not. */
  lemma SplitAll(c: Session, s: State) returns (x: bytes)
    requires Conserved(c, s)
    ensures Everything(c, s.input) == s.header + (Flatten(s.frames) + s.out + s.acc + x)
    ensures s.phase != Closed(Broke) ==> x == InFlight(s)
  {
    hide Everything, InFlight;
    TakenIsPrefix(c, s);
    x := Everything(c, s.input)[|Taken(s)|..];
    assert Everything(c, s.input) == Taken(s) + x;
    TakenSplits(s);
    hide Taken, Flatten;
    Reassociate(s.header, Flatten(s.frames) + s.out + s.acc, x);
  }

  /** In every state, in step or not: what has come out is what the reference makes of the bytes sent, except for
      what it makes of the bytes not yet put out. */
  lemma OutIsReference(c: Session, s: State) returns (x: bytes)
    requires Plausible(c) && Inv(c, s) && Past(c, s)
    ensures s.phase != Closed(Broke) ==> x == InFlight(s)
    ensures c.request.command.Udp? ==> Deframed(c, s.input) == s.delivered + Deframe(s.acc + x)
    ensures c.request.command.Connect? ==> Copied(c, s.input) == s.out + (s.acc + x)
  {
    InvParts(c, s);
    OutputsByCommand(c, s);
    x := SplitAll(c, s);
    var f := Flatten(s.frames);
    assert FramesTaken(s);
    assert c.request.command.Connect? ==> s.frames == [];
    AfterTakenHeader(c, s, f + s.out + s.acc + x);
    hide Inv, Conserved, Accepted, Ordered, InputShape, Control, Everything, AfterHeader, Deframe, InFlight, FrameTaken;
    hide Past;
    if c.request.command.Udp? {
      DropEmpty(f, s.out, s.acc, x);
      DeframeFrames(s.frames, s.delivered, s.acc + x);
    } else if c.request.command.Connect? {
      NoBytes();
      DropFront(f, s.out, s.acc, x);
    }
  }

  lemma DropEmpty(f: bytes, e: bytes, a: bytes, x: bytes)
    requires e == []
    ensures f + e + a + x == f + (a + x)
  {
  }

  lemma DropFront(e: bytes, o: bytes, a: bytes, x: bytes)
    requires e == []
    ensures e + o + a + x == o + (a + x)
  {
  }

  /** In every run of every session, in step or not, nothing comes out but what parsing the bytes sent gives,
      in that order: interleaving, chunking, errors and crashes only decide how much of it. */
  lemma DeterminedByBytes(c: Session, steps: seq<Step>)
    requires Plausible(c) && Runs(c, Start(c), steps)
    ensures var s := Final(c, Start(c), steps); s.delivered <= Deframed(c, s.input) && s.out <= Copied(c, s.input)
  {
    var s := Final(c, Start(c), steps);
    ReachableInv(c, steps);
    OutputsByCommand(c, s);
    hide Inv, Deframed, Copied;
    if Past(c, s) {
      var x := OutIsReference(c, s);
    }
  }

  // ---------------------------------------------------------------- some run

  /** Nothing but empty hunks can be behind an empty one, unless a client's UDP loop sent it. */
  lemma BytesAhead(c: Session, s: State)
    requires Plausible(c) && Inv(c, s) && !s.phase.Closed? && InFlight(s) != []
    requires InPairs(c) ==> NoEmptyRead(s.input)
    ensures !Blocked(s)
  {
    InvParts(c, s);
    hide Inv, Pipeline, Conserved, Ordered, InputShape, InFlight, HunksTaken, AllHunks, Taken, Everything, PayloadIndex;
    if Blocked(s) {
      HeadOfPipeline(c, s);
      var i := TakenAtEmpty(c, s, HunksTaken(c, s));
      SameEverything(c, s.input, i);
      OpenConserved(c, s);
    }
  }

  /** Without empty reads no byte on its way means no hunk on its way. */
  lemma RestIsQuiescent(c: Session, s: State)
    requires Plausible(c) && Inv(c, s) && InFlight(s) == [] && NoEmptyRead(s.input)
    ensures Quiescent(s)
  {
    InvParts(c, s);
    assert s.buf == [] && (Pipeline(s) != [] ==> Pipeline(s)[0] == []);
    hide Inv, Pipeline, Conserved, Ordered, InputShape, InFlight, HunksTaken, AllHunks, Flatten;
    if Pipeline(s) != [] {
      HeadOfPipeline(c, s);
      var i := EmptyHunk(c, s.input, HunksTaken(c, s));
    }
  }

  lemma SameEverything(c: Session, input: seq<bytes>, i: nat)
    requires i < |input| && Flatten(input) == Flatten(input[..i + 1])
    ensures !c.request.command.Udp? ==> Everything(c, input) == Everything(c, input[..i + 1])
  {
    hide Flatten, Preamble;
  }

  /** A schedule that goes on until the receiver refuses or has taken every byte. */
  lemma {:induction false} Flow(c: Session, s: State) returns (steps: seq<Step>)
    requires Plausible(c) && Inv(c, s) && !s.phase.Closed? && (InPairs(c) ==> NoEmptyRead(s.input))
    ensures Runs(c, s, steps)
    ensures var t := Final(c, s, steps);
      Inv(c, t) && t.input == s.input && (if t.phase.Closed? then t.phase == Closed(Refused) else InFlight(t) == [])
    decreases |s.outbox|, |s.channel|, |s.wire|, |s.buf|
  {
    if InFlight(s) == [] { return []; }
    if s.channel != [] || s.outbox != [] {
      MoveProgress(c, s);
    } else {
      BytesAhead(c, s);
      WireAhead(s);
      PollProgress(c, s);
    }
    var step := NextStep(s);
    hide Inv, Apply, Enabled, NextStep, InFlight, Receive, PollGrpc, Drain, NoEmptyRead, Wanted;
    var t, rest := Apply(c, s, step), [];
    if !t.phase.Closed? {
      rest := Flow(c, t);
    }
    steps := [step] + rest;
    assert steps[1..] == rest;
  }

  lemma WireAhead(s: State)
    requires InFlight(s) != [] && !Blocked(s) && s.channel == [] && s.outbox == []
    ensures s.buf != [] || (s.wire != [] && s.wire[0] != [])
  {
    NoBytes();
    assert Pipeline(s) == s.wire;
  }

  /** The header of a client with a secret is never refused for its form. */
  lemma HeaderParses(c: Session, t: bytes, rest: bytes)
    requires Plausible(c) && c.direction.Upload? && c.client.Some? && t <= Preamble(c) + rest
    ensures !Ask(TrojanHeader, t).Refuse?
  {
    var h, r := Preamble(c), c.request;
    assert |Secret(c.client)| == HEX_SIZE;
    hide ToBigEndian, RawAddress, Secret;
    assert |t| > HEX_SIZE + 2 ==> t[HEX_SIZE + 2] == (h + rest)[HEX_SIZE + 2] == CommandByte(r.command);
    assert |t| > HEX_SIZE + 3 ==> t[HEX_SIZE + 3] == (h + rest)[HEX_SIZE + 3] == AtypeByte(r.atype);
  }

  /** An authentic client's header is not refused. */
  lemma HeaderWelcome(c: Session, s: State)
    requires Plausible(c) && Inv(c, s) && Authentic(c) && !c.request.command.Bind? && !Past(c, s)
    ensures s.phase != Closed(Refused)
  {
    var t := s.acc;
    InvParts(c, s);
    TakenIsPrefix(c, s);
    NoBytes();
    assert Taken(s) == t;
    HeaderParses(c, t, Body(c, s.input));
    if Ask(TrojanHeader, t).Full? {
      CommandTaken(c, t, Body(c, s.input));
      Acceptance(c.client, c.server, c.request, Body(c, s.input), t);
    }
    hide Ask, ParseTrojan, Conserved, Ordered, InputShape, Preamble, Inv, Taken, Validate;
  }

  /** Has all that the bytes sent give come out? */
  predicate ReferenceOut(c: Session, s: State) {
    if c.request.command.Udp? then s.delivered == Deframed(c, s.input) else s.out == Copied(c, s.input)
  }

  lemma RefusedIsReference(c: Session, s: State)
    requires Plausible(c) && Inv(c, s) && Past(c, s) && s.phase == Closed(Refused)
    ensures ReferenceOut(c, s)
  {
    InvParts(c, s);
    var x := OutIsReference(c, s);
    RefuseExtends(s.acc, x);
    hide Inv, Deframed, Copied, Conserved, Ordered, InputShape, Accepted, Ask, InFlight, FramesTaken, Past;
    assert s.delivered + [] == s.delivered;
  }

  lemma RestIsReference(c: Session, s: State)
    requires Plausible(c) && Inv(c, s) && Past(c, s) && !s.phase.Closed? && InFlight(s) == []
    ensures ReferenceOut(c, s)
  {
    InvParts(c, s);
    NoBytes();
    var x := OutIsReference(c, s);
    assert x == [];
    hide Inv, Deframed, Copied, Conserved, Ordered, InputShape, Accepted, Ask, InFlight, FramesTaken, Past, Pipeline;
    NoTail(s.acc, x);
    if c.request.command.Udp? {
      assert s.delivered + [] == s.delivered;
    } else {
      NoTail(s.out, s.acc + x);
    }
  }

  lemma HeaderIsReference(c: Session, s: State)
    requires Plausible(c) && Inv(c, s) && !Past(c, s) && !s.phase.Closed? && InFlight(s) == []
    ensures ReferenceOut(c, s)
  {
    InvParts(c, s);
    OutputsByCommand(c, s);
    NoBytes();
    assert Taken(s) == s.acc && InFlight(s) == [];
    hide Inv, Ordered, InputShape, FramesTaken, Everything, Ask, InFlight, Taken, Pipeline, Deframe, FullLength;
    NoTail(s.acc, InFlight(s));
    assert AfterHeader(c, Everything(c, s.input)) == None;
  }

  /** A receiver that refused, or took everything, has put out all that the reference gives. */
  lemma FlowIsReference(c: Session, s: State)
    requires Plausible(c) && Inv(c, s) && !c.request.command.Bind? && (c.direction.Upload? ==> Authentic(c))
    requires if s.phase.Closed? then s.phase == Closed(Refused) else InFlight(s) == []
    ensures ReferenceOut(c, s)
  {
    hide Plausible, Inv, InFlight, ReferenceOut, Authentic;
    if !Past(c, s) {
      HeaderWelcome(c, s);
      HeaderIsReference(c, s);
    } else if s.phase.Closed? {
      RefusedIsReference(c, s);
    } else {
      RestIsReference(c, s);
    }
  }

  lemma ReferenceIsReached(c: Session, s: State) returns (t: State)
    requires Plausible(c) && Reachable(c, s) && !s.phase.Closed? && (InPairs(c) ==> NoEmptyRead(s.input))
    requires !c.request.command.Bind? && (c.direction.Upload? ==> Authentic(c))
    ensures Reachable(c, t) && t.input == s.input && ReferenceOut(c, t)
  {
    hide *;
    ReachedInv(c, s);
    var more := Flow(c, s);
    t := Final(c, s, more);
    ReachMore(c, s, more);
    FlowIsReference(c, t);
  }

  // ---------------------------------------------------------------- safety, exactly

  /** Nothing comes out that was not read, or not in that order. */
  predicate Safe(c: Session, s: State) {
    s.delivered <= Framed(c.request, s.input) && s.out <= Flatten(s.input)
  }

  lemma {:induction false} MoveOut(c: Session, s: State) returns (t: State)
    requires Plausible(c) && Reachable(c, s)
    ensures Reachable(c, t) && t.input == s.input && t.phase == s.phase && t.outbox == []
    decreases |s.outbox|, |s.channel|
  {
    if s.outbox == [] { return s; }
    ReachedInv(c, s);
    MoveProgress(c, s);
    var next := Apply(c, s, NextStep(s));
    assert |next.outbox| < |s.outbox| || (|next.outbox| == |s.outbox| && |next.channel| < |s.channel|);
    ReachStep(c, s, NextStep(s));
    hide Reachable, Apply, Enabled, Inv, NextStep;
    t := MoveOut(c, next);
  }

  /** Any input can be read with the receiver still at work. */
  lemma {:induction false} ReachInput(c: Session, input: seq<bytes>) returns (s: State)
    requires Plausible(c) && InputShape(c, input) && !c.request.command.Bind?
    ensures Reachable(c, s) && s.input == input && s.phase == Start(c).phase
    decreases |input|
  {
    hide Plausible, Preamble, Hunks;
    if input == [] {
      s := Start(c);
      assert Runs(c, s, []) && Reachable(c, s);
    } else {
      var init, last := input[..|input| - 1], input[|input| - 1];
      assert input == init + [last];
      ShapeOfPart(c, input, |input| - 1);
      assert c.direction.Upload? && Ended(init) ==> last == [] by {
        assert init != [] ==> init[|init| - 1] == input[|init| - 1];
      }
      assert |last| <= BUF_SIZE;
      hide InputShape;
      var s0 := ReachInput(c, init);
      hide Reachable;
      var s1 := MoveOut(c, s0);
      assert Enabled(c, s1, Read(last));
      ReachStep(c, s1, Read(last));
      s := Apply(c, s1, Read(last));
    }
  }

  /** Would parsing the bytes sent for `input` give nothing that was not read? */
  predicate ReferenceSafe(c: Session, input: seq<bytes>) {
    if c.request.command.Udp? then Deframed(c, input) <= Framed(c.request, input)
    else Copied(c, input) <= Flatten(input)
  }

  /** For every session that is served, in step or not, and every input, for a client's UDP loop without an empty
      read: every run that reads it is safe if and only if parsing the bytes sent for it is. */
  lemma SafeIffReferenceIs(c: Session, input: seq<bytes>)
    requires Plausible(c) && InputShape(c, input) && (InPairs(c) ==> NoEmptyRead(input))
    requires !c.request.command.Bind? && (c.direction.Upload? ==> Authentic(c))
    ensures (forall s :: Reachable(c, s) && s.input == input ==> Safe(c, s)) <==> ReferenceSafe(c, input)
  {
    if ReferenceSafe(c, input) {
      forall s | Reachable(c, s) && s.input == input ensures Safe(c, s) {
        SafeIfReferenceIs(c, s);
      }
    } else {
      var s0 := ReachInput(c, input);
      var s := ReferenceIsReached(c, s0);
      hide Reachable, Deframed, Copied, Framed, Flatten;
      assert !Safe(c, s);
    }
  }

  lemma SafeIfReferenceIs(c: Session, s: State)
    requires Plausible(c) && Reachable(c, s) && ReferenceSafe(c, s.input)
    ensures Safe(c, s)
  {
    var steps :| Runs(c, Start(c), steps) && Final(c, Start(c), steps) == s;
    hide *;
    ReachedInv(c, s);
    OutputsByCommand(c, s);
    DeterminedByBytes(c, steps);
    WithinReference(c, s);
  }

  lemma WithinReference(c: Session, s: State)
    requires s.delivered <= Deframed(c, s.input) && s.out <= Copied(c, s.input) && ReferenceSafe(c, s.input)
    requires (!c.request.command.Udp? ==> s.delivered == []) && (!c.request.command.Connect? ==> s.out == [])
    ensures Safe(c, s)
  {
    hide Deframed, Copied, Framed, Flatten;
    PrefixTransitive(s.delivered, Deframed(c, s.input), Framed(c.request, s.input));
    PrefixTransitive(s.out, Copied(c, s.input), Flatten(s.input));
  }

  lemma PrefixTransitive<T>(a: seq<T>, b: seq<T>, d: seq<T>)
    ensures a <= b && b <= d ==> a <= d
  {
  }

  /** In step the reference gives exactly what was read. */
  lemma ReferenceInStep(c: Session, input: seq<bytes>)
    requires InStep(c) && InputShape(c, input) && (c.direction.Upload? ==> c.client.Some?)
    ensures c.request.command.Udp? ==> Deframed(c, input) == Framed(c.request, input)
    ensures c.request.command.Connect? ==> Copied(c, input) == Flatten(input)
  {
    var p, body := Preamble(c), Body(c, input);
    FramedIsFramable(c, input);
    if c.direction.Upload? {
      PreambleTaken(c);
      FullExtends(TrojanHeader, p, body);
      hide Ask, FullLength, Preamble;
      assert (p + body)[|p|..] == body;
    } else {
      assert [] + body == body;
    }
    if c.request.command.Udp? { DeframeEncodes(Framed(c.request, input)); }
  }
}
