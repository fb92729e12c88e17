/**
 What every step of every tunnel keeps, whether or not the receiver's parser is in step with the header:
 nothing is lost, repeated or reordered, and what is in flight is a tail of the hunks sent.
 */
module TunnelInvariant {
  import opened Bytes
  import opened Protocol
  import opened Parsers
  import opened Transport
  import opened Reading
  import opened Framing
  import opened FrameStreams
  import opened Handshake
  import opened Access
  import opened Senders
  import opened Tunnel

  /** All hunks on their way, oldest first. */
  function Pipeline(s: State): seq<bytes> {
    s.wire + s.channel + s.outbox
  }

  /** All bytes on their way, the reader's leftover first. */
  function InFlight(s: State): bytes {
    s.buf + Flatten(Pipeline(s))
  }

  /** The bytes the sender's reads turn into. */
  function Body(c: Session, input: seq<bytes>): bytes {
    if c.request.command.Udp? then EncodeFrames(Framed(c.request, input)) else Flatten(input)
  }

  /** Everything the sender has sent or has to send. */
  function Everything(c: Session, input: seq<bytes>): bytes {
    Preamble(c) + Body(c, input)
  }

  function AllHunks(c: Session, input: seq<bytes>): seq<bytes> {
    (if c.direction.Upload? then [Preamble(c)] else []) + SentHunks(c, input)
  }

  /** How many hunks the reader has polled. */
  function HunksTaken(c: Session, s: State): int {
    |AllHunks(c, s.input)| - |Pipeline(s)|
  }

  /** Everything the receiver has taken: a header, frames or copied bytes, and part of a unit. */
  function Taken(s: State): bytes {
    s.header + Flatten(s.frames) + s.out + s.acc
  }

  predicate HeaderTaken(t: bytes) {
    Ask(TrojanHeader, t).Full? && FullLength(TrojanHeader, t) == |t|
  }

  predicate FrameTaken(f: bytes, d: Datagram) {
    Ask(UdpFrame({}), f).Full? && FullLength(UdpFrame({}), f) == |f| && ParseFrame(f) == d
  }

  /** Nothing is lost, repeated or reordered, except that an error may drop bytes in flight. */
  predicate Conserved(c: Session, s: State) {
    if s.phase == Closed(Broke) then Taken(s) <= Everything(c, s.input)
    else Taken(s) + InFlight(s) == Everything(c, s.input)
  }

  /** The hunks `p` are a tail of `a`, and the leftover a suffix of the hunk before them. */
  predicate TailOf(a: seq<bytes>, p: seq<bytes>, buf: bytes) {
    && |p| <= |a| && p == a[|a| - |p|..]
    && (buf != [] ==> |p| < |a| && Suffix(buf, a[|a| - |p| - 1]))
  }

  predicate Ordered(c: Session, s: State) {
    TailOf(AllHunks(c, s.input), Pipeline(s), s.buf) && |s.channel| <= CHANNEL_SIZE
  }

  /** A stream that ended reads empty from then on. */
  predicate InputShape(c: Session, input: seq<bytes>) {
    && (forall i :: 0 <= i < |input| ==> |input[i]| <= BUF_SIZE)
    && (c.request.command.Bind? ==> input == [])
    && (c.direction.Upload? ==> forall i, j :: 0 <= i < j < |input| && input[i] == [] ==> input[j] == [])
  }

  predicate NoEmptyRead(input: seq<bytes>) {
    forall i :: 0 <= i < |input| ==> input[i] != []
  }

  /** Is the receiver past the header? A download has none. */
  predicate Past(c: Session, s: State) {
    c.direction.Download? || s.header != []
  }

  /** What was taken for the header was complete, valid and the client's, and names the target. */
  predicate Accepted(c: Session, s: State) {
    if c.direction.Upload? && s.header != [] then
      && HeaderTaken(s.header) && Authentic(c) && !c.request.command.Bind?
      && ParseTrojan(s.header).command == c.request.command
      && s.target == Some(Endpoint(ParseTrojan(s.header).addr, ParseTrojan(s.header).port))
      && (if c.request.command.Udp? then s.out == [] else s.frames == [])
    else
      s.header == [] && s.target.None? && s.out == [] && (c.direction.Upload? ==> s.frames == [])
  }

  predicate FramesTaken(s: State) {
    |s.frames| == |s.delivered| && forall i :: 0 <= i < |s.frames| ==> FrameTaken(s.frames[i], s.delivered[i])
  }

  /** The hunk before `p` is empty. */
  predicate AfterEmpty(a: seq<bytes>, p: seq<bytes>) {
    |p| < |a| && a[|a| - |p| - 1] == []
  }

  /** The last hunk polled was empty and there is no leftover. */
  predicate SawEmpty(c: Session, s: State) {
    s.buf == [] && AfterEmpty(AllHunks(c, s.input), Pipeline(s))
  }

  /** What the receiver is at, or what its stopping proves. */
  predicate Control(c: Session, s: State) {
    match s.phase
    case Header => !Past(c, s) && Ask(TrojanHeader, s.acc).More?
    case Frames => Past(c, s) && c.request.command.Udp? && Ask(UdpFrame({}), s.acc).More?
    case Copy => Past(c, s) && c.request.command.Connect? && s.acc == []
    case Closed(why) =>
      match why
      case Eof =>
        && SawEmpty(c, s)
        && (if Past(c, s) then c.request.command.Udp? && Ask(UdpFrame({}), s.acc).More?
            else Ask(TrojanHeader, s.acc).More?)
      case Drained =>
        SawEmpty(c, s) && Past(c, s) && c.request.command.Connect? && s.acc == []
      case Refused =>
        if Past(c, s) then c.request.command.Udp? && Ask(UdpFrame({}), s.acc).Refuse?
        else Ask(TrojanHeader, s.acc).Refuse? || (Ask(TrojanHeader, s.acc).Full? && Unwelcome(c, s.acc))
      case _ => true
  }

  /** A complete header that is not accepted. */
  predicate Unwelcome(c: Session, t: bytes)
    requires Ask(TrojanHeader, t).Full?
  {
    !Validate(ParseTrojan(t), Secret(c.server)) || ParseTrojan(t).command.Bind?
  }

  predicate Inv(c: Session, s: State) {
    && Conserved(c, s) && Ordered(c, s) && InputShape(c, s.input)
    && Accepted(c, s) && FramesTaken(s) && Control(c, s)
  }

  lemma InvParts(c: Session, s: State)
    requires Inv(c, s)
    ensures Conserved(c, s) && Ordered(c, s) && InputShape(c, s.input)
    ensures Accepted(c, s) && FramesTaken(s) && Control(c, s)
  {
    hide Conserved, Ordered, InputShape, Accepted, FramesTaken, Control;
  }

  lemma MakeInv(c: Session, s: State)
    requires Conserved(c, s) && Ordered(c, s) && InputShape(c, s.input)
    requires Accepted(c, s) && FramesTaken(s) && Control(c, s)
    ensures Inv(c, s)
  {
    hide Conserved, Ordered, InputShape, Accepted, FramesTaken, Control;
  }

  // ---------------------------------------------------------------- tails

  lemma TailGrows(a: seq<bytes>, p: seq<bytes>, buf: bytes, h: seq<bytes>)
    requires TailOf(a, p, buf)
    ensures TailOf(a + h, p + h, buf) && (AfterEmpty(a, p) ==> AfterEmpty(a + h, p + h))
  {
    hide Suffix;
    assert (a + h)[|a| - |p|..] == a[|a| - |p|..] + h;
  }

  lemma TailTakes(a: seq<bytes>, p: seq<bytes>, buf: bytes, buf': bytes)
    requires TailOf(a, p, buf) && p != [] && Suffix(buf', p[0])
    ensures TailOf(a, p[1..], buf') && a[|a| - |p|] == p[0]
    ensures p[0] == [] ==> AfterEmpty(a, p[1..])
  {
    hide Suffix;
    var j := |a| - |p|;
    assert a[j..][1..] == a[j + 1..] && a[j..][0] == a[j];
  }

  lemma TailDrains(a: seq<bytes>, p: seq<bytes>, buf: bytes, buf': bytes)
    requires TailOf(a, p, buf) && Suffix(buf', buf)
    ensures TailOf(a, p, buf')
  {
    if buf' != [] {
      SuffixTransitive(buf', buf, a[|a| - |p| - 1]);
    }
  }

  // ---------------------------------------------------------------- start

  lemma StartInv(c: Session)
    requires Plausible(c)
    ensures Inv(c, Start(c))
  {
    var s := Start(c);
    hide HandshakeBytes, Secret;
    EmptyWaits({});
    assert Framed(c.request, []) == [];
    assert Pipeline(s) == AllHunks(c, []);
    FlattenSnoc([], Preamble(c));
    assert [] + [Preamble(c)] == [Preamble(c)] && [] + Preamble(c) == Preamble(c);
    assert Taken(s) == [] && Taken(s) + InFlight(s) == InFlight(s);
  }

  // ---------------------------------------------------------------- the sender's steps

  /** Moving a hunk from the loop to the channel, or on to the connection, changes nothing in flight. */
  lemma MoveKeepsPipeline(c: Session, s: State, step: Step)
    requires Enabled(c, s, step) && (step.Send? || step.Forward?)
    ensures Pipeline(Apply(c, s, step)) == Pipeline(s)
  {
  }

  lemma HunksFlatten(c: Session, chunk: bytes)
    requires Plausible(c) && !c.request.command.Bind?
    ensures Flatten(Hunks(c, chunk)) ==
      if c.request.command.Udp? then EncodeFrame(Datagram(c.request.addr, c.request.port, chunk)) else chunk
  {
    hide UdpHeaderBytes;
    var h := Hunks(c, chunk);
    FlattenSnoc([], h[0]);
    assert [] + [h[0]] == [h[0]];
    if |h| == 2 {
      FlattenSnoc([h[0]], chunk);
      assert h == [h[0]] + [chunk];
    }
  }

  lemma FramedSnoc(r: InboundRequest, input: seq<bytes>, chunk: bytes)
    ensures var d := Datagram(r.addr, r.port, chunk);
      EncodeFrames(Framed(r, input + [chunk])) == EncodeFrames(Framed(r, input)) + EncodeFrame(d)
  {
    var d := Datagram(r.addr, r.port, chunk);
    assert Framed(r, input + [chunk]) == Framed(r, input) + [d];
    hide Framed, EncodeFrame;
    EncodeFramesConcat(Framed(r, input), [d]);
    assert [d][1..] == [];
    NoTail(EncodeFrame(d), EncodeFrames([]));
  }

  /** What one turn of a sender's loop sends is what its read adds to the stream. */
  lemma BodySnoc(c: Session, input: seq<bytes>, chunk: bytes)
    requires Plausible(c) && !c.request.command.Bind?
    ensures Body(c, input + [chunk]) == Body(c, input) + Flatten(Hunks(c, chunk))
  {
    hide EncodeFrame, EncodeFrames, Framed, Hunks, Flatten;
    HunksFlatten(c, chunk);
    if c.request.command.Udp? {
      FramedSnoc(c.request, input, chunk);
    } else {
      FlattenSnoc(input, chunk);
    }
  }

  /** A read adds the same hunks and bytes to what was sent and to what is in flight. */
  lemma ReadGrows(c: Session, s: State, chunk: bytes)
    requires Plausible(c) && Enabled(c, s, Read(chunk))
    ensures var s', h := Apply(c, s, Read(chunk)), Hunks(c, chunk);
      && Pipeline(s') == Pipeline(s) + h
      && AllHunks(c, s'.input) == AllHunks(c, s.input) + h
      && InFlight(s') == InFlight(s) + Flatten(h)
      && Everything(c, s'.input) == Everything(c, s.input) + Flatten(h)
  {
    hide Body, Hunks, Preamble;
    var s', h := Apply(c, s, Read(chunk)), Hunks(c, chunk);
    assert s'.input[..|s'.input| - 1] == s.input;
    assert Pipeline(s') == Pipeline(s) + h;
    FlattenConcat(Pipeline(s), h);
    BodySnoc(c, s.input, chunk);
    hide Flatten, Pipeline;
    Reassociate(Preamble(c), Body(c, s.input), Flatten(h));
    Reassociate(s.buf, Flatten(Pipeline(s)), Flatten(h));
  }

  lemma ReadKeepsOrdered(c: Session, s: State, chunk: bytes)
    requires Plausible(c) && Ordered(c, s) && Enabled(c, s, Read(chunk))
    ensures var s' := Apply(c, s, Read(chunk)); Ordered(c, s') && (SawEmpty(c, s) ==> SawEmpty(c, s'))
  {
    ReadGrows(c, s, chunk);
    TailGrows(AllHunks(c, s.input), Pipeline(s), s.buf, Hunks(c, chunk));
    hide AllHunks, Pipeline, Hunks, TailOf, AfterEmpty, InFlight, Everything;
  }

  lemma ReadKeepsConserved(c: Session, s: State, chunk: bytes)
    requires Plausible(c) && Conserved(c, s) && Enabled(c, s, Read(chunk))
    ensures Conserved(c, Apply(c, s, Read(chunk)))
  {
    ReadGrows(c, s, chunk);
    var s' := Apply(c, s, Read(chunk));
    assert Taken(s') == Taken(s);
    hide Taken, InFlight, Everything, Hunks, Flatten;
    Reassociate(Taken(s), InFlight(s), Flatten(Hunks(c, chunk)));
  }

  lemma ReadKeepsInputShape(c: Session, s: State, chunk: bytes)
    requires InputShape(c, s.input) && Enabled(c, s, Read(chunk))
    ensures InputShape(c, s.input + [chunk])
  {
    var input := s.input + [chunk];
    forall i, j | c.direction.Upload? && 0 <= i < j < |input| && input[i] == []
      ensures input[j] == []
    {
      assert input[i] == s.input[i];
      if j == |s.input| {
        assert s.input[|s.input| - 1] == [];
      } else {
        assert input[j] == s.input[j];
      }
    }
  }

  lemma SameOrdered(c: Session, s: State, s': State)
    requires Ordered(c, s) && s'.input == s.input && s'.buf == s.buf && Pipeline(s') == Pipeline(s)
    requires |s'.channel| <= CHANNEL_SIZE
    ensures Ordered(c, s') && (SawEmpty(c, s) ==> SawEmpty(c, s'))
  {
    hide Pipeline, AllHunks, TailOf, AfterEmpty;
  }

  /** What is taken and what is in flight stay the same. */
  lemma SameConserved(c: Session, s: State, s': State)
    requires Conserved(c, s) && s'.input == s.input && Taken(s') == Taken(s) && InFlight(s') == InFlight(s)
    requires s'.phase == Closed(Broke) <==> s.phase == Closed(Broke)
    ensures Conserved(c, s')
  {
    hide Taken, InFlight, Everything;
  }

  /** The receiver's part of the invariant does not see the sender. */
  lemma SameReceiver(c: Session, s: State, s': State)
    requires Accepted(c, s) && FramesTaken(s) && Control(c, s)
    requires s'.phase == s.phase && s'.acc == s.acc && s'.header == s.header && s'.target == s.target
    requires s'.frames == s.frames && s'.delivered == s.delivered && s'.out == s.out
    requires s.phase.Closed? && SawEmpty(c, s) ==> SawEmpty(c, s')
    ensures Accepted(c, s') && FramesTaken(s') && Control(c, s')
  {
    hide Ask, HeaderTaken, FrameTaken, ParseTrojan, SawEmpty, Unwelcome;
  }

  lemma ReadKeepsInv(c: Session, s: State, chunk: bytes)
    requires Plausible(c) && Inv(c, s) && Enabled(c, s, Read(chunk))
    ensures Inv(c, Apply(c, s, Read(chunk)))
  {
    var s' := Apply(c, s, Read(chunk));
    assert s' == s.(input := s.input + [chunk], outbox := s'.outbox);
    hide *;
    InvParts(c, s);
    ReadKeepsConserved(c, s, chunk);
    ReadKeepsOrdered(c, s, chunk);
    ReadKeepsInputShape(c, s, chunk);
    SameReceiver(c, s, s');
    MakeInv(c, s');
  }

  /** A step that only moves hunks along, or crashes the receiver, changes no byte. */
  lemma SameBytes(s: State, s': State)
    requires Pipeline(s') == Pipeline(s) && s'.buf == s.buf
    requires s'.header == s.header && s'.frames == s.frames && s'.out == s.out && s'.acc == s.acc
    ensures Taken(s') == Taken(s) && InFlight(s') == InFlight(s)
  {
    hide Pipeline;
  }

  lemma MoveKeepsInv(c: Session, s: State, step: Step)
    requires Inv(c, s) && Enabled(c, s, step) && (step.Send? || step.Forward?)
    ensures Inv(c, Apply(c, s, step))
  {
    var s' := Apply(c, s, step);
    assert s' == s.(outbox := s'.outbox, channel := s'.channel, wire := s'.wire);
    assert |s'.channel| <= CHANNEL_SIZE by { InvParts(c, s); }
    hide *;
    InvParts(c, s);
    MoveKeepsPipeline(c, s, step);
    SameBytes(s, s');
    SameConserved(c, s, s');
    SameOrdered(c, s, s');
    SameReceiver(c, s, s');
    MakeInv(c, s');
  }

  /** A receiver that breaks or crashes keeps what it took. */
  lemma StopKeepsReceiver(c: Session, s: State, s': State)
    requires Accepted(c, s) && FramesTaken(s) && Control(c, s) && !s.phase.Closed?
    requires s'.phase == Closed(Broke) || s'.phase == Closed(Crashed)
    requires s'.header == s.header && s'.target == s.target
    requires s'.frames == s.frames && s'.delivered == s.delivered && s'.out == s.out
    ensures Accepted(c, s') && FramesTaken(s') && Control(c, s')
  {
    hide Ask, HeaderTaken, FrameTaken, ParseTrojan;
  }

  lemma CrashKeepsInv(c: Session, s: State)
    requires Inv(c, s) && Enabled(c, s, Crash)
    ensures Inv(c, Apply(c, s, Crash))
  {
    var s' := s.(phase := Closed(Crashed));
    assert s' == Apply(c, s, Crash) && Pipeline(s') == Pipeline(s) && !s.phase.Closed?;
    assert |s'.channel| <= CHANNEL_SIZE by { InvParts(c, s); }
    hide *;
    InvParts(c, s);
    SameBytes(s, s');
    SameConserved(c, s, s');
    SameOrdered(c, s, s');
    StopKeepsReceiver(c, s, s');
    MakeInv(c, s');
  }
}
