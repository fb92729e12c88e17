/**
 One direction of a gRPC tunnel as a step machine: the sender's copy loop, the bounded channel, the
 connection, the re-chunking reader and the receiver's parser and copy loop, interleaved in any order.

 Upload is `handle_grpc_stream` on the client against `accept_hunk` and `handle_hunk` on the server.
 Download is the server's UDP loop against the client's deframing loop.
 */
module Tunnel {
  import opened Bytes
  import opened Protocol
  import opened Parsers
  import opened Transport
  import opened Handshake
  import opened Access
  import opened Senders

  const CHANNEL_SIZE := 16

  /** Why a receiver stopped: an empty read inside a parser, an error, a refusal, the end `copy` saw, or
      anything outside the protocol (cancellation, DNS, a failing socket). */
  datatype Why = Eof | Broke | Refused | Drained | Crashed

  datatype Phase = Header | Frames | Copy | Closed(why: Why)

  datatype State = State(
    input: seq<bytes>,           // results of the sender's reads so far
    outbox: seq<bytes>,          // hunks the sender's loop still has to send
    channel: seq<bytes>,
    wire: seq<bytes>,
    buf: bytes,                  // the reader's leftover
    phase: Phase,
    acc: bytes,                  // bytes acquired by the receiver's parser
    header: bytes,               // the bytes it took for the header, once accepted
    target: Option<Endpoint>,    // the endpoint of the accepted request
    frames: seq<bytes>,          // the bytes it took for each frame
    delivered: seq<Datagram>,    // datagrams forwarded, one for each frame
    out: bytes)                  // bytes copied to `target`

  datatype Step = Read(chunk: bytes) | Send | Forward | Poll(event: Event, room: nat) | Crash

  // ---------------------------------------------------------------- sender

  function Preamble(c: Session): bytes {
    if c.direction.Download? then [] else HandshakeBytes(Secret(c.client), c.request)
  }

  /** Has a stream reader seen the end? It then reads empty for ever. */
  predicate Ended(input: seq<bytes>) {
    input != [] && input[|input| - 1] == []
  }

  // ---------------------------------------------------------------- receiver

  /** The room the receiver offers: what its current read misses, or anything for `copy`. */
  predicate Offers(s: State, room: nat) {
    match s.phase
    case Closed(_) => false
    case Copy => 0 < room
    case Header => 0 < room && Ask(TrojanHeader, s.acc) == More(room)
    case Frames => 0 < room && Ask(UdpFrame({}), s.acc) == More(room)
  }

  /** The receiver gets the bytes `b`, which are not empty. */
  function Receive(c: Session, s: State, b: bytes): State {
    var acc := s.acc + b;
    match s.phase
    case Closed(_) => s
    case Copy => s.(out := s.out + b)
    case Header =>
      match Ask(TrojanHeader, acc) {
        case More(_) => s.(acc := acc)
        case Refuse(_) => s.(acc := acc, phase := Closed(Refused))
        case Full =>
          var t := ParseTrojan(acc);
          if !Validate(t, Secret(c.server)) || t.command.Bind? then s.(acc := acc, phase := Closed(Refused))
          else s.(acc := [], header := acc, target := Some(Endpoint(t.addr, t.port)),
                  phase := if t.command.Udp? then Frames else Copy)
      }
    case Frames =>
      match Ask(UdpFrame({}), acc) {
        case More(_) => s.(acc := acc)
        case Refuse(_) => s.(acc := acc, phase := Closed(Refused))
        case Full => s.(acc := [], frames := s.frames + [acc], delivered := s.delivered + [ParseFrame(acc)])
      }
  }

  function AfterReceive(c: Session, s: State, poll: Transport.Poll): State {
    match poll
    case NotReady => s
    case Err => s.(phase := Closed(Broke))
    case Ok(b) =>
      if b != [] then Receive(c, s, b)
      else s.(phase := Closed(if s.phase.Copy? then Drained else Eof))
  }

  // ---------------------------------------------------------------- steps and runs

  predicate Enabled(c: Session, s: State, step: Step) {
    match step
    case Read(chunk) =>
      && s.outbox == [] && |chunk| <= BUF_SIZE && !c.request.command.Bind?
      && (c.direction.Upload? && Ended(s.input) ==> chunk == [])
    case Send => s.outbox != [] && |s.channel| < CHANNEL_SIZE
    case Forward => s.channel != []
    case Poll(e, room) => Offers(s, room) && (e.Packet? ==> s.wire != [] && e.data == s.wire[0])
    case Crash => !s.phase.Closed?
  }

  /** What `poll_read` leaves in the reader and on the connection. */
  function Drain(s: State, e: Event, room: nat): State
    requires e.Packet? ==> s.wire != []
  {
    var p := PollGrpc(s.buf, room, e);
    s.(buf := p.buf, wire := if p.took && e.Packet? then s.wire[1..] else s.wire)
  }

  function Apply(c: Session, s: State, step: Step): State
    requires Enabled(c, s, step)
  {
    match step
    case Read(chunk) => s.(input := s.input + [chunk], outbox := Hunks(c, chunk))
    case Send => s.(outbox := s.outbox[1..], channel := s.channel + [s.outbox[0]])
    case Forward => s.(channel := s.channel[1..], wire := s.wire + [s.channel[0]])
    case Poll(e, room) => AfterReceive(c, Drain(s, e, room), PollGrpc(s.buf, room, e).poll)
    case Crash => s.(phase := Closed(Crashed))
  }

  function Start(c: Session): State {
    State([], if c.direction.Upload? then [Preamble(c)] else [], [], [], [],
          if c.direction.Upload? then Header else Frames, [], [], None, [], [], [])
  }

  /** Is `steps` a run from `s`, and where does it lead? */
  predicate Runs(c: Session, s: State, steps: seq<Step>)
    decreases |steps|
  {
    steps == [] || (Enabled(c, s, steps[0]) && Runs(c, Apply(c, s, steps[0]), steps[1..]))
  }

  function Final(c: Session, s: State, steps: seq<Step>): State
    requires Runs(c, s, steps)
    decreases |steps|
  {
    if steps == [] then s else Final(c, Apply(c, s, steps[0]), steps[1..])
  }

  /** What is assumed of a session: digests of the right size and a request some parser built. */
  predicate Plausible(c: Session) {
    && ValidDigest(c.client) && ValidDigest(c.server)
    && Consistent(c.request)
    && (c.direction.Download? ==> c.request.command.Udp?)
  }

  /** And for an upload, a header the server's parser stays in step with. */
  predicate InStep(c: Session) {
    Plausible(c) && (c.direction.Upload? ==> Aligned(c.request.addr))
  }

  /** Do the two sides have the same secret? */
  predicate Authentic(c: Session) {
    c.client.Some? && c.client == c.server
  }
}
