/** The copy loops of the UDP framing as they run, and the handshake through its cursor. */
module CopyLoops {
  import opened Bytes
  import opened Protocol
  import opened Parsers
  import opened Transport
  import opened Reading
  import opened Framing
  import opened FrameStreams
  import opened Handshake
  import opened AsyncRead
  import opened ParserMethods
  import opened Senders

  // ---------------------------------------------------------------- deframing loops

  /** A run of a parser that returns stops exactly where the parser returns. */
  lemma {:induction false} ReadAllStops(g: Grammar, acc: bytes, src: Source, t: bytes)
    requires ReadAll(g, acc, src).outcome == Complete(t)
    ensures acc <= t && Ask(g, t).Full?
    ensures |acc| <= FullLength(g, t) ==> FullLength(g, t) == |t|
    decreases |src.script|, |src.buf|
  {
    hide Ask, FullLength, PollRead, AfterPoll, ReadAll;
    if Ask(g, acc).More? {
      var n := Ask(g, acc).n;
      var p := PollRead(src, n);
      ReadAllStep(g, acc, src);
      PollAdvances(src, n);
      PollReports(src, n);
      var acc' := if p.poll.Ok? then acc + p.poll.data else acc;
      ReadAllStops(g, acc', AfterPoll(src, p), t);
      assert t[..|acc|] == acc;
      FullLengthFits(g, t);
      if |acc| < FullLength(g, t) {
        AskOnPrefix(g, t, |acc|);
      } else if |acc| == FullLength(g, t) {
        AskPastFullLength(g, t, |acc|);
      }
    } else if Ask(g, acc).Full? {
      ReadAllFull(g, acc, src);
      FullLengthFits(g, t);
    } else {
      ReadAllRefuse(g, acc, src);
    }
  }

  /** A deframing turn is `parse_udp` and then the rest of the turn. */
  lemma {:induction false} FrameReadsHeaderFirst(u: set<bytes>, acc: bytes, src: Source)
    ensures var h := ReadAll(UdpHeader, acc, src);
      ReadAll(UdpFrame(u), acc, src) ==
        if h.outcome.Complete? then ReadAll(UdpFrame(u), h.outcome.taken, h.src) else h
    decreases |src.script|, |src.buf|
  {
    assert !Ask(UdpHeader, acc).Full? ==> Ask(UdpFrame(u), acc) == Ask(UdpHeader, acc);
    hide Ask, PollRead, AfterPoll, ReadAll;
    match Ask(UdpHeader, acc)
    case Full => ReadAllFull(UdpHeader, acc, src);
    case Refuse(_) =>
      ReadAllRefuse(UdpHeader, acc, src);
      ReadAllRefuse(UdpFrame(u), acc, src);
    case More(n) =>
      var p := PollRead(src, n);
      ReadAllStep(UdpHeader, acc, src);
      ReadAllStep(UdpFrame(u), acc, src);
      PollAdvances(src, n);
      if p.poll.NotReady? && src.script != [] {
        FrameReadsHeaderFirst(u, acc, AfterPoll(src, p));
      } else if p.poll.Ok? && p.poll.data != [] {
        FrameReadsHeaderFirst(u, acc + p.poll.data, AfterPoll(src, p));
      }
  }

  /** One turn of a deframing loop: header, resolution, size check, payload into the reused buffer. */
  method NextDatagram(r: ByteReader, u: set<bytes>, readBuf: array<byte>) returns (p: Parsed<Datagram>)
    requires readBuf.Length == BUF_SIZE
    modifies r, readBuf
    ensures var plan := ReadAll(UdpFrame(u), [], old(r.Src()));
      if plan.outcome.Complete? then p == Value(ParseFrame(plan.outcome.taken)) && r.Src() == plan.src
      else StoppedAs(p, plan, r.Src())
  {
    ghost var g, src := UdpFrame(u), r.Src();
    ghost var plan := ReadAll(UdpHeader, [], src);
    FrameReadsHeaderFirst(u, [], src);
    var header := ParseUdp(r);
    if !header.Value? { return Propagate(header); }
    ghost var t := plan.outcome.taken;
    ReadAllStops(UdpHeader, [], src, t);
    hide ReadAll, AskEndpoint, ParseUdpHeader;
    var h := header.value;
    if h.addr.Domain? && h.addr.name in u {
      ReadAllRefuse(g, t, r.Src());
      return Failed(DnsPanic);
    }
    if h.size > BUF_SIZE {
      ReadAllRefuse(g, t, r.Src());
      return Failed(SizePanic);
    }
    var o := r.ReadExact(readBuf, h.size);
    PayloadPlan(u, t, plan.src, h.size);
    if !o.Complete? { return Stop(o); }
    p := Value(Datagram(h.addr, h.port, readBuf[..h.size]));
  }

  /** The end of a turn, after a header `t` that was accepted. */
  lemma PayloadPlan(u: set<bytes>, t: bytes, src: Source, size: nat)
    requires Ask(UdpHeader, t).Full? && ParseUdpHeader(t).end == |t| && ParseUdpHeader(t).size == size <= BUF_SIZE
    requires ParseUdpHeader(t).addr.Domain? ==> ParseUdpHeader(t).addr.name !in u
    ensures var o := ReadAll(Exactly(size), [], src);
      var plan := ReadAll(UdpFrame(u), t, src);
      && (o.outcome.Complete? ==>
          && plan == Result(Complete(t + o.outcome.taken), o.src)
          && ParseFrame(t + o.outcome.taken)
             == Datagram(ParseUdpHeader(t).addr, ParseUdpHeader(t).port, o.outcome.taken))
      && (o.outcome.Waiting? ==> plan.outcome.Waiting? && plan.src == o.src)
      && (o.outcome.Broken? ==> plan == o)
  {
    var o := ReadAll(Exactly(size), [], src);
    var g := UdpFrame(u);
    hide ReadAll;
    AskExactly(size, []);
    if size == 0 {
      assert Ask(g, t).Full?;
      ReadAllFull(Exactly(size), [], src);
      ReadAllFull(g, t, src);
      assert t + [] == t;
    } else {
      assert Ask(g, t) == More(size);
      assert t + [] == t;
      ReadExactThen(g, t, [], src, t);
      if o.outcome.Complete? {
        var x := o.outcome.taken;
        ReadAllStops(Exactly(size), [], src, x);
        UdpHeaderExtends(t, x);
        assert (t + x)[|t|..] == x;
        ReadAllFull(g, t + x, o.src);
      }
    }
  }

  /** One turn of the loop on the specification's side. */
  lemma FramesStep(u: set<bytes>, src: Source)
    ensures var r := ReadAll(UdpFrame(u), [], src);
      && (r.outcome.Complete? ==> Advanced(src, r.src))
      && ReadFrames(u, src) ==
        if r.outcome.Complete? then
          Delivery([ParseFrame(r.outcome.taken)] + ReadFrames(u, r.src).ds, ReadFrames(u, r.src).last)
        else
          Delivery([], r.outcome)
  {
    EmptyWaits(u);
    hide Ask, ReadAll, ParseFrame;
  }

  /** `copy_client_reader_to_udp_socket`: what it sends and why it stops is what the frames on the stream
      say, for every stream. */
  method CopyClientReaderToUdpSocket(r: ByteReader, u: set<bytes>) returns (sent: seq<Datagram>, stop: Parsed<()>)
    modifies r
    ensures sent == ReadFrames(u, old(r.Src())).ds
    ensures match stop
      case Value(_) => false
      case Failed(e) => ReadFrames(u, old(r.Src())).last == Broken(e)
      case Blocked => ReadFrames(u, old(r.Src())).last.Waiting?
  {
    var readBuf := new byte[BUF_SIZE];
    sent := [];
    ghost var target := ReadFrames(u, r.Src());
    while true
      invariant target == Delivery(sent + ReadFrames(u, r.Src()).ds, ReadFrames(u, r.Src()).last)
      decreases |r.script|, |r.buf|
    {
      FramesStep(u, r.Src());
      hide Ask, ReadAll, ParseFrame, ReadFrames;
      ghost var before := sent;
      var d := NextDatagram(r, u, readBuf);
      if !d.Value? { return sent, Propagate(d); }
      sent := sent + [d.value];
      assert sent + ReadFrames(u, r.Src()).ds == before + ([d.value] + ReadFrames(u, r.Src()).ds);
    }
  }

  lemma PayloadsStep(u: set<bytes>, src: Source)
    requires ReadAll(UdpFrame(u), [], src).outcome.Complete?
    ensures var r := ReadAll(UdpFrame(u), [], src);
      Flatten(Payloads(ReadFrames(u, src).ds))
      == ParseFrame(r.outcome.taken).payload + Flatten(Payloads(ReadFrames(u, r.src).ds))
  {
    hide Ask, ReadAll, ParseFrame;
    var ds := ReadFrames(u, src).ds;
    EmptyWaits(u);
    assert Payloads(ds)[1..] == Payloads(ds[1..]);
    assert ds[1..] == ReadFrames(u, ReadAll(UdpFrame(u), [], src).src).ds;
  }

  /** `copy_udp_server_reader_to_client_writer` and `copy_server_grpc_reader_to_client_writer`: the payload
      bytes of the same datagrams, with no trace of what the reused buffer held before. */
  method CopyUdpServerReaderToClientWriter(r: ByteReader, u: set<bytes>, w: Cursor) returns (stop: Parsed<()>)
    requires w.Valid()
    modifies r, w
    ensures w.Valid() && w.Written() == old(w.Written()) + Flatten(Payloads(ReadFrames(u, old(r.Src())).ds))
    ensures match stop
      case Value(_) => false
      case Failed(e) => ReadFrames(u, old(r.Src())).last == Broken(e)
      case Blocked => ReadFrames(u, old(r.Src())).last.Waiting?
  {
    var readBuf := new byte[BUF_SIZE];
    ghost var last := ReadFrames(u, r.Src()).last;
    ghost var target := w.Written() + Flatten(Payloads(ReadFrames(u, r.Src()).ds));
    while true
      invariant w.Valid()
      invariant target == w.Written() + Flatten(Payloads(ReadFrames(u, r.Src()).ds))
      invariant last == ReadFrames(u, r.Src()).last
      decreases |r.script|, |r.buf|
    {
      hide Ask, ReadAll, ParseFrame, Payloads, Flatten;
      EmptyWaits(u);
      FramesStep(u, r.Src());
      ghost var src, done := r.Src(), w.Written();
      if ReadAll(UdpFrame(u), [], src).outcome.Complete? {
        PayloadsStep(u, src);
      } else {
        NoPayloads(u, src);
      }
      hide ReadFrames;
      var d := NextDatagram(r, u, readBuf);
      if !d.Value? { return Propagate(d); }
      w.WriteAll(d.value.payload);
      Reassociate(done, d.value.payload, Flatten(Payloads(ReadFrames(u, r.Src()).ds)));
    }
  }

  lemma NoPayloads(u: set<bytes>, src: Source)
    requires !ReadAll(UdpFrame(u), [], src).outcome.Complete?
    ensures Flatten(Payloads(ReadFrames(u, src).ds)) == []
  {
    hide Ask, ReadAll;
  }

  // ---------------------------------------------------------------- writers

  /** A byte sink: `Cursor<Vec<u8>>`, or with an empty vector any connection. Writing overwrites from the
      position and extends the vector where it has to. */
  class Cursor {
    var vec: bytes
    var pos: nat

    ghost predicate Valid()
      reads this
    {
      pos <= |vec|
    }

    ghost function Written(): bytes
      requires Valid()
      reads this
    {
      vec[..pos]
    }

    constructor (size: nat)
      ensures Valid() && Written() == [] && |vec| == size && pos == 0 && forall i :: 0 <= i < size ==> vec[i] == 0
    {
      vec, pos := seq(size, _ => 0), 0;
    }

    method WriteAll(b: bytes)
      requires Valid()
      modifies this
      ensures Valid() && Written() == old(Written()) + b && pos == old(pos) + |b|
      ensures vec[pos..] == if pos <= |old(vec)| then old(vec)[pos..] else []
    {
      var end := pos + |b|;
      vec := vec[..pos] + b + (if end <= |vec| then vec[end..] else []);
      pos := end;
    }

    /** `into_inner` and `truncate(position)`. */
    method Truncated() returns (data: bytes)
      requires Valid()
      ensures data == Written()
    {
      data := vec[..pos];
    }
  }

  /** Writes `b` after what was already written: `done` since `start`. */
  method Put(w: Cursor, b: bytes, ghost start: bytes, ghost done: bytes) returns (ghost done': bytes)
    requires w.Valid() && w.Written() == start + done
    modifies w
    ensures w.Valid() && done' == done + b && w.Written() == start + done'
  {
    w.WriteAll(b);
    done' := done + b;
    Reassociate(start, done, b);
  }

  /** `handshake`, field by field. */
  method WriteHandshake(w: Cursor, r: InboundRequest, secret: bytes)
    requires w.Valid()
    modifies w
    ensures w.Valid() && w.Written() == old(w.Written()) + HandshakeBytes(secret, r)
  {
    hide ToBigEndian;
    ghost var start := w.Written();
    w.WriteAll(secret);
    ghost var done := Put(w, CRLF, start, secret);
    done := Put(w, [CommandByte(r.command)], start, done);
    done := Put(w, [AtypeByte(r.atype)], start, done);
    match r.addr {
      case V4(v) => done := Put(w, ToBigEndian(4, v), start, done);
      case V6(v) => done := Put(w, ToBigEndian(16, v), start, done);
      case Domain(name) => done := Put(w, name, start, done);
    }
    done := Put(w, ToBigEndian(2, r.port), start, done);
    done := Put(w, CRLF, start, done);
  }

  /** The first hunk of `handle_grpc_stream`. */
  method HandshakeHunk(r: InboundRequest, secret: bytes) returns (data: bytes)
    ensures data == HandshakeBytes(secret, r)
  {
    var cursor := new Cursor(512);
    WriteHandshake(cursor, r, secret);
    data := cursor.Truncated();
  }

  // ---------------------------------------------------------------- framing loops

  /** The frames of successive reads. */
  function FrameHunks(t: Atype, a: Address, port: u16, chunks: seq<bytes>): seq<bytes> {
    seq(|chunks|, i requires 0 <= i < |chunks| => FrameBytes(t, a, port, chunks[i]))
  }

  lemma FrameHunksSnoc(t: Atype, a: Address, port: u16, chunks: seq<bytes>, i: nat)
    requires i < |chunks|
    ensures var f := FrameBytes(t, a, port, chunks[i]);
      && FrameHunks(t, a, port, chunks[..i + 1]) == FrameHunks(t, a, port, chunks[..i]) + [f]
      && Flatten(FrameHunks(t, a, port, chunks[..i + 1])) == Flatten(FrameHunks(t, a, port, chunks[..i])) + f
  {
    hide FrameBytes;
    var f, done := FrameBytes(t, a, port, chunks[i]), FrameHunks(t, a, port, chunks[..i]);
    FlattenSnoc(done, f);
    assert FrameHunks(t, a, port, chunks[..i + 1]) == done + [f];
  }

  /** Whatever writer made them, the frames of a consistent request are the encoding of its datagrams. */
  lemma {:induction false} WritersEncodeDatagrams(r: InboundRequest, chunks: seq<bytes>)
    requires Consistent(r)
    ensures Flatten(FrameHunks(r.atype, r.addr, r.port, chunks)) == EncodeFrames(Framed(r, chunks))
  {
    if chunks != [] {
      var f, d := FrameHunks(r.atype, r.addr, r.port, chunks), Framed(r, chunks);
      assert f[1..] == FrameHunks(r.atype, r.addr, r.port, chunks[1..]);
      assert d[1..] == Framed(r, chunks[1..]);
      assert f[0] == EncodeFrame(d[0]);
      hide FrameBytes, EncodeFrame;
      WritersEncodeDatagrams(r, chunks[1..]);
    }
  }

  /** The header fields one by one, as the stream writers and the cursor writer put them. */
  method WriteUdpHeader(w: Cursor, atype: Atype, addr: Address, port: u16, size: nat)
    requires w.Valid()
    modifies w
    ensures w.Valid() && w.Written() == old(w.Written()) + UdpHeaderBytes(atype, addr, port, size)
  {
    hide ToBigEndian;
    ghost var start := w.Written();
    w.WriteAll([AtypeByte(atype)]);
    ghost var done: bytes := [AtypeByte(atype)];
    match addr {
      case V4(v) => done := Put(w, ToBigEndian(4, v), start, done);
      case V6(v) => done := Put(w, ToBigEndian(16, v), start, done);
      case Domain(name) =>
        done := Put(w, [|name| % 256], start, done);
        done := Put(w, name, start, done);
        assert done == [AtypeByte(atype)] + ([|name| % 256] + name);
    }
    done := Put(w, ToBigEndian(2, port), start, done);
    done := Put(w, ToBigEndian(2, size % 0x1_0000), start, done);
    done := Put(w, CRLF, start, done);
  }

  /** One turn of a stream writer, the read having filled `readBuf[..size]`. */
  method WriteFrame(w: Cursor, t: Atype, a: Address, port: u16, readBuf: array<byte>, size: nat)
    requires w.Valid() && size <= readBuf.Length
    modifies w
    ensures w.Valid() && w.Written() == old(w.Written()) + FrameBytes(t, a, port, readBuf[..size])
  {
    hide UdpHeaderBytes;
    ghost var start := w.Written();
    WriteUdpHeader(w, t, a, port, size);
    w.WriteAll(readBuf[..size]);
    Reassociate(start, UdpHeaderBytes(t, a, port, size), readBuf[..size]);
  }

  /** `copy_client_reader_to_udp_server_writer`: `chunks` are what the successive reads return, each into
      the same buffer, whose older contents never reach the stream. */
  method CopyClientReaderToUdpServerWriter(chunks: seq<bytes>, w: Cursor, r: InboundRequest)
    requires w.Valid() && forall i :: 0 <= i < |chunks| ==> |chunks[i]| <= BUF_SIZE
    modifies w
    ensures w.Valid() && w.Written() == old(w.Written()) + Flatten(FrameHunks(r.atype, r.addr, r.port, chunks))
  {
    hide FrameHunks, FrameBytes, Flatten;
    var readBuf := new byte[BUF_SIZE];
    ghost var start := w.Written();
    NoFrames(r.atype, r.addr, r.port);
    for i := 0 to |chunks|
      invariant w.Valid() && w.Written() == start + Flatten(FrameHunks(r.atype, r.addr, r.port, chunks[..i]))
    {
      var size := |chunks[i]|;
      Store(readBuf, 0, chunks[i]);
      assert readBuf[..size] == chunks[i];
      WriteFrame(w, r.atype, r.addr, r.port, readBuf, size);
      FrameHunksSnoc(r.atype, r.addr, r.port, chunks, i);
      Reassociate(start, Flatten(FrameHunks(r.atype, r.addr, r.port, chunks[..i])),
                  FrameBytes(r.atype, r.addr, r.port, chunks[i]));
    }
    assert chunks[..|chunks|] == chunks;
  }

  lemma NoFrames(t: Atype, a: Address, port: u16)
    ensures Flatten(FrameHunks(t, a, port, [])) == [] && FrameHunks(t, a, port, []) == []
  {
  }

  /** `copy_udp_socket_to_client_writer`: the type byte comes from the address itself. */
  method CopyUdpSocketToClientWriter(chunks: seq<bytes>, w: Cursor, a: Address, port: u16)
    requires w.Valid() && forall i :: 0 <= i < |chunks| ==> |chunks[i]| <= BUF_SIZE
    modifies w
    ensures w.Valid() && w.Written() == old(w.Written()) + Flatten(FrameHunks(AtypeOf(a), a, port, chunks))
  {
    hide FrameHunks, FrameBytes, Flatten;
    var readBuf := new byte[BUF_SIZE];
    ghost var start := w.Written();
    NoFrames(AtypeOf(a), a, port);
    for i := 0 to |chunks|
      invariant w.Valid() && w.Written() == start + Flatten(FrameHunks(AtypeOf(a), a, port, chunks[..i]))
    {
      var size := |chunks[i]|;
      Store(readBuf, 0, chunks[i]);
      var t := match a case V4(_) => IPv4 case V6(_) => IPv6 case Domain(_) => DomainName;
      assert readBuf[..size] == chunks[i];
      WriteFrame(w, t, a, port, readBuf, size);
      FrameHunksSnoc(t, a, port, chunks, i);
      Reassociate(start, Flatten(FrameHunks(t, a, port, chunks[..i])), FrameBytes(t, a, port, chunks[i]));
    }
    assert chunks[..|chunks|] == chunks;
  }

  lemma SentHunksSnoc(c: Session, chunks: seq<bytes>, i: nat)
    requires i < |chunks|
    ensures SentHunks(c, chunks[..i + 1]) == SentHunks(c, chunks[..i]) + Hunks(c, chunks[i])
  {
    hide Hunks;
    assert chunks[..i + 1][..i] == chunks[..i];
  }

  /** `copy_client_reader_to_server_grpc_writer`: two hunks a turn, the header from a truncated cursor. */
  method CopyClientReaderToServerGrpcWriter(chunks: seq<bytes>, r: InboundRequest) returns (hunks: seq<bytes>)
    requires forall i :: 0 <= i < |chunks| ==> |chunks[i]| <= BUF_SIZE
    ensures r.command.Udp? ==> hunks == SentHunks(Session(Upload, r, None, None), chunks)
    ensures Flatten(hunks) == Flatten(FrameHunks(r.atype, r.addr, r.port, chunks))
  {
    hide FrameHunks, Flatten, UdpHeaderBytes;
    hunks := [];
    NoFrames(r.atype, r.addr, r.port);
    for i := 0 to |chunks|
      invariant r.command.Udp? ==> hunks == SentHunks(Session(Upload, r, None, None), chunks[..i])
      invariant Flatten(hunks) == Flatten(FrameHunks(r.atype, r.addr, r.port, chunks[..i]))
    {
      var cursor := new Cursor(512);
      WriteUdpHeader(cursor, r.atype, r.addr, r.port, |chunks[i]|);
      var header := cursor.Truncated();
      assert header == UdpHead(r, chunks[i]);
      FlattenSnoc(hunks, header);
      FlattenSnoc(hunks + [header], chunks[i]);
      Reassociate(Flatten(hunks), header, chunks[i]);
      FrameHunksSnoc(r.atype, r.addr, r.port, chunks, i);
      SentHunksSnoc(Session(Upload, r, None, None), chunks, i);
      assert hunks + [header] + [chunks[i]] == hunks + [header, chunks[i]];
      hunks := hunks + [header] + [chunks[i]];
    }
    assert chunks[..|chunks|] == chunks;
  }

  /** `copy_udp_socket_to_client_grpc_writer`: header and payload in one hunk. */
  method CopyUdpSocketToClientGrpcWriter(chunks: seq<bytes>, r: InboundRequest) returns (hunks: seq<bytes>)
    requires forall i :: 0 <= i < |chunks| ==> |chunks[i]| <= BUF_SIZE
    ensures hunks == SentHunks(Session(Download, r, None, None), chunks)
    ensures hunks == FrameHunks(r.atype, r.addr, r.port, chunks)
  {
    hide UdpHeaderBytes;
    var udpBuffer := new byte[BUF_SIZE];
    hunks := [];
    for i := 0 to |chunks|
      invariant hunks == SentHunks(Session(Download, r, None, None), chunks[..i])
      invariant hunks == FrameHunks(r.atype, r.addr, r.port, chunks[..i])
    {
      var n := |chunks[i]|;
      Store(udpBuffer, 0, chunks[i]);
      assert udpBuffer[..n] == chunks[i];
      var buf := PutFrame(r, udpBuffer, n);
      SentHunksSnoc(Session(Download, r, None, None), chunks, i);
      FrameHunksSnoc(r.atype, r.addr, r.port, chunks, i);
      hunks := hunks + [buf];
    }
    assert chunks[..|chunks|] == chunks;
  }

  /** The frame assembled with `put_u8`, `put_slice` and `put_u16`. */
  method PutFrame(r: InboundRequest, udpBuffer: array<byte>, n: nat) returns (buf: bytes)
    requires n <= udpBuffer.Length
    ensures buf == FrameBytes(r.atype, r.addr, r.port, udpBuffer[..n])
  {
    hide ToBigEndian;
    buf := [AtypeByte(r.atype)];
    match r.addr {
      case V4(v) => buf := buf + ToBigEndian(4, v);
      case V6(v) => buf := buf + ToBigEndian(16, v);
      case Domain(name) =>
        buf := buf + [|name| % 256];
        buf := buf + name;
        assert buf == [AtypeByte(r.atype)] + ([|name| % 256] + name);
    }
    buf := buf + ToBigEndian(2, r.port);
    buf := buf + ToBigEndian(2, n % 0x1_0000);
    buf := buf + CRLF;
    buf := buf + udpBuffer[..n];
  }

  /** Byte streams through frames: whatever the read sizes, and however the frames are chunked on the way,
      the payload-only reader puts out a prefix of the bytes the framing writer read, and all of them once
      all frames arrived. */
  lemma ByteStreamThroughFrames(u: set<bytes>, src: Source, r: InboundRequest, chunks: seq<bytes>)
    requires Consistent(r) && (r.addr.Domain? ==> r.addr.name !in u)
    requires forall i :: 0 <= i < |chunks| ==> |chunks[i]| <= BUF_SIZE
    requires Quiet(src) && Flat(src) <= Flatten(FrameHunks(r.atype, r.addr, r.port, chunks))
    ensures var out := Flatten(Payloads(ReadFrames(u, src).ds));
      && out <= Flatten(chunks)
      && (Flat(src) == Flatten(FrameHunks(r.atype, r.addr, r.port, chunks)) ==> out == Flatten(chunks))
  {
    var ds, got := Framed(r, chunks), ReadFrames(u, src).ds;
    assert AllFramable(ds) && AllResolvable(u, ds);
    hide Quiet, ReadFrames, FrameHunks, EncodeFrames, AllFramable, AllResolvable, Flatten;
    WritersEncodeDatagrams(r, chunks);
    FramesRoundTrip(u, src, ds);
    FirstPayloads(r, chunks, |got|);
    if Flat(src) == EncodeFrames(ds) {
      FrameSequenceRoundTrip(u, src, ds);
      assert chunks[..|got|] == chunks;
    }
  }

  lemma FirstPayloads(r: InboundRequest, chunks: seq<bytes>, k: nat)
    requires k <= |chunks|
    ensures Payloads(Framed(r, chunks)[..k]) == chunks[..k] && Flatten(chunks[..k]) <= Flatten(chunks)
  {
    hide Flatten;
    FlattenConcat(chunks[..k], chunks[k..]);
    assert chunks[..k] + chunks[k..] == chunks;
  }
}
