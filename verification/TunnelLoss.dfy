/** What the look-ahead costs a session when its connection closes, for the hunks its sender really sends. */
module TunnelLoss {
  import opened Bytes
  import opened Parsers
  import opened Transport
  import opened Reading
  import opened Framing
  import opened FrameStreams
  import opened HunkLoss
  import opened Senders
  import opened Tunnel
  import opened TunnelInvariant
  import opened TunnelInStep
  import opened TunnelHunks

  // ---------------------------------------------------------------- the hunks of a sender's loop

  lemma {:induction false} PairHunksConcat(a: seq<Datagram>, b: seq<Datagram>)
    ensures PairHunks(a + b) == PairHunks(a) + PairHunks(b)
  {
    hide Head;
    if a == [] {
      assert a + b == b;
    } else {
      assert (a + b)[1..] == a[1..] + b;
      PairHunksConcat(a[1..], b);
    }
  }

  lemma {:induction false} WholeHunksConcat(a: seq<Datagram>, b: seq<Datagram>)
    ensures WholeHunks(a + b) == WholeHunks(a) + WholeHunks(b)
  {
    hide EncodeFrame;
    if a == [] {
      assert a + b == b;
    } else {
      assert (a + b)[1..] == a[1..] + b;
      WholeHunksConcat(a[1..], b);
    }
  }

  lemma TurnHunks(c: Session, chunk: bytes)
    requires Plausible(c) && c.request.command.Udp?
    ensures var d := Datagram(c.request.addr, c.request.port, chunk);
      Hunks(c, chunk) == if InPairs(c) then PairHunks([d]) else WholeHunks([d])
  {
    var d := Datagram(c.request.addr, c.request.port, chunk);
    HunksOfOne(d);
    hide UdpHeaderBytes;
  }

  /** A UDP sender's hunks are those of the datagrams it frames, cut the way its side cuts them. */
  lemma {:induction false} SentAreFramed(c: Session, input: seq<bytes>)
    requires Plausible(c) && c.request.command.Udp?
    ensures var ds := Framed(c.request, input);
      SentHunks(c, input) == if InPairs(c) then PairHunks(ds) else WholeHunks(ds)
  {
    if input == [] {
      assert Framed(c.request, input) == [];
    } else {
      var init, last := input[..|input| - 1], input[|input| - 1];
      var d := Datagram(c.request.addr, c.request.port, last);
      assert SentHunks(c, input) == SentHunks(c, init) + Hunks(c, last);
      assert Framed(c.request, input) == Framed(c.request, init) + [d];
      hide *;
      SentAreFramed(c, init);
      TurnHunks(c, last);
      PairHunksConcat(Framed(c.request, init), [d]);
      WholeHunksConcat(Framed(c.request, init), [d]);
    }
  }

  // ---------------------------------------------------------------- losses

  lemma FramedSendable(c: Session, input: seq<bytes>)
    requires Plausible(c) && InputShape(c, input) && NoEmptyRead(input)
    ensures AllFramable(Framed(c.request, input)) && AllFull(Framed(c.request, input))
  {
    FramedIsFramable(c, input);
    hide Framable;
  }

  /** For every UDP upload in step, every list of reads before the client's stream ends, every pattern of Pending and
      a connection that then ends or fails: the server loses the header if the connection closes right after it;
      otherwise it takes exactly the header, and the loop behind it forwards every datagram if and only if the last
      two events are not both hunks, and all but the last if they are. */
  lemma UploadSessionLoss(c: Session, u: set<bytes>, input: seq<bytes>, script: seq<Event>, e: Event)
    requires InStep(c) && InPairs(c) && c.client.Some? && Closes(e)
    requires InputShape(c, input) && NoEmptyRead(input)
    requires AllResolvable(u, Framed(c.request, input)) && Carries(script, AllHunks(c, input))
    ensures var r := ReadAll(TrojanHeader, [], Closing(Source(Grpc, [], script), e));
      if input == [] && !EndsIdle(script) then r.outcome.Broken?
      else r.outcome == Complete(Preamble(c))
           && (var out, ds := ReadFrames(u, r.src).ds, Framed(c.request, input);
               && (out == ds <==> !Hurried(script))
               && (out != ds ==> ds != [] && out == ds[..|ds| - 1]))
  {
    var ds := Framed(c.request, input);
    PreambleTaken(c);
    FramedSendable(c, input);
    SentAreFramed(c, input);
    assert HeaderHunk(Preamble(c)) && AllHunks(c, input) == [Preamble(c)] + PairHunks(ds);
    hide HeaderHunk, Preamble, PairHunks, AllHunks, SentHunks, ReadAll, ReadFrames, InStep, InputShape;
    WholeUploadLoss(u, Preamble(c), ds, script, e);
    if ds == [] { NotHurriedAlone(Preamble(c), script); }
    hide Carries, AllFramable, AllResolvable, AllFull;
  }

  /** A header alone is never hurried. */
  lemma {:induction false} NotHurriedAlone(h: bytes, script: seq<Event>)
    requires Carries(script, [h] + PairHunks([]))
    ensures !Hurried(script)
    decreases |script|
  {
    assert [h] + PairHunks([]) == [h];
    NextHeader(h, PairHunks([]), script);
    if script[0].Pending? {
      NotHurriedAlone(h, script[1..]);
      assert script == [Pending] + script[1..];
      HurriedIdle(script[1..]);
    } else {
      NoHunksLeft(script[1..]);
    }
  }

  /** For every download: the client's loop forwards every datagram if and only if there is none or the reader was
      idle after the last hunk, and otherwise all but the last. */
  lemma DownloadSessionLoss(c: Session, u: set<bytes>, input: seq<bytes>, script: seq<Event>, e: Event)
    requires Plausible(c) && c.direction.Download? && InputShape(c, input) && Closes(e)
    requires AllResolvable(u, Framed(c.request, input)) && Carries(script, AllHunks(c, input))
    ensures var src, ds := Source(Grpc, [], script), Framed(c.request, input);
      var out := ReadFrames(u, Closing(src, e)).ds;
      && (out == ds <==> ds == [] || Settled(src))
      && (out != ds ==> out == ds[..|ds| - 1])
  {
    var ds := Framed(c.request, input);
    FramedIsFramable(c, input);
    SentAreFramed(c, input);
    assert AllHunks(c, input) == WholeHunks(ds);
    hide Preamble, WholeHunks, AllHunks, SentHunks, ReadFrames, InputShape, Plausible;
    DownloadLoss(u, ds, script, e);
  }
}
