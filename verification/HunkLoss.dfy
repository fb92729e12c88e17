/**
 What the look-ahead of the gRPC reader costs when a stream closes, exactly, for hunks as the senders cut
 them: one hunk for each datagram on the way down, a header and a payload on the way up.
 */
module HunkLoss {
  import opened Bytes
  import opened Protocol
  import opened Parsers
  import opened Transport
  import opened Reading
  import opened Framing
  import opened FrameStreams

  /** Are the packets of `script` these hunks, with Pendings anywhere? */
  predicate Carries(script: seq<Event>, hunks: seq<bytes>) {
    if script == [] then hunks == []
    else if script[0].Pending? then Carries(script[1..], hunks)
    else script[0].Packet? && hunks != [] && script[0].data == hunks[0] && Carries(script[1..], hunks[1..])
  }

  function Head(d: Datagram): bytes {
    UdpHeaderBytes(AtypeOf(d.addr), d.addr, d.port, |d.payload|)
  }

  /** The hunks of the server's loop. */
  function WholeHunks(ds: seq<Datagram>): seq<bytes> {
    if ds == [] then [] else [EncodeFrame(ds[0])] + WholeHunks(ds[1..])
  }

  /** The hunks of the client's loop. */
  function PairHunks(ds: seq<Datagram>): seq<bytes> {
    if ds == [] then [] else [Head(ds[0]), ds[0].payload] + PairHunks(ds[1..])
  }

  predicate Closes(e: Event) {
    e.End? || e.Error?
  }

  // ---------------------------------------------------------------- one hunk from the leftover

  /** No read of the parser goes past the end of `h`. */
  predicate Boundary(g: Grammar, h: bytes) {
    forall k :: 0 <= k < |h| ==> Ask(g, h[..k]).More? && k + Ask(g, h[..k]).n <= |h|
  }

  lemma FrameBoundary(u: set<bytes>, d: Datagram)
    requires Framable(d) && Resolvable(u, d)
    ensures Boundary(UdpFrame(u), EncodeFrame(d)) && 8 <= |EncodeFrame(d)|
  {
    var f := EncodeFrame(d);
    FrameDecodes(u, d);
    hide Ask, FullLength, Framable;
    forall k | 0 <= k < |f| ensures Ask(UdpFrame(u), f[..k]).More? && k + Ask(UdpFrame(u), f[..k]).n <= |f| {
      AskOnPrefix(UdpFrame(u), f, k);
    }
  }

  lemma HeadBoundary(u: set<bytes>, d: Datagram)
    requires Framable(d) && Resolvable(u, d)
    ensures Boundary(UdpFrame(u), Head(d)) && 8 <= |Head(d)|
    ensures EncodeFrame(d) == Head(d) + d.payload
    ensures d.payload != [] ==> Ask(UdpFrame(u), Head(d)) == More(|d.payload|)
  {
    var h := Head(d);
    HeadIsHeader(d);
    hide Head, FullLength, EncodeFrame, Framable;
    if d.payload != [] { HeadAsks(u, d, h); }
    hide Ask;
    forall k | 0 <= k < |h| ensures Ask(UdpFrame(u), h[..k]).More? && k + Ask(UdpFrame(u), h[..k]).n <= |h| {
      HeadPrefix(u, h, k);
    }
  }

  lemma HeadIsHeader(d: Datagram)
    requires Framable(d)
    ensures var h := Head(d);
      && 8 <= |h| && EncodeFrame(d) == h + d.payload
      && Ask(UdpHeader, h).Full? && FullLength(UdpHeader, h) == |h|
      && ParseUdpHeader(h) == UdpPacketHeader(d.addr, d.port, |d.payload|, |h|)
  {
    var h := Head(d);
    UdpHeaderDecodes(d.addr, d.port, |d.payload|, []);
    NoTail(h, []);
    HeaderBounds(d.addr, d.port, |d.payload|);
    hide UdpHeaderBytes, AskEndpoint, ParseUdpHeader;
  }

  lemma HeadAsks(u: set<bytes>, d: Datagram, h: bytes)
    requires Framable(d) && Resolvable(u, d) && d.payload != [] && Ask(UdpHeader, h).Full?
    requires ParseUdpHeader(h) == UdpPacketHeader(d.addr, d.port, |d.payload|, |h|)
    ensures Ask(UdpFrame(u), h) == More(|d.payload|)
  {
    hide AskEndpoint, ParseUdpHeader;
  }

  /** Before its payload a frame is read as its header is. */
  lemma HeadPrefix(u: set<bytes>, h: bytes, k: nat)
    requires Ask(UdpHeader, h).Full? && FullLength(UdpHeader, h) == |h| && k < |h|
    ensures Ask(UdpFrame(u), h[..k]).More? && k + Ask(UdpFrame(u), h[..k]).n <= |h|
  {
    AskOnPrefix(UdpHeader, h, k);
    hide AskEndpoint, FullLength;
  }

  /** What the look-ahead fetches. */
  function Fetched(next: Event): bytes {
    if next.Packet? then next.data else []
  }

  lemma LeftoverPoll(b: bytes, n: nat, next: Event, script: seq<Event>)
    requires 0 < n <= |b|
    ensures var src := Source(Grpc, b, [next] + script);
      var p := PollRead(src, n);
      if n < |b| then p.poll == Ok(b[..n]) && AfterPoll(src, p) == Source(Grpc, b[n..], [next] + script)
      else if Closes(next) then p.poll.Err?
      else p.poll == Ok(b) && AfterPoll(src, p) == Source(Grpc, Fetched(next), script)
  {
    assert ([next] + script)[1..] == script;
    assert next.Packet? ==> b + next.data[..0] == b;
  }

  lemma HunkStep(g: Grammar, h: bytes, k: nat, next: Event, script: seq<Event>)
    requires k < |h| && Ask(g, h[..k]).More? && k + Ask(g, h[..k]).n < |h|
    ensures var n := Ask(g, h[..k]).n;
      ReadAll(g, h[..k], Source(Grpc, h[k..], [next] + script))
      == ReadAll(g, h[..k + n], Source(Grpc, h[k + n..], [next] + script))
  {
    hide *;
    var n := Ask(g, h[..k]).n;
    LeftoverPoll(h[k..], n, next, script);
    ReadAllStep(g, h[..k], Source(Grpc, h[k..], [next] + script));
    Cut(h, k, n);
  }

  lemma HunkLast(g: Grammar, h: bytes, k: nat, next: Event, script: seq<Event>)
    requires k < |h| && Ask(g, h[..k]) == More(|h| - k)
    ensures var r := ReadAll(g, h[..k], Source(Grpc, h[k..], [next] + script));
      if Closes(next) then r.outcome.Broken? else r == ReadAll(g, h, Source(Grpc, Fetched(next), script))
  {
    hide *;
    LeftoverPoll(h[k..], |h| - k, next, script);
    ReadAllStep(g, h[..k], Source(Grpc, h[k..], [next] + script));
    Cut(h, k, |h| - k);
  }

  /** Reading a hunk from the leftover: its last read also asks for the next event. */
  lemma {:induction false} WholeHunk(g: Grammar, h: bytes, k: nat, next: Event, script: seq<Event>)
    requires Boundary(g, h) && k < |h|
    ensures var r := ReadAll(g, h[..k], Source(Grpc, h[k..], [next] + script));
      if Closes(next) then r.outcome.Broken? else r == ReadAll(g, h, Source(Grpc, Fetched(next), script))
    decreases |h| - k
  {
    hide *;
    BoundaryAt(g, h, k);
    if k + Ask(g, h[..k]).n < |h| {
      HunkStep(g, h, k, next, script);
      WholeHunk(g, h, k + Ask(g, h[..k]).n, next, script);
    } else {
      HunkLast(g, h, k, next, script);
    }
  }

  lemma BoundaryAt(g: Grammar, h: bytes, k: nat)
    requires Boundary(g, h) && k < |h|
    ensures Ask(g, h[..k]).More? && k + Ask(g, h[..k]).n <= |h|
  {
    hide Ask;
  }

  /** A hunk that is fetched for the first read of a frame, which asks for one byte. */
  lemma FirstByte(u: set<bytes>, h: bytes, script: seq<Event>)
    requires 2 <= |h|
    ensures ReadAll(UdpFrame(u), [], Source(Grpc, [], [Packet(h)] + script))
      == ReadAll(UdpFrame(u), [], Source(Grpc, h, script))
  {
    EmptyWaits(u);
    var a, b := Source(Grpc, [], [Packet(h)] + script), Source(Grpc, h, script);
    assert a.script[1..] == script && [] + h[..1] == h[..1];
    ReadAllStep(UdpFrame(u), [], a);
    ReadAllStep(UdpFrame(u), [], b);
    hide Ask, ReadAll;
  }

  /** An idle reader with nothing left over just goes on to the next event. */
  lemma IdleRead(g: Grammar, acc: bytes, script: seq<Event>)
    requires Ask(g, acc).More?
    ensures ReadAll(g, acc, Source(Grpc, [], [Pending] + script)) == ReadAll(g, acc, Source(Grpc, [], script))
  {
    var a := Source(Grpc, [], [Pending] + script);
    assert a.script[1..] == script;
    ReadAllStep(g, acc, a);
    hide Ask, ReadAll;
  }

  lemma ClosedRead(u: set<bytes>, acc: bytes, e: Event)
    requires Ask(UdpFrame(u), acc).More? && Closes(e)
    ensures ReadAll(UdpFrame(u), acc, Source(Grpc, [], [e])).outcome.Broken?
  {
    ReadAllStep(UdpFrame(u), acc, Source(Grpc, [], [e]));
    hide Ask, ReadAll;
  }

  // ---------------------------------------------------------------- one turn of the loop

  /** The datagrams a loop forwards that has already acquired `acc` of a frame. */
  function Resumed(u: set<bytes>, acc: bytes, src: Source): seq<Datagram> {
    var r := ReadAll(UdpFrame(u), acc, src);
    if r.outcome.Complete? then [ParseFrame(r.outcome.taken)] + ReadFrames(u, r.src).ds else []
  }

  lemma ResumedFromStart(u: set<bytes>, src: Source)
    ensures ReadFrames(u, src).ds == Resumed(u, [], src)
  {
    hide ReadAll;
  }

  lemma SameRead(u: set<bytes>, acc: bytes, a: Source, acc': bytes, b: Source)
    requires ReadAll(UdpFrame(u), acc, a) == ReadAll(UdpFrame(u), acc', b)
    ensures Resumed(u, acc, a) == Resumed(u, acc', b)
  {
    hide ReadAll, ReadFrames;
  }

  lemma FrameRead(u: set<bytes>, acc: bytes, src: Source, d: Datagram, rest: Source)
    requires Framable(d) && Resolvable(u, d)
    requires ReadAll(UdpFrame(u), acc, src) == ReadAll(UdpFrame(u), EncodeFrame(d), rest)
    ensures Resumed(u, acc, src) == [d] + Resumed(u, [], rest)
  {
    FrameDecodes(u, d);
    ReadAllFull(UdpFrame(u), EncodeFrame(d), rest);
    ResumedFromStart(u, rest);
    hide ReadAll, Ask, EncodeFrame, ParseFrame, ReadFrames;
  }

  /** A whole frame in the leftover is forwarded unless the stream closes right after it. */
  lemma FrameHunk(u: set<bytes>, d: Datagram, next: Event, script: seq<Event>)
    requires Framable(d) && Resolvable(u, d)
    ensures var ds := Resumed(u, [], Source(Grpc, EncodeFrame(d), [next] + script));
      ds == if Closes(next) then [] else [d] + Resumed(u, [], Source(Grpc, Fetched(next), script))
  {
    var f := EncodeFrame(d);
    FrameBoundary(u, d);
    WholeHunk(UdpFrame(u), f, 0, next, script);
    assert f[..0] == [] && f[0..] == f;
    hide Ask, EncodeFrame, Framable, Boundary, ReadAll, ReadFrames;
    if !Closes(next) {
      FrameRead(u, [], Source(Grpc, f, [next] + script), d, Source(Grpc, Fetched(next), script));
    }
  }

  // ---------------------------------------------------------------- download

  /** All of `ds`, or all but the last. */
  function Kept(ds: seq<Datagram>, all: bool): seq<Datagram> {
    if all || ds == [] then ds else ds[..|ds| - 1]
  }

  lemma KeptCons(ds: seq<Datagram>, all: bool)
    requires ds != [] && (ds[1..] == [] ==> all)
    ensures [ds[0]] + Kept(ds[1..], all) == Kept(ds, all)
  {
  }

  predicate EndsIdle(script: seq<Event>) {
    script != [] && script[|script| - 1].Pending?
  }

  lemma EndsIdleTail(script: seq<Event>)
    requires script != []
    ensures script[1..] != [] ==> (EndsIdle(script) <==> EndsIdle(script[1..]))
  {
  }

  lemma {:induction false} NoHunksLeft(script: seq<Event>)
    requires Carries(script, [])
    ensures script == [] || EndsIdle(script)
  {
    if script != [] { NoHunksLeft(script[1..]); }
  }

  /** The loop with a whole frame in its leftover. */
  lemma {:induction false} DownloadFrom(u: set<bytes>, ds: seq<Datagram>, script: seq<Event>, e: Event)
    requires AllFramable(ds) && AllResolvable(u, ds) && Closes(e)
    requires ds != [] && Carries(script, WholeHunks(ds[1..]))
    ensures Resumed(u, [], Source(Grpc, EncodeFrame(ds[0]), script + [e])) == Kept(ds, EndsIdle(script))
    decreases |script|, 1
  {
    hide Resumed, EncodeFrame, Framable, Resolvable;
    if script == [] {
      FrameHunk(u, ds[0], e, []);
      assert [] + [e] == [e] == [e] + [];
    } else {
      var rest := script[1..];
      FrameHunk(u, ds[0], script[0], rest + [e]);
      assert script + [e] == [script[0]] + (rest + [e]);
      EndsIdleTail(script);
      if script[0].Pending? {
        DownloadIdle(u, ds[1..], rest, e);
      } else {
        DownloadFrom(u, ds[1..], rest, e);
      }
      if ds[1..] == [] { NoHunksLeft(rest); }
      KeptCons(ds, EndsIdle(script));
    }
  }

  /** The loop between frames with nothing left over. */
  lemma {:induction false} DownloadIdle(u: set<bytes>, ds: seq<Datagram>, script: seq<Event>, e: Event)
    requires AllFramable(ds) && AllResolvable(u, ds) && Closes(e)
    requires Carries(script, WholeHunks(ds))
    ensures Resumed(u, [], Source(Grpc, [], script + [e])) == Kept(ds, EndsIdle(script))
    decreases |script|, 2
  {
    hide ReadFrames, EncodeFrame, Framable, Resolvable, Ask, ReadAll;
    EmptyWaits(u);
    if script == [] {
      assert [] + [e] == [e];
      ClosedRead(u, [], e);
    } else {
      var rest := script[1..];
      assert script + [e] == [script[0]] + (rest + [e]);
      EndsIdleTail(script);
      if script[0].Pending? {
        IdleRead(UdpFrame(u), [], rest + [e]);
        DownloadIdle(u, ds, rest, e);
      } else {
        FrameBoundary(u, ds[0]);
        FirstByte(u, EncodeFrame(ds[0]), rest + [e]);
        DownloadFrom(u, ds, rest, e);
      }
    }
  }

  /** For every list of datagrams sent as one hunk each, every pattern of Pending and a stream that then ends
      or fails: the loop forwards all of them if there are none or the reader was idle after the last
      hunk, and otherwise all but the last. */
  lemma DownloadLoss(u: set<bytes>, ds: seq<Datagram>, script: seq<Event>, e: Event)
    requires AllFramable(ds) && AllResolvable(u, ds) && Closes(e)
    requires Carries(script, WholeHunks(ds))
    ensures var src := Source(Grpc, [], script);
      var out := ReadFrames(u, Closing(src, e)).ds;
      && (out == ds <==> ds == [] || Settled(src))
      && (out != ds ==> out == ds[..|ds| - 1])
  {
    DownloadIdle(u, ds, script, e);
    ResumedFromStart(u, Source(Grpc, [], script + [e]));
    hide ReadFrames, Resumed, EncodeFrame, Framable;
  }

  // ---------------------------------------------------------------- upload

  /** The last two events are hunks: the reader fetches the last payload while it drains its header. */
  predicate Hurried(script: seq<Event>) {
    2 <= |script| && script[|script| - 1].Packet? && script[|script| - 2].Packet?
  }

  lemma HurriedCons(x: Event, script: seq<Event>)
    ensures 2 <= |script| ==> (Hurried([x] + script) <==> Hurried(script))
    ensures EndsIdle(script) ==> !Hurried([x] + script)
  {
  }

  predicate AllFull(ds: seq<Datagram>) {
    forall i :: 0 <= i < |ds| ==> ds[i].payload != []
  }

  /** A header in the leftover: the loop is then inside the frame, with whatever the look-ahead fetched. */
  lemma HeadHunk(u: set<bytes>, d: Datagram, next: Event, script: seq<Event>)
    requires Framable(d) && Resolvable(u, d) && !Closes(next)
    ensures ReadAll(UdpFrame(u), [], Source(Grpc, Head(d), [next] + script))
      == ReadAll(UdpFrame(u), Head(d), Source(Grpc, Fetched(next), script))
  {
    var h := Head(d);
    HeadBoundary(u, d);
    WholeHunk(UdpFrame(u), h, 0, next, script);
    assert h[..0] == [] && h[0..] == h;
  }

  /** The payload as leftover: it is complete unless the stream closes right after it. */
  lemma PayloadLeftOver(u: set<bytes>, d: Datagram, next: Event, script: seq<Event>)
    requires Framable(d) && Resolvable(u, d) && d.payload != []
    ensures var r := ReadAll(UdpFrame(u), Head(d), Source(Grpc, d.payload, [next] + script));
      if Closes(next) then r.outcome.Broken?
      else r == ReadAll(UdpFrame(u), EncodeFrame(d), Source(Grpc, Fetched(next), script))
  {
    HeadBoundary(u, d);
    var src := Source(Grpc, d.payload, [next] + script);
    ReadAllStep(UdpFrame(u), Head(d), src);
    LeftoverPoll(d.payload, |d.payload|, next, script);
    hide ReadAll, Ask, Head, PollRead, AfterPoll;
  }

  /** The payload met with nothing left over: it is read in one poll. */
  lemma PayloadFetched(u: set<bytes>, d: Datagram, script: seq<Event>)
    requires Framable(d) && Resolvable(u, d) && d.payload != []
    ensures ReadAll(UdpFrame(u), Head(d), Source(Grpc, [], [Packet(d.payload)] + script))
      == ReadAll(UdpFrame(u), EncodeFrame(d), Source(Grpc, [], script))
  {
    HeadBoundary(u, d);
    var src := Source(Grpc, [], [Packet(d.payload)] + script);
    assert src.script[1..] == script && [] + d.payload == d.payload;
    ReadAllStep(UdpFrame(u), Head(d), src);
    hide ReadAll, Ask, Head;
  }

  lemma {:induction false} CarriesLength(script: seq<Event>, hunks: seq<bytes>)
    requires Carries(script, hunks)
    ensures |hunks| <= |script|
  {
    if script != [] {
      CarriesLength(script[1..], if script[0].Pending? then hunks else hunks[1..]);
    }
  }

  lemma PairLength(ds: seq<Datagram>)
    ensures ds != [] ==> 2 <= |PairHunks(ds)|
  {
  }

  /** What a turn that ends in a complete frame leaves to do decides which datagram is the last. */
  lemma TurnDone(ds: seq<Datagram>, pre: seq<Event>, rest: seq<Event>)
    requires ds != [] && Carries(rest, PairHunks(ds[1..]))
    requires |pre| == 2 && (rest != [] || !Hurried(pre))
    ensures [ds[0]] + Kept(ds[1..], !Hurried(rest)) == Kept(ds, !Hurried(pre + rest))
  {
    if ds[1..] == [] {
      NoHunksLeft(rest);
    } else {
      CarriesLength(rest, PairHunks(ds[1..]));
      PairLength(ds[1..]);
    }
    hide Carries, PairHunks;
    HurriedTail(pre, rest);
    KeptCons(ds, !Hurried(pre + rest));
  }

  lemma HurriedTail(pre: seq<Event>, rest: seq<Event>)
    requires |pre| == 2
    ensures 2 <= |rest| ==> (Hurried(pre + rest) <==> Hurried(rest))
    ensures rest == [] ==> pre + rest == pre
    ensures EndsIdle(rest) ==> !Hurried(pre + rest)
  {
  }

  lemma SendableTail(u: set<bytes>, ds: seq<Datagram>)
    requires AllFramable(ds) && AllResolvable(u, ds) && AllFull(ds) && ds != []
    ensures AllFramable(ds[1..]) && AllResolvable(u, ds[1..]) && AllFull(ds[1..])
    ensures Framable(ds[0]) && Resolvable(u, ds[0]) && ds[0].payload != []
  {
  }

  /** The first event of a script that carries pairs. */
  lemma {:induction false} NextHead(ds: seq<Datagram>, script: seq<Event>)
    requires script != [] && Carries(script, PairHunks(ds))
    ensures !Closes(script[0])
    ensures script[0].Pending? ==> Fetched(script[0]) == [] && Carries(script[1..], PairHunks(ds))
    ensures !script[0].Pending? ==> ds != [] && script[0] == Packet(Head(ds[0])) && Fetched(script[0]) == Head(ds[0])
    ensures !script[0].Pending? ==> Carries(script[1..], [ds[0].payload] + PairHunks(ds[1..]))
  {
    hide Head;
    if !script[0].Pending? {
      assert PairHunks(ds)[1..] == [ds[0].payload] + PairHunks(ds[1..]);
    }
  }

  /** And of one that carries a payload first. */
  lemma {:induction false} NextPayload(ds: seq<Datagram>, script: seq<Event>)
    requires ds != [] && Carries(script, [ds[0].payload] + PairHunks(ds[1..]))
    ensures script != [] && !Closes(script[0])
    ensures script[0].Pending? ==> Fetched(script[0]) == []
    ensures script[0].Pending? ==> Carries(script[1..], [ds[0].payload] + PairHunks(ds[1..])) && script[1..] != []
    ensures !script[0].Pending? ==> script[0] == Packet(ds[0].payload) && Fetched(script[0]) == ds[0].payload
    ensures !script[0].Pending? ==> Carries(script[1..], PairHunks(ds[1..]))
  {
    hide Head;
    var hunks := [ds[0].payload] + PairHunks(ds[1..]);
    assert hunks[1..] == PairHunks(ds[1..]);
    if script[0].Pending? { CarriesLength(script[1..], hunks); }
  }

  lemma Uncons(script: seq<Event>, e: Event)
    requires script != []
    ensures script + [e] == [script[0]] + (script[1..] + [e]) && script == [script[0]] + script[1..]
  {
  }

  lemma NotHurried(x: Event)
    ensures !Hurried([Pending, x]) && !Hurried([x, Pending])
  {
  }

  /** Nothing left over, between frames. */
  lemma {:induction false} UploadIdle(u: set<bytes>, ds: seq<Datagram>, script: seq<Event>, e: Event)
    requires AllFramable(ds) && AllResolvable(u, ds) && AllFull(ds) && Closes(e)
    requires Carries(script, PairHunks(ds))
    ensures Resumed(u, [], Source(Grpc, [], script + [e])) == Kept(ds, !Hurried(script))
    decreases |script|, 0
  {
    EmptyWaits(u);
    if script == [] {
      assert [] + [e] == [e] && ds == [];
      ClosedRead(u, [], e);
      hide ReadAll, Ask;
    } else {
      hide *;
      var rest := script[1..];
      Uncons(script, e);
      NextHead(ds, script);
      if script[0].Pending? {
        IdleRead(UdpFrame(u), [], rest + [e]);
        SameRead(u, [], Source(Grpc, [], script + [e]), [], Source(Grpc, [], rest + [e]));
        UploadIdle(u, ds, rest, e);
        HurriedIdle(rest);
      } else {
        SendableTail(u, ds);
        HeadBoundary(u, ds[0]);
        FirstByte(u, Head(ds[0]), rest + [e]);
        SameRead(u, [], Source(Grpc, [], script + [e]), [], Source(Grpc, Head(ds[0]), rest + [e]));
        UploadHead(u, ds, rest, e, script[0]);
      }
    }
  }

  lemma HurriedIdle(script: seq<Event>)
    ensures Hurried([Pending] + script) <==> Hurried(script)
  {
  }

  lemma HurriedSkip(x: Event, script: seq<Event>)
    requires script != []
    ensures Hurried([x] + ([Pending] + script)) <==> Hurried([Pending] + script)
  {
  }

  /** The header left over. `last` is the event that brought it. */
  lemma {:induction false} UploadHead(u: set<bytes>, ds: seq<Datagram>, script: seq<Event>, e: Event, last: Event)
    requires AllFramable(ds) && AllResolvable(u, ds) && AllFull(ds) && Closes(e)
    requires ds != [] && last.Packet? && Carries(script, [ds[0].payload] + PairHunks(ds[1..]))
    ensures Resumed(u, [], Source(Grpc, Head(ds[0]), script + [e])) == Kept(ds, !Hurried([last] + script))
    decreases |script|, 0
  {
    hide *;
    NextPayload(ds, script);
    SendableTail(u, ds);
    Uncons(script, e);
    var h, x, rest := Head(ds[0]), script[0], script[1..];
    HeadHunk(u, ds[0], x, rest + [e]);
    SameRead(u, [], Source(Grpc, h, script + [e]), h, Source(Grpc, Fetched(x), rest + [e]));
    if x.Pending? {
      UploadInside(u, ds, rest, e);
      HurriedSkip(last, rest);
    } else {
      BothHunks(last, x);
      UploadPayload(u, ds, rest, e, [last, x]);
      assert [last] + script == [last, x] + rest;
    }
  }

  lemma BothHunks(x: Event, y: Event)
    requires x.Packet? && y.Packet?
    ensures Hurried([x, y])
  {
  }

  /** The header acquired and nothing left over: the reader has been idle since. */
  lemma {:induction false} UploadInside(u: set<bytes>, ds: seq<Datagram>, script: seq<Event>, e: Event)
    requires AllFramable(ds) && AllResolvable(u, ds) && AllFull(ds) && Closes(e)
    requires ds != [] && Carries(script, [ds[0].payload] + PairHunks(ds[1..]))
    ensures Resumed(u, Head(ds[0]), Source(Grpc, [], script + [e])) == Kept(ds, !Hurried([Pending] + script))
    decreases |script|, 0
  {
    hide *;
    NextPayload(ds, script);
    SendableTail(u, ds);
    HeadBoundary(u, ds[0]);
    Uncons(script, e);
    var h, x, rest := Head(ds[0]), script[0], script[1..];
    var src, src' := Source(Grpc, [], script + [e]), Source(Grpc, [], rest + [e]);
    if x.Pending? {
      IdleRead(UdpFrame(u), h, rest + [e]);
      SameRead(u, h, src, h, src');
      UploadInside(u, ds, rest, e);
      HurriedSkip(Pending, rest);
    } else {
      PayloadFetched(u, ds[0], rest + [e]);
      FrameRead(u, h, src, ds[0], src');
      UploadIdle(u, ds[1..], rest, e);
      NotHurried(x);
      TurnDone(ds, [Pending, x], rest);
      assert [Pending] + script == [Pending, x] + rest;
    }
  }

  /** The stream closes while the last payload is drained. */
  lemma LastPayloadLost(u: set<bytes>, ds: seq<Datagram>, e: Event)
    requires ds != [] && Framable(ds[0]) && Resolvable(u, ds[0]) && ds[0].payload != [] && Closes(e)
    requires Carries([], PairHunks(ds[1..]))
    ensures |ds| == 1 && Resumed(u, Head(ds[0]), Source(Grpc, ds[0].payload, [e])) == []
  {
    PairLength(ds[1..]);
    PayloadLeftOver(u, ds[0], e, []);
    assert [e] + [] == [e];
    hide ReadFrames, Head, Ask, ReadAll, EncodeFrame;
  }

  lemma KeptOne(ds: seq<Datagram>)
    requires |ds| == 1
    ensures Kept(ds, false) == []
  {
  }

  /** The header acquired and the payload left over, fetched by the look-ahead. */
  lemma {:induction false} UploadPayload(u: set<bytes>, ds: seq<Datagram>, script: seq<Event>, e: Event,
                                         last: seq<Event>)
    requires AllFramable(ds) && AllResolvable(u, ds) && AllFull(ds) && Closes(e)
    requires ds != [] && |last| == 2 && Hurried(last) && Carries(script, PairHunks(ds[1..]))
    ensures Resumed(u, Head(ds[0]), Source(Grpc, ds[0].payload, script + [e])) == Kept(ds, !Hurried(last + script))
    decreases |script|, 0
  {
    hide *;
    SendableTail(u, ds);
    if script == [] {
      LastPayloadLost(u, ds, e);
      assert [] + [e] == [e] && last + [] == last;
      KeptOne(ds);
    } else {
      NextHead(ds[1..], script);
      Uncons(script, e);
      var h, x, rest, more := Head(ds[0]), script[0], script[1..], ds[1..];
      PayloadLeftOver(u, ds[0], x, rest + [e]);
      FrameRead(u, h, Source(Grpc, ds[0].payload, script + [e]), ds[0], Source(Grpc, Fetched(x), rest + [e]));
      if x.Pending? {
        UploadIdle(u, more, rest, e);
        NotHurried(last[1]);
        TurnDone(ds, [last[1], Pending], rest);
        HurriedAfter(last, script, [last[1], Pending] + rest);
      } else {
        UploadHead(u, more, rest, e, x);
        CarriesLength(script, PairHunks(more));
        PairLength(more);
        HurriedCons(last[1], script);
        HurriedAfter(last, script, [last[1]] + script);
        KeptCons(ds, !Hurried(script));
      }
    }
  }

  lemma HurriedAfter(last: seq<Event>, script: seq<Event>, tail: seq<Event>)
    requires |last| == 2 && script != [] && tail == [last[1]] + script
    ensures Hurried(last + script) <==> Hurried(tail)
  {
    assert last + script == [last[0]] + tail;
  }

  /** For every list of datagrams with payloads sent as two hunks each, every pattern of Pending and a stream that
      then ends or fails: the loop forwards all of them exactly if the reader was idle after the last
      header or after the last payload, that is, if the last two events are not both hunks; and otherwise
      all but the last. */
  lemma UploadLoss(u: set<bytes>, ds: seq<Datagram>, script: seq<Event>, e: Event)
    requires AllFramable(ds) && AllResolvable(u, ds) && AllFull(ds) && Closes(e)
    requires Carries(script, PairHunks(ds))
    ensures var out := ReadFrames(u, Closing(Source(Grpc, [], script), e)).ds;
      && (out == ds <==> !Hurried(script))
      && (out != ds ==> ds != [] && out == ds[..|ds| - 1])
  {
    UploadIdle(u, ds, script, e);
    ResumedFromStart(u, Source(Grpc, [], script + [e]));
    if ds == [] { NoHunksLeft(script); }
    hide ReadFrames, Resumed, Head, Framable, Carries;
  }

  lemma HunksOfOne(d: Datagram)
    ensures PairHunks([d]) == [Head(d), d.payload] && WholeHunks([d]) == [EncodeFrame(d)]
  {
  }

  lemma {:induction false} CarriesHunk(x: bytes, script: seq<Event>, hunks: seq<bytes>)
    requires Carries(script, hunks)
    ensures Carries([Packet(x)] + script, [x] + hunks) && Carries([Pending] + script, hunks)
  {
    assert ([Packet(x)] + script)[1..] == script && ([x] + hunks)[1..] == hunks;
    assert ([Pending] + script)[1..] == script;
  }

  /** So the loss is real and depends on timing alone: for every datagram with a payload. */
  lemma LookaheadLosesLastDatagram(d: Datagram)
    requires Framable(d) && d.payload != []
    ensures ReadFrames({}, Source(Grpc, [], [Packet(Head(d)), Pending, Packet(d.payload), End])).ds == [d]
    ensures ReadFrames({}, Source(Grpc, [], [Packet(Head(d)), Packet(d.payload), End])).ds == []
    ensures ReadFrames({}, Source(Grpc, [], [Packet(EncodeFrame(d)), End])).ds == []
  {
    OneSlow(d);
    OneFast(d);
    var f := EncodeFrame(d);
    HunksOfOne(d);
    assert AllFramable([d]) && AllResolvable({}, [d]);
    hide ReadFrames, EncodeFrame, Framable, WholeHunks;
    CarriesHunk(f, [], []);
    assert [Packet(f)] + [] == [Packet(f)] && [f] + [] == [f];
    DownloadLoss({}, [d], [Packet(f)], End);
    assert [Packet(f)] + [End] == [Packet(f), End];
  }

  lemma OneSlow(d: Datagram)
    requires Framable(d) && d.payload != []
    ensures ReadFrames({}, Source(Grpc, [], [Packet(Head(d)), Pending, Packet(d.payload), End])).ds == [d]
  {
    var h, x := Head(d), d.payload;
    var slow := [Packet(h), Pending, Packet(x)];
    HunksOfOne(d);
    assert AllFramable([d]) && AllResolvable({}, [d]) && AllFull([d]);
    assert !Hurried(slow);
    hide *;
    CarriesNothing();
    CarriesHunk(x, [], []);
    assert [Packet(x)] + [] == [Packet(x)] && [x] + [] == [x];
    CarriesHunk(x, [Packet(x)], [x]);
    CarriesHunk(h, [Pending] + [Packet(x)], [x]);
    assert [Packet(h)] + ([Pending] + [Packet(x)]) == slow && [h] + [x] == [h, x];
    UploadLoss({}, [d], slow, End);
    assert slow + [End] == [Packet(h), Pending, Packet(x), End];
  }

  lemma OneFast(d: Datagram)
    requires Framable(d) && d.payload != []
    ensures ReadFrames({}, Source(Grpc, [], [Packet(Head(d)), Packet(d.payload), End])).ds == []
  {
    var h, x := Head(d), d.payload;
    var fast := [Packet(h), Packet(x)];
    HunksOfOne(d);
    assert AllFramable([d]) && AllResolvable({}, [d]) && AllFull([d]);
    assert Hurried(fast);
    hide *;
    CarriesNothing();
    CarriesHunk(x, [], []);
    assert [Packet(x)] + [] == [Packet(x)] && [x] + [] == [x];
    CarriesHunk(h, [Packet(x)], [x]);
    assert [Packet(h)] + [Packet(x)] == fast && [h] + [x] == [h, x];
    UploadLoss({}, [d], fast, End);
    assert fast + [End] == [Packet(h), Packet(x), End];
  }

  lemma CarriesNothing()
    ensures Carries([], []) && Closes(End)
  {
  }

  // ---------------------------------------------------------------- a whole upload

  /** A hunk that is a request header, no more and no less. */
  predicate HeaderHunk(h: bytes) {
    Ask(TrojanHeader, h).Full? && FullLength(TrojanHeader, h) == |h|
  }

  lemma HeaderBoundary(h: bytes)
    requires HeaderHunk(h)
    ensures Boundary(TrojanHeader, h) && HEX_SIZE < |h|
  {
    assert HEX_SIZE < |h|;
    hide Ask, FullLength;
    forall k | 0 <= k < |h| ensures Ask(TrojanHeader, h[..k]).More? && k + Ask(TrojanHeader, h[..k]).n <= |h| {
      AskOnPrefix(TrojanHeader, h, k);
    }
  }

  /** The first poll takes the digest off the hunk that it fetches. */
  lemma FirstDigest(h: bytes, script: seq<Event>)
    requires HEX_SIZE < |h|
    ensures ReadAll(TrojanHeader, [], Source(Grpc, [], [Packet(h)] + script))
      == ReadAll(TrojanHeader, h[..HEX_SIZE], Source(Grpc, h[HEX_SIZE..], script))
  {
    var src := Source(Grpc, [], [Packet(h)] + script);
    assert src.script[1..] == script && [] + h[..HEX_SIZE] == h[..HEX_SIZE];
    ReadAllStep(TrojanHeader, [], src);
    hide ReadAll;
  }

  /** The header and then whatever event comes next. */
  lemma HeaderRead(h: bytes, next: Event, script: seq<Event>)
    requires HeaderHunk(h)
    ensures var r := ReadAll(TrojanHeader, [], Source(Grpc, [], [Packet(h)] + ([next] + script)));
      if Closes(next) then r.outcome.Broken? else r == Result(Complete(h), Source(Grpc, Fetched(next), script))
  {
    HeaderBoundary(h);
    hide Ask, FullLength, Boundary, ReadAll, Fetched, Closes;
    FirstDigest(h, [next] + script);
    WholeHunk(TrojanHeader, h, HEX_SIZE, next, script);
    if !Closes(next) { ReadAllFull(TrojanHeader, h, Source(Grpc, Fetched(next), script)); }
  }

  lemma HeaderWaits()
    ensures Ask(TrojanHeader, []).More?
  {
  }

  /** The first event of a script that carries the header first. */
  lemma {:induction false} NextHeader(h: bytes, hunks: seq<bytes>, script: seq<Event>)
    requires Carries(script, [h] + hunks)
    ensures script != []
    ensures script[0].Pending? ==> Carries(script[1..], [h] + hunks) && script[1..] != []
    ensures !script[0].Pending? ==> script[0] == Packet(h) && Carries(script[1..], hunks)
  {
    assert ([h] + hunks)[1..] == hunks;
    if script[0].Pending? { CarriesLength(script[1..], [h] + hunks); }
  }

  /** Is the header lost? It is if the stream closes right after it. */
  predicate HeaderLost(ds: seq<Datagram>, script: seq<Event>) {
    ds == [] && !EndsIdle(script)
  }

  /** For every header hunk, every list of datagrams with payloads sent as two hunks each, every pattern of Pending
      and a stream that then ends or fails: the server's parser fails if the stream closes right after the header,
      and otherwise returns the header, and the loop that goes on with its reader forwards all datagrams exactly
      if the last two events are not both hunks, and otherwise all but the last. */
  lemma {:induction false} WholeUploadLoss(u: set<bytes>, h: bytes, ds: seq<Datagram>, script: seq<Event>, e: Event)
    requires AllFramable(ds) && AllResolvable(u, ds) && AllFull(ds) && Closes(e)
    requires HeaderHunk(h) && Carries(script, [h] + PairHunks(ds))
    ensures var r := ReadAll(TrojanHeader, [], Closing(Source(Grpc, [], script), e));
      if HeaderLost(ds, script) then r.outcome.Broken?
      else r.outcome == Complete(h) && ReadFrames(u, r.src).ds == Kept(ds, !Hurried(script))
  {
    var rest := script[1..];
    NextHeader(h, PairHunks(ds), script);
    Uncons(script, e);
    HeaderWaits();
    assert Closing(Source(Grpc, [], script), e) == Source(Grpc, [], script + [e]);
    assert Closing(Source(Grpc, [], rest), e) == Source(Grpc, [], rest + [e]);
    hide HeaderHunk, Ask, ReadAll, ReadFrames, PairHunks, Carries, AllFramable, AllResolvable, AllFull, Kept;
    if script[0].Pending? {
      IdleRead(TrojanHeader, [], rest + [e]);
      WholeUploadLoss(u, h, ds, rest, e);
      HurriedIdle(rest);
      EndsIdleTail(script);
    } else if rest == [] {
      assert rest + [e] == [e] + [];
      HeaderRead(h, e, []);
      NothingCarried(ds);
    } else {
      LoopAfterHeader(u, h, ds, script, e);
    }
  }

  lemma NothingCarried(ds: seq<Datagram>)
    requires Carries([], PairHunks(ds))
    ensures ds == []
  {
    PairLength(ds);
  }

  /** The loop goes on with the reader the header's parser leaves. */
  lemma LoopAfterHeader(u: set<bytes>, h: bytes, ds: seq<Datagram>, script: seq<Event>, e: Event)
    requires AllFramable(ds) && AllResolvable(u, ds) && AllFull(ds) && Closes(e) && HeaderHunk(h)
    requires script != [] && script[0] == Packet(h) && script[1..] != [] && Carries(script[1..], PairHunks(ds))
    ensures var r := ReadAll(TrojanHeader, [], Source(Grpc, [], script + [e]));
      r.outcome == Complete(h) && ReadFrames(u, r.src).ds == Kept(ds, !Hurried(script)) && !HeaderLost(ds, script)
  {
    hide *;
    var rest := script[1..];
    var next, more := rest[0], rest[1..];
    Uncons(script, e);
    Uncons(rest, e);
    NextHead(ds, rest);
    HeaderRead(h, next, more + [e]);
    ResumedFromStart(u, Source(Grpc, Fetched(next), more + [e]));
    NotLost(ds, script);
    if next.Pending? {
      UploadIdle(u, ds, more, e);
      IdleAfterHeader(ds, script);
    } else {
      UploadHead(u, ds, more, e, next);
      CarriesLength(rest, PairHunks(ds));
      PairLength(ds);
      HurriedCons(script[0], rest);
    }
  }

  lemma NotLost(ds: seq<Datagram>, script: seq<Event>)
    requires script != [] && script[1..] != [] && Carries(script[1..], PairHunks(ds))
    ensures !HeaderLost(ds, script)
  {
    if ds == [] { NoHunksLeft(script[1..]); }
  }

  lemma IdleAfterHeader(ds: seq<Datagram>, script: seq<Event>)
    requires 2 <= |script| && script[1].Pending? && Carries(script[1..][1..], PairHunks(ds))
    ensures Kept(ds, !Hurried(script[1..][1..])) == Kept(ds, !Hurried(script))
  {
    var more := script[1..][1..];
    if ds != [] {
      CarriesLength(more, PairHunks(ds));
      PairLength(ds);
      assert script == script[..2] + more;
      HurriedTail(script[..2], more);
    }
  }
}
