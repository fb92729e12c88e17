/** The deframing loops over a source: round trip, truncation, and what a closing stream can cost. */
module FrameStreams {
  import opened Bytes
  import opened Parsers
  import opened Transport
  import opened Reading
  import opened Framing

  /** The datagrams a deframing loop forwards and what finally stopped it. */
  datatype Delivery = Delivery(ds: seq<Datagram>, last: Outcome)

  function ReadFrames(u: set<bytes>, src: Source): Delivery
    decreases |src.script|, |src.buf|
  {
    var r := ReadAll(UdpFrame(u), [], src);
    if r.outcome.Complete? then
      var rest := ReadFrames(u, r.src);
      Delivery([ParseFrame(r.outcome.taken)] + rest.ds, rest.last)
    else
      Delivery([], r.outcome)
  }

  function Payloads(ds: seq<Datagram>): seq<bytes> {
    seq(|ds|, i requires 0 <= i < |ds| => ds[i].payload)
  }

  predicate AllResolvable(u: set<bytes>, ds: seq<Datagram>) {
    forall i :: 0 <= i < |ds| ==> Resolvable(u, ds[i])
  }

  /** The number of frames of `ds` that lie wholly within the first `m` bytes. */
  function WholeFrames(ds: seq<Datagram>, m: nat): (k: nat)
    ensures k <= |ds|
  {
    if ds == [] || m < |EncodeFrame(ds[0])| then 0
    else 1 + WholeFrames(ds[1..], m - |EncodeFrame(ds[0])|)
  }

  lemma {:induction false} WholeFramesIsMaximal(ds: seq<Datagram>, m: nat)
    ensures var k := WholeFrames(ds, m);
      && |EncodeFrames(ds[..k])| <= m
      && (k < |ds| ==> m < |EncodeFrames(ds[..k + 1])|)
  {
    if ds != [] {
      var f := EncodeFrame(ds[0]);
      assert ds[..1][1..] == [];
      if |f| <= m {
        WholeFramesIsMaximal(ds[1..], m - |f|);
        var k := WholeFrames(ds, m);
        assert ds[..k][1..] == ds[1..][..k - 1];
        assert k < |ds| ==> ds[..k + 1][1..] == ds[1..][..k];
      }
    }
  }

  lemma WholeFramesCons(ds: seq<Datagram>, m: nat)
    requires ds != [] && |EncodeFrame(ds[0])| <= m
    ensures ds[..WholeFrames(ds, m)] == [ds[0]] + ds[1..][..WholeFrames(ds[1..], m - |EncodeFrame(ds[0])|)]
  {
    hide EncodeFrame;
  }

  /** For every list of datagrams, every cut of their frames' bytes, every way to chunk those bytes and
      every pattern of Pending: the loop forwards exactly the datagrams whose frames lie wholly before
      the cut, never a partial one, and then waits for the rest. */
  lemma {:induction false} FramesRoundTrip(u: set<bytes>, src: Source, ds: seq<Datagram>)
    requires Quiet(src) && AllFramable(ds) && AllResolvable(u, ds)
    requires Flat(src) <= EncodeFrames(ds)
    ensures ReadFrames(u, src).ds == ds[..WholeFrames(ds, |Flat(src)|)]
    ensures ReadFrames(u, src).last.Waiting?
    decreases |ds|
  {
    hide Ask, ReadAll, EncodeFrame, Framable, Resolvable, Quiet, Flat;
    var s := Flat(src);
    if ds == [] {
      NoFrame(u, src);
    } else {
      var f := EncodeFrame(ds[0]);
      PrefixOfConcat(s, f, EncodeFrames(ds[1..]));
      if |s| < |f| {
        PartialFrame(u, src, ds[0]);
      } else {
        FirstFrame(u, src, ds[0], s[|f|..]);
        FramesRoundTrip(u, ReadAll(UdpFrame(u), [], src).src, ds[1..]);
        WholeFramesCons(ds, |s|);
      }
    }
  }

  lemma PrefixOfConcat(s: bytes, f: bytes, more: bytes)
    requires s <= f + more
    ensures if |s| < |f| then s < f else s == f + s[|f|..] && s[|f|..] <= more
  {
    assert s == (f + more)[..|s|];
  }

  /** A source that begins with a frame yields it and keeps the bytes after it. */
  lemma FirstFrame(u: set<bytes>, src: Source, d: Datagram, rest: bytes)
    requires Quiet(src) && Framable(d) && Resolvable(u, d) && Flat(src) == EncodeFrame(d) + rest
    ensures var r := ReadAll(UdpFrame(u), [], src);
      r.outcome == Complete(EncodeFrame(d)) && ParseFrame(EncodeFrame(d)) == d && Quiet(r.src) && Flat(r.src) == rest
  {
    hide Ask, EncodeFrame, Quiet, Flat, ReadAll, FullLength;
    var s, f := Flat(src), EncodeFrame(d);
    assert s == [] + s;
    FrameDecodes(u, d);
    ChunkingIndependence(UdpFrame(u), [], src, s);
    ScanFull(UdpFrame(u), f, rest, 0);
    assert (f + rest)[|f|..] == rest;
  }

  lemma PartialFrame(u: set<bytes>, src: Source, d: Datagram)
    requires Quiet(src) && Framable(d) && Resolvable(u, d) && Flat(src) < EncodeFrame(d)
    ensures ReadAll(UdpFrame(u), [], src).outcome.Waiting?
  {
    hide Ask, EncodeFrame, Quiet, Flat, ReadAll, FullLength;
    var s, f := Flat(src), EncodeFrame(d);
    assert s == [] + s && s == f[..|s|];
    FrameDecodes(u, d);
    ChunkingIndependence(UdpFrame(u), [], src, s);
    ScanPart(UdpFrame(u), f, |s|, 0);
  }

  lemma NoFrame(u: set<bytes>, src: Source)
    requires Quiet(src) && Flat(src) == []
    ensures ReadAll(UdpFrame(u), [], src).outcome.Waiting?
  {
    hide Ask, ReadAll;
    EmptyWaits(u);
    ChunkingIndependence(UdpFrame(u), [], src, []);
  }

  lemma EmptyWaits(u: set<bytes>)
    ensures Ask(UdpFrame(u), []) == More(1)
  {
  }

  /** The whole list comes out when all bytes arrive. */
  lemma FrameSequenceRoundTrip(u: set<bytes>, src: Source, ds: seq<Datagram>)
    requires Quiet(src) && AllFramable(ds) && AllResolvable(u, ds)
    requires Flat(src) == EncodeFrames(ds)
    ensures ReadFrames(u, src).ds == ds
  {
    hide ReadFrames, EncodeFrame, Quiet, AllFramable, AllResolvable;
    FramesRoundTrip(u, src, ds);
    WholeFramesIsMaximal(ds, |EncodeFrames(ds)|);
    hide WholeFrames, EncodeFrames;
    var k := WholeFrames(ds, |EncodeFrames(ds)|);
    if k < |ds| {
      EncodeFramesMonotone(ds, k + 1);
    }
    assert ds[..|ds|] == ds;
  }

  lemma {:induction false} EncodeFramesConcat(a: seq<Datagram>, b: seq<Datagram>)
    ensures EncodeFrames(a + b) == EncodeFrames(a) + EncodeFrames(b)
  {
    if a == [] {
      assert a + b == b;
    } else {
      assert (a + b)[1..] == a[1..] + b;
      EncodeFramesConcat(a[1..], b);
    }
  }

  lemma EncodeFramesMonotone(ds: seq<Datagram>, k: nat)
    requires k <= |ds|
    ensures |EncodeFrames(ds[..k])| <= |EncodeFrames(ds)|
  {
    EncodeFramesConcat(ds[..k], ds[k..]);
    assert ds[..k] + ds[k..] == ds;
  }

  // ---------------------------------------------------------------- a stream that closes

  /** Closing the stream costs nothing over TCP or if the reader was idle after the last packet, and
      otherwise at most the last datagram. */
  lemma {:induction false} ClosingFrames(u: set<bytes>, src: Source, e: Event)
    requires e.End? || e.Error?
    requires Quiet(src)
    ensures var a, c := ReadFrames(u, src), ReadFrames(u, Closing(src, e));
      && c.last.Broken?
      && (c.ds == a.ds || (src.kind.Grpc? && !Settled(src) && a.ds != [] && c.ds == a.ds[..|a.ds| - 1]))
    decreases |src.script|, |src.buf|
  {
    hide Ask, PollKind, Quiet, Settled;
    var g := UdpFrame(u);
    ChunkingIndependence(g, [], src, [] + Flat(src));
    ClosingRead(g, [], src, e);
    EmptyWaits(u);
    var r, c := ReadAll(g, [], src), ReadAll(g, [], Closing(src, e));
    if r.outcome.Complete? {
      if c.outcome.Broken? {
        ExhaustedFrames(u, r.src);
      } else {
        ClosingFrames(u, r.src, e);
        AllButLast(ReadFrames(u, src).ds[0], ReadFrames(u, r.src).ds);
      }
    }
  }

  lemma AllButLast(d: Datagram, x: seq<Datagram>)
    ensures x != [] ==> ([d] + x)[..|[d] + x| - 1] == [d] + x[..|x| - 1]
  {
  }

  lemma ExhaustedFrames(u: set<bytes>, src: Source)
    requires src.buf == [] && src.script == []
    ensures ReadFrames(u, src).ds == []
  {
    ExhaustedRead(UdpFrame(u), [], src);
  }

  /** Truncation: a stream cut at any byte and then closed. Over TCP exactly the frames wholly before the
      cut are forwarded; over hunks the same if the reader was idle once after the last packet, and if not,
      those or all of those but the last. */
  lemma Truncation(u: set<bytes>, src: Source, ds: seq<Datagram>, e: Event)
    requires e.End? || e.Error?
    requires Quiet(src) && AllFramable(ds) && AllResolvable(u, ds)
    requires Flat(src) <= EncodeFrames(ds)
    ensures var k, c := WholeFrames(ds, |Flat(src)|), ReadFrames(u, Closing(src, e));
      && c.last.Broken?
      && (c.ds == ds[..k] || (src.kind.Grpc? && !Settled(src) && 0 < k && c.ds == ds[..k - 1]))
  {
    FramesRoundTrip(u, src, ds);
    ClosingFrames(u, src, e);
    var k := WholeFrames(ds, |Flat(src)|);
    assert 0 < k ==> ds[..k][..k - 1] == ds[..k - 1];
  }
}
