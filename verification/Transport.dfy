/**
 Byte sources under the parsers: a TCP connection, and the reader that turns a stream of gRPC hunks
 back into bytes. What the source will answer to successive polls is an arbitrary finite script.
 */
module Transport {
  import opened Bytes

  datatype Kind = Tcp | Grpc

  datatype Event = Pending | Packet(data: bytes) | End | Error

  datatype Poll = NotReady | Ok(data: bytes) | Err

  /** One `poll_read`: its answer, the bytes it leaves buffered, whether it polled the stream below, and
      the bytes it took out of the buffer without reporting them. */
  datatype Polled = Polled(poll: Poll, buf: bytes, took: bool, lost: bytes)

  function Reported(p: Poll): bytes {
    if p.Ok? then p.data else []
  }

  /** `GrpcDataReaderStream::poll_read` with `cap` bytes of room, `e` being what the hunk stream answers
      if it is polled. The leftover is drained first, and the next hunk is asked for even when the room
      is used up. */
  function PollGrpc(buf: bytes, cap: nat, e: Event): Polled {
    if cap < |buf| then Polled(Ok(buf[..cap]), buf[cap..], false, [])
    else match e
      case Pending => Polled(if buf == [] then NotReady else Ok(buf), [], true, [])
      case Packet(data) =>
        var room := cap - |buf|;
        if |data| <= room then Polled(Ok(buf + data), [], true, [])
        else Polled(Ok(buf + data[..room]), data[room..], true, [])
      case _ => Polled(Err, [], true, buf)
  }

  /** A TCP read: buffered bytes are handed out alone, and the end of the stream is an empty read. */
  function PollTcp(buf: bytes, cap: nat, e: Event): Polled {
    if buf != [] then
      var n := if cap < |buf| then cap else |buf|;
      Polled(Ok(buf[..n]), buf[n..], false, [])
    else match e
      case Pending => Polled(NotReady, [], true, [])
      case Packet(data) =>
        var n := if cap < |data| then cap else |data|;
        Polled(Ok(data[..n]), data[n..], true, [])
      case End => Polled(Ok([]), [], true, [])
      case Error => Polled(Err, [], true, [])
  }

  function PollKind(kind: Kind, buf: bytes, cap: nat, e: Event): Polled {
    if kind.Grpc? then PollGrpc(buf, cap, e) else PollTcp(buf, cap, e)
  }

  /** A source: its leftover bytes and what the layer below will answer. An exhausted script is a layer
      that stays silent. */
  datatype Source = Source(kind: Kind, buf: bytes, script: seq<Event>)

  function NextEvent(src: Source): Event {
    if src.script == [] then Pending else src.script[0]
  }

  function PollRead(src: Source, cap: nat): Polled {
    PollKind(src.kind, src.buf, cap, NextEvent(src))
  }

  function AfterPoll(src: Source, p: Polled): Source {
    Source(src.kind, p.buf, if p.took && src.script != [] then src.script[1..] else src.script)
  }

  function PacketBytes(script: seq<Event>): bytes {
    if script == [] then []
    else (if script[0].Packet? then script[0].data else []) + PacketBytes(script[1..])
  }

  /** Every byte the source still holds, in order. */
  function Flat(src: Source): bytes {
    src.buf + PacketBytes(src.script)
  }

  // ---------------------------------------------------------------- conservation over runs

  /** The polls of a run that offers the capacities `caps` one after the other. */
  function Polls(src: Source, caps: seq<nat>): (ps: seq<Polled>)
    ensures |ps| == |caps|
    decreases |caps|
  {
    if caps == [] then []
    else var p := PollRead(src, caps[0]); [p] + Polls(AfterPoll(src, p), caps[1..])
  }

  function AfterPolls(src: Source, caps: seq<nat>): Source
    decreases |caps|
  {
    if caps == [] then src
    else AfterPolls(AfterPoll(src, PollRead(src, caps[0])), caps[1..])
  }

  /** Bytes reported by a run and bytes it dropped, in the order they left the source. */
  function Accounted(ps: seq<Polled>): bytes {
    if ps == [] then [] else Reported(ps[0].poll) + ps[0].lost + Accounted(ps[1..])
  }

  function Delivered(ps: seq<Polled>): bytes {
    if ps == [] then [] else Reported(ps[0].poll) + Delivered(ps[1..])
  }

  /** The packet a run has taken from the stream last, or `before` if it took none. */
  function LastPacket(src: Source, caps: seq<nat>, before: bytes): bytes
    decreases |caps|
  {
    if caps == [] then before
    else
      var p, e := PollRead(src, caps[0]), NextEvent(src);
      LastPacket(AfterPoll(src, p), caps[1..], if p.took && e.Packet? then e.data else before)
  }

  predicate Suffix(s: bytes, of: bytes) {
    |s| <= |of| && s == of[|of| - |s|..]
  }

  /** One poll: what was buffered and what arrived is what is reported, lost and retained. Bytes are lost
      only when a gRPC poll fails, and then they are all the leftover it had drained. */
  lemma PollAccounts(kind: Kind, buf: bytes, cap: nat, e: Event)
    ensures var p := PollKind(kind, buf, cap, e);
      && buf + (if p.took && e.Packet? then e.data else []) == Reported(p.poll) + p.lost + p.buf
      && |Reported(p.poll)| <= cap
      && (p.lost != [] ==> p.poll.Err? && kind.Grpc? && p.lost == buf && |buf| <= cap)
      && (if p.took && e.Packet? then Suffix(p.buf, e.data) else Suffix(p.buf, buf))
  {
    if kind.Grpc? {
      GrpcAccounts(buf, cap, e);
    } else {
      TcpAccounts(buf, cap, e);
    }
  }

  lemma GrpcAccounts(buf: bytes, cap: nat, e: Event)
    ensures var p := PollGrpc(buf, cap, e);
      && buf + (if p.took && e.Packet? then e.data else []) == Reported(p.poll) + p.lost + p.buf
      && |Reported(p.poll)| <= cap
      && (p.lost != [] ==> p.poll.Err? && p.lost == buf && |buf| <= cap)
      && (if p.took && e.Packet? then Suffix(p.buf, e.data) else Suffix(p.buf, buf))
  {
    if cap < |buf| {
      Cut(buf, cap, 0);
    } else if e.Packet? {
      var room := if cap - |buf| < |e.data| then cap - |buf| else |e.data|;
      Cut(e.data, room, 0);
      assert buf + e.data == (buf + e.data[..room]) + [] + e.data[room..];
    }
  }

  function Min(a: nat, b: nat): nat {
    if a < b then a else b
  }

  /** A poll of the hunk reader, said at once. It asks for the next packet exactly if the leftover fits the room.
      Unless that ends the stream or fails, the leftover and the packet that came are cut at the room: the caller
      gets the front, as much of it as there is room for, and the reader keeps the rest. With nothing there at all
      it is Pending. */
  lemma GrpcPollIsGreedy(buf: bytes, cap: nat, e: Event)
    ensures var p := PollGrpc(buf, cap, e);
      var all := if |buf| <= cap && e.Packet? then buf + e.data else buf;
      var n := Min(cap, |all|);
      && (p.took <==> |buf| <= cap)
      && (p.took && (e.End? || e.Error?) ==> p == Polled(Err, [], true, buf))
      && (p.took && e.Pending? && buf == [] ==> p.poll == NotReady && p.buf == [])
      && (p.poll.Ok? <==> !p.took || e.Packet? || (e.Pending? && buf != []))
      && (p.poll.Ok? ==> p.poll.data == all[..n] && p.buf == all[n..] && p.lost == [])
      && (p.buf != [] ==> |Reported(p.poll)| == cap)
  {
    if |buf| <= cap && e.Packet? {
      var all, room := buf + e.data, cap - |buf|;
      if |e.data| <= room {
        assert all[..|all|] == all;
      } else {
        assert all[..cap] == buf + e.data[..room] && all[cap..] == e.data[room..];
      }
    } else if |buf| <= cap {
      assert buf[..|buf|] == buf;
    }
  }

  /** A TCP read, said at once: only an empty reader asks for more; what it holds then is cut at the room, and
      the end of the stream is an empty read. */
  lemma TcpPollIsGreedy(buf: bytes, cap: nat, e: Event)
    ensures var p := PollTcp(buf, cap, e);
      var all := if buf == [] && e.Packet? then e.data else buf;
      var n := Min(cap, |all|);
      && (p.took <==> buf == []) && p.lost == []
      && (p.poll.NotReady? <==> buf == [] && e.Pending?)
      && (p.poll.Err? <==> buf == [] && e.Error?)
      && (p.poll.Ok? ==> p.poll.data == all[..n] && p.buf == all[n..])
  {
  }

  lemma SplitAt(d: bytes, n: nat)
    requires n <= |d|
    ensures d[..n] + [] + d[n..] == d && Suffix(d[n..], d)
    ensures [] + d == d && d + [] == d && [] + [] + d == d
  {
    assert d[..n] + [] == d[..n];
  }

  lemma TcpAccounts(buf: bytes, cap: nat, e: Event)
    ensures var p := PollTcp(buf, cap, e);
      && buf + (if p.took && e.Packet? then e.data else []) == Reported(p.poll) + p.lost + p.buf
      && |Reported(p.poll)| <= cap && p.lost == []
      && (if p.took && e.Packet? then Suffix(p.buf, e.data) else Suffix(p.buf, buf))
  {
    if buf != [] {
      SplitAt(buf, if cap < |buf| then cap else |buf|);
    } else if e.Packet? {
      SplitAt(e.data, if cap < |e.data| then cap else |e.data|);
    } else {
      SplitAt([], 0);
    }
  }

  lemma PollReports(src: Source, cap: nat)
    ensures |Reported(PollRead(src, cap).poll)| <= cap
  {
    hide PollKind;
    PollAccounts(src.kind, src.buf, cap, NextEvent(src));
  }

  lemma LaterBytes(buf: bytes, arrived: bytes, later: bytes, out: bytes, left: bytes)
    requires buf + arrived == out + left
    ensures buf + (arrived + later) == out + (left + later)
  {
    assert buf + (arrived + later) == (buf + arrived) + later;
    assert out + (left + later) == (out + left) + later;
  }

  lemma PollConserves(src: Source, cap: nat)
    ensures var p := PollRead(src, cap);
      Flat(src) == Reported(p.poll) + p.lost + Flat(AfterPoll(src, p))
  {
    var p, e := PollRead(src, cap), NextEvent(src);
    PollAccounts(src.kind, src.buf, cap, e);
    hide PollKind;
    var out, later := Reported(p.poll) + p.lost, PacketBytes(AfterPoll(src, p).script);
    if p.took && src.script != [] {
      LaterBytes(src.buf, if e.Packet? then e.data else [], later, out, p.buf);
    } else {
      NoTail(src.buf, []);
      LaterBytes(src.buf, [], later, out, p.buf);
      assert [] + later == later;
    }
  }

  /** Has the source been used up further between `before` and `after`? */
  predicate Advanced(before: Source, after: Source) {
    || |after.script| < |before.script|
    || (|after.script| == |before.script| && |after.buf| < |before.buf|)
  }

  /** A poll with room that reports a byte, or polls a stream that still has answers, uses the source up. */
  lemma PollAdvances(src: Source, cap: nat)
    requires 0 < cap
    ensures var p := PollRead(src, cap);
      && (p.poll.NotReady? ==> p.took && src.buf == [] && p.buf == [])
      && (Reported(p.poll) != [] || (p.took && src.script != []) ==> Advanced(src, AfterPoll(src, p)))
      && (Advanced(src, AfterPoll(src, p)) || AfterPoll(src, p) == src)
  {
  }

  /** Whatever capacities are offered and whatever the stream answers, every byte of every packet is
      reported, lost or retained exactly once and in order. */
  lemma {:induction false} Conservation(src: Source, caps: seq<nat>)
    ensures Flat(src) == Accounted(Polls(src, caps)) + Flat(AfterPolls(src, caps))
    decreases |caps|
  {
    hide PollKind;
    if caps != [] {
      var p := PollRead(src, caps[0]);
      var rest := Polls(AfterPoll(src, p), caps[1..]);
      PollConserves(src, caps[0]);
      Conservation(AfterPoll(src, p), caps[1..]);
      assert Polls(src, caps) == [p] + rest && Polls(src, caps)[1..] == rest;
    }
  }

  /** Bytes are lost only by a poll that fails, and no more than that poll had room to drain. */
  lemma {:induction false} LossOnlyOnFailure(src: Source, caps: seq<nat>, i: nat)
    requires i < |caps| && Polls(src, caps)[i].lost != []
    ensures Polls(src, caps)[i].poll.Err? && src.kind.Grpc? && |Polls(src, caps)[i].lost| <= caps[i]
    decreases |caps|
  {
    hide PollKind;
    var p := PollRead(src, caps[0]);
    if i == 0 {
      PollAccounts(src.kind, src.buf, caps[0], NextEvent(src));
    } else {
      LossOnlyOnFailure(AfterPoll(src, p), caps[1..], i - 1);
    }
  }

  lemma {:induction false} NoLossAllDelivered(ps: seq<Polled>)
    requires forall i :: 0 <= i < |ps| ==> ps[i].lost == []
    ensures Accounted(ps) == Delivered(ps)
  {
    if ps != [] {
      NoLossAllDelivered(ps[1..]);
    }
  }

  /** So in a run without a failing poll, bytes delivered and the leftover are exactly the packets polled. */
  lemma FailureFreeDelivery(src: Source, caps: seq<nat>)
    requires forall i :: 0 <= i < |caps| ==> !Polls(src, caps)[i].poll.Err?
    ensures Flat(src) == Delivered(Polls(src, caps)) + Flat(AfterPolls(src, caps))
  {
    hide PollKind;
    forall i | 0 <= i < |caps|
      ensures Polls(src, caps)[i].lost == []
    {
      if Polls(src, caps)[i].lost != [] { LossOnlyOnFailure(src, caps, i); }
    }
    NoLossAllDelivered(Polls(src, caps));
    Conservation(src, caps);
  }

  lemma SuffixTransitive(a: bytes, b: bytes, c: bytes)
    requires Suffix(a, b) && Suffix(b, c)
    ensures Suffix(a, c)
  {
    assert b[|b| - |a|..] == c[|c| - |a|..];
  }

  /** The leftover is always a suffix of the packet polled last, so packets never mix in it. */
  lemma {:induction false} LeftoverIsSuffix(src: Source, caps: seq<nat>, before: bytes)
    requires Suffix(src.buf, before)
    ensures Suffix(AfterPolls(src, caps).buf, LastPacket(src, caps, before))
    decreases |caps|
  {
    hide PollKind, Suffix;
    if caps != [] {
      var p, e := PollRead(src, caps[0]), NextEvent(src);
      var src' := AfterPoll(src, p);
      PollAccounts(src.kind, src.buf, caps[0], e);
      if p.took && e.Packet? {
        LeftoverIsSuffix(src', caps[1..], e.data);
      } else {
        SuffixTransitive(src'.buf, src.buf, before);
        LeftoverIsSuffix(src', caps[1..], before);
      }
    }
  }
}
