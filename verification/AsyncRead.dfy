/** The readers as objects: `poll_read` on the hunk stream, and `read_exact` as a loop over it. */
module AsyncRead {
  import opened Bytes
  import opened Parsers
  import opened Transport
  import opened Reading

  /** The caller's buffer for one poll. */
  class ReadBuf {
    const capacity: nat
    var filled: bytes

    ghost predicate Valid()
      reads this
    {
      |filled| <= capacity
    }

    constructor (n: nat)
      ensures Valid() && capacity == n && filled == []
    {
      capacity, filled := n, [];
    }

    function Remaining(): nat
      requires Valid()
      reads this
    {
      capacity - |filled|
    }

    method PutSlice(b: bytes)
      requires Valid() && |b| <= Remaining()
      modifies this
      ensures Valid() && filled == old(filled) + b
    {
      filled := filled + b;
    }
  }

  lemma Appended(a: bytes, b: bytes, c: bytes)
    ensures a + b + c == a + (b + c) + []
  {
  }

  datatype Readiness = Pending | ReadyOk | ReadyErr

  /** What a poll answers to its caller, who sees bytes only when the answer is Ok. */
  function ReadinessOf(p: Poll): Readiness {
    match p
    case NotReady => Readiness.Pending
    case Ok(_) => ReadyOk
    case Err => ReadyErr
  }

  /** What a poll puts into the caller's buffer, whether or not it reports it. */
  function Dumped(p: Polled): bytes {
    Reported(p.poll) + p.lost
  }

  lemma DumpedFits(src: Source, cap: nat)
    ensures var p := Transport.PollRead(src, cap);
      && |Reported(p.poll)| <= |Dumped(p)| <= cap
      && Reported(p.poll) <= Dumped(p)
      && (p.poll.Ok? ==> Dumped(p) == Reported(p.poll))
  {
    PollAccounts(src.kind, src.buf, cap, NextEvent(src));
    hide PollKind;
  }

  class ByteReader {
    const kind: Kind
    var buf: bytes
    var script: seq<Event>

    function Src(): Source
      reads this
    {
      Source(kind, buf, script)
    }

    constructor FromReader(kind: Kind, script: seq<Event>)
      ensures Src() == Source(kind, [], script)
    {
      this.kind, buf, this.script := kind, [], script;
    }

    /** `poll_next` of the stream below. */
    method PollNext() returns (e: Event)
      modifies this`script
      ensures e == NextEvent(old(Src()))
      ensures script == if old(script) == [] then [] else old(script)[1..]
    {
      if script == [] {
        e := Event.Pending;
      } else {
        e := script[0];
        script := script[1..];
      }
    }

    /** `GrpcDataReaderStream::poll_read`: clears, advances and refills the leftover in place. Bytes dumped
        before an error stay in the caller's buffer although the poll fails. */
    method PollReadGrpc(dst: ReadBuf) returns (r: Readiness)
      requires kind.Grpc? && dst.Valid()
      modifies this, dst
      ensures dst.Valid()
      ensures var p := Transport.PollRead(old(Src()), old(dst.Remaining()));
        && Src() == AfterPoll(old(Src()), p)
        && r == ReadinessOf(p.poll)
        && dst.filled == old(dst.filled) + Reported(p.poll) + p.lost
    {
      ghost var p, start := PollGrpc(buf, dst.Remaining(), NextEvent(Src())), dst.filled;
      var hasNewData := false;
      if buf != [] {
        hasNewData := true;
        if |buf| <= dst.Remaining() {
          dst.PutSlice(buf);
          buf := [];
        } else {
          var readLen := dst.Remaining();
          dst.PutSlice(buf[..readLen]);
          buf := buf[readLen..];
          return ReadyOk;
        }
      }
      assert dst.filled == start + old(buf) && buf == [];
      var data := PollNext();
      match data
      case Pending =>
        return if hasNewData then ReadyOk else Readiness.Pending;
      case End =>
        return ReadyErr;
      case Error =>
        return ReadyErr;
      case Packet(packet) =>
        if |packet| <= dst.Remaining() {
          dst.PutSlice(packet);
          assert p == Polled(Ok(old(buf) + packet), [], true, []);
          hide PollGrpc;
          Appended(start, old(buf), packet);
        } else {
          var rem := dst.Remaining();
          dst.PutSlice(packet[..rem]);
          buf := buf + packet[rem..];
          assert p == Polled(Ok(old(buf) + packet[..rem]), packet[rem..], true, []);
          hide PollGrpc;
          Appended(start, old(buf), packet[..rem]);
        }
        return ReadyOk;
    }

    method PollReadTcp(dst: ReadBuf) returns (r: Readiness)
      requires kind.Tcp? && dst.Valid()
      modifies this, dst
      ensures dst.Valid()
      ensures var p := Transport.PollRead(old(Src()), old(dst.Remaining()));
        && Src() == AfterPoll(old(Src()), p)
        && r == ReadinessOf(p.poll)
        && dst.filled == old(dst.filled) + Reported(p.poll) + p.lost
    {
      if buf == [] {
        var data := PollNext();
        match data
        case Pending =>
          return Readiness.Pending;
        case Error =>
          return ReadyErr;
        case End =>
        case Packet(packet) =>
          buf := packet;
      }
      var n := if dst.Remaining() < |buf| then dst.Remaining() else |buf|;
      dst.PutSlice(buf[..n]);
      buf := buf[n..];
      return ReadyOk;
    }

    method PollRead(dst: ReadBuf) returns (r: Readiness)
      requires dst.Valid()
      modifies this, dst
      ensures dst.Valid()
      ensures var p := Transport.PollRead(old(Src()), old(dst.Remaining()));
        && Src() == AfterPoll(old(Src()), p)
        && r == ReadinessOf(p.poll)
        && dst.filled == old(dst.filled) + Reported(p.poll) + p.lost
      ensures old(dst.filled) == [] ==> dst.filled == Dumped(Transport.PollRead(old(Src()), old(dst.Remaining())))
    {
      if kind.Grpc? {
        r := PollReadGrpc(dst);
      } else {
        r := PollReadTcp(dst);
      }
    }

    /** One poll with a buffer of its own. */
    method PollOnce(n: nat) returns (r: Readiness, filled: bytes)
      modifies this
      ensures var p := Transport.PollRead(old(Src()), n);
        Src() == AfterPoll(old(Src()), p) && r == ReadinessOf(p.poll) && filled == Dumped(p)
    {
      hide Transport.PollRead, AfterPoll;
      var b := new ReadBuf(n);
      r := PollRead(b);
      filled := b.filled;
    }

    /** One poll into `dst[got..n]`. Bytes dumped before an error are there although the poll fails. */
    method ReadSome(dst: array<byte>, got: nat, n: nat) returns (r: Readiness, k: nat)
      requires got < n <= dst.Length
      modifies this, dst
      ensures var p := Transport.PollRead(old(Src()), n - got);
        && Src() == AfterPoll(old(Src()), p)
        && r == ReadinessOf(p.poll)
        && k == |Reported(p.poll)| <= |Dumped(p)| <= n - got
        && dst[..] == Stored(old(dst[..]), got, Dumped(p))
    {
      DumpedFits(Src(), n - got);
      hide Transport.PollRead, AfterPoll, Dumped, Stored;
      var filled;
      r, filled := PollOnce(n - got);
      k := if r == ReadyOk then |filled| else 0;
      Store(dst, got, filled);
    }

    /** `read_exact(&mut dst[..n])`. Only the slice is written, and a completed read has overwritten all of
        it, so nothing an earlier read left there can survive. */
    method ReadExact(dst: array<byte>, n: nat) returns (o: Outcome)
      requires n <= dst.Length
      modifies this, dst
      ensures Result(o, Src()) == ReadAll(Exactly(n), [], old(Src()))
      ensures o.Complete? ==> dst[..n] == o.taken
      ensures dst[n..] == old(dst[n..])
    {
      hide Ask, ReadAll, Transport.PollRead, AfterPoll, Dumped;
      var got: nat := 0;
      ghost var target := ReadAll(Exactly(n), [], Src());
      while got < n
        invariant got <= n && dst[n..] == old(dst[n..])
        invariant ReadAll(Exactly(n), dst[..got], Src()) == target
        decreases |script|, |buf|
      {
        ghost var acc, before := dst[..got], Src();
        AskExactly(n, acc);
        DumpedFits(before, n - got);
        PollAdvances(before, n - got);
        ReadAllStep(Exactly(n), acc, before);
        var exhausted := script == [];
        ghost var p, was := Transport.PollRead(before, n - got), dst[..];
        var r, k := ReadSome(dst, got, n);
        Overwritten(was, got, Dumped(p), k, n, dst[..]);
        assert k == 0 ==> dst[..got] == acc;
        if r == ReadyErr {
          return Broken(BrokenPipe);
        } else if r == Readiness.Pending {
          if exhausted { return Waiting(dst[..got]); }
        } else {
          if k == 0 { return Broken(UnexpectedEof); }
          got := got + k;
        }
      }
      AskExactly(n, dst[..n]);
      ReadAllFull(Exactly(n), dst[..n], Src());
      o := Complete(dst[..n]);
    }
  }

  /** `was` with `b` written over it at `at`. */
  function Stored(was: bytes, at: nat, b: bytes): bytes
    requires at + |b| <= |was|
  {
    was[..at] + b + was[at + |b|..]
  }

  /** What `d` written at `at` leaves of `was`. */
  lemma Overwritten(was: bytes, at: nat, d: bytes, k: nat, n: nat, now: bytes)
    requires k <= |d| && at + |d| <= n <= |was| && now == Stored(was, at, d)
    ensures |now| == |was| && now[..at + k] == was[..at] + d[..k] && now[n..] == was[n..]
  {
  }

  /** Copies `b` into `dst` from index `at`. */
  method Store(dst: array<byte>, at: nat, b: bytes)
    requires at + |b| <= dst.Length
    modifies dst
    ensures dst[..] == Stored(old(dst[..]), at, b)
  {
    forall i | 0 <= i < |b| {
      dst[at + i] := b[i];
    }
  }
}
