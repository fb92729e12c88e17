/**
 A parser run over a source: `read_exact` and `read_uN` poll with exactly the room they still miss,
 retry after Pending, fail on an empty read and hand errors on.
 */
module Reading {
  import opened Bytes
  import opened Parsers
  import opened Transport

  /** `taken` is everything acquired. `Waiting` means the script ran out while the parser still awaits. */
  datatype Outcome = Complete(taken: bytes) | Waiting(taken: bytes) | Broken(e: Fault)

  datatype Result = Result(outcome: Outcome, src: Source)

  function ReadAll(g: Grammar, acc: bytes, src: Source): (r: Result)
    ensures r.src.kind == src.kind
    ensures r.src == src || Advanced(src, r.src)
    ensures r.outcome.Complete? && Ask(g, acc).More? ==> Advanced(src, r.src)
    ensures r.outcome.Complete? ==> Ask(g, r.outcome.taken).Full?
    decreases |src.script|, |src.buf|
  {
    match Ask(g, acc)
    case Full => Result(Complete(acc), src)
    case Refuse(e) => Result(Broken(e), src)
    case More(n) =>
      var p := PollRead(src, n);
      var src' := AfterPoll(src, p);
      match p.poll
      case NotReady => if src.script == [] then Result(Waiting(acc), src') else ReadAll(g, acc, src')
      case Err => Result(Broken(BrokenPipe), src')
      case Ok(b) => if b == [] then Result(Broken(UnexpectedEof), src') else ReadAll(g, acc + b, src')
  }

  /** The first step of a parser that awaits a read. */
  lemma ReadAllStep(g: Grammar, acc: bytes, src: Source)
    requires Ask(g, acc).More?
    ensures var p := PollRead(src, Ask(g, acc).n);
      var src' := AfterPoll(src, p);
      ReadAll(g, acc, src) ==
        match p.poll
        case NotReady => if src.script == [] then Result(Waiting(acc), src') else ReadAll(g, acc, src')
        case Err => Result(Broken(BrokenPipe), src')
        case Ok(b) => if b == [] then Result(Broken(UnexpectedEof), src') else ReadAll(g, acc + b, src')
  {
    hide Ask, PollRead, AfterPoll;
  }

  /** How a stream that gives no more fails a parser that awaits a read: an empty packet, or the end of a TCP stream, is
      an unexpected end; the end of a hunk stream and every error are a broken pipe; and silence is no failure. */
  lemma StreamFaults(g: Grammar, acc: bytes, kind: Kind, rest: seq<Event>)
    requires Ask(g, acc).More?
    ensures ReadAll(g, acc, Source(kind, [], [Packet([])] + rest)).outcome == Broken(UnexpectedEof)
    ensures ReadAll(g, acc, Source(Tcp, [], [End] + rest)).outcome == Broken(UnexpectedEof)
    ensures ReadAll(g, acc, Source(Grpc, [], [End] + rest)).outcome == Broken(BrokenPipe)
    ensures ReadAll(g, acc, Source(kind, [], [Error] + rest)).outcome == Broken(BrokenPipe)
    ensures ReadAll(g, acc, Source(kind, [], [])).outcome == Waiting(acc)
  {
    ReadAllStep(g, acc, Source(kind, [], [Packet([])] + rest));
    ReadAllStep(g, acc, Source(Tcp, [], [End] + rest));
    ReadAllStep(g, acc, Source(Grpc, [], [End] + rest));
    ReadAllStep(g, acc, Source(kind, [], [Error] + rest));
    ReadAllStep(g, acc, Source(kind, [], []));
    hide ReadAll, Ask;
  }

  lemma ReadAllFull(g: Grammar, acc: bytes, src: Source)
    requires Ask(g, acc).Full?
    ensures ReadAll(g, acc, src) == Result(Complete(acc), src)
  {
    hide Ask;
  }

  lemma ReadAllRefuse(g: Grammar, acc: bytes, src: Source)
    requires Ask(g, acc).Refuse?
    ensures ReadAll(g, acc, src) == Result(Broken(Ask(g, acc).e), src)
  {
    hide Ask;
  }

  /** The same parser over a flat byte sequence, with the first `k` bytes already acquired. */
  function Scan(g: Grammar, s: bytes, k: nat): Outcome
    requires k <= |s|
    decreases |s| - k
  {
    match Ask(g, s[..k])
    case Full => Complete(s[..k])
    case Refuse(e) => Broken(e)
    case More(n) => if k + n <= |s| then Scan(g, s, k + n) else Waiting(s)
  }

  predicate QuietEvent(e: Event) {
    e.Pending? || (e.Packet? && e.data != [])
  }

  /** The stream stays open and carries no empty packet. */
  predicate Quiet(src: Source) {
    forall i :: 0 <= i < |src.script| ==> QuietEvent(src.script[i])
  }

  /** A read in progress does not change what the flat parser makes of the bytes. */
  lemma ScanSplit(g: Grammar, s: bytes, k: nat, b: bytes)
    requires k + |b| <= |s| && s[k..k + |b|] == b
    requires Ask(g, s[..k]).More? && |b| <= Ask(g, s[..k]).n
    ensures Scan(g, s, k + |b|) == Scan(g, s, k)
  {
    hide Ask;
    assert s[..k + |b|] == s[..k] + b;
    if |b| < Ask(g, s[..k]).n {
      Granular(g, s[..k], b);
    }
  }

  /** On an open stream a poll with room answers Pending, or delivers at least one byte and loses none. */
  lemma QuietPoll(src: Source, cap: nat)
    requires Quiet(src) && 0 < cap
    ensures var p := PollRead(src, cap);
      && !p.poll.Err? && p.lost == []
      && (p.poll.Ok? ==> 0 < |p.poll.data| <= cap)
      && (p.poll.NotReady? ==> src.buf == [] && p.buf == [] && NextEvent(src).Pending?)
      && Quiet(AfterPoll(src, p))
      && Flat(src) == Reported(p.poll) + Flat(AfterPoll(src, p))
  {
    PollConserves(src, cap);
    QuietAnswer(src, cap);
    NoTail(Reported(PollRead(src, cap).poll), PollRead(src, cap).lost);
    hide PollRead, AfterPoll, Flat, Quiet;
  }

  lemma QuietAnswer(src: Source, cap: nat)
    requires Quiet(src) && 0 < cap
    ensures var p := PollRead(src, cap);
      && !p.poll.Err? && p.lost == []
      && (p.poll.Ok? ==> 0 < |p.poll.data| <= cap)
      && (p.poll.NotReady? ==> src.buf == [] && p.buf == [] && NextEvent(src).Pending?)
      && Quiet(AfterPoll(src, p))
  {
    assert src.script != [] ==> QuietEvent(src.script[0]);
  }

  /** Chunking independence: however the bytes are cut into packets and however often the stream is
      Pending, over TCP or over hunks, the parser returns what it returns on the flat bytes, and the
      source still holds exactly the flat remainder. */
  lemma {:induction false} ChunkingIndependence(g: Grammar, acc: bytes, src: Source, s: bytes)
    requires Quiet(src) && s == acc + Flat(src)
    ensures var r := ReadAll(g, acc, src);
      && r.outcome == Scan(g, s, |acc|)
      && Quiet(r.src)
      && (r.outcome.Complete? ==> s == r.outcome.taken + Flat(r.src))
    decreases |src.script|, |src.buf|
  {
    hide Ask, PollRead, AfterPoll, Flat, Quiet, ReadAll;
    assert s[..|acc|] == acc;
    if Ask(g, acc).Full? {
      ReadAllFull(g, acc, src);
    } else if Ask(g, acc).Refuse? {
      ReadAllRefuse(g, acc, src);
    } else {
      var n := Ask(g, acc).n;
      ReadAllStep(g, acc, src);
      var p := PollRead(src, n);
      var src' := AfterPoll(src, p);
      QuietPoll(src, n);
      PollAdvances(src, n);
      match p.poll
      case NotReady =>
        assert Flat(src) == Flat(src');
        if src.script != [] {
          ChunkingIndependence(g, acc, src', s);
        } else {
          ExhaustedRead(g, acc, src);
        }
      case Ok(b) =>
        Reassociate(acc, b, Flat(src'));
        ScanSplit(g, s, |acc|, b);
        ChunkingIndependence(g, acc + b, src', s);
    }
  }

  lemma Reassociate(a: bytes, b: bytes, c: bytes)
    ensures a + (b + c) == (a + b) + c
    ensures (a + (b + c))[|a|..|a| + |b|] == b
  {
  }

  /** How many polls of a parser's run are not Pending. */
  function ReadyPolls(g: Grammar, acc: bytes, src: Source): nat
    decreases |src.script|, |src.buf|
  {
    if !Ask(g, acc).More? then 0
    else
      var p := PollRead(src, Ask(g, acc).n);
      match p.poll
      case NotReady => if src.script == [] then 0 else ReadyPolls(g, acc, AfterPoll(src, p))
      case Err => 1
      case Ok(b) => if b == [] then 1 else 1 + ReadyPolls(g, acc + b, AfterPoll(src, p))
  }

  /** A `read_exact` of n bytes on an open stream that holds them returns the next n bytes, leaves the
      others, and needs at most n polls that are not Pending. */
  lemma {:induction false} ReadExactTerminates(n: nat, acc: bytes, src: Source)
    requires Quiet(src) && |acc| <= n <= |acc| + |Flat(src)|
    ensures var r := ReadAll(Exactly(n), acc, src);
      && r.outcome == Complete((acc + Flat(src))[..n])
      && Flat(r.src) == (acc + Flat(src))[n..]
      && ReadyPolls(Exactly(n), acc, src) <= n - |acc|
    decreases |src.script|, |src.buf|
  {
    hide Ask, PollRead, AfterPoll, Flat, Quiet, ReadAll;
    AskExactly(n, acc);
    if |acc| < n {
      var p := PollRead(src, n - |acc|);
      var src' := AfterPoll(src, p);
      ReadAllStep(Exactly(n), acc, src);
      QuietPoll(src, n - |acc|);
      PollAdvances(src, n - |acc|);
      match p.poll
      case NotReady =>
        assert Flat(src) == Flat(src');
        if src.script == [] { ExhaustedRead(Exactly(n), acc, src); }
        ReadExactTerminates(n, acc, src');
      case Ok(b) =>
        Reassociate(acc, b, Flat(src'));
        ReadExactTerminates(n, acc + b, src');
    } else {
      ReadAllFull(Exactly(n), acc, src);
    }
  }

  lemma AskExactly(n: nat, acc: bytes)
    ensures Ask(Exactly(n), acc) == if |acc| < n then More(n - |acc|) else Full
  {
  }

  /** A parser is its current read followed by the rest of the parser. */
  lemma {:induction false} ReadExactThen(g: Grammar, acc: bytes, b: bytes, src: Source, ab: bytes)
    requires Ask(g, acc).More? && |b| <= Ask(g, acc).n && ab == acc + b
    ensures var n := Ask(g, acc).n;
      var r := ReadAll(Exactly(n), b, src);
      ReadAll(g, ab, src) ==
        match r.outcome
        case Complete(x) => ReadAll(g, acc + x, r.src)
        case Waiting(x) => Result(Waiting(acc + x), r.src)
        case Broken(_) => r
    decreases |src.script|, |src.buf|
  {
    hide Ask, PollRead, AfterPoll, ReadAll;
    var n := Ask(g, acc).n;
    AskExactly(n, b);
    if |b| < n {
      Granular(g, acc, b);
      var p := PollRead(src, n - |b|);
      PollAdvances(src, n - |b|);
      ReadAllStep(g, ab, src);
      ReadAllStep(Exactly(n), b, src);
      match p.poll
      case NotReady => if src.script != [] { ReadExactThen(g, acc, b, AfterPoll(src, p), ab); }
      case Err =>
      case Ok(d) =>
        PollReports(src, n - |b|);
        Reassociate(acc, b, d);
        if d != [] { ReadExactThen(g, acc, b + d, AfterPoll(src, p), ab + d); }
    } else {
      ReadAllFull(Exactly(n), b, src);
    }
  }

  /** `src` followed by a closing event. */
  function Closing(src: Source, e: Event): Source {
    src.(script := src.script + [e])
  }

  lemma ClosingPoll(src: Source, cap: nat, e: Event)
    requires e.End? || e.Error?
    requires src.script == []
    ensures var p, c := PollRead(src, cap), PollRead(Closing(src, e), cap);
      if p.took then
        && (c.poll.Err? || c.poll == Ok([]))
        && (p.poll.Ok? ==> src.kind.Grpc? && p.buf == [])
      else
        p.poll.Ok? && c == p
  {
  }

  /** The reader will be idle once after the last packet, or already holds nothing. */
  predicate Settled(src: Source) {
    if src.script == [] then src.buf == [] else src.script[|src.script| - 1].Pending?
  }

  lemma PollKeepsSettled(src: Source, cap: nat)
    requires Settled(src) && 0 < cap
    ensures Settled(AfterPoll(src, PollRead(src, cap)))
  {
  }

  /** How a parser's run changes when the stream ends or fails right after the script: a parser that
      still awaited fails; one that had returned still returns, except that over hunks, unless the reader
      was idle after the last packet, the last poll may run into the closing event while draining the
      leftover, and then the source is used up. */
  lemma {:induction false} ClosingRead(g: Grammar, acc: bytes, src: Source, e: Event)
    requires e.End? || e.Error?
    requires Quiet(src)
    ensures var r, c := ReadAll(g, acc, src), ReadAll(g, acc, Closing(src, e));
      && (r.outcome.Broken? ==> c.outcome.Broken?)
      && (r.outcome.Waiting? ==> c.outcome.Broken?)
      && (r.outcome.Complete? ==>
        || c == Result(r.outcome, Closing(r.src, e))
        || (c.outcome.Broken? && src.kind.Grpc? && !Settled(src) && r.src.buf == [] && r.src.script == []))
      && (Settled(src) ==> Settled(r.src))
    decreases |src.script|, |src.buf|
  {
    hide Ask, PollRead, Quiet, ReadAll, Settled;
    if Ask(g, acc).Full? {
      ReadAllFull(g, acc, src);
      ReadAllFull(g, acc, Closing(src, e));
    } else if Ask(g, acc).Refuse? {
      ReadAllRefuse(g, acc, src);
      ReadAllRefuse(g, acc, Closing(src, e));
    } else {
      var n := Ask(g, acc).n;
      var p := PollRead(src, n);
      var src' := AfterPoll(src, p);
      ReadAllStep(g, acc, src);
      ReadAllStep(g, acc, Closing(src, e));
      QuietPoll(src, n);
      PollAdvances(src, n);
      if Settled(src) { PollKeepsSettled(src, n); }
      if src.script != [] {
        SamePoll(src, n, e);
        match p.poll
        case NotReady => ClosingRead(g, acc, src', e);
        case Ok(b) => ClosingRead(g, acc + b, src', e);
      } else {
        ClosingPoll(src, n, e);
        if !p.took {
          ClosingRead(g, acc + p.poll.data, src', e);
        } else if p.poll.Ok? {
          ExhaustedRead(g, acc + p.poll.data, src');
          IdleMeansEmpty(src);
        }
      }
    }
  }

  lemma IdleMeansEmpty(src: Source)
    requires src.script == []
    ensures Settled(src) <==> src.buf == []
  {
  }

  /** A poll does not see the closing event while other answers come before it. */
  lemma SamePoll(src: Source, cap: nat, e: Event)
    requires src.script != []
    ensures var p := PollRead(src, cap);
      PollRead(Closing(src, e), cap) == p && AfterPoll(Closing(src, e), p) == Closing(AfterPoll(src, p), e)
  {
    hide PollKind;
    assert Closing(src, e).script[0] == src.script[0];
    assert Closing(src, e).script[1..] == src.script[1..] + [e];
  }

  /** With nothing buffered and nothing to come, a parser that has not returned waits. */
  lemma ExhaustedRead(g: Grammar, acc: bytes, src: Source)
    requires src.buf == [] && src.script == []
    ensures ReadAll(g, acc, src).src == src && Flat(src) == []
  {
  }
}
