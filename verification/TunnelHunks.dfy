/** Which hunk is which: where in a sender's hunks each of its reads is. */
module TunnelHunks {
  import opened Bytes
  import opened Protocol
  import opened Reading
  import opened Framing
  import opened Transport
  import opened Senders
  import opened Tunnel
  import opened TunnelInvariant

  /** A turn of a client's UDP loop sends two hunks, a header and the payload. */
  predicate InPairs(c: Session) {
    c.direction.Upload? && c.request.command.Udp?
  }

  lemma {:induction false} PairedHunks(c: Session, input: seq<bytes>)
    requires InPairs(c)
    ensures |SentHunks(c, input)| == 2 * |input|
    ensures forall i :: 0 <= i < |input| ==>
      SentHunks(c, input)[2 * i] == UdpHead(c.request, input[i]) && SentHunks(c, input)[2 * i + 1] == input[i]
  {
    hide UdpHeaderBytes;
    if input != [] {
      var init := input[..|input| - 1];
      PairedHunks(c, init);
      forall i | 0 <= i < |init|
        ensures SentHunks(c, input)[2 * i] == UdpHead(c.request, input[i]) && SentHunks(c, input)[2 * i + 1] == input[i]
      {
        assert init[i] == input[i];
      }
    }
  }

  lemma {:induction false} SingleHunks(c: Session, input: seq<bytes>)
    requires !InPairs(c)
    ensures |SentHunks(c, input)| == |input|
    ensures forall i :: 0 <= i < |input| ==> SentHunks(c, input)[i] == Hunks(c, input[i])[0]
  {
    hide UdpHeaderBytes;
    if input != [] {
      var init := input[..|input| - 1];
      SingleHunks(c, init);
      forall i | 0 <= i < |init| ensures SentHunks(c, input)[i] == Hunks(c, input[i])[0] {
        assert init[i] == input[i];
      }
    }
  }

  /** Where the payload of read `i` is among all hunks. */
  function PayloadIndex(c: Session, i: nat): nat {
    if c.direction.Download? then i else if c.request.command.Udp? then 2 + 2 * i else 1 + i
  }

  lemma UdpHeadSize(r: InboundRequest, chunk: bytes)
    ensures 8 <= |UdpHead(r, chunk)|
  {
  }

  lemma PreambleNotEmpty(c: Session)
    requires c.direction.Upload?
    ensures Preamble(c) != []
  {
  }

  /** The last hunk of read `i`, and before it the payload's header if it is sent alone. */
  lemma HunkAt(c: Session, input: seq<bytes>, i: nat)
    requires i < |input| && Plausible(c) && !c.request.command.Bind?
    ensures var a, k := AllHunks(c, input), PayloadIndex(c, i);
      && k < |a|
      && a[k] == (if c.direction.Download? then UdpHead(c.request, input[i]) + input[i] else input[i])
      && (InPairs(c) ==> a[k - 1] == UdpHead(c.request, input[i]))
  {
    OnlyHunk(c, input[i]);
    hide UdpHead, Preamble, SentHunks, Plausible, Hunks;
    if InPairs(c) { PairedHunks(c, input); } else { SingleHunks(c, input); }
  }

  lemma OnlyHunk(c: Session, chunk: bytes)
    ensures !InPairs(c) ==>
      Hunks(c, chunk)[0] == if c.direction.Download? then UdpHead(c.request, chunk) + chunk else chunk
  {
    hide UdpHead;
  }

  lemma HunkCount(c: Session, input: seq<bytes>)
    requires Plausible(c) && !c.request.command.Bind?
    ensures |AllHunks(c, input)| ==
      if c.direction.Download? then |input| else if InPairs(c) then 1 + 2 * |input| else 1 + |input|
  {
    if InPairs(c) { PairedHunks(c, input); } else { SingleHunks(c, input); }
  }

  /** An empty hunk is an empty read of a client's loop; headers are not empty. */
  lemma EmptyHunk(c: Session, input: seq<bytes>, k: nat) returns (i: nat)
    requires Plausible(c) && InputShape(c, input) && k < |AllHunks(c, input)| && AllHunks(c, input)[k] == []
    ensures c.direction.Upload? && !c.request.command.Bind?
    ensures i < |input| && input[i] == [] && k == PayloadIndex(c, i)
  {
    if c.direction.Upload? { PreambleNotEmpty(c); }
    hide Preamble;
    assert c.request.command.Bind? ==> SentHunks(c, input) == [];
    HunkCount(c, input);
    i := if c.direction.Download? then k else if InPairs(c) then (k - 1) / 2 else k - 1;
    HunkAt(c, input, i);
    UdpHeadSize(c.request, input[i]);
    hide UdpHead, AllHunks, SentHunks;
  }

  /** After an empty read everything a client's loop reads is empty. */
  lemma EmptyFromThere(c: Session, input: seq<bytes>, i: nat)
    requires InputShape(c, input) && c.direction.Upload? && i < |input| && input[i] == []
    ensures Ended(input) && Flatten(input) == Flatten(input[..i + 1])
  {
    var a, b := input[..i + 1], input[i + 1..];
    FlattenEmpties(b);
    assert input == a + b;
    FlattenConcat(a, b);
    NoTail(Flatten(a), Flatten(b));
  }

  lemma AllHunksFlatten(c: Session, input: seq<bytes>)
    requires Plausible(c) && InputShape(c, input)
    ensures Flatten(AllHunks(c, input)) == Everything(c, input)
  {
    var p, sent := Preamble(c), SentHunks(c, input);
    SentFlatten(c, input);
    if c.direction.Download? {
      assert [] + sent == sent;
      assert p + Body(c, input) == Body(c, input);
    } else {
      hide Preamble, SentHunks, Body;
      assert ([p] + sent)[1..] == sent;
    }
  }

  lemma {:induction false} SentFlatten(c: Session, input: seq<bytes>)
    requires Plausible(c) && (c.request.command.Bind? ==> input == [])
    ensures Flatten(SentHunks(c, input)) == Body(c, input)
  {
    hide Hunks;
    if input == [] {
      assert Framed(c.request, input) == [];
    } else {
      var init, last := input[..|input| - 1], input[|input| - 1];
      assert input == init + [last];
      SentFlatten(c, init);
      BodySnoc(c, init, last);
      FlattenConcat(SentHunks(c, init), Hunks(c, last));
    }
  }

  /** What was taken is what the polled hunks carried, less the leftover. */
  lemma TakenIsFlat(c: Session, s: State)
    requires Plausible(c) && Inv(c, s) && s.phase != Closed(Broke)
    ensures 0 <= HunksTaken(c, s) <= |AllHunks(c, s.input)|
    ensures Taken(s) + s.buf == Flatten(AllHunks(c, s.input)[..HunksTaken(c, s)])
  {
    hide *;
    InvParts(c, s);
    AllHunksFlatten(c, s.input);
    WholePipeline(c, s);
    SplitTaken(Taken(s), s.buf, AllHunks(c, s.input), HunksTaken(c, s));
  }

  lemma WholePipeline(c: Session, s: State)
    requires Ordered(c, s) && Conserved(c, s) && s.phase != Closed(Broke)
    ensures var a, j := AllHunks(c, s.input), HunksTaken(c, s);
      0 <= j <= |a| && Taken(s) + (s.buf + Flatten(a[j..])) == Everything(c, s.input)
  {
    hide AllHunks, Pipeline, Taken, Everything, Flatten, Suffix;
  }

  lemma SplitTaken(taken: bytes, buf: bytes, a: seq<bytes>, j: nat)
    requires j <= |a| && taken + (buf + Flatten(a[j..])) == Flatten(a)
    ensures taken + buf == Flatten(a[..j])
  {
    assert a == a[..j] + a[j..];
    FlattenConcat(a[..j], a[j..]);
    hide Flatten;
    Reassociate(taken, buf, Flatten(a[j..]));
    CancelRight(taken + buf, Flatten(a[..j]), Flatten(a[j..]));
  }

  lemma CancelRight(a: bytes, b: bytes, q: bytes)
    requires a + q == b + q
    ensures a == b
  {
    assert |a| == |b|;
    assert (a + q)[..|a|] == a && (b + q)[..|b|] == b;
  }

  /** The hunks up to the one with the payload of read `i` carry everything for the reads up to it. */
  lemma HunksUpTo(c: Session, input: seq<bytes>, i: nat)
    requires Plausible(c) && InputShape(c, input) && c.direction.Upload? && !c.request.command.Bind? && i < |input|
    ensures PayloadIndex(c, i) < |AllHunks(c, input)|
    ensures Flatten(AllHunks(c, input)[..PayloadIndex(c, i) + 1]) == Everything(c, input[..i + 1])
  {
    hide *;
    var part := input[..i + 1];
    CountUpTo(c, part, i);
    ShapeOfPart(c, input, i + 1);
    AllHunksFlatten(c, part);
    FirstHunks(c, input, i + 1);
    PrefixUpTo(AllHunks(c, part), AllHunks(c, input));
  }

  lemma CountUpTo(c: Session, part: seq<bytes>, i: nat)
    requires Plausible(c) && c.direction.Upload? && !c.request.command.Bind? && |part| == i + 1
    ensures |AllHunks(c, part)| == PayloadIndex(c, i) + 1
  {
    hide Plausible, AllHunks;
    HunkCount(c, part);
  }

  lemma ShapeOfPart(c: Session, input: seq<bytes>, m: nat)
    requires InputShape(c, input) && m <= |input|
    ensures InputShape(c, input[..m])
  {
  }

  lemma PrefixUpTo(a: seq<bytes>, b: seq<bytes>)
    requires a <= b
    ensures a == b[..|a|]
  {
  }

  lemma FirstHunks(c: Session, input: seq<bytes>, n: nat)
    requires n <= |input|
    ensures AllHunks(c, input[..n]) <= AllHunks(c, input)
  {
    FirstSentHunks(c, input, n);
    hide SentHunks, Preamble;
  }

  lemma {:induction false} FirstSentHunks(c: Session, input: seq<bytes>, n: nat)
    requires n <= |input|
    ensures SentHunks(c, input[..n]) <= SentHunks(c, input)
    decreases |input|
  {
    hide Hunks;
    if n == |input| {
      assert input[..n] == input;
    } else {
      var init := input[..|input| - 1];
      FirstSentHunks(c, init, n);
      assert init[..n] == input[..n];
    }
  }

  lemma LastWasEmpty(c: Session, s: State)
    requires SawEmpty(c, s)
    ensures 0 < HunksTaken(c, s) <= |AllHunks(c, s.input)| && AllHunks(c, s.input)[HunksTaken(c, s) - 1] == []
    ensures s.buf == []
  {
    hide AllHunks, Pipeline;
  }

  /** If the next hunk, or the last one polled, is empty and nothing is left over, then the receiver has
      taken exactly what was sent up to that empty read, and the client's stream has ended there. */
  lemma TakenAtEmpty(c: Session, s: State, k: nat) returns (i: nat)
    requires Plausible(c) && Inv(c, s) && s.phase != Closed(Broke) && s.buf == []
    requires HunksTaken(c, s) - 1 <= k <= HunksTaken(c, s) && k < |AllHunks(c, s.input)|
    requires AllHunks(c, s.input)[k] == []
    ensures c.direction.Upload? && !c.request.command.Bind? && i < |s.input| && s.input[i] == []
    ensures k == PayloadIndex(c, i) && Ended(s.input) && Flatten(s.input) == Flatten(s.input[..i + 1])
    ensures Taken(s) == Everything(c, s.input[..i + 1])
  {
    hide *;
    InvParts(c, s);
    i := EmptyHunk(c, s.input, k);
    EmptyFromThere(c, s.input, i);
    HunksUpTo(c, s.input, i);
    TakenIsFlat(c, s);
    UpToEmpty(Taken(s), s.buf, AllHunks(c, s.input), HunksTaken(c, s), k);
  }

  lemma UpToEmpty(taken: bytes, buf: bytes, a: seq<bytes>, j: nat, k: nat)
    requires buf == [] && j <= |a| && taken + buf == Flatten(a[..j])
    requires j - 1 <= k <= j && k < |a| && a[k] == []
    ensures taken == Flatten(a[..k + 1])
  {
    NoTail(taken, buf);
    assert a[..k + 1] == a[..k] + [a[k]];
    FlattenSnoc(a[..k], a[k]);
    NoTail(Flatten(a[..k]), a[k]);
  }
}
