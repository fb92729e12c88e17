/** How large hunks, headers and the reader's leftover can get. */
module TunnelBounds {
  import opened Bytes
  import opened Protocol
  import opened Parsers
  import opened Framing
  import opened Handshake
  import opened Access
  import opened Senders
  import opened Tunnel
  import opened TunnelInvariant
  import opened TunnelSteps

  const MAX_HUNK := 263 + BUF_SIZE

  predicate Small(s: State) {
    && |s.buf| <= 4359 && |s.channel| <= 16
    && forall i :: 0 <= i < |Pipeline(s)| ==> |Pipeline(s)[i]| <= 4359
  }

  /** A handshake fits its 512-byte cursor. */
  lemma HandshakeBound(secret: bytes, r: InboundRequest)
    requires |secret| <= HEX_SIZE && Consistent(r)
    ensures 8 <= |HandshakeBytes(secret, r)| <= 319
  {
  }

  lemma HunkBound(c: Session, chunk: bytes)
    requires Plausible(c) && |chunk| <= BUF_SIZE
    ensures forall i :: 0 <= i < |Hunks(c, chunk)| ==> |Hunks(c, chunk)[i]| <= MAX_HUNK
  {
    HeaderBounds(c.request.addr, c.request.port, |chunk|);
    hide UdpHeaderBytes;
  }

  lemma {:induction false} SentBound(c: Session, input: seq<bytes>)
    requires Plausible(c) && forall i :: 0 <= i < |input| ==> |input[i]| <= BUF_SIZE
    ensures forall i :: 0 <= i < |SentHunks(c, input)| ==> |SentHunks(c, input)[i]| <= MAX_HUNK
  {
    hide Hunks;
    if input != [] {
      SentBound(c, input[..|input| - 1]);
      HunkBound(c, input[|input| - 1]);
    }
  }

  lemma AllHunksBound(c: Session, input: seq<bytes>)
    requires Plausible(c) && InputShape(c, input)
    ensures forall i :: 0 <= i < |AllHunks(c, input)| ==> |AllHunks(c, input)[i]| <= MAX_HUNK
  {
    SentBound(c, input);
    HandshakeBound(Secret(c.client), c.request);
    hide HandshakeBytes, SentHunks;
  }

  lemma InvIsSmall(c: Session, s: State)
    requires Plausible(c) && Inv(c, s)
    ensures Small(s)
  {
    InvParts(c, s);
    AllHunksBound(c, s.input);
    hide Inv, AllHunks, Pipeline, Conserved, Accepted, FramesTaken, Control, InputShape;
  }

  /** In every run of every session the leftover stays within one hunk, a hunk within a header of 263 bytes and a
      payload of 4096, and the channel within its capacity of 16. */
  lemma BuffersStayBounded(c: Session, steps: seq<Step>)
    requires Plausible(c) && Runs(c, Start(c), steps)
    ensures Small(Final(c, Start(c), steps))
  {
    ReachableInv(c, steps);
    InvIsSmall(c, Final(c, Start(c), steps));
  }
}
