/** Accepting a Trojan connection: parse, validate, and hand the same reader on. */
module Acceptors {
  import opened Bytes
  import opened Protocol
  import opened Parsers
  import opened Transport
  import opened Reading
  import opened Handshake
  import opened Access
  import opened AsyncRead
  import opened ParserMethods

  datatype Accepted = Granted(request: InboundRequest) | Denied | Broke(e: Fault) | Silent

  /** `accept` and `accept_hunk`. The reader keeps its leftover for whoever reads next. */
  method Accept(r: ByteReader, secret: bytes) returns (a: Accepted)
    modifies r
    ensures var plan := ReadAll(TrojanHeader, [], old(r.Src()));
      && r.Src() == plan.src
      && match plan.outcome
         case Complete(t) =>
           a == (if Validate(ParseTrojan(t), secret) then Granted(TrojanInbound(ParseTrojan(t))) else Denied)
         case Broken(e) => a == Broke(e)
         case Waiting(_) => a == Silent
  {
    hide ReadAll, Ask, ParseTrojan;
    var p := ParseTrojanRequest(r);
    match p
    case Failed(e) => a := Broke(e);
    case Blocked => a := Silent;
    case Value(t) =>
      if !Validate(t, secret) {
        return Denied;
      }
      a := Granted(TrojanInbound(t));
  }

  /** End to end over any open stream: however the client's header and the bytes after it are cut into
      packets, the server grants the request exactly when the digests agree, the request is the client's
      as the parser sees it, and the reader still holds exactly the bytes after the header. */
  lemma AcceptanceOverAnyChunking(client: Option<bytes>, server: Option<bytes>, q: InboundRequest, rest: bytes,
                                  src: Source)
    requires ValidDigest(client) && ValidDigest(server) && Consistent(q) && Aligned(q.addr)
    requires client.Some? && Quiet(src) && Flat(src) == HandshakeBytes(Secret(client), q) + rest
    ensures var h, plan := HandshakeBytes(Secret(client), q), ReadAll(TrojanHeader, [], src);
      && plan.outcome == Complete(h)
      && Flat(plan.src) == rest && Quiet(plan.src)
      && (Validate(ParseTrojan(h), Secret(server)) <==> client == server)
      && TrojanInbound(ParseTrojan(h)) == q.(addr := Seen(q.addr), proxy := TROJAN)
  {
    var h, s := HandshakeBytes(Secret(client), q), Flat(src);
    HandshakeDecodes(Secret(client), q);
    HandshakeInStep(Secret(client), q, rest);
    Acceptance(client, server, q, rest, h);
    hide Ask, HandshakeBytes, ReadAll, Scan, Flat, Quiet, ParseTrojan;
    assert s == [] + s;
    ChunkingIndependence(TrojanHeader, [], src, s);
    assert rest == (h + rest)[|h|..];
  }
}
