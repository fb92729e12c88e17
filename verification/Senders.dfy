/** What a sender's loop makes of its reads, for the two ends of a gRPC tunnel. */
module Senders {
  import opened Bytes
  import opened Protocol
  import opened Parsers
  import opened Framing

  datatype Direction = Upload | Download

  datatype Session = Session(
    direction: Direction,
    request: InboundRequest,
    client: Option<bytes>,      // digest of the client's configured secret
    server: Option<bytes>)      // digest of the server's configured secret

  function UdpHead(r: InboundRequest, chunk: bytes): bytes {
    UdpHeaderBytes(r.atype, r.addr, r.port, |chunk|)
  }

  /** The hunks one turn of the sender's loop sends. */
  function Hunks(c: Session, chunk: bytes): seq<bytes> {
    if c.direction.Download? then [UdpHead(c.request, chunk) + chunk]
    else if c.request.command.Udp? then [UdpHead(c.request, chunk), chunk]
    else [chunk]
  }

  /** All hunks a sender's loop sends for its reads. */
  function SentHunks(c: Session, input: seq<bytes>): seq<bytes> {
    if input == [] then [] else SentHunks(c, input[..|input| - 1]) + Hunks(c, input[|input| - 1])
  }

  /** The datagrams a sender frames: one for each read, all for the request's endpoint. */
  function Framed(r: InboundRequest, input: seq<bytes>): (ds: seq<Datagram>)
    ensures |ds| == |input|
  {
    seq(|input|, i requires 0 <= i < |input| => Datagram(r.addr, r.port, input[i]))
  }
}
