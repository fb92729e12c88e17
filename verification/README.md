# A verified model of TrojanRust's protocol stack

TrojanRust is a proxy. This project models its byte-level core in Dafny and proves what that core does for
every input, every chunking and every interleaving:

- the re-chunking reader that turns a stream of gRPC hunks back into bytes (`Transport`, `AsyncRead`);
- the parsers that await one read after another on such a stream (`Parsers`, `Reading`, `ParserMethods`);
- the Trojan UDP frames and the loops that write and read them (`Framing`, `FrameStreams`, `HunkLoss`, `CopyLoops`);
- the Trojan request header, the secret check and the SOCKS5 request (`Handshake`, `Access`, `Acceptors`, `Socks5`);
- all of these formats byte by byte, and the reads the parsers await (`WireFormat`, `ReadPlans`);
- a whole gRPC tunnel as a step machine: sender loop, channel of capacity 16, connection, re-chunking reader,
  parser and copy loop (`Senders`, `Tunnel` and the `Tunnel*` modules).

The central idea is that a parser's position is determined by the bytes it has acquired: `Parsers.Ask(g, acc)`
says how many bytes the read in progress still misses. The same function drives the flat parser (`Reading.Scan`),
the parser over a polled source (`Reading.ReadAll`), the imperative methods and the receiver of the step machine,
and the lemmas tie the four together.

## Main results

"In step" means that an upload's address is an IP address or a name whose first byte happens to be the number of
bytes after it (`Handshake.Aligned`); `handshake` writes a name without its length byte and `parse` expects one.

1. **UDP over gRPC is safe in step** (`TunnelTheorems.UdpSafety`): in every state any interleaving can reach, the
   datagrams delivered are the first ones framed, boundaries and target included.
2. **End of data is sound in step** (`TunnelTheorems.EndOfDataSoundness`): the bytes copied are a prefix of those
   read, and when the TCP copy over hunks sees the end it has delivered every byte the sender read. Whatever the
   address, a copy that ended delivered exactly what was read if and only if the address is aligned
   (`TunnelNames.DrainedIffAligned`).
3. **In step or not, the bytes decide** (`TunnelFlow.DeterminedByBytes`): nothing comes out but what parsing the bytes
   sent, as one string, gives; interleaving, chunking, errors and crashes only decide how much of it, and some run
   reaches all of it (`TunnelFlow.FlowIsReference`).
4. **Safety, exactly.** A TCP upload copies a prefix of what was read in every run if and only if the address is aligned
   (`TunnelNames.TcpSafeIffAligned`). A UDP upload delivers a prefix of what was framed in every run if and only if
   the address is aligned or mute (`TunnelUdp.UdpSafeIffAlignedOrMute`): a name is mute if the bytes that follow
   where the server believes the header to end are refused, which the request alone decides. The failure is not an
   odd case: for every host name that begins with a lower-case letter and has at most 45 bytes, frames inside a
   payload are delivered as datagrams of their own (`TunnelUdp.PayloadTakenForFrames`).
5. **What an upload can do** (`TunnelNames.UploadWorksIffDeliverable`): for every authentic upload and everything a
   client can read, some run puts all of it out at the endpoint asked for and comes to rest if and only if the
   request is a TCP stream to an IP address or datagrams to an aligned address. A TCP stream to an aligned name goes
   to another host.
6. **Only authentic clients pass** (`TunnelTheorems.OnlyAuthenticClientsPass`): in every run of every upload, whatever
   the address, nothing leaves the server unless both sides have the same secret. The others are refused as soon
   as their header has arrived (`TunnelTheorems.StrangersAreRefused`).
7. **Every schedule delivers** (`TunnelSchedules.EveryScheduleDelivers`): in step, from every state that no error or crash
   has ended, only so many of the tunnel's own steps change anything, whatever their order, and when none does any
   more every byte that was read is out; for TCP, for downloads and before the client's stream ends so is every
   datagram. What can get stuck, exactly (`TunnelLiveness.EverythingCanBeDelivered`): what was read can still come
   out if and only if it has or the receiver is not waiting before an empty hunk with nothing left over. That state
   holds back empty datagrams only (`TunnelLiveness.BlockedMeansEnd`) and can be reached
   (`TunnelLiveness.EndedUdpGetsStuck`).
8. **Chunking does not matter** (`Reading.ChunkingIndependence`) while the stream is open. **What closing costs**: over
   TCP nothing, over hunks at most the last datagram (`FrameStreams.Truncation`); for a whole upload or download,
   with the hunks its sender sends, exactly when is decided by where the reader was idle
   (`TunnelLoss.UploadSessionLoss`, `TunnelLoss.DownloadSessionLoss`).

## Where the code departs from its protocols

The model follows the code.

- `handshake` writes no length byte before a name (src/protocol/trojan/mod.rs:54-56), unlike the Trojan protocol
  and unlike the code's own UDP frames. See results 2 to 5 and `Handshake.DomainMisread`.
- The SOCKS5 parser reads a name into a vector of length zero (src/protocol/socks5/parser.rs:44-49), so the name is
  always empty. See `Socks5.DomainRequestDecodes`.
- Delimiters are read and never compared. See `Framing.ParseCanonicalises`.
- The reader looks ahead after draining its leftover, and an error met there drops the bytes just drained.

## Assumptions about libraries

- `read_exact` and `read_uN` poll with exactly the room still missing, retry after Pending, treat an Ok poll
  without bytes as an unexpected end, and hand on an error without the bytes placed during that poll.
- A stream reader that reads zero bytes has ended and reads zero bytes from then on. A read fills at most 4096 bytes.
- What a stream answers to polls is an arbitrary finite script; when the script is over the stream stays silent.
- SHA-224 is abstract: a configured secret is any 28-byte digest. DNS is a set of names it refuses.
- A tunnel's receiver may meet an error or the end of the stream, or be stopped from outside, at any step.

## Model

| member | source | states |
|---|---|---|
| Protocol.WireCodes | src/protocol/common/command.rs:19-27 | Which byte stands for which command and address type, and that every other byte is refused |
| Transport.GrpcPollIsGreedy | src/transport/grpc_stream.rs:36-99 | One poll said at once: the stream is asked exactly if the leftover fits; unless it ends or fails, leftover and packet are cut at the room, the caller getting as much as there is room for, and a leftover stays only when the room is used up |
| Transport.GrpcAccounts | src/transport/grpc_stream.rs:36-99 | One poll: leftover plus arrived packet equals bytes reported, lost and retained, in order; bytes are lost only on failure and are then the whole leftover; the new leftover is a suffix of the packet, or of the old leftover |
| Transport.PollAdvances | src/transport/grpc_stream.rs:62-66 | Every poll with room either uses the source up or leaves it as it was; Pending is answered only with nothing left over |
| Transport.Conservation | src/transport/grpc_stream.rs:39-99 | Over every run of polls, whatever the capacities and the stream's answers, every byte is reported, lost or retained exactly once and in order |
| Transport.LossOnlyOnFailure | src/transport/grpc_stream.rs:68-84 | In a run, a poll that loses bytes is a failing poll of the hunk reader, and loses no more than it had room for |
| Transport.FailureFreeDelivery | src/transport/grpc_stream.rs:39-99 | In a run without a failing poll, bytes delivered followed by what the source still holds are the packets |
| Transport.LeftoverIsSuffix | src/transport/grpc_stream.rs:43-59 | After any run the leftover is a suffix of the packet polled last |
| AsyncRead.ByteReader.PollReadGrpc | src/transport/grpc_stream.rs:30-100 | The in-place code leaves exactly the state, answer and caller's buffer of the specification, including bytes dumped before an error |
| AsyncRead.ByteReader.ReadExact | src/protocol/trojan/packet.rs:48-50 | The loop over polls fills exactly the slice with the bytes the specification names, and nothing older survives in it |
| Reading.StreamFaults | src/transport/grpc_stream.rs:68-84 | How a stream that gives no more fails any parser: an empty packet or a TCP end is an unexpected end, the end of a hunk stream or an error a broken pipe, silence no failure |
| Reading.QuietPoll | src/transport/grpc_stream.rs:43-58 | On an open stream of non-empty packets a poll with room is Pending or delivers at least one byte, and loses none |
| Reading.ChunkingIndependence | src/protocol/trojan/parser.rs:11-91 | For every parser, every split into non-empty packets and every pattern of Pending, over TCP or hunks: same result as on the flat bytes, and the source holds exactly the flat remainder |
| Reading.ReadExactTerminates | src/transport/grpc_stream.rs:43-97 | A read of n available bytes returns the next n bytes and takes at most n polls that are not Pending |
| Reading.ReadExactThen | src/protocol/trojan/parser.rs:62-84 | A parser over a source is its current `read_exact` followed by the rest of the parser |
| Reading.ClosingRead | src/transport/grpc_stream.rs:62-84 | What changes when the stream closes after the script: waiting parsers fail; one that returned still returns, unless over hunks its last poll runs into the closing event, which needs a reader that was not idle after the last packet |
| Parsers.Granular | src/protocol/trojan/parser.rs:14-50 | A read that got part of its bytes goes on missing exactly the others, for every parser |
| WireFormat.TrojanVerdict | src/protocol/trojan/parser.rs:11-60 | On every byte string: refused exactly for a wrong byte at 58 or then 59, as soon as it is there; returned exactly four bytes past the address |
| WireFormat.TrojanFields | src/protocol/trojan/base.rs:44-63 | Every field of the accepted request as bytes of the header: digest, command, transport, type, address, port |
| WireFormat.Socks5Verdict | src/protocol/socks5/parser.rs:11-57 | The same for the SOCKS5 request: version, command, type, and two bytes past an address whose name counts none |
| WireFormat.Socks5Fields | src/protocol/socks5/base.rs:101-121 | Every field of the SOCKS5 request as bytes |
| WireFormat.FrameVerdict | src/protocol/trojan/packet.rs:35-50 | On every byte string a deframing loop refuses exactly an unknown type, then an unresolvable name, then a size above 4096, and otherwise has a frame exactly at the end of its payload |
| WireFormat.LargestPayload | src/protocol/trojan/packet.rs:18-46 | Frames with payloads of up to 4096 bytes are accepted, longer ones stop the loop |
| ReadPlans.TrojanReads | src/protocol/trojan/parser.rs:11-49 | The sizes of the reads `parse` awaits, one by one |
| ReadPlans.Socks5Reads | src/protocol/socks5/parser.rs:13-54 | The sizes of the reads the SOCKS5 parser awaits; of a name only the length |
| ReadPlans.FrameReads | src/protocol/trojan/packet.rs:35-52 | The sizes of the reads of one turn of a deframing loop, the payload included |
| Parsers.ParsersBuildConsistentRequests | src/protocol/trojan/base.rs:44-63 | Every request either parser builds has an address type matching its address, a name below 256 bytes and the transport of its command |
| ParserMethods.ReadField | src/protocol/trojan/parser.rs:13-17 | One awaited read takes a parser exactly one step further in its plan |
| ParserMethods.ReadName | src/protocol/trojan/parser.rs:70-78 | The length byte and the name, or the empty read of the SOCKS5 parser |
| ParserMethods.ParseUdp | src/protocol/trojan/parser.rs:62-91 | On every stream the field-by-field parser returns the header its consumed bytes encode, fails or waits as the plan does, and leaves the reader in the plan's state |
| ParserMethods.ParseTrojanRequest | src/protocol/trojan/parser.rs:11-60 | The same for the Trojan request header |
| ParserMethods.ParseSocks5Request | src/protocol/socks5/parser.rs:11-57 | The same for the SOCKS5 request |
| Framing.AskOnPrefix | src/protocol/trojan/parser.rs:62-84 | Before the byte at which a parser returns, it is always inside a read that does not reach past that byte |
| Framing.FrameDecodes | src/protocol/trojan/packet.rs:76-97 | A frame is accepted exactly at its last byte and decodes to the datagram it was made from |
| Framing.PrefixFree | src/protocol/trojan/packet.rs:76-97 | Frames followed by anything are equal only if the datagrams and the rests are: frames are uniquely decodable |
| Framing.ParseCanonicalises | src/protocol/trojan/parser.rs:62-91 | Re-encoding a parsed header gives back the consumed bytes with only the delimiter replaced by CRLF |
| Framing.ReparseIsParse | src/protocol/trojan/packet.rs:115-134 | Parse, encode, parse equals parse, and consumes exactly the encoding |
| Framing.HeaderBounds | src/protocol/trojan/packet.rs:174-196 | Casts lose nothing and a UDP header has 8 to 263 bytes |
| WireFormat.FrameLayout | src/protocol/trojan/packet.rs:76-97 | Every byte of every frame: type, length of a name, address, port, size, CR LF, payload |
| Framing.KnownFrames | src/protocol/common/atype.rs:4-14 | Frames spelled out byte for byte: type bytes, byte order, name length, sizes, delimiter |
| FrameStreams.WholeFramesIsMaximal | src/protocol/trojan/packet.rs:35-62 | The count of whole frames before a cut is the greatest one that fits |
| FrameStreams.FramesRoundTrip | src/protocol/trojan/packet.rs:35-62 | For every list of datagrams, cut, chunking and Pending pattern, the loop forwards exactly the datagrams whose frames lie wholly before the cut, then waits |
| FrameStreams.FrameSequenceRoundTrip | src/protocol/trojan/packet.rs:65-100 | When all bytes arrive the whole list comes out |
| FrameStreams.ClosingFrames | src/protocol/trojan/packet.rs:214-232 | Closing the stream costs no datagram over TCP or if the reader was idle after the last packet, and at most the last one otherwise |
| FrameStreams.Truncation | src/protocol/trojan/packet.rs:35-62 | A stream cut anywhere and closed: over TCP, or if the reader was idle after the last packet, exactly the frames before the cut are forwarded; otherwise those or all but the last; never a partial datagram |
| HunkLoss.WholeHunk | src/transport/grpc_stream.rs:43-97 | A parser that reads a hunk from the leftover up to a point where one of its reads ends has also asked for the next event: it fails if that closes the stream, and otherwise goes on with what it fetched |
| HunkLoss.DownloadLoss | src/proxy/grpc/handler.rs:121-174 | For every list of datagrams sent as one hunk each, with Pendings anywhere, before the stream ends or fails: all are forwarded if and only if there are none or the reader was idle after the last hunk, and otherwise all but the last |
| HunkLoss.UploadLoss | src/protocol/trojan/packet.rs:162-212 | For a loop that starts with nothing left over and every list of datagrams with payloads sent as two hunks each: all are forwarded if and only if the last two events are not both hunks, and otherwise all but the last |
| HunkLoss.WholeUploadLoss | src/proxy/grpc/acceptor.rs:52-74 | A header hunk and then two hunks for each datagram, read by the parser and then by the loop that goes on with its reader, leftover included: the parser fails if the stream closes right after the header; otherwise it returns the header and all datagrams are forwarded if and only if the last two events are not both hunks, and else all but the last |
| HunkLoss.LookaheadLosesLastDatagram | src/transport/grpc_stream.rs:62-84 | For every datagram with a payload before the end: two hunks with a Pending between them deliver it, without one they lose it, and so does one hunk |
| CopyLoops.NextDatagram | src/protocol/trojan/packet.rs:35-61 | One turn of a deframing loop, with resolution, the size check and the reused buffer, does what the frame plan says |
| CopyLoops.CopyClientReaderToUdpSocket | src/protocol/trojan/packet.rs:29-63 | For every stream, what the loop sends and why it stops is what the frames on the stream say |
| CopyLoops.CopyUdpServerReaderToClientWriter | src/protocol/trojan/packet.rs:140-160 | For every stream, the bytes put out are the payloads of those frames, with nothing older from the buffer, and the loop stops for the reason the frames give |
| CopyLoops.CopyClientReaderToUdpServerWriter | src/protocol/trojan/packet.rs:102-138 | The stream receives the frames of the successive reads |
| CopyLoops.CopyUdpSocketToClientWriter | src/protocol/trojan/packet.rs:65-100 | The same with the type byte derived from the address |
| CopyLoops.CopyClientReaderToServerGrpcWriter | src/protocol/trojan/packet.rs:162-212 | The hunks sent are header and payload of each read, the header taken from the truncated cursor; flattened they are the frames |
| CopyLoops.CopyUdpSocketToClientGrpcWriter | src/proxy/grpc/handler.rs:121-174 | The hunks sent are the frames, one each |
| CopyLoops.WritersEncodeDatagrams | src/protocol/trojan/packet.rs:115-135 | For a consistent request what all four writers emit, flattened, is the encoding of its datagrams |
| CopyLoops.ByteStreamThroughFrames | src/protocol/trojan/packet.rs:102-160 | Writer and payload-only reader together put out a prefix of the bytes read, and all of them once all frames arrived, for every sequence of read sizes |
| CopyLoops.Cursor.WriteAll | src/protocol/trojan/packet.rs:174-196 | Writing into the pre-sized cursor appends to what was written, whatever the vector held |
| CopyLoops.WriteHandshake | src/protocol/trojan/mod.rs:37-63 | The header is written field by field as specified |
| CopyLoops.HandshakeHunk | src/proxy/tcp/handler.rs:347-350 | The truncated 512-byte cursor holds exactly the header |
| WireFormat.HeaderLayout | src/protocol/trojan/mod.rs:42-59 | Every byte of the header for every secret and request: secret, CR LF, command, type, address without a length, port, CR LF |
| WireFormat.KnownHeaders | src/protocol/trojan/mod.rs:42-59 | Three headers spelled out byte for byte |
| Handshake.HandshakeInStep | src/protocol/trojan/mod.rs:47-59 | For every 56-byte secret, request and following bytes, `parse` consumes exactly the written header if and only if the address is aligned |
| Handshake.HandshakeRoundTrip | src/protocol/trojan/mod.rs:37-63 | For an IP address the request comes back with only the proxy protocol changed, and the following bytes are left |
| Handshake.DomainMisread | src/protocol/trojan/mod.rs:54-56 | For a name: how much `parse` consumes; it returns the same name exactly if every byte of the name and the port's high byte equal its length, and is then one byte ahead; and the same name and port only for thirteen CR bytes at port 0x0D0D |
| Handshake.PrefixVerdict | src/protocol/trojan/parser.rs:62-84 | Along bytes that begin with a unit, a parser is inside a read that ends within the unit and from its last byte on has returned; it never refuses |
| Handshake.ScanStops | src/protocol/trojan/parser.rs:11-60 | A flat parse consumes exactly up to the byte at which the parser returns |
| Access.HexDigits | src/proxy/tcp/handler.rs:79-84 | A secret holds two lower-case hexadecimal digits for every byte of the digest, the high one first |
| Access.KnownHex | src/proxy/grpc/acceptor.rs:30-35 | Three bytes spelled out |
| Access.SecretSizes | src/proxy/grpc/acceptor.rs:27-38 | A secret has 56 bytes for a digest of 28, and none where nothing is configured |
| Access.HexInjective | src/proxy/tcp/handler.rs:79-84 | Lower-case hex of a digest determines the digest |
| Access.Acceptance | src/protocol/trojan/base.rs:66-72 | Any header that parses is validated exactly if both sides have a secret and the digests are equal, whatever follows it |
| Access.ServerAcceptsIffDigestsEqual | src/protocol/trojan/mod.rs:18-34 | For aligned requests a header is accepted if and only if the digests of the two secrets are equal; without a server secret nothing is |
| Acceptors.Accept | src/proxy/grpc/acceptor.rs:47-75 | Parse, validate, grant or deny, and hand on the reader in exactly the state the parser left |
| Acceptors.AcceptanceOverAnyChunking | src/proxy/grpc/acceptor.rs:52-74 | However header and data are cut into packets: granted exactly if the digests agree, with the client's request, and the reader still holds exactly the bytes after the header |
| Socks5.IpRequestDecodes | src/protocol/socks5/parser.rs:11-57 | Every RFC 1928 request with an IP address is decoded exactly and wholly consumed |
| Socks5.DomainRequestDecodes | src/protocol/socks5/parser.rs:42-54 | Every request with a name of n bytes is decoded as an empty name with the two bytes after the length as port, leaves n bytes unread, and is right only for n = 0 |
| Socks5.DomainRequestsAreNeverAligned | src/protocol/socks5/parser.rs:42-50 | A name request from SOCKS5 is never one whose Trojan header is read in step |
| Socks5.KnownRequests | src/protocol/common/command.rs:4-14 | Three requests spelled out byte for byte, one for each command |
| TunnelLoss.SentAreFramed | src/protocol/trojan/packet.rs:162-212 | The hunks a UDP sender's loop sends are those of the datagrams it frames, two for each on the way up and one on the way down |
| TunnelLoss.UploadSessionLoss | src/proxy/grpc/handler.rs:61-69 | For every UDP upload in step, every list of reads, Pending pattern and closing event: when the server loses the header, and otherwise that it takes exactly the header and forwards every datagram if and only if the last two events are not both hunks |
| TunnelLoss.DownloadSessionLoss | src/proxy/grpc/handler.rs:121-174 | For every download: the client's loop forwards every datagram if and only if there is none or its reader was idle after the last hunk |
| TunnelInvariant.BodySnoc | src/proxy/tcp/handler.rs:398-416 | What one turn of a sender's loop sends, flattened, is what its read adds to the stream |
| TunnelSteps.ReceiveTakes | src/proxy/grpc/handler.rs:46-69 | Whatever the receiver is at, the bytes that arrive are added at the end of what it has taken and nothing in flight changes |
| TunnelSteps.HeaderReceives | src/proxy/grpc/acceptor.rs:52-74 | Bytes arriving in any header, in step or not, keep the receiver's invariant: only an authentic client gets past it, and the target is the endpoint parsed |
| TunnelSteps.FramesReceive | src/protocol/trojan/packet.rs:35-62 | Bytes arriving in a frame keep it: every datagram delivered is the parse of the bytes taken for it |
| TunnelSteps.StepKeepsInv | src/proxy/tcp/handler.rs:344-384 | Every step of every session, in step or not, keeps: no byte lost, repeated or reordered except by an error; the hunks in flight are a tail of those sent; what stopped the receiver is what it saw |
| TunnelInStep.HeaderInStep | src/protocol/trojan/mod.rs:47-59 | In step a receiver past the header took exactly the header |
| TunnelInStep.DeliveredInStep | src/protocol/trojan/packet.rs:35-62 | In step the datagrams delivered are the first ones framed, and the bytes in hand and in flight are the frames of the others |
| TunnelHunks.TakenAtEmpty | src/proxy/grpc/handler.rs:55-58 | An empty hunk next or just polled, with nothing left over, means that the client's stream ended at that read and everything sent up to it was taken |
| TunnelTheorems.UdpSafety | src/protocol/trojan/packet.rs:162-212 | In step, in every reachable state of every interleaving, delivered datagrams are a prefix of those framed, with the same payloads and target, however the receiver stopped |
| TunnelTheorems.EndOfDataSoundness | src/proxy/tcp/handler.rs:398-416 | In step, copied bytes are a prefix of those read, and all of them when the copy sees the end, leftovers of the header parse included |
| TunnelTheorems.DrainedTookAll | src/proxy/grpc/handler.rs:55-58 | Whatever the address, a copy that saw the end has put out everything sent except what the parser took for the header |
| TunnelTheorems.OnlyAuthenticClientsPass | src/proxy/grpc/acceptor.rs:61-66 | In every run of every upload, whatever the address, no target is accepted and nothing comes out unless both sides have the same digest, and then only under the client's command |
| TunnelTheorems.StopsForAReason | src/protocol/trojan/packet.rs:35-50 | A receiver refuses only strangers, BIND and names out of step; an empty read stops it only after the client's stream ended, and for an authentic client in step only in the UDP loop with every payload byte delivered |
| TunnelTheorems.StrangersAreRefused | src/proxy/grpc/acceptor.rs:61-66 | Whatever the address, once every byte sent was taken and holds a whole header, a stranger's or BIND's receiver has refused, unless an error or crash came first |
| TunnelLiveness.RestIsComplete | src/protocol/trojan/packet.rs:162-212 | In step a working receiver with no byte in flight has put out everything read and is between units |
| TunnelLiveness.BlockedMeansEnd | src/transport/grpc_stream.rs:62-84 | A receiver before an empty hunk with nothing left over: the client's stream has ended, every byte read is out, and only empty datagrams are missing |
| TunnelLiveness.NotBlockedAgain | src/transport/grpc_stream.rs:43-97 | With all hunks on the wire a poll never leaves the receiver before an empty payload: the look-ahead swallows it with its header |
| TunnelLiveness.Progress | src/proxy/grpc/handler.rs:66-69 | In a served session that is not blocked every step of the schedule shortens the queue and keeps the receiver at work, until everything is out |
| TunnelLiveness.EverythingCanBeDelivered | src/proxy/grpc/handler.rs:36-89 | After every run of a served session, ended or not, what was read can still come out if and only if it has or the receiver is not blocked; for TCP, downloads and streams that have not ended always |
| TunnelLiveness.EndedUdpGetsStuck | src/protocol/trojan/packet.rs:162-212 | For every authentic UDP client in step some run reaches a working receiver from which no continuation delivers everything |
| TunnelSchedules.StepLowers | src/proxy/tcp/handler.rs:344-384 | Every step of the tunnel itself that changes anything lowers the work left: hunks by how far they have to go, and bytes |
| TunnelSchedules.EveryScheduleDelivers | src/proxy/grpc/handler.rs:36-89 | From every reachable state of a served session in step that no error or crash has ended, under every schedule of the tunnel's own steps: the number of changing steps is bounded, and a state where none is left has every byte read out, and for TCP, downloads and streams that have not ended every datagram |
| TunnelFlow.DeframeEncodes | src/protocol/trojan/packet.rs:76-97 | The reference that parses a byte string at once inverts the encoder |
| TunnelFlow.DeterminedByBytes | src/proxy/grpc/handler.rs:36-89 | In every run of every session, in step or not, what comes out is a prefix of what parsing all bytes sent at once gives |
| TunnelFlow.FlowIsReference | src/protocol/trojan/packet.rs:35-62 | A receiver that refused, or has nothing left to take, has put out all that the reference gives |
| TunnelFlow.SafeIffReferenceIs | src/protocol/trojan/parser.rs:11-91 | For every served session and every input, for a client's UDP loop without an empty read: every run that reads it puts out only what was read, in order, if and only if parsing the bytes sent for it does |
| TunnelFlow.ReferenceInStep | src/protocol/trojan/mod.rs:37-63 | In step the reference gives exactly the datagrams framed or the bytes read |
| TunnelNames.NameHeader | src/protocol/trojan/mod.rs:54-56 | Where the server believes the header of a name to end; it is the true end if and only if the name is aligned |
| TunnelNames.DrainedIffAligned | src/proxy/grpc/handler.rs:55-58 | In every run whose copy ended by itself, exactly the bytes read were copied if and only if the address is aligned |
| TunnelNames.IdleWorksIffDeliverable | src/proxy/grpc/handler.rs:46-69 | In every idle state of every upload everything read is out at the endpoint asked for if and only if it is a TCP stream to an IP address or datagrams to an aligned address |
| TunnelNames.UploadWorksIffDeliverable | src/protocol/trojan/mod.rs:47-59 | For every authentic upload and everything a client can read, the end of its stream included, some run reads it, puts all of it out at the endpoint asked for and comes to rest under exactly that condition |
| TunnelNames.TcpSafeIffAligned | src/proxy/grpc/handler.rs:46-58 | For every authentic TCP upload the bytes copied are always a prefix of those read if and only if the address is aligned |
| TunnelNames.DatagramFromNowhere | src/protocol/trojan/mod.rs:54-56 | For one name a run delivers a datagram although nothing was read |
| TunnelUdp.RefusalLasts | src/protocol/trojan/parser.rs:62-91 | Bytes before a payload that are refused if the payload has one byte are refused for every payload size |
| TunnelUdp.UdpSafeIffAlignedOrMute | src/protocol/trojan/mod.rs:47-59 | For every authentic UDP upload the datagrams delivered are always a prefix of those framed if and only if the address is aligned or mute |
| TunnelUdp.PayloadTakenForFrames | src/protocol/trojan/packet.rs:35-62 | For every name whose first byte leaves no gap before the payload and every list of frames that fits: a run delivers the frames in the payload and not the datagram that was read |
| TunnelEcho.QuiescentIsNotEnough | src/protocol/trojan/packet.rs:35-62 | For one name out of step and one payload a run with nothing on its way has put out exactly the datagram read; the receiver is inside a frame |
| TunnelReach.MayBreak | src/transport/grpc_stream.rs:62-84 | In every state the connection may end or fail: a read that the leftover fills does not notice, any other breaks and loses the leftover |
| TunnelReach.CopyTakesRoom | src/transport/grpc_stream.rs:36-99 | A copy may offer any room and gets as much of the leftover and the next hunk as fits it |
| TunnelReach.CopyDoesEnd | src/proxy/grpc/handler.rs:55-58 | For every authentic TCP upload in step some run ends the copy by itself |
| TunnelReach.LoopDoesEnd | src/protocol/trojan/packet.rs:35-50 | For every authentic UDP upload in step some run stops the loop at an empty payload |
| TunnelReach.StrangerIsRefused | src/proxy/grpc/acceptor.rs:61-66 | For every stranger with a secret, and for BIND, some run is refused |
| TunnelReach.ChannelFillsUp | src/proxy/tcp/handler.rs:344 | Some run puts sixteen hunks into the channel, and then the sender has to wait |
| TunnelBounds.HandshakeBound | src/proxy/tcp/handler.rs:347-350 | A header has 8 to 319 bytes |
| TunnelBounds.BuffersStayBounded | src/transport/grpc_stream.rs:43-59 | In every run of every session hunks and the leftover stay within 4359 bytes, a header and a payload, and the channel within 16 hunks |

## Left out

- Truncation: for hunks cut in other ways than the senders cut them it says that at most the last datagram is lost, not exactly when.
- UploadLoss: a loop that starts with nothing left over; with the leftover of the header's parser it is WholeUploadLoss.
- UploadSessionLoss: reads that are not empty; an empty payload is an empty hunk, which the reader takes for the end of the stream when it meets it with nothing left over.
- UdpSafety: states safety in step; for exactly which requests it holds is UdpSafeIffAlignedOrMute.
- SafeIffReferenceIs: for a client's UDP loop inputs with an empty read are left out, because an empty hunk may stop an out-of-step receiver early; DeterminedByBytes bounds those runs too.
- StopsForAReason: cancellation by `select!`, DNS failures and socket errors are one step that may happen at any time.
- CopyUdpServerReaderToClientWriter: models both payload-only loops, which differ only in the reader they are given.
- The TCP download over gRPC, which writes each hunk straight through (src/proxy/tcp/handler.rs:418-441): no re-chunking, only easy members.
- `GrpcHunkRequestStream` and `GrpcHunkResponseStream`: not used anywhere in the repository.
- DNS: the address stays unresolved; the fallback to 127.0.0.1 for a name that is not UTF-8 is part of the abstract resolver.
- `BufReader` and `BufWriter`: taken as transparent.
- UDP datagrams longer than the receive buffer: what `recv` returns is the datagram.
- TLS, QUIC, configuration, command line, logging, the listeners and the SOCKS5 greeting and replies: foreign libraries, I/O, or easy members.
