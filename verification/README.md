# Verified model of the Tailscale client core

The client speaks every protocol as a deterministic state machine over byte slices. This
project models those machines in Dafny, as the imperative code they are, and proves each one
against a specification that knows nothing of its buffers: a one-shot parse of the whole
stream, a set of counters, a transcript, a syntax tree. `dafny verify dfyconfig.toml` checks
all of it.

## The parts

**The framing stack.** `Framing` defines the one-shot parse of a length-prefixed stream and
what every incremental reader must do to follow it. `H2Frames`, `Netmap` and `DerpFrames`
are the three readers; `H2Writer` writes HTTP/2 frames and HPACK, and `FrameView` is how a
peer reads those frames, from the numbers of RFC 9113. `Noise` is the record layer.
`RecordStage` and `DerpPump` are the two fixed-buffer drivers of the firmware, `DerpMessages`
what the second one does with everything a relay sends, and `HostTransport` the
growing-buffer driver of the host. `H2Body`, `LeadingBlock` and `H2Conn` are a request and
its response; `ControlStack` composes all layers: netmap documents in DATA frames in Noise
records on a wire that is cut anywhere.

**The WireGuard data plane.** `Replay` is the ring bitmap and the set it stands for,
`Transport` a session, `Delivery` one direction of a session over a hostile network.
`HandshakeSpec` is the handshake as pure transcripts and messages with the agreement of its
halves, `HandshakeView` its messages byte by byte and its keys as one flat chain, `Handshake`
the code that mixes state and fills messages, and `WireGuard` joins the handshake and the
session. `Tai64n` and `Peer` are handshake timestamps and the session lifecycle. `Node` is the
firmware's responder and `Tsmp` the ping it answers.

**JSON.** `JsonSyntax` has texts as trees with their whitespace; `JsonReader` is the field
extractor, `JsonExact` shows it exact on every well-formed text, and `JsonCut` tells what it
makes of a text that breaks off. `JsonWriter` is the writer, `JsonText` spells out what it
emits, and `Json` shows that the two undo each other. `Requests` and `Latency` use them for
what the control plane is sent, and `RequestFields` reads that back member by member.

**Shared slots and bytes in place.** `Tunnel` is the pool of listeners shared by eight
workers, `Relay` the loop between a peer and a LAN host, `Mdns` the in-place rewrite and its
way back, `MdnsQuestions` what it does to a query made up of questions, `Upgrade` base64 and
the HTTP/1.1 switch.

## How to read it

- A class has the fields of the structure it models, `Valid()` ties them to what they stand
  for, and ghost fields hold the history (bytes received, records drained, counters seen).
- A method's contract gives its result for every input, error paths included, in terms of a
  specification function; lemmas about that function say what the source promises, and for
  what is sent or received a reader or writer of its own, in literal numbers, says what the
  bytes mean.
- Cryptography is uninterpreted. `Crypto.Aead` asks that opening undoes sealing and that a
  tag adds sixteen bytes; `HandshakeSpec.Suite` adds that two Diffie-Hellman results agree.
  `Crypto.AeadExists` and `HandshakeSpec.SuiteExists` show that these laws can be met.
  Delivery on a hostile network assumes an ideal cipher, stated for each run as
  `Delivery.Ideal`; it is not needed when the network forges nothing.
- Sockets are bytes in flight that arrive in any pieces (`RecordStage.Socket`), or offers of
  which any prefix is accepted (`Relay.Stream`); clocks, seeds and events are parameters.
- A loop that waits on events (`DerpPump.Pump.Run`, `Peer.Run`, `Tunnel.Run`, `Relay.Run`,
  `Delivery.Run`) runs over an arbitrary list of them.

## Where the code does not do what one would expect

Each comes with the exact condition under which the expectation holds and an input for which
it does not.

- `json::field` compares the escaped spelling of a key with the bare key it is given; it
  finds members by key if and only if the key needs no escaping
  (`Json.FieldMeetsIntent`, `Json.QuotedKeyIsMissed`).
- The firmware sends no DATA frame for an empty body, so the stream is not ended; the host
  sends one (`H2Body.FirmwareMatchesHost`).
- The host's `absorb` accepts one or two bytes of a record header at the end of what came
  with the handshake response and drops them; anything else it decrypts or reports
  (`HostTransport.AbsorbKeepsAll`, `HostTransport.FirstByteIsDropped`).
- The firmware takes every record type but 3 for data, the host only type 4, so they agree on
  a record if and only if it is of type 4 or does not open
  (`HostTransport.KindsThatDiffer`, `HostTransport.RelabelledRecordDiffers`); on records that
  both take they agree (`HostTransport.HostMatchesFirmware`).
- The firmware skips the optional block in front of HTTP/2 only if the record that completes
  it fits the 4096-byte plaintext buffer, with its tag, behind what was read before: a block in
  the first record always, one of more than 4080 bytes never, and one in between depending on
  how the peer cut it (`H2Conn.StartHonest`, `LeadingBlock.ShortBlocksCanFail`).
- The payload of a padded DATA frame is handed on with its pad length and padding, so it is the
  data sent if and only if no frame is padded (`ControlStack.PayloadIsData`,
  `ControlStack.PaddingIsHandedOn`).
- What the relay loop has read from the LAN is sure to reach the peer if and only if the loop
  ends by the LAN's doing; otherwise what is held is given up (`Relay.Run`, `Relay.TailIsLost`).
- The firmware does not compare handshake timestamps, as the host does: an initiation is
  accepted as often as it arrives and replaces the session each time; the same keys come back
  if and only if its index does, every 2^31 handshakes (`Node.HandleAgain`,
  `Node.AnswersRecurRarely`, and for the host `Peer.Peer.AcceptHandshakeTimestamp`).
- `json::field` takes a number that the text breaks off in for a whole one: its answer for a
  part is that for the whole if and only if it is not a number at the very end that goes on
  (`JsonCut.FieldOfPart`, `JsonCut.DigitsAreCutShort`).
- `write_seconds` keeps only the last digit of the seconds
  (`Latency.TextReads`, `Latency.LongLatencyIsMisreported`).
- Restoring an mDNS message gives back the original only if its questions did not ask for
  unicast to begin with (`Mdns.RestoreUndoesRequest`, `Mdns.OwnUnicastIsLost`).
- A written HTTP/2 or DERP frame reads back only within the 24-bit length, respectively the
  frame limit (`H2Writer.FrameTextReads`, `DerpFrames.WrittenFrameReads`).

Where comments and code disagree the model follows the code: the limit on messages per key
is `u64::MAX - 2^13 - 1`, one less than the protocol's `2^64 - 2^13 - 1`
(crates/tailscale-core/src/wireguard/transport.rs:15); the replay window takes 256 bytes of
state, not 32 (line 17 there); the literal fields of a POST carry the pattern `0001`, never indexed
in RFC 7541, which a comment calls "without indexing"
(crates/tailscale-core/src/h2.rs:440-448); `unescape`, which crates/tailscale-core/src/json.rs:197
refers to, does not exist, so `JsonWriter.Unescape` is written from RFC 8259 instead.

## Model

| member | source | states |
|---|---|---|
| `Framing.CutCovers` | crates/tailscale-core/src/h2.rs:178-296 | the one-shot parse every reader is compared with only places boundaries: frames and rest add up to the stream, each frame is exactly one frame, and it stops only where none is complete |
| `Framing.CutUnique` | crates/tailscale-core/src/h2.rs:352-402 | parsing undoes concatenation: however frames were chosen, the parse finds exactly those, whatever follows |
| `Framing.CutConcat` | crates/tailscale-core/src/h2.rs:178-296 | frames found so far never change when more bytes arrive; only the unfinished tail is parsed again |
| `Framing.CutInvertsWriter` | crates/tailscale-core/src/h2.rs:352-402 | any writer of a length-prefixed framing is inverted by the parse, partial last frame included |
| `Framing.CutOfPrefix` | crates/tailscale-core/src/derp/frame.rs:169-273 | a prefix of a stream of frames parses to the first of them, the rest of the stream carries exactly the others, and no header is refused |
| `Framing.AdvancedFollowsCut` | crates/tailscale-core/src/h2.rs:178-296 | a reader that advances frame by frame, finishing or extending the one it holds, stays equal to the one-shot parse |
| `H2Frames.FrameLenIsHeaderPlusBody` | crates/tailscale-core/src/h2.rs:193-211 | frames are nine header bytes and as many body bytes as the 24-bit length says (section 4.1 of RFC 9113) |
| `H2Frames.FrameReader.FeedHeader` | crates/tailscale-core/src/h2.rs:182-236 | filling the header: the bytes held grow by what was used; an empty frame is emitted at once; non-empty input makes progress |
| `H2Frames.FrameReader.StartFrame` | crates/tailscale-core/src/h2.rs:192-236 | a complete header picks the next state, or emits the frame if it has no body |
| `H2Frames.FrameReader.FeedBuffering` | crates/tailscale-core/src/h2.rs:238-259 | a control body is buffered up to 128 bytes and handed over whole when it ends |
| `H2Frames.FrameReader.FeedDraining` | crates/tailscale-core/src/h2.rs:261-271 | what exceeds the buffer is read past, and the truncated payload is emitted exactly when the frame ends |
| `H2Frames.FrameReader.FeedStreaming` | crates/tailscale-core/src/h2.rs:273-293 | other bodies are passed on as chunks, `end` set on the last only; DATA chunks, and only those, add to the credit owed |
| `H2Frames.FrameReader.Feed` | crates/tailscale-core/src/h2.rs:178-296 | one call uses a prefix of its input, at least a byte of non-empty input and all of it when it returns no item; what it emits and what it then holds are functions of the bytes alone, and credit grows by exactly the DATA bytes emitted |
| `H2Frames.FrameReader.TakePendingWindow` | crates/tailscale-core/src/h2.rs:172-174 | hands over the credit owed and resets it |
| `H2Frames.FedAdvances` | crates/tailscale-core/src/h2.rs:178-296 | every call of `feed` either extends an unfinished frame or finishes exactly one |
| `H2Frames.FedCollects` | crates/tailscale-core/src/h2.rs:178-296 | collecting an item adds exactly the frame it finishes, or the chunk it carries |
| `H2Frames.FedKeepsReading` | crates/tailscale-core/src/h2.rs:178-296 | fragmentation independence, one call: what a consumer has collected stays equal to the one-shot parse of all bytes used so far |
| `H2Frames.ReadPiece` | crates/tailscale-core/src/h2.rs:178-296 | feeding one piece until it is used up keeps the collection equal to the one-shot parse |
| `H2Frames.ReadAll` | crates/tailscale-core/src/h2.rs:178-296 | for every way of cutting a stream into pieces, the frames collected (bodies whole, control payloads cut at 128) are those of the one-shot parse of the concatenation |
| `H2Writer.FrameTextReads` | crates/tailscale-core/src/h2.rs:352-402 | a written frame is one frame to the reader, with the kind, flags, stream and payload it was written from, if and only if its payload is shorter than 2^24 |
| `H2Writer.Writer.Put` | crates/tailscale-core/src/h2.rs:335-342 | a write appends all of its bytes if and only if they fit, and otherwise reports it |
| `H2Writer.Writer.FrameHeaderOut` | crates/tailscale-core/src/h2.rs:352-362 | writes the nine header bytes, or a part of them and an error when they do not fit |
| `H2Writer.Writer.Settings` | crates/tailscale-core/src/h2.rs:366-379 | writes the four settings as one SETTINGS frame, in full if and only if it fits |
| `H2Writer.Writer.PingAck` | crates/tailscale-core/src/h2.rs:385-391 | writes an eight-byte PING answer, short payloads filled up with zeros |
| `H2Writer.Writer.WindowUpdate` | crates/tailscale-core/src/h2.rs:393-396 | writes a WINDOW_UPDATE with the reserved bit clear, in full if and only if it fits; that the peer reads the increment back from it is `FrameView.WindowUpdateIsRead` |
| `H2Writer.Writer.Data` | crates/tailscale-core/src/h2.rs:398-402 | writes a DATA frame, END_STREAM exactly when asked |
| `H2Writer.Writer.EncodeInteger` | crates/tailscale-core/src/h2.rs:456-469 | the loop writes the integer text for every prefix of 1 to 8 bits whose flags leave the prefix bits clear |
| `H2Writer.Writer.Block` | crates/tailscale-core/src/h2.rs:408-435 | the six fields of a POST, one after the other until one does not fit |
| `H2Writer.Writer.PostHeaders` | crates/tailscale-core/src/h2.rs:408-435 | a HEADERS frame whose length field is the length of its block, and an error with nothing written when the block exceeds 256 bytes |
| `H2Writer.WriteUsize` | crates/tailscale-core/src/h2.rs:472-485 | renders a number from the right and moves it to the front: its decimal digits, at most twenty |
| `H2Writer.IntegerExamples` | crates/tailscale-core/src/h2.rs:456-469 | the three examples in section C.1 of RFC 7541 |
| `H2Writer.DecodeIntUndoes` | crates/tailscale-core/src/h2.rs:456-469 | a decoder written from section 5.1 of RFC 7541 inverts the encoder for every value and every prefix width, and leaves what follows untouched |
| `H2Writer.PostBlockDecodes` | crates/tailscale-core/src/h2.rs:408-453 | a decoder written from RFC 7541 reads a POST block as exactly the six intended fields, for every authority, path and length |
| `FrameView.FrameIsViewed` | crates/tailscale-core/src/h2.rs:352-402 | a reader written from section 4.1 of RFC 9113 reads a written frame as the type, flags, stream and payload meant |
| `FrameView.ReaderAgrees` | crates/tailscale-core/src/h2.rs:193-211 | whatever that reader takes for one frame, the client's reader takes for one too, with the same fields |
| `FrameView.SettingsAreRead` | crates/tailscale-core/src/h2.rs:366-379 | the settings frame is read, by section 6.5, as type 4 on stream 0 with the four identifiers and values meant, in order |
| `FrameView.PingAckIsRead` | crates/tailscale-core/src/h2.rs:385-391 | a PING answer is read as type 6 with flag 1 on stream 0 and the same eight bytes, or what there was of them and zeros |
| `FrameView.HeadersAreRead` | crates/tailscale-core/src/h2.rs:408-435 | a request's header block is read as type 1 with END_HEADERS and no other flag |
| `FrameView.BodyIsRead` | crates/tailscale-core/src/h2.rs:398-402 | a piece of a body is read as type 0, with flag 1 on the last piece alone |
| `FrameView.WindowUpdateIsRead` | crates/tailscale-core/src/h2.rs:393-396 | a WINDOW_UPDATE is read, by section 6.9, as type 8 on its stream with the increment in the 31 low bits of its four bytes, so on stream 0 it grants that much |
| `FrameView.UpdateGrants` | crates/tailscale-core/src/h2.rs:393-396 | below 2^31 the whole increment is granted |
| `FrameView.FrameGrantsNothing` | crates/tailscale-core/src/h2.rs:352-402 | no frame of another type grants credit |
| `FrameView.GrantedConcat` | crates/lando-fw/src/h2conn.rs:306-313 | credit granted by records adds up |
| `Bytes.DecimalRoundTrip` | crates/tailscale-core/src/json.rs:116-135 | decimal digits read back as the number, for every number |
| `Bytes.DecimalPlaces` | crates/tailscale-core/src/json.rs:116-135 | each place of a decimal, counted from the right, holds its digit, and only zero starts with a zero |
| `Bytes.ByteOrder` | crates/tailscale-core/src/h2.rs:195-209 | what four bytes mean in either order, with the weight of each byte, and that writing gives the bytes back |
| `Bytes.BigEndianOf` | crates/tailscale-core/src/h2.rs:353-360 | writing a number that was read gives the same bytes back, most significant first, at every width |
| `Bytes.LittleEndianOf` | crates/tailscale-core/src/wireguard/transport.rs:118-123 | the same, least significant first |
| `Bytes.LongByteOrder` | crates/tailscale-core/src/wireguard/transport.rs:118-123 | eight bytes are two words, the high one first in one order and last in the other |
| `Netmap.MapFrames.Feed` | crates/tailscale-core/src/control.rs:423-467 | one call uses a prefix of its input, makes progress, and emits at most one chunk that is a function of the bytes held and used |
| `Netmap.FedKeepsReading` | crates/tailscale-core/src/control.rs:423-467 | every chunk keeps the collection equal to the one-shot parse of all bytes used |
| `Netmap.ReadAll` | crates/tailscale-core/src/control.rs:423-467 | the netmap documents found do not depend on how DATA chunks cut length prefixes and bodies |
| `Netmap.DocumentReads` | crates/tailscale-core/src/control.rs:386-467 | a document behind its 32-bit little-endian length is one frame with that document as its body, if and only if it is shorter than 2^32 bytes |
| `Netmap.AnnouncedIsLittleEndian` | crates/tailscale-core/src/control.rs:430-440 | the length in front of a document is the little-endian number of its four bytes |
| `DerpFrames.CodeReads` | crates/tailscale-core/src/derp/frame.rs:25-76 | every frame type is recovered from its code |
| `DerpFrames.FrameReader.Feed` | crates/tailscale-core/src/derp/frame.rs:169-273 | one call uses a prefix of its input and makes progress; it fails exactly on a frame over the limit, and otherwise emits what the bytes held and used determine |
| `DerpFrames.FedAdvances` | crates/tailscale-core/src/derp/frame.rs:169-273 | every successful call either extends an unfinished frame or finishes exactly one |
| `DerpFrames.WrittenFrameReads` | crates/tailscale-core/src/derp/frame.rs:302-309 | a written frame is read back as it was written, control payloads cut at 512 bytes, if and only if it is within the limit |
| `DerpFrames.WriteHeader` | crates/tailscale-core/src/derp/frame.rs:302-309 | writes the five header bytes and nothing else, or nothing when they do not fit |
| `DerpPump.Pump.Assemble` | crates/lando-fw/src/derp.rs:315-332 | body chunks collect in the assembly buffer, cut at 1600 bytes; bytes stay in it only while a body is unfinished |
| `DerpPump.Pump.FeedOnce` | crates/lando-fw/src/derp.rs:304-333 | one feed from the staged bytes adds at most one frame to those of the parsed stream, and errors only on a frame over the limit |
| `DerpPump.Pump.ParseStaged` | crates/lando-fw/src/derp.rs:302-341 | parses up to the next complete frame and reclaims what was used; without a frame nothing stays staged, so a cancelled read loses nothing |
| `DerpPump.Pump.HandleFrame` | crates/lando-fw/src/derp.rs:377-424 | frames are handled in order; what a handled frame asks for is a function of it, which `DerpMessages.OneMessage` tells for each message a relay sends |
| `DerpPump.Pump.DrainOutbound` | crates/lando-fw/src/derp.rs:289-300 | once a peer is known all waiting packets leave in order, to that peer; before that they wait |
| `DerpPump.Pump.Wait` | crates/lando-fw/src/derp.rs:349-372 | a completed read appends its bytes, a cancelled one consumes none and takes one packet for the peer known then, and one that fails or finds the end is an error |
| `DerpPump.Pump.Run` | crates/lando-fw/src/derp.rs:243-374 | for every interleaving of reads that complete, fail or are cancelled and of outbound packets: the frames handled, and what they ask for, are those of the received stream in order, the Protocol error means a frame over the limit and nothing else (the full-buffer exit is unreachable), the assembly buffer holds bytes only within a body, and outbound packets are conserved |
| `DerpPump.SentFramesAreHandled` | crates/lando-fw/src/derp.rs:304-347 | frames written one after the other are handled one after the other, control payloads cut at 512 bytes and bodies at 1600 |
| `DerpPump.FedShows` | crates/lando-fw/src/derp.rs:309-332 | what the frames and the part streamed so far become when the reader takes more bytes |
| `DerpMessages.EveryFrameIsAMessage` | crates/tailscale-core/src/derp/frame.rs:25-76 | every frame within the limit is one of three messages: a relayed packet, a ping, or a frame that asks for nothing |
| `DerpMessages.OneMessage` | crates/lando-fw/src/derp.rs:389-422 | type 5 with a 32-byte key and a packet passes the packet, cut at 1568 bytes, on with the key as its sender; type 0x12 with eight bytes or more is answered with the first eight; a shorter ping, a packet of no bytes and every other type ask for nothing |
| `DerpMessages.MessagesTakeEffect` | crates/lando-fw/src/derp.rs:377-424 | messages sent one after the other take effect one after the other, and replies go to the sender of the last packet |
| `DerpMessages.PartTakesEffect` | crates/lando-fw/src/derp.rs:302-347 | what a part of the stream asks for is the first of what the whole asks for |
| `DerpMessages.RunOnMessages` | crates/lando-fw/src/derp.rs:243-424 | the relay loop on what a relay sends, however reads complete or are cancelled: what was done is the first of what the messages ask for, all of it once they have arrived, and the relay's frames are never why the loop ends |
| `Noise.RecordNonceInjective` | crates/tailscale-core/src/noise.rs:282-286 | distinct counters give distinct big-endian nonces |
| `Noise.RecordIsExact` | crates/tailscale-core/src/noise.rs:297-353 | a record written from a legal plaintext is one record to the reader and opens to that plaintext |
| `Noise.RecordIsRead` | crates/tailscale-core/src/noise.rs:297-325 | a record is the byte 4, the length of what follows in two bytes, high byte first, and the plaintext sealed under the nonce of four zeros and the counter in eight bytes, high byte first |
| `Noise.AnyRecordOpens` | crates/tailscale-core/src/noise.rs:332-352 | any bytes longer than a header and a tag are opened under the number they come in at, unless they start with 3 or numbers are used up; neither their length field nor another type is looked at |
| `Noise.Session.WriteRecord` | crates/tailscale-core/src/noise.rs:297-325 | succeeds exactly for legal plaintexts that fit and while nonces are left; writes the record of that number and advances it, or changes nothing |
| `Noise.Session.ReadRecord` | crates/tailscale-core/src/noise.rs:332-352 | decrypts in place and advances the number exactly when the record is authentic |
| `Noise.OpenAllUndoes` | crates/tailscale-core/src/noise.rs:297-353 | the records of a sending session, opened in order, give back everything sealed |
| `Noise.ReceivedIsPrefixOfSent` | crates/tailscale-core/src/noise.rs:297-353 | of any prefix of the wire, the records found are the first ones sent, they open to the first plaintexts, and the rest of the wire carries exactly the others |
| `RecordStage.Stage.OpenStaged` | crates/lando-fw/src/h2conn.rs:146-151 | a complete staged record is decrypted into a buffer of its own, or refused |
| `RecordStage.Stage.DrainOne` | crates/lando-fw/src/h2conn.rs:128-156 | draining a record appends exactly its plaintext and moves past exactly its bytes |
| `RecordStage.Stage.DrainRecords` | crates/lando-fw/src/h2conn.rs:119-160 | drains while a complete record fits; nothing received is lost; it stops without error only at a partial record or at one that has no room and reports no error; each error has its cause: an illegal length, an error record, or a record that does not open |
| `RecordStage.Stage.Absorb` | crates/lando-fw/src/h2conn.rs:109-116 | bytes read with the handshake response are staged behind the others, or refused whole when there is no room |
| `RecordStage.Stage.Consume` | crates/lando-fw/src/h2conn.rs:265-301 | hands over the first unread bytes and keeps the rest |
| `RecordStage.Stage.Pump` | crates/lando-fw/src/h2conn.rs:163-187 | returns with more unread plaintext; received plus in flight is conserved; a failure is the socket's, an illegal or inauthentic record, or, only if plaintext was unread on entry, that the next record has arrived whole and has no room, so the raw-buffer exit is unreachable for a legal stream read with nothing unread |
| `RecordStage.Stage.EmptyNeverFull` | crates/lando-fw/src/h2conn.rs:119-187 | with no plaintext waiting, what stays staged is less than one record |
| `RecordStage.EndToEnd` | crates/lando-fw/src/h2conn.rs:93-187 | plaintext consumed, plaintext unread and the plaintext of records staged or in flight add up to exactly what the peer sent, the receive nonce counts the records drained, and the staged bytes with those in flight are exactly the undrained records |
| `RecordStage.HonestPeerIsNotBroken` | crates/lando-fw/src/h2conn.rs:119-187 | a peer that seals legal records in order gives no cause for any error but the socket's |
| `RecordStage.PumpHonest` | crates/lando-fw/src/h2conn.rs:163-187 | no stall: on a wire of legal records, reading with nothing unread brings more plaintext, or fails because the socket does and for no other reason |
| `RecordStage.DrainedOfSent` | crates/lando-fw/src/h2conn.rs:119-187 | on a wire of legal records the plaintext drained is that of the first ones sent, and the size of the record that would be next is known |
| `HostTransport.ReadExact` | crates/lando-host/src/transport.rs:289-293 | exactly the bytes asked for, however they arrive |
| `HostTransport.ObjectionByType` | crates/lando-host/src/transport.rs:243-258 | type 3 is a refusal, any other but 4 is unexpected, and a record of type 4 is bad if and only if it does not open |
| `HostTransport.NoiseTransport.Open` | crates/lando-host/src/transport.rs:243-258 | appends a record's plaintext, or objects: to an error frame, to any other kind, or to an inauthentic record |
| `HostTransport.NoiseTransport.Pump` | crates/lando-host/src/transport.rs:233-259 | reads one record within the cap and appends its plaintext; on any error the buffered plaintext is untouched and the error names what was wrong with the bytes read |
| `HostTransport.NoiseTransport.Consume` | crates/lando-host/src/transport.rs:217-230 | consuming drops exactly a prefix of what is buffered, whichever way the buffer is then compacted |
| `HostTransport.NoiseTransport.Absorb` | crates/lando-host/src/transport.rs:262-287 | for any bytes: opens the whole records up to the first that is of another kind or does not open, and reports that one; if there is none, a whole header at the end is reported as truncated, and otherwise it succeeds |
| `HostTransport.AbsorbSucceeds` | crates/lando-host/src/transport.rs:262-287 | it succeeds if and only if all whole records open and at most two bytes trail, and reports a truncated record if and only if they all open and more than that trails |
| `HostTransport.AbsorbKeepsAll` | crates/lando-host/src/transport.rs:262-287 | bytes are accepted and yet dropped if and only if all whole records open and one or two bytes trail; those are then what is dropped |
| `HostTransport.FirstByteIsDropped` | crates/lando-host/src/transport.rs:262-287 | the failing case, run in any state: the first byte of a record alone is accepted, and no record has it |
| `HostTransport.HostMatchesFirmware` | crates/lando-host/src/transport.rs:217-259 | the firmware's fixed buffers refine the host's growing ones: on the same wire the plaintext of whichever is behind is a prefix of the other's, and after the same number of records both have consumed and buffered the same |
| `HostTransport.KindsThatDiffer` | crates/lando-host/src/transport.rs:243-258 | firmware and host agree whether to take a record if and only if it is of type 4 or does not open |
| `HostTransport.RelabelledRecordDiffers` | crates/lando-fw/src/h2conn.rs:137-151 | the failing case, for every plaintext and number: a legal record relabelled as type 5 opens at the firmware and is refused by the host |
| `H2Body.BodyFramesRead` | crates/lando-fw/src/h2conn.rs:250-257 | a request body is sent as DATA frames that each fit one record, add up to the body, belong to the stream, and carry END_STREAM on the last only |
| `H2Body.HostBody` | crates/lando-host/src/transport.rs:364-383 | the host's loop, which looks ahead for the last chunk, sends these frames for every body |
| `H2Body.FirmwareMatchesHost` | crates/lando-fw/src/h2conn.rs:250-257 | the firmware sends the same frames as the host if and only if the body is not empty; for an empty one it sends none and never ends the stream |
| `H2Body.FedData` | crates/lando-fw/src/h2conn.rs:289-292 | DATA chunks handed on as they come add up to the DATA bytes of the selected frames |
| `H2Body.FedCredit` | crates/tailscale-core/src/h2.rs:287-291 | the credit an item adds is exactly the growth of the DATA bytes read |
| `LeadingBlock.EarlyPayloadIsStable` | crates/tailscale-core/src/control.rs:45-68 | once made, the decision about the optional leading block does not depend on bytes that come later |
| `LeadingBlock.AbsentMeansOtherBytes` | crates/tailscale-core/src/control.rs:45-50 | there is no leading block if and only if one of the first five bytes differs from 0xff three times, T and S |
| `LeadingBlock.BlockIsFound` | crates/tailscale-core/src/control.rs:45-68 | those five bytes, a 32-bit big-endian length and as many bytes are found as one block, whatever follows |
| `LeadingBlock.PartOfBlockIsIncomplete` | crates/tailscale-core/src/control.rs:45-68 | while any byte of such a block is missing nothing is decided |
| `LeadingBlock.OtherStartIsDecided` | crates/lando-fw/src/h2conn.rs:189-201 | a first byte other than 0xff decides at once that there is none |
| `H2Conn.Conn.Send` | crates/lando-fw/src/h2conn.rs:93-106 | plaintext goes out as records of at most the legal size, in order; all of it, unless a write fails, which may leave a part of one record out, or the record numbers are spent |
| `H2Conn.Conn.SkipEarlyPayload` | crates/lando-fw/src/h2conn.rs:189-201 | HTTP/2 starts right after the leading block, or at the first byte when there is none; a failure has its cause: a broken record, or nothing is decided yet and either the socket fails or the next record has arrived and has no room; what counts as a block is told by `LeadingBlock.AbsentMeansOtherBytes`, `BlockIsFound` and `PartOfBlockIsIncomplete` |
| `LeadingBlock.DrainedDecide` | crates/lando-fw/src/h2conn.rs:128-201 | with the first records in the buffer: either they decide, or the decision can be ruled out once the next one has no room |
| `H2Conn.Start` | crates/lando-fw/src/h2conn.rs:56-91 | a connection starts with the preface and SETTINGS as one record; what was read with the handshake response is taken in first, and every failure has its cause |
| `H2Conn.GreetingIsRead` | crates/lando-fw/src/h2conn.rs:74-78 | the greeting is the 24 bytes that announce HTTP/2 and a settings frame with header table 0, no push, window and frame size 16384 |
| `H2Conn.StartHonest` | crates/lando-fw/src/h2conn.rs:56-201 | on a wire of legal records, and unless the socket fails or numbers run out: starting succeeds if and only if the plaintext up to the record that decides about the block, and 16 bytes more, is at most 4096; HTTP/2 then starts behind the block, and otherwise the error is TooLarge |
| `H2Conn.StartWithoutBlock` | crates/lando-fw/src/h2conn.rs:56-201 | on a wire of legal records whose first byte is not 0xff, starting succeeds unless the socket fails or numbers run out, and HTTP/2 starts at the first byte |
| `LeadingBlock.FirstRecordFits` | crates/lando-fw/src/h2conn.rs:189-201 | a block that is decided within the first record is always skipped |
| `LeadingBlock.LongBlockNeverFits` | crates/lando-fw/src/h2conn.rs:139-145 | a block of more than 4080 bytes is never skipped, however it is cut |
| `LeadingBlock.SplitBlockDoesNotFit` | crates/lando-fw/src/h2conn.rs:139-145 | the failing family: a block cut in two whose second record has no room behind the first is not skipped, whatever follows |
| `LeadingBlock.ShortBlocksCanFail` | crates/lando-fw/src/h2conn.rs:139-145 | two of them: 4090 bytes cut in the middle, and 3000 bytes after 2900 with more data in the second record |
| `H2Conn.Conn.HandleControl` | crates/lando-fw/src/h2conn.rs:320-345 | SETTINGS and PING without ACK are answered, GOAWAY and RST_STREAM and nothing else end the exchange, anything else is ignored |
| `H2Conn.ReactionsByNumber` | crates/lando-fw/src/h2conn.rs:320-345 | types 3 and 7 end the exchange and no others; types 4 and 6 without the lowest flag are answered and no others, by frames that the peer reads as the acknowledgement of its settings and the echo of its eight bytes |
| `H2Conn.Conn.ReturnCredit` | crates/lando-fw/src/h2conn.rs:306-313 | all credit owed is returned on stream 0: DATA bytes read equal credit returned plus credit pending, and what the records sent grant, as a peer reads them, grows by exactly the credit returned, by no more when sending fails |
| `H2Conn.CreditIsGranted` | crates/lando-fw/src/h2conn.rs:306-313 | the records that return credit grant exactly what is owed, below 2^31 |
| `H2Conn.AnswersGrantNothing` | crates/lando-fw/src/h2conn.rs:320-345 | answers to control frames grant nothing |
| `H2Conn.Conn.FeedUnread` | crates/lando-fw/src/h2conn.rs:263-301 | the reader takes all unread plaintext; a round notes the DATA of its stream, its end, and the first four control frames |
| `H2Conn.Conn.TakeRound` | crates/lando-fw/src/h2conn.rs:259-318 | one turn of the response loop: the control frames noted are answered in order; the credit of a turn is at most 4096, is returned, and the increments a peer reads from all records sent then add up to exactly the DATA bytes received |
| `H2Conn.Conn.SendBody` | crates/lando-fw/src/h2conn.rs:250-257 | each DATA frame of the body is one record; a failure leaves a first part of them sent |
| `H2Conn.Conn.SendHeaders` | crates/lando-fw/src/h2conn.rs:240-248 | the HEADERS frame goes out, or nothing and an error if and only if the header block exceeds 256 bytes |
| `H2Conn.RequestIsRead` | crates/lando-fw/src/h2conn.rs:232-257 | a peer reads a request as one HEADERS frame whose block decodes to the fields meant, then DATA frames on the same stream that add up to the body, flag 1 on the last alone |
| `H2Conn.Conn.PostStream` | crates/lando-fw/src/h2conn.rs:232-318 | at every exit, and a long poll has no other than an error: the pieces handed to the caller add up to exactly the DATA of that stream consumed meanwhile; the increments a peer reads from all records sent never exceed the DATA bytes received, and equal them when the response is complete; an error has its cause |
| `H2Conn.Conn.Post` | crates/lando-fw/src/h2conn.rs:208-225 | the response body fills the caller's buffer from the front as far as it fits, and the rest of the buffer is untouched |
| `H2Conn.FilledByteByByte` | crates/lando-fw/src/h2conn.rs:208-225 | byte for byte: the new bytes stand at the front of the buffer and the old ones behind them |
| `H2Conn.NotedKeepsSummary` | crates/lando-fw/src/h2conn.rs:268-300 | what a round has noted stays a summary of the bytes fed so far |
| `ControlStack.SentFramesAreRead` | crates/tailscale-core/src/h2.rs:178-402 | the reader undoes the writer: any written frames, their text cut into any pieces, are read as exactly those frames |
| `ControlStack.SentBytesAreCounted` | crates/tailscale-core/src/h2.rs:287-291 | of any frames sent, the credit to be returned is the number of payload bytes in frames of type 0, on whatever stream |
| `ControlStack.EndIsSeen` | crates/lando-fw/src/h2conn.rs:268-300 | of any frames sent, the response has ended if and only if one of any type but 3, 4, 6, 7 and 8 has the lowest flag set and is on its stream |
| `ControlStack.DataIsPrefixOfSent` | crates/lando-fw/src/h2conn.rs:263-301 | of any prefix of the HTTP/2 stream, the DATA of one stream is a first part of the DATA sent on it, and all of it at the end |
| `ControlStack.PayloadIsData` | crates/tailscale-core/src/h2.rs:273-293 | what is handed on adds up to the data sent, as section 6.1 of RFC 9113 defines it, if and only if no frame of the stream is padded; otherwise there are bytes too many |
| `ControlStack.PaddingIsHandedOn` | crates/tailscale-core/src/h2.rs:273-293 | the failing case: a frame with one byte of data and one of padding |
| `ControlStack.DocumentsArePrefixOfSent` | crates/tailscale-core/src/control.rs:423-467 | of any prefix of that DATA, the netmap documents read are the first ones sent, and all of them at the end |
| `ControlStack.NetmapSurvivesNesting` | crates/lando-fw/src/h2conn.rs:93-318 | the whole stack: documents in DATA frames, frames in records, records on the wire, each cut as the peer and the network like; whatever part has been received and consumed, the documents read are the first ones sent, unchanged and in order |
| `ControlStack.StreamNetmap` | crates/lando-fw/src/main.rs:551-598 | the long poll, run on a wire of legal records: however it ends, the documents read are the first ones sent, all of them once the wire is used up, and the peer's records are never why it ends |
| `Replay.SlotsDiffer` | crates/tailscale-core/src/wireguard/transport.rs:84-87 | within one window no two counters share a bit |
| `Replay.SetAndClear` | crates/tailscale-core/src/wireguard/transport.rs:89-105 | setting or clearing a bit of a word changes that bit and no other |
| `Replay.AcceptableByNumber` | crates/tailscale-core/src/wireguard/transport.rs:52-82 | acceptable means below 18446744073709543422, not seen, and at most 2047 behind every counter seen |
| `Replay.ReplayWindow.constructor` | crates/tailscale-core/src/wireguard/transport.rs:43-49 | a new window has seen nothing |
| `Replay.ReplayWindow.Get` | crates/tailscale-core/src/wireguard/transport.rs:89-92 | reads the bit of a counter |
| `Replay.ReplayWindow.Set` | crates/tailscale-core/src/wireguard/transport.rs:94-97 | sets the bit of a counter and no other of the 2048 |
| `Replay.ReplayWindow.ShiftLeft` | crates/tailscale-core/src/wireguard/transport.rs:100-105 | advancing clears exactly the bits the window vacates, also when it wraps around |
| `Replay.ReplayWindow.Advance` | crates/tailscale-core/src/wireguard/transport.rs:62-72 | moving to a new highest counter forgets exactly what falls out of the window, by shifting or by clearing it all |
| `Replay.ReplayWindow.Accept` | crates/tailscale-core/src/wireguard/transport.rs:52-82 | accepts if and only if the counter is below the limit, was never accepted and is less than 2048 behind the highest accepted; the window then stands for the set with it added, and a refusal changes nothing |
| `Transport.NonceInjective` | crates/tailscale-core/src/wireguard/transport.rs:118-123 | distinct counters give distinct little-endian nonces |
| `Transport.HeaderReads` | crates/tailscale-core/src/wireguard/transport.rs:169-172 | the receiver index and the counter are read back from a packet's header |
| `Transport.PacketIsRead` | crates/tailscale-core/src/wireguard/transport.rs:158-185 | a packet is type 4 and three zeros, the receiver and the counter low byte first, and the payload, zero-filled to the next multiple of sixteen, sealed under the nonce of four zeros and the counter, low byte first |
| `Transport.PacketIsAuthentic` | crates/tailscale-core/src/wireguard/transport.rs:158-216 | the packet one side makes is authentic at the other and opens to the payload padded with zeros to a multiple of sixteen |
| `Transport.Session.constructor` | crates/tailscale-core/src/wireguard/transport.rs:126-135 | a session starts at counter zero with nothing seen |
| `Transport.Session.Encrypt` | crates/tailscale-core/src/wireguard/transport.rs:158-185 | writes the packet of the next counter and advances it, or reports exhaustion or a short buffer and changes nothing |
| `Transport.Session.DecryptPacket` | crates/tailscale-core/src/wireguard/transport.rs:191-216 | returns the plaintext if and only if the packet is addressed here, authentic and its counter acceptable; anything else leaves the window as it was, and the error tells which |
| `Delivery.StepKeepsSound` | crates/tailscale-core/src/wireguard/transport.rs:158-216 | every send and every arrival keeps the delivery invariant |
| `Delivery.DeliveryIsSound` | crates/tailscale-core/src/wireguard/transport.rs:158-216 | at-most-once authentic delivery over every run (section 5.4.6 of the WireGuard whitepaper): with an ideal cipher and a network that drops, repeats, reorders, alters and injects, every delivery is the padded payload of one send, and no send is delivered twice |
| `Delivery.RelayingIsIdeal` | crates/tailscale-core/src/wireguard/transport.rs:191-216 | a network that only moves packets about needs no ideal cipher for that |
| `Delivery.FirstArrivalIsDelivered` | crates/tailscale-core/src/wireguard/transport.rs:191-216 | a sent packet that arrives for the first time and is less than a window behind is delivered |
| `Delivery.SecondCopyIsRejected` | crates/tailscale-core/src/wireguard/transport.rs:191-216 | a second copy of any packet changes nothing |
| `Delivery.Receive` | crates/tailscale-core/src/wireguard/transport.rs:191-216 | a packet off the network is decrypted in a buffer; the session's window grows by exactly the counter delivered |
| `Delivery.Run` | crates/tailscale-core/src/wireguard/transport.rs:158-216 | two sessions driven by any events put on the wire and deliver exactly what the specification says |
| `HandshakeSpec.ReadUndoesSend` | crates/tailscale-core/src/wireguard/handshake.rs:67-107 | with the same transcript and shared secret, opening undoes sealing and both sides have the same transcript again |
| `HandshakeSpec.InitiationFields` | crates/tailscale-core/src/wireguard/mod.rs:41-49 | every field of an initiation is found at its offset |
| `HandshakeSpec.ResponseFields` | crates/tailscale-core/src/wireguard/mod.rs:51-59 | every field of a response is found at its offset: sender, receiver, ephemeral, empty payload, both authenticators |
| `HandshakeSpec.InitiationIsAccepted` | crates/tailscale-core/src/wireguard/handshake.rs:142-308 | for all keys, indices and timestamps the responder accepts the initiator's message, recovers its static key, ephemeral, timestamp and index, and holds the same chaining key and hash |
| `HandshakeSpec.ResponseIsAccepted` | crates/tailscale-core/src/wireguard/handshake.rs:192-353 | the initiator accepts the answer to its own message, and each side's sending key is the other's receiving key with indices crossed |
| `HandshakeView.InitiationIsRead` | crates/tailscale-core/src/wireguard/handshake.rs:142-190 | an initiation field by field at literal offsets, its two sealed parts under keys and transcripts written out as flat chains over the Diffie-Hellman results |
| `HandshakeView.ResponseIsRead` | crates/tailscale-core/src/wireguard/handshake.rs:315-353 | a response field by field at literal offsets: the receiver is the initiator's index, and the empty payload is sealed under the flat chain of the Diffie-Hellman results |
| `HandshakeView.AnswerIsAddressed` | crates/tailscale-core/src/wireguard/handshake.rs:321-324 | the answer to any accepted initiation names as its receiver the sender read from that initiation |
| `HandshakeView.SessionKeysAreFlat` | crates/tailscale-core/src/wireguard/handshake.rs:207-353 | the session keys of both halves are the two outputs, crossed, of one chain over two ephemerals, the four Diffie-Hellman results and the empty pre-shared key, in that order |
| `HandshakeView.RefusalsByCause` | crates/tailscale-core/src/wireguard/handshake.rs:192-270 | Malformed means a wrong length or first byte and nothing else; BadMac that the sixteen bytes at 116 do not authenticate those before them under the responder's own key; a response is never BadMac |
| `Handshake.State.constructor` | crates/tailscale-core/src/wireguard/handshake.rs:36-41 | the transcript starts bound to the responder's identity |
| `Handshake.State.MixKeyAndCipher` | crates/tailscale-core/src/wireguard/handshake.rs:53-57 | advances the chaining key by the first output and yields the second as a cipher key |
| `Handshake.State.MixPreShared` | crates/tailscale-core/src/wireguard/handshake.rs:60-65 | of three derived keys, one replaces the chaining key, one is absorbed by the transcript, and the last is the cipher key |
| `Handshake.State.Seal` | crates/tailscale-core/src/wireguard/handshake.rs:67-84 | seals into the right slot of the message and mixes the ciphertext in, or refuses a slot of the wrong size |
| `Handshake.State.Open` | crates/tailscale-core/src/wireguard/handshake.rs:86-107 | opens and mixes the ciphertext in only when it is authentic; a failure leaves the transcript as it was |
| `Handshake.Start` | crates/tailscale-core/src/wireguard/handshake.rs:142-190 | the initiator fills the 148-byte message at its offsets with exactly the specified initiation and stands where the specification says |
| `Handshake.Initiator.ConsumeResponse` | crates/tailscale-core/src/wireguard/handshake.rs:192-222 | the outcome for any bytes at all is the specified one: Malformed, Decrypt or the session keys |
| `Handshake.ConsumeInitiation` | crates/tailscale-core/src/wireguard/handshake.rs:250-308 | the outcome for any bytes at all is the specified one: Malformed, BadMac before any key agreement, Decrypt, or what was learned |
| `Handshake.Responder.MakeResponse` | crates/tailscale-core/src/wireguard/handshake.rs:315-353 | the responder fills the 92-byte message and derives its keys exactly as specified, and the receiver read from the message is the initiator's index |
| `Handshake.Connect` | crates/tailscale-core/src/wireguard/handshake.rs:142-353 | both halves run against each other always agree on crossed keys and indices |
| `WireGuard.ConnectAndDeliver` | crates/tailscale-core/src/wireguard/transport.rs:125-216 | handshake and data path joined: after any handshake, any traffic in both directions over any network is delivered at most once and as it was sent |
| `WireGuard.Promises` | crates/tailscale-core/src/wireguard/transport.rs:191-216 | what each direction promises, for an ideal cipher and for a network that forges nothing |
| `Tai64n.OrderIsNumeric` | crates/tailscale-core/src/wireguard/mod.rs:91-125 | the order Rust gives byte arrays is the numeric order of big-endian numbers |
| `Tai64n.NewerIsLater` | crates/tailscale-core/src/wireguard/mod.rs:94-125 | a timestamp is newer if and only if it is later in seconds, or in nanoseconds within the same second |
| `Tai64n.TimestampIsRead` | crates/tailscale-core/src/wireguard/mod.rs:93-103 | a timestamp is read back as 2^62 + 10 and the seconds, and the nanoseconds, both high byte first |
| `Peer.Peer.AcceptHandshakeTimestamp` | crates/tailscale-core/src/wireguard/peer.rs:116-124 | accepts if and only if the timestamp is later than every one accepted before, so accepted timestamps strictly increase |
| `Peer.Peer.HandshakeSent` | crates/tailscale-core/src/wireguard/peer.rs:127-130 | records an attempt; the first one of a run is remembered |
| `Peer.Peer.InstallSession` | crates/tailscale-core/src/wireguard/peer.rs:133-144 | the current session becomes the previous one, a fresh one takes its place, and the run of attempts ends |
| `Peer.Peer.SendSession` | crates/tailscale-core/src/wireguard/peer.rs:150-157 | hands out a session if and only if the latest one is less than 180 s old and has messages left; it is always the latest installed |
| `Peer.Peer.SessionForIndex` | crates/tailscale-core/src/wireguard/peer.rs:163-173 | hands out the session of that index among the last two installed, less than 180 s old, the newer first, and touches no other |
| `Peer.Peer.Expire` | crates/tailscale-core/src/wireguard/peer.rs:176-183 | afterwards each slot is as it was if its session is younger than 180 s, and empty otherwise |
| `Peer.Peer.Poll` | crates/tailscale-core/src/wireguard/peer.rs:190-215 | while attempts run: initiate exactly when five seconds have passed since the last and fewer than ninety since the first; otherwise initiate exactly when no usable session is left or the initiator's is due, and keep alive exactly when one is owed |
| `Peer.PollByClock` | crates/tailscale-core/src/wireguard/peer.rs:57-79 | what a peer asks for by the clock alone: renewal at 180 s, for the initiator at 120 s or 2^60 messages; a keepalive ten seconds after something arrived that nothing was sent after; initiations at 5 s until 90 s |
| `Peer.ArrivalOwesKeepalive` | crates/tailscale-core/src/wireguard/peer.rs:163-215 | after an arrival on the current session later than anything sent, a keepalive is asked for from ten seconds on, if and only if the session is neither due for renewal nor expired |
| `Peer.SendingPaysKeepalive` | crates/tailscale-core/src/wireguard/peer.rs:150-215 | once something was sent, no keepalive is asked for until something arrives again |
| `Peer.UsableByClock` | crates/tailscale-core/src/wireguard/peer.rs:150-173 | to send, the last session installed and less than 180 s old; to receive, that one or the one before |
| `Peer.Peer.LivePreviousMeansLiveCurrent` | crates/tailscale-core/src/wireguard/peer.rs:133-183 | if sessions were installed in time order, a usable previous session means a usable current one |
| `Peer.PacedSpan` | crates/tailscale-core/src/wireguard/peer.rs:190-206 | paced attempts take at least five seconds each |
| `Peer.PacedIsBounded` | crates/tailscale-core/src/wireguard/peer.rs:190-206 | at most eighteen initiations between installs |
| `Peer.EighteenArePossible` | crates/tailscale-core/src/wireguard/peer.rs:190-206 | the bound is met |
| `Peer.ObedientIsPaced` | crates/tailscale-core/src/wireguard/peer.rs:127-206 | a caller that initiates only when told to keeps its attempts paced, whatever the clock does |
| `Peer.AbandonedStaysIdle` | crates/tailscale-core/src/wireguard/peer.rs:190-206 | once the ninety seconds are over the answer is Idle at every later time; only an install changes that |
| `Peer.Handle` | crates/tailscale-core/src/wireguard/peer.rs:97-215 | each event keeps the peer valid and its attempts paced, and its outcome extends the history by exactly what happened |
| `Peer.Run` | crates/tailscale-core/src/wireguard/peer.rs:97-215 | over every run under any clock: never more than eighteen initiations between installs, every session used is one of the last two installed and under 180 s old, sending uses the last only, accepted timestamps strictly increase |
| `JsonSyntax.Utf8Concat` | crates/tailscale-core/src/json.rs:350-366 | UTF-8 texts concatenate to UTF-8 (table 3-7 of the Unicode Standard) |
| `JsonSyntax.FirstByte` | crates/tailscale-core/src/json.rs:368-401 | the first byte of a value tells its kind |
| `JsonReader.Parser.SkipWs` | crates/tailscale-core/src/json.rs:343-347 | skips exactly the four kinds of whitespace |
| `JsonReader.Parser.ParseString` | crates/tailscale-core/src/json.rs:350-366 | for any bytes: the contents up to the first unescaped quote, or Truncated, or Malformed |
| `JsonReader.Parser.SkipNested` | crates/tailscale-core/src/json.rs:413-432 | for any bytes: stops where counting one bracket kind outside strings returns to zero, or reports why it cannot; the depth never goes below zero |
| `JsonReader.Parser.ParseValue` | crates/tailscale-core/src/json.rs:368-401 | for any bytes: the value that starts here and where it ends, or the error |
| `JsonReader.Parser.ParseEntry` | crates/tailscale-core/src/json.rs:242-247 | for any bytes: a key, a colon and a value with whitespace around them, or the error |
| `JsonReader.Field` | crates/tailscale-core/src/json.rs:233-258 | for any bytes: the first member whose key is written as asked, `None`, or the first error on the way |
| `JsonReader.Elements.Next` | crates/tailscale-core/src/json.rs:278-315 | for any bytes: yields what remains one at a time, and once it has ended stays ended |
| `JsonExact.StringIsRead` | crates/tailscale-core/src/json.rs:350-366 | any well-formed string is read whole, escaped quotes included |
| `JsonExact.TreeIsSkipped` | crates/tailscale-core/src/json.rs:413-432 | scanning over any well-formed value for either kind of bracket, at any depth, leaves the depth as it was |
| `JsonExact.MembersAreSkipped` | crates/tailscale-core/src/json.rs:413-432 | the same of an object's members |
| `JsonExact.ItemsAreSkipped` | crates/tailscale-core/src/json.rs:413-432 | the same of an array's items |
| `JsonExact.NestedIsRead` | crates/tailscale-core/src/json.rs:413-432 | counting one bracket kind stops precisely at the matching close, on every well-formed object or array in any layout, followed by anything |
| `JsonExact.ValueIsRead` | crates/tailscale-core/src/json.rs:368-432 | every well-formed value is read whole and nothing after it is touched |
| `JsonExact.FieldIsExact` | crates/tailscale-core/src/json.rs:233-258 | on every well-formed object in any layout, followed by anything, `field` returns the first member whose key is written as asked, and nothing from inside nested values |
| `JsonExact.ElementsAreExact` | crates/tailscale-core/src/json.rs:264-315 | on every well-formed array in any layout, `elements` yields its values in order, nested ones whole |
| `JsonCut.FieldOfPart` | crates/tailscale-core/src/json.rs:233-258 | for any bytes: an answer given for the first part of a text is the answer for the whole of it if and only if it is not a number that ends with the part and goes on after it; then more digits are found |
| `JsonCut.DigitsAreCutShort` | crates/tailscale-core/src/json.rs:395-400 | the exception is real: the member 1 of a text that breaks off, and 12 once it goes on |
| `JsonCut.CutIsTruncated` | crates/tailscale-core/src/json.rs:350-432 | a well-formed string, object or array that breaks off anywhere is reported as truncated |
| `JsonCut.OtherStartIsMalformed` | crates/tailscale-core/src/json.rs:368-401 | a byte that starts no value is refused, and so is a document that is no object |
| `JsonWriter.EscapeIsUndone` | crates/tailscale-core/src/json.rs:165-190 | a reader written from section 7 of RFC 8259 gets back every string that was escaped |
| `JsonWriter.EscapeInjective` | crates/tailscale-core/src/json.rs:165-190 | escaping never merges two strings |
| `JsonWriter.EscapeIsBody` | crates/tailscale-core/src/json.rs:165-190 | an escaped string holds no bare quote and no dangling backslash |
| `JsonWriter.EscapeIsUtf8` | crates/tailscale-core/src/json.rs:165-190 | escaping UTF-8 gives UTF-8 |
| `JsonWriter.ConcreteIsWellFormed` | crates/tailscale-core/src/json.rs:71-142 | whatever is written for a document is well-formed JSON |
| `JsonText.DocumentIsSpelledOut` | crates/tailscale-core/src/json.rs:51-190 | one document byte for byte, with every kind of value in it and every kind of escape |
| `JsonWriter.Writer.BeginObject` | crates/tailscale-core/src/json.rs:71-75 | a comma if one is due, then the brace; no comma is due after it |
| `JsonWriter.Writer.Key` | crates/tailscale-core/src/json.rs:94-99 | a comma if one is due, the escaped key, a colon; no comma is due before its value |
| `JsonWriter.Writer.WriteString` | crates/tailscale-core/src/json.rs:165-190 | writes the quoted, escaped string, all of it if and only if it fits |
| `JsonWriter.Writer.StrValue` | crates/tailscale-core/src/json.rs:101-106 | a comma if one is due, then the string |
| `JsonWriter.Writer.RawValue` | crates/tailscale-core/src/json.rs:109-114 | a comma if one is due, then the bytes as they are |
| `JsonWriter.Writer.U64Value` | crates/tailscale-core/src/json.rs:116-135 | a comma if one is due, then the decimal digits |
| `JsonWriter.Writer.BoolValue` | crates/tailscale-core/src/json.rs:137-142 | a comma if one is due, then the literal |
| `JsonWriter.Writer.FieldStr` | crates/tailscale-core/src/json.rs:144-147 | a whole member: a comma if one is due, the key and the string, in full if and only if it fits |
| `JsonWriter.Writer.FieldU64` | crates/tailscale-core/src/json.rs:149-152 | the same for a number |
| `JsonWriter.Writer.FieldBool` | crates/tailscale-core/src/json.rs:154-157 | the same for a truth value |
| `Json.Emit` | crates/tailscale-core/src/json.rs:51-142 | the writer calls for any document produce its canonical text, every comma in place, in full if and only if it fits, and otherwise an error after a first part of it |
| `Json.EmittedFieldIsFound` | crates/tailscale-core/src/json.rs:233-258 | every member of an emitted object is found under the escaped spelling of its key, nested values whole, and nothing else is |
| `Json.FieldMeetsIntent` | crates/tailscale-core/src/json.rs:233-258 | `field` finds members by their key, in every emitted object, if and only if the key needs no escaping, because it compares the escaped spelling with the bare key |
| `Json.EscapedKeyIsMissed` | crates/tailscale-core/src/json.rs:233-258 | for every key that needs escaping, an object that has it and in which it is not found |
| `Json.QuotedKeyIsMissed` | crates/tailscale-core/src/json.rs:233-258 | the failing case: a member whose name contains a quotation mark |
| `Json.EmittedElementsAreYielded` | crates/tailscale-core/src/json.rs:264-315 | the elements of an emitted array are yielded in order |
| `Json.PathIsRead` | crates/tailscale-core/src/json.rs:233-258 | descending by keys, `field` on what `field` returned, finds what stands at that path in any well-formed object, at any depth |
| `Requests.WriteRegisterRequest` | crates/tailscale-core/src/control.rs:206-234 | the calls made on the writer, optional parts and all, write exactly the registration document, in full if and only if it fits |
| `Requests.WriteMapRequest` | crates/tailscale-core/src/control.rs:333-382 | the calls made on the writer, optional parts and all, write exactly the netmap request document, in full if and only if it fits |
| `Requests.WriteHostinfo` | crates/tailscale-core/src/control.rs:125-176 | the calls made for the host information, with its optional parts, complete the member they were made for: commas in place, brackets balanced, values in order |
| `Requests.WriteNetInfo` | crates/tailscale-core/src/control.rs:139-166 | the same for the network information in it |
| `Requests.WriteLatency` | crates/tailscale-core/src/control.rs:150-163 | the same for the latency, under a key made from the region |
| `Requests.WriteStrings` | crates/tailscale-core/src/control.rs:168-174 | the loop over the addresses writes one array element each, with commas between them |
| `Requests.WriteEndpoints` | crates/tailscale-core/src/control.rs:361-377 | endpoints and their types: none, the first alone, or both |
| `Requests.WriteRegionKey` | crates/tailscale-core/src/control.rs:284-301 | renders the region in decimal from the right and puts `-v4` behind it |
| `Requests.DocumentReads` | crates/tailscale-core/src/json.rs:233-258 | every member of a document with distinct names is found under its name exactly when it was included, and no other name is found |
| `Requests.RegistrationReadsBack` | crates/tailscale-core/src/control.rs:206-234 | every field of a written registration is read back under its name, present exactly when it was set |
| `Requests.MapRequestReadsBack` | crates/tailscale-core/src/control.rs:333-382 | the same of a netmap request |
| `Requests.HostinfoReadsBack` | crates/tailscale-core/src/control.rs:125-176 | the same of the host information nested in both, and the network information in that |
| `RequestFields.RegistrationIsRead` | crates/tailscale-core/src/control.rs:206-234 | a registration by the names of its members: Version and NodeKey always, Auth with AuthKey in it, Followup and Ephemeral when they were set, and Hostinfo |
| `RequestFields.MapRequestIsRead` | crates/tailscale-core/src/control.rs:333-382 | a netmap request by the names of its members, the optional ones exactly when they were set |
| `RequestFields.HostinfoIsRead` | crates/tailscale-core/src/control.rs:125-176 | the host information by the names of its members, OSVersion, NetInfo and RoutableIPs exactly when there are any |
| `RequestFields.NetInfoIsRead` | crates/tailscale-core/src/control.rs:139-166 | the network information by the names of its members and their values |
| `RequestFields.LatencyIsRead` | crates/tailscale-core/src/control.rs:150-163 | the latency is read back, below ten seconds, under the region's number and -v4 |
| `RequestFields.StringsAreRead` | crates/tailscale-core/src/control.rs:168-174 | the addresses are read back as the elements of their array, in order |
| `RequestFields.NumbersAreRead` | crates/tailscale-core/src/control.rs:361-377 | so are the endpoint types |
| `Latency.WriteSeconds` | crates/tailscale-core/src/control.rs:304-313 | renders milliseconds with three places and one digit before the point |
| `Latency.TextReads` | crates/tailscale-core/src/control.rs:304-313 | the text reads back as the latency if and only if that is under ten seconds; the tens are lost |
| `Latency.LongLatencyIsMisreported` | crates/tailscale-core/src/control.rs:304-313 | the failing case: 12 500 ms read back as 2 500 |
| `Mdns.SkipName` | crates/tailscale-core/src/mdns.rs:119-134 | the name walk ends for any bytes, at the end of the name or with an error; what the end of a name is, is told by `MdnsQuestions.NameIsWalked` and `BadNameIsRefused` |
| `Mdns.RewriteQuestionClass` | crates/tailscale-core/src/mdns.rs:59-80 | in place and for any bytes: exactly the class bits of the questions visited change, also when the message then turns out to be malformed; for queries made up of questions `MdnsQuestions.QueryIsRewritten` tells which those are |
| `Mdns.RequestUnicastReplies` | crates/tailscale-core/src/mdns.rs:44-46 | sets the bit of every question visited |
| `Mdns.RestoreMulticastQuestions` | crates/tailscale-core/src/mdns.rs:55-57 | clears the bit of every question visited |
| `Mdns.ClassesAreOrdered` | crates/tailscale-core/src/mdns.rs:59-80 | the classes visited stand in order, each past its name and within the message |
| `Mdns.SameWalk` | crates/tailscale-core/src/mdns.rs:59-80 | the walk never reads a byte that it marks |
| `Mdns.MarkingKeepsWalk` | crates/tailscale-core/src/mdns.rs:59-80 | a rewrite changes neither which bytes a rewrite visits nor what it reports |
| `Mdns.RestoreUndoesRequest` | crates/tailscale-core/src/mdns.rs:44-57 | for any message, well formed or not: restoring gives back the identical bytes if and only if no visited question had the bit set, and both report the same (section 5.4 of RFC 6762) |
| `Mdns.OwnUnicastIsLost` | crates/tailscale-core/src/mdns.rs:44-57 | the failing case: a question that asked for unicast itself comes back asking for multicast |
| `Mdns.OnlyClassBitsChange` | crates/tailscale-core/src/mdns.rs:59-80 | nothing but the top bit of the visited classes changes, and all of them end up as asked |
| `MdnsQuestions.NameIsWalked` | crates/tailscale-core/src/mdns.rs:119-134 | a name of labels of 1 to 63 bytes, each behind its length, ends right behind its zero byte, wherever it stands |
| `MdnsQuestions.BadNameIsRefused` | crates/tailscale-core/src/mdns.rs:119-134 | where a label should start, the end of the message, a byte of 64 or more, or a label that ends beyond the message is an error |
| `MdnsQuestions.QuestionsAreVisited` | crates/tailscale-core/src/mdns.rs:59-80 | of questions one after the other, with anything behind them, exactly the class fields are visited |
| `MdnsQuestions.MarkingIsAsking` | crates/tailscale-core/src/mdns.rs:59-80 | marking those bytes is writing the same questions with the bit as asked |
| `MdnsQuestions.QueryIsRewritten` | crates/tailscale-core/src/mdns.rs:44-80 | a query of n questions becomes the query of the same questions with the bit as asked, nothing else changes, and n is reported |
| `Tsmp.ComputeChecksum` | crates/tailscale-core/src/tsmp.rs:93-107 | the loop sums all words without overflow and the folding ends; the result is the ones' complement sum |
| `Tsmp.FoldingKeepsSum` | crates/tailscale-core/src/tsmp.rs:103-106 | folding keeps the remainder modulo 65535, and only zero folds to zero |
| `Tsmp.ChecksumVerifies` | crates/tailscale-core/src/tsmp.rs:68-107 | a checksum put where a zero word was makes the whole sum to zero (section 1 of RFC 1071), wherever the word stands |
| `Tsmp.ChecksumCompletes` | crates/tailscale-core/src/tsmp.rs:93-107 | the checksum of whole words completes the number that their bytes spell to a multiple of 65535, and is 65535 only for zero |
| `Tsmp.PingIsParsed` | crates/tailscale-core/src/tsmp.rs:34-62 | a ping is recognised whatever IPv4 options it carries and whatever follows its data |
| `Tsmp.PingIsShaped` | crates/tailscale-core/src/tsmp.rs:34-62 | nothing else is taken for a ping: what is has 12 bytes with protocol 99, two addresses, options, the letter p and eight bytes of data |
| `Tsmp.PaddingKeepsPing` | crates/tailscale-core/src/tsmp.rs:34-62 | the zero padding of the tunnel does not hide a ping |
| `Tsmp.WritePong` | crates/tailscale-core/src/tsmp.rs:68-89 | writes the pong and nothing beyond it, or nothing when it does not fit |
| `Tsmp.PongDecodes` | crates/tailscale-core/src/tsmp.rs:68-89 | a decoder written from section 3.1 of RFC 791 reads every pong as a valid packet from the pinged address to the pinger that echoes the data |
| `Node.Bump` | crates/lando-fw/src/wg.rs:293-300 | the nonce becomes the next number in little-endian order, in place, carrying and wrapping |
| `Node.BumpedAddsOne` | crates/lando-fw/src/wg.rs:293-300 | an increment adds one, once around at the top |
| `Node.NoncesNeverRepeat` | crates/lando-fw/src/wg.rs:293-300 | the nonces of any two pongs fewer than 2^192 apart differ |
| `Node.IndexIsOdd` | crates/lando-fw/src/wg.rs:74-84 | session indices stay odd, so never zero, from any seed |
| `Node.IndicesRepeatRarely` | crates/lando-fw/src/wg.rs:132-133 | two handshakes get the same index if and only if their distance is a multiple of 2^31 |
| `Node.SeedIsRead` | crates/lando-fw/src/wg.rs:134-140 | the seed of a handshake's ephemeral holds its index and the length of the packet, low bytes first, and zeros, so handshakes of different indices have different seeds |
| `Node.Node.HandleInitiation` | crates/lando-fw/src/wg.rs:129-151 | an accepted initiation spends an index and, if the response fits, replaces the session and replies; the receiver read from the reply is the sender read from the initiation; a refused one changes nothing |
| `Node.HandleAgain` | crates/lando-fw/src/wg.rs:129-151 | an initiation that was accepted is accepted again: it is answered under the next index and a fresh session replaces the live one, its counters at zero |
| `Node.AnswersRecurRarely` | crates/lando-fw/src/wg.rs:129-151 | answers to the same initiation, and so the session keys, recur if and only if 2^31 handshakes, or a multiple, lie between |
| `Node.Node.HandleTransport` | crates/lando-fw/src/wg.rs:152-176 | an authentic, fresh packet is answered if it is a ping and handed over otherwise; any other leaves the session as it was, but for the return path |
| `Node.Answer` | crates/lando-fw/src/wg.rs:161-176 | the reply to a ping is the pong, encrypted as the next message; other plaintext is copied out |
| `Node.Greet` | crates/lando-fw/src/wg.rs:129-151 | a handshake with a node from the controller's side ends with crossed keys, both counters at zero |
| `Node.PingIsAnswered` | crates/lando-fw/src/wg.rs:91-179 | handshake, tunnel and protocol together: a controller that pings a node gets back, through the encrypted tunnel, a valid IPv4 pong that echoes its data |
| `Tunnel.Tunnel.ClaimOne` | crates/lando-fw/src/tunnel.rs:374-395 | claims the first listener with a connection that nobody serves, or none if there is none, and marks only that slot |
| `Tunnel.Tunnel.Relisten` | crates/lando-fw/src/tunnel.rs:429-441 | frees exactly its slot, whether or not the socket listens again |
| `Tunnel.ClaimKeepsExclusive` | crates/lando-fw/src/tunnel.rs:374-395 | a claim keeps every slot with at most one worker |
| `Tunnel.ReleaseKeepsExclusive` | crates/lando-fw/src/tunnel.rs:429-441 | so does a release |
| `Tunnel.TakeTurn` | crates/lando-fw/src/tunnel.rs:502-525 | a turn of one worker changes no other; an idle worker gets a slot if and only if one waits |
| `Tunnel.Run` | crates/lando-fw/src/tunnel.rs:451-525 | under any interleaving of the eight workers a slot is claimed exactly while one worker, and one only, serves it |
| `Tunnel.NoSharedConnection` | crates/lando-fw/src/tunnel.rs:243-245 | no two workers splice the same connection |
| `Tunnel.ClaimedAtMostWorkers` | crates/lando-fw/src/tunnel.rs:451-477 | no more slots are taken than there are workers, so the other listeners stay in service |
| `Relay.Splice.Forward` | crates/lando-fw/src/tunnel.rs:603-631 | what the peer sent is passed on, all of it unless the LAN stops taking it |
| `Relay.Splice.Drain` | crates/lando-fw/src/tunnel.rs:640-660 | what the peer's socket accepts leaves the front of what is held, and the rest stays |
| `Relay.Splice.Fill` | crates/lando-fw/src/tunnel.rs:662-688 | the LAN is read only when nothing is held |
| `Relay.Splice.Step` | crates/lando-fw/src/tunnel.rs:593-690 | one turn: what it moves each way, and exactly when and why it ends |
| `Relay.EndingsByCause` | crates/lando-fw/src/tunnel.rs:593-690 | each ending of a turn with all that must hold for it, by the clock in milliseconds and by what was read, written and held |
| `Relay.Run` | crates/lando-fw/src/tunnel.rs:569-691 | whatever arrives when and however little is accepted at a time, what was taken from the LAN is what the peer's socket accepted followed by what is held, so the peer has them all if and only if nothing is held; that is so at every ending by the LAN (closed, failed, silent), and at "client finished" the LAN has all the client sent |
| `Relay.TailIsLost` | crates/lando-fw/src/tunnel.rs:593-690 | and at no other ending: for each other reason, a run that ends for it with a byte from the LAN undelivered |
| `Relay.AnswerIsDelivered` | crates/lando-fw/src/tunnel.rs:593-690 | runs that end because the LAN closes or fails: the whole answer, however long and in whatever pieces it is read and accepted, has reached the peer |
| `Relay.SilenceEnds` | crates/lando-fw/src/tunnel.rs:632-640 | with nobody saying anything the relay ends after six seconds if the LAN was never heard, and after a quarter of an hour otherwise, and not before |
| `Upgrade.DecodeUndoesEncode` | crates/tailscale-core/src/upgrade.rs:36-62 | a decoder written from section 4 of RFC 4648 inverts the encoder |
| `Upgrade.FooIsEncoded` | crates/tailscale-core/src/upgrade.rs:36-62 | two of the examples in section 10 of RFC 4648 |
| `Upgrade.Base64Encode` | crates/tailscale-core/src/upgrade.rs:36-62 | the loop writes the encoding and nothing beyond it, or nothing when it does not fit |
| `Upgrade.FindHeadersEnd` | crates/tailscale-core/src/upgrade.rs:113-115 | the end of the first blank line, or none if there is none |
| `Upgrade.ParseResponse` | crates/tailscale-core/src/upgrade.rs:94-111 | Incomplete if and only if there is no blank line; otherwise the status decides |
| `Upgrade.ParseStatusLine` | crates/tailscale-core/src/upgrade.rs:94-111 | a response as a server writes it, with any version, reason, headers and bytes behind them, is taken if and only if its code is 101, and then its headers end where they do |
| `Upgrade.ParseNoStatus` | crates/tailscale-core/src/upgrade.rs:94-111 | a first line without a space, or with fewer than three bytes after it, is no status |
| `Upgrade.MoreChangesNothing` | crates/tailscale-core/src/upgrade.rs:94-111 | once the headers are complete, bytes read after them change neither where they end nor the status line, and are left in place |
| `Upgrade.HeadersEndOnce` | crates/tailscale-core/src/upgrade.rs:113-115 | headers end in one place only |

## Left out

- Cipher, hash, Curve25519 and key derivation internals, and everything about disco: foreign code, kept as uninterpreted functions with the laws above.
- Sockets, TLS, DNS, flash, USB, radio, watchdog, boot: input and output.
- Scheduling and timing of tasks; a lock section is one step and a cancelled read consumes nothing.
- smoltcp and embassy: a socket is what it offers and accepts.
- The handshake in front of the Noise records: the server's half is not in the repository. Sessions start with crossed keys.
- Logging and tracing, hex keys, state files, SOCKS: thin or easy.
- `H2Conn.Conn.HandleControl`: says nothing about frames beyond the first four of a round, because the code keeps no more; so not every PING is answered.
- `H2Conn.Conn.ReturnCredit`: credit goes back on stream 0 only, as in the code; progress of one stream's window is not claimed.
- `H2Conn.Conn.PostStream`: the pieces handed to the callback are returned as a list, in the order of its calls; errors are told apart more finely than by the code.
- `H2Conn.Conn.SkipEarlyPayload`: errors of the socket are one error `Io`, and the end of an announced block is an unbounded number, where the device adds in 32 bits.
- `H2Frames.FrameReader.Feed`: the credit counter is 32 bits wide and the caller has to take it before it overflows, which is its precondition.
- `DerpPump.Pump.HandleFrame`: what WireGuard makes of a packet passed to it is modelled by `Node` alone, and writes to the relay do not fail.
- `DerpPump.Pump.Run`: the connection's own handshake and upgrade come before it; a read into the staging buffer is no longer than its free space.
- `next_frame` of the relay client, the same loop with a 512-byte buffer used only before relaying starts and never cancelled.
- `Transport.Session.Encrypt`: cookie replies and `mac2`, which stay zero in the code, are not modelled further.
- `Node.Node.HandleInitiation`: the dispatch on disco packets and on the first byte, which chooses between it and `HandleTransport`, is left to the caller; the 1600-byte copy is represented by its length limit.
- `Peer.Peer.Poll`: times are natural numbers of milliseconds below 2^64; differences saturate as in the code.
- `Tai64n.NewerIsLater`: the addition of the epoch must not overflow 64 bits, which is its precondition.
- `Tsmp.ComputeChecksum`: inputs up to 131 074 bytes, which a 32-bit sum is sure to hold; the code only passes 20.
- `JsonWriter.EscapeIsUndone`: a reference reader for escapes of ASCII characters only, which are all the writer makes.
- `Requests.WriteRegisterRequest`: node and disco keys are given as their text.
- `Relay.Run`: the clock is read once per turn. The final flush and the closing of the LAN socket are not modelled.
- `Tunnel.Tunnel.Relisten`: whether a socket listens again is up to the stack.
- `Tunnel.Run`: the packet queues of the tunnel device and the mDNS relay's pairing of answers are not modelled.
- `HostTransport.NoiseTransport.Pump`: after an error of the stream the position in it is unknown, as with any `read_exact`.
- Reading netmap contents (`peers`, `derp_region`, `parse_register_response`): plain uses of `field` and `elements`, which are exact.
- `build_request` of the upgrade: a fixed text around the base64.
