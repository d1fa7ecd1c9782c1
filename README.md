# Stop-and-wait transport and distance-vector tables, modelled in Dafny

This project models two course assignments (CSCI 4760) of one repository.

**Reliable transport** (`CSCI4760/Assn2/src/transport`):

- `ReliableTransportMessage` turns a message into a fixed 78-character text frame and back. The frame holds:
  - the source and destination IP addresses and ports, left-padded with blanks;
  - a one-character operation code;
  - a two-character sequence number;
  - a 30-character payload, right-padded with blanks;
  - a five-character additive checksum over the first 73 characters.
- `ReliableSender` is a stop-and-wait sender. It sends DATA frames until one is acknowledged and closes with a bounded END exchange.
- `ReliableReceiver` keeps the last in-order sequence number. It acknowledges every decoded frame and prints each in-order payload.

**Distance-vector routing** (`CSCI4760/Assn3/src`):

- `OrderedPair` is the (destination, neighbour) key type.
- `DistanceTable` maps those pairs to costs and answers minimum-distance and next-hop queries.
- `Host` keeps one router's neighbours, its known hosts, its distance table and the minimum-distance tables its neighbours advertised. Its `recalculate` is the Bellman-Ford relaxation step.

Files and modules:

| file | module | models |
|---|---|---|
| `text.dfy` | `Text` | the `String` and `Integer` operations the codec uses: padding, `Integer.toString`, `Integer.parseInt`, `String.trim`, the character-code sum |
| `inet.dfy` | `Inet` | IPv4 addresses: `getHostAddress` as a dotted quad, `getByName` as dotted-quad parsing |
| `channel.dfy` | `Channel` | the UDP socket as the endpoints see it: receive responses, the receive buffer, the port constants |
| `message.dfy` | `TransportMessage` | the frame codec as functions (`EncodeFrame`, `DecodeFrame`) and the Java class with its loops |
| `sender.dfy` | `Sender` | `ReliableSender` as a class over a list of responses and a log of sent frames |
| `receiver.dfy` | `Receiver` | `ReliableReceiver` as a class, with `Step`/`Session` as the specification of `receive`/`main` |
| `ordered_pair.dfy` | `OrderedPairs` | `OrderedPair`, including `hashCode` with 32-bit wrap-around |
| `distance.dfy` | `Distances` | costs as `Fin(n)` or `Inf`, boxed `Double` values, `MinimumDistanceTable` |
| `distance_table.dfy` | `DistanceTables` | `DistanceTable` and the predicates `IsMinDistance` and `IsNextHop` |
| `host.dfy` | `Hosts` | `Host`, with `RelaxAll` as the specification of `recalculate` |

Things the proofs bring out about the code as written. They are modelled as written, not corrected:

- **The sender can never accept an acknowledgement.** The sender receives acknowledgements into a 30-byte buffer, but a frame is 78 bytes, so decoding always fails.
  - `Sender.ShortBufferRejectsAll` proves that every response is rejected.
  - `Sender.SourceCloseSends22` proves that `close` therefore always sends END 22 times.
  - `Sender.FullBufferAcceptsAck` proves that a 78-byte buffer would accept every acknowledgement built by the message constructor, whatever its sequence number.
- **The checksum does not protect the port padding.** `reconstitute` compares the trailer with the checksum of the message it re-encodes, not with the characters received.
  - `TransportMessage.PortPaddingCorruptionUndetected` proves that turning a padding blank of the source port into `'0'` goes unnoticed.
  - `TransportMessage.PayloadCorruptionDetected` proves that changing any payload character is caught.
- **The receiver never sends a NAK.** `reconstitute` already rejects every checksum mismatch, so `validateChecksum` accepts every message that reaches it (`Receiver.NeverNak`).
- **`putNeighborTable` compares boxed `Double` objects by identity.** A neighbour table built by `getMinDistaneTable` holds fresh boxes, so it registers as a change whenever some known host appears in it or in the previous table (`Hosts.FreshBoxesAlwaysChange`).

## Model

| member | source | states |
|---|---|---|
| Text.ParseIntToString | CSCI4760/Assn2/src/transport/ReliableTransportMessage.java:196-199 | `Integer.parseInt` gives back every value `Integer.toString` printed, negative ones included |
| Text.IntToStringWidth | CSCI4760/Assn2/src/transport/ReliableTransportMessage.java:246-252 | `Integer.toString(v)` fits in `w` characters exactly when -10^(w-1) < v < 10^w |
| Text.TrimPadded | CSCI4760/Assn2/src/transport/ReliableTransportMessage.java:169-176 | trimming a left-padded field whose ends are visible characters gives the field back |
| Text.SumUpdate | CSCI4760/Assn2/src/transport/ReliableTransportMessage.java:313-316 | replacing one character changes the additive checksum by the difference of the two codes |
| Inet.ParseHostAddress | CSCI4760/Assn2/src/transport/ReliableTransportMessage.java:177-178 | `getByName` of the dotted quad that `getHostAddress` printed is the same address |
| Channel.ReceiveBuffer | CSCI4760/Assn2/src/transport/ReliableSender.java:196-203 | the receive array always has its allocated length, whatever the datagram's length |
| Channel.ReceiveFits | CSCI4760/Assn2/src/transport/ReliableReceiver.java:108-112 | a datagram that fits sits at the front of the array, followed by zero bytes only |
| TransportMessage.PadInt | CSCI4760/Assn2/src/transport/ReliableTransportMessage.java:244-260 | no result (IllegalArgumentException) exactly when `Integer.toString(value)` is longer than `width`; otherwise exactly `width` characters |
| TransportMessage.ReliableTransportMessage.LeftPaddedInt | CSCI4760/Assn2/src/transport/ReliableTransportMessage.java:244-260 | the padding loop yields blanks followed by `Integer.toString(value)`, or the exception when it is too wide |
| TransportMessage.PadPayload | CSCI4760/Assn2/src/transport/ReliableTransportMessage.java:266-278 | a payload of at most 30 characters becomes exactly 30; a longer one becomes 29, cut and not padded |
| TransportMessage.ReliableTransportMessage.RightPaddedString | CSCI4760/Assn2/src/transport/ReliableTransportMessage.java:266-278 | the cut-or-append loop computes `PadPayload` |
| TransportMessage.PadIP | CSCI4760/Assn2/src/transport/ReliableTransportMessage.java:286-294 | the padded address is `width` long when the dotted quad is shorter, otherwise the quad itself, never cut |
| TransportMessage.ReliableTransportMessage.LeftPaddedIP | CSCI4760/Assn2/src/transport/ReliableTransportMessage.java:286-294 | the loop computes `PadIP` |
| TransportMessage.ReliableTransportMessage.PadLeft | CSCI4760/Assn2/src/transport/ReliableTransportMessage.java:289-292 | blanks are prepended one at a time until the text is `width` long |
| TransportMessage.HeaderText | CSCI4760/Assn2/src/transport/ReliableTransportMessage.java:305-310 | the header fields take exactly 43 characters once every integer field fits |
| TransportMessage.EncodeFrame | CSCI4760/Assn2/src/transport/ReliableTransportMessage.java:303-320 | fails when a port or the sequence number is too wide; otherwise succeeds exactly when the checksum fits five characters; the frame is 48 characters plus the padded payload |
| TransportMessage.EncodeLayout | CSCI4760/Assn2/src/transport/ReliableTransportMessage.java:303-320 | the frame is 78 characters laid out 15/5/15/5/1/2/30/5; the trailer is the padded sum of characters 0-72 |
| TransportMessage.EncodedBody | CSCI4760/Assn2/src/transport/ReliableTransportMessage.java:304-317 | a frame is the header fields, then the padded payload, then the padded sum of those two |
| TransportMessage.PayloadPaddedTwice | CSCI4760/Assn2/src/transport/ReliableTransportMessage.java:128 | the constructor pads and `encode` pads again, so the payload field is always 30 characters. A short payload is unchanged by the second pad; a long one becomes its first 29 characters and one blank |
| TransportMessage.EncodeRepad | CSCI4760/Assn2/src/transport/ReliableTransportMessage.java:311 | padding a stored payload of at most 30 characters again does not change the frame |
| TransportMessage.AsciiFrameEncodes | CSCI4760/Assn2/src/transport/ReliableTransportMessage.java:313-317 | with 7-bit text and fitting fields, the checksum always fits five characters, so `encode` never throws |
| TransportMessage.ReliableTransportMessage.constructor | CSCI4760/Assn2/src/transport/ReliableTransportMessage.java:112-131 | stores the header fields and the payload padded once; the buffer is the 78-character encoding of those fields; the stored checksum is 0 |
| TransportMessage.ReliableTransportMessage.Encode | CSCI4760/Assn2/src/transport/ReliableTransportMessage.java:303-320 | the buffer becomes the encoding of the current fields and nothing else changes |
| TransportMessage.ReliableTransportMessage.EncodeFields | CSCI4760/Assn2/src/transport/ReliableTransportMessage.java:304-317 | the concatenation and the summing loop produce exactly `EncodeFrame` |
| TransportMessage.ReliableTransportMessage.GetComputedChecksum | CSCI4760/Assn2/src/transport/ReliableTransportMessage.java:359-368 | the running sum is the sum of the codes of the first 73 buffer characters |
| TransportMessage.ReliableTransportMessage.SetPayload | CSCI4760/Assn2/src/transport/ReliableTransportMessage.java:432-434 | only the payload changes; the buffer, the stored checksum and the header keep their values |
| TransportMessage.DecodeHeader | CSCI4760/Assn2/src/transport/ReliableTransportMessage.java:169-199 | a decoded header always has a visible operation code (`charAt(0)` of a trimmed field) |
| TransportMessage.OpCodeBlank | CSCI4760/Assn2/src/transport/ReliableTransportMessage.java:173 | a blank or control character at offset 40 makes the header fail to decode |
| TransportMessage.Assemble | CSCI4760/Assn2/src/transport/ReliableTransportMessage.java:201-215 | succeeds exactly when the header and trailer parse and the rebuilt message encodes; the trailer must equal the checksum of the re-encoded buffer |
| TransportMessage.DecodeFrame | CSCI4760/Assn2/src/transport/ReliableTransportMessage.java:150-233 | null for input shorter than 78 characters. On success, the header is the decoded header and the payload is characters 43-72 |
| TransportMessage.DecodedMessage | CSCI4760/Assn2/src/transport/ReliableTransportMessage.java:201-215 | a decoded message re-encodes to a 78-character frame whose computed checksum equals the stored trailer |
| TransportMessage.DecodeIgnoresTail | CSCI4760/Assn2/src/transport/ReliableTransportMessage.java:169-176 | characters after the 78th never affect decoding |
| TransportMessage.DecodeHeaderOfEncoded | CSCI4760/Assn2/src/transport/ReliableTransportMessage.java:169-199 | every header field that `encode` lays out decodes back to its value |
| TransportMessage.RoundTrip | CSCI4760/Assn2/src/transport/ReliableTransportMessage.java:169-206 | decoding a constructed message's buffer gives the same header, the same buffer, a stored checksum equal to the computed one, and the stored payload padded again: equal to the stored payload unless the constructor cut it to 29 characters, when one blank follows them |
| TransportMessage.PortPaddingCorruptionUndetected | CSCI4760/Assn2/src/transport/ReliableTransportMessage.java:196-208 | a padding blank of a source port below 10000 turned into '0' decodes to exactly the original message |
| TransportMessage.PayloadCorruptionDetected | CSCI4760/Assn2/src/transport/ReliableTransportMessage.java:201-215 | any change of one payload character makes `reconstitute` return null |
| TransportMessage.ReliableTransportMessage.ParseHeaderFields | CSCI4760/Assn2/src/transport/ReliableTransportMessage.java:169-199 | splitting, trimming and parsing the fields gives `DecodeHeader`; every exception becomes no header |
| TransportMessage.ReliableTransportMessage.Rebuild | CSCI4760/Assn2/src/transport/ReliableTransportMessage.java:201-215 | null exactly when `Assemble` fails; otherwise a full-length message with the assembled value |
| TransportMessage.ReliableTransportMessage.Reconstitute | CSCI4760/Assn2/src/transport/ReliableTransportMessage.java:150-233 | null exactly when `DecodeFrame` fails, never a partial message; otherwise a new message whose value is the decoded one |
| TransportMessage.ReliableTransportMessage.Build | CSCI4760/Assn2/src/transport/ReliableTransportMessage.java:112-131 | the buffer of a newly constructed message, or none where the constructor throws |
| Sender.EndFrame | CSCI4760/Assn2/src/transport/ReliableSender.java:308-313 | the END frame is the constructor's encoding of the END header with an empty payload |
| Sender.EndEncodes | CSCI4760/Assn2/src/transport/ReliableSender.java:308-313 | the END message for a sequence number in [0, 99] always encodes |
| Sender.VerdictsJudged | CSCI4760/Assn2/src/transport/ReliableSender.java:195-273 | each response has exactly one verdict list: whether `waitForAck` accepts it |
| Sender.ShortBufferRejects | CSCI4760/Assn2/src/transport/ReliableSender.java:196-197 | with a buffer shorter than a frame, `waitForAck` rejects every response |
| Sender.ShortBufferRejectsAll | CSCI4760/Assn2/src/transport/ReliableSender.java:196-224 | with the source's 30-byte buffer every verdict is false and no response counts as accepted |
| Sender.AcceptedIffDecodedAck | CSCI4760/Assn2/src/transport/ReliableSender.java:223-261 | a response is accepted exactly when it decodes with opcode ACK. The checksum test never rejects, and the sequence number is ignored |
| Sender.FullBufferAcceptsAck | CSCI4760/Assn2/src/transport/ReliableSender.java:223-261 | with a 78-byte buffer, every ACK built by the constructor is accepted, whatever its sequence number |
| Sender.FirstTrueIsFirstAccepted | CSCI4760/Assn2/src/transport/ReliableSender.java:180-185 | `singleSend` stops at the first accepted response; every earlier one was rejected |
| Sender.CloseBounded | CSCI4760/Assn2/src/transport/ReliableSender.java:320-327 | close sends at least one END frame and at most 22 - closeFailCount, and closeFailCount never passes 21 |
| Sender.CloseAllRejected | CSCI4760/Assn2/src/transport/ReliableSender.java:320-327 | with no accepted response, close sends END until closeFailCount reaches 21 |
| Sender.CloseStopsAtAccepted | CSCI4760/Assn2/src/transport/ReliableSender.java:320-327 | an accepted response within the attempts ends close after exactly that send, with one failure counted per earlier attempt |
| Sender.SourceCloseSends22 | CSCI4760/Assn2/src/transport/ReliableSender.java:295-328 | the sender as written sends END exactly 22 times and finishes with closeFailCount 21 |
| Sender.SequenceWrap | CSCI4760/Assn2/src/transport/ReliableSender.java:107-111 | increment-and-reset past 99 is addition modulo 100 |
| Sender.ReliableSender.constructor | CSCI4760/Assn2/src/transport/ReliableSender.java:39-75 | counters at 0, nothing sent, the 30-byte acknowledgement buffer |
| Sender.ReliableSender.WaitForAck | CSCI4760/Assn2/src/transport/ReliableSender.java:195-273 | consumes one response; false on a timeout or an unacceptable response, otherwise true |
| Sender.ReliableSender.ValidateSum | CSCI4760/Assn2/src/transport/ReliableSender.java:282-287 | true exactly when the stored checksum equals the sum over the first 73 characters |
| Sender.ReliableSender.Send | CSCI4760/Assn2/src/transport/ReliableSender.java:175-177 | the frame is appended to the log of sent frames |
| Sender.ReliableSender.SingleSend | CSCI4760/Assn2/src/transport/ReliableSender.java:136-187 | the identical DATA frame is sent once per response taken, up to and including the first accepted one; fails before sending when the message cannot be encoded |
| Sender.ReliableSender.SendUntilAcked | CSCI4760/Assn2/src/transport/ReliableSender.java:175-185 | acked exactly when some remaining response is acceptable; the log grows by one copy of the frame per response consumed |
| Sender.ReliableSender.Close | CSCI4760/Assn2/src/transport/ReliableSender.java:295-328 | sends the END frame carrying runningSequenceNo the number of times `CloseRun` gives, and leaves closeFailCount at its count |
| Sender.ReliableSender.CloseWith | CSCI4760/Assn2/src/transport/ReliableSender.java:314-327 | the recursive send-wait-retry of close, bounded by closeFailCount > 20 |
| Sender.ReliableSender.SendChunk | CSCI4760/Assn2/src/transport/ReliableSender.java:106-111 | sends, takes and reports exactly what `SingleSendRun` gives for the chunk's DATA frame with the running sequence number; after an acknowledged send the number advances with wrap at 99; with a short buffer nothing is acknowledged |
| Sender.SingleSendRun | CSCI4760/Assn2/src/transport/ReliableSender.java:136-187 | one `singleSend` given the verdicts to come: it takes at most the responses there are, one frame per response taken, and an acknowledged send ends on an accepted response |
| Sender.DataFrames | CSCI4760/Assn2/src/transport/ReliableSender.java:95-111 | one DATA frame per chunk, each built with the sequence number the loop has reached |
| Sender.DataFrameAt | CSCI4760/Assn2/src/transport/ReliableSender.java:106-111 | chunk i's frame carries the running sequence number after i acknowledged sends |
| Sender.MainRun | CSCI4760/Assn2/src/transport/ReliableSender.java:95-111 | the main loop given the verdicts to come: at most one acknowledged chunk per frame; the verdicts left for close are a suffix, and one frame is sent per verdict used |
| Sender.AdvanceMod | CSCI4760/Assn2/src/transport/ReliableSender.java:107-111 | n increments with reset past 99 take the number from s to (s + n) mod 100 |
| Sender.AdvanceShift | CSCI4760/Assn2/src/transport/ReliableSender.java:107-111 | advancing n times from the next number is advancing n + 1 times |
| Sender.AllAcceptedRun | CSCI4760/Assn2/src/transport/ReliableSender.java:95-111 | when every response is accepted, each encodable frame is sent exactly once, in order, and every chunk is acknowledged |
| Sender.PerfectChannelSendsInOrder | CSCI4760/Assn2/src/transport/ReliableSender.java:95-111 | over a channel that accepts every acknowledgement, chunk k is sent exactly once, in position k, with sequence number (start + k) mod 100 |
| Sender.NoneAcceptedRun | CSCI4760/Assn2/src/transport/ReliableSender.java:95-111 | when every response is rejected, no chunk is acknowledged |
| Sender.RunSoFarStep | CSCI4760/Assn2/src/transport/ReliableSender.java:95-111 | one turn of the loop: the chunk's send either ends the run or moves the chunk to the part already done |
| Sender.ReliableSender.SendChunks | CSCI4760/Assn2/src/transport/ReliableSender.java:95-111 | the sending loop logs exactly `MainRun`'s DATA frames from the starting number, leaves exactly its remaining verdicts, and acknowledges its count of chunks |
| Sender.ReliableSender.Run | CSCI4760/Assn2/src/transport/ReliableSender.java:95-116 | the log grows by `MainRun`'s DATA frames, chunk k carrying (start + k) mod 100, and, only once every chunk is acknowledged, by close's END frames judged on the remaining responses; the final number is `Advance` of the start, which is (start + completed) mod 100 by `AdvanceMod` |
| Receiver.AdvancesIffInOrder | CSCI4760/Assn2/src/transport/ReliableReceiver.java:145-155 | lastSeqNo changes exactly for a checksum-valid message with the expected number, and then to (lastSeqNo + 1) % 100 |
| Receiver.ExpectedWraps | CSCI4760/Assn2/src/transport/ReliableReceiver.java:145 | the expected number stays in [0, 99] and wraps from 99 to 0 |
| Receiver.OneReply | CSCI4760/Assn2/src/transport/ReliableReceiver.java:158 | a decoded message gets exactly one reply: ACK when the checksum is valid, NAK otherwise, carrying the updated lastSeqNo |
| Receiver.DeliversIffInOrder | CSCI4760/Assn2/src/transport/ReliableReceiver.java:152-170 | only an in-order message is printed; every other message adds exactly one error entry and prints nothing |
| Receiver.NullNoReply | CSCI4760/Assn2/src/transport/ReliableReceiver.java:134-179 | a null message sends no reply, prints nothing, keeps lastSeqNo, logs the NPE and returns 'N' |
| Receiver.NeverNak | CSCI4760/Assn2/src/transport/ReliableReceiver.java:231-233 | every message `reconstitute` accepts passes `validateChecksum`, so the reply is always ACK |
| Receiver.DuplicateDeliveredOnce | CSCI4760/Assn2/src/transport/ReliableReceiver.java:145-170 | the same in-order message twice prints its payload once and is acknowledged twice with the same number |
| Receiver.StepOpcode | CSCI4760/Assn2/src/transport/ReliableReceiver.java:172-179 | receive returns END exactly for a decoded message whose opcode is END |
| Receiver.StepCount | CSCI4760/Assn2/src/transport/ReliableReceiver.java:152-164 | one receive prints at most one payload and advances the counter once per payload printed |
| Receiver.StepsCount | CSCI4760/Assn2/src/transport/ReliableReceiver.java:145-170 | over any run the printed payloads only grow, and the counter advances once per payload printed |
| Receiver.AdvanceFromStart | CSCI4760/Assn2/src/transport/ReliableReceiver.java:45 | counting from -1, the counter after k deliveries is (k - 1) mod 100 |
| Receiver.SessionStops | CSCI4760/Assn2/src/transport/ReliableReceiver.java:87-98 | main stops right after the first END or receives everything; the final state is receive applied to exactly those datagrams |
| Receiver.AckFrameEncodes | CSCI4760/Assn2/src/transport/ReliableReceiver.java:209-213 | the acknowledgement frame is the constructor's encoding of the ACK/NAK header with lastSeqNo and an empty payload |
| Receiver.AckFrameDecodes | CSCI4760/Assn2/src/transport/ReliableReceiver.java:189-223 | every acknowledgement frame decodes to its opcode and sequence number with a valid checksum |
| Receiver.ReliableReceiver.constructor | CSCI4760/Assn2/src/transport/ReliableReceiver.java:45 | lastSeqNo starts at -1, with nothing sent, printed or logged |
| Receiver.ReliableReceiver.Receive | CSCI4760/Assn2/src/transport/ReliableReceiver.java:107-180 | the new state and the returned opcode are `Step` applied to the decoded datagram; lastSeqNo stays in [-1, 99] |
| Receiver.ReliableReceiver.Process | CSCI4760/Assn2/src/transport/ReliableReceiver.java:134-179 | the try block: a null message is caught and logged, and any other message is handled |
| Receiver.ReliableReceiver.Respond | CSCI4760/Assn2/src/transport/ReliableReceiver.java:140-172 | the state becomes `Handle` of the message and the message's opcode is returned |
| Receiver.ReliableReceiver.SendAck | CSCI4760/Assn2/src/transport/ReliableReceiver.java:189-223 | appends exactly one frame: the acknowledgement carrying the current lastSeqNo |
| Receiver.ReliableReceiver.ValidateChecksum | CSCI4760/Assn2/src/transport/ReliableReceiver.java:231-233 | true exactly when the computed checksum equals the stored one |
| Receiver.ReliableReceiver.Run | CSCI4760/Assn2/src/transport/ReliableReceiver.java:82-99 | the loop reaches exactly the outcome of `Session` on the decoded datagrams |
| OrderedPairs.Wrap | CSCI4760/Assn3/src/structure/OrderedPair.java:67-82 | Java int arithmetic: the result lies in the int range and is congruent to the exact value modulo 2^32 |
| OrderedPairs.PairHash | CSCI4760/Assn3/src/structure/OrderedPair.java:59-85 | the hash is a Java int |
| OrderedPairs.OrderedPair.constructor | CSCI4760/Assn3/src/structure/OrderedPair.java:35-38 | the getters return the constructor's arguments |
| OrderedPairs.OrderedPair.SetDest | CSCI4760/Assn3/src/structure/OrderedPair.java:103-105 | changes the destination and nothing else |
| OrderedPairs.OrderedPair.SetNeighbor | CSCI4760/Assn3/src/structure/OrderedPair.java:121-123 | changes the neighbour and nothing else |
| OrderedPairs.OrderedPair.Equals | CSCI4760/Assn3/src/structure/OrderedPair.java:47-53 | true exactly when both names are equal |
| OrderedPairs.OrderedPair.HashCode | CSCI4760/Assn3/src/structure/OrderedPair.java:59-85 | the two wrapping loops compute `PairHash` of the two names. So the hash depends only on the names, and equal pairs hash alike |
| OrderedPairs.NeighborClosedForm | CSCI4760/Assn3/src/structure/OrderedPair.java:78-82 | the neighbour loop multiplies every character by the same index factor |
| OrderedPairs.NeighborOrderIgnored | CSCI4760/Assn3/src/structure/OrderedPair.java:78-82 | permuting the neighbour's characters never changes the hash |
| OrderedPairs.DestOrderMatters | CSCI4760/Assn3/src/structure/OrderedPair.java:67-72 | the destination loop advances the index, so ("ab", "") and ("ba", "") hash differently |
| Distances.Add | CSCI4760/Assn3/src/network/Host.java:175-177 | a sum is infinite exactly when one of its terms is |
| Distances.Min | CSCI4760/Assn3/src/network/Host.java:180-184 | the smaller cost is one of the two and at most both |
| Distances.Lookup | CSCI4760/Assn3/src/network/Host.java:221 | `Hashtable.get` gives a box exactly for a present key |
| DistanceTables.DistanceTable.constructor | CSCI4760/Assn3/src/structure/DistanceTable.java:28-30 | a new table is empty |
| DistanceTables.DistanceTable.GetOrderedPairs | CSCI4760/Assn3/src/structure/DistanceTable.java:161-163 | the keys, each once, in some order, leaving the table unchanged |
| DistanceTables.DistanceTable.GetNeighbors | CSCI4760/Assn3/src/structure/DistanceTable.java:37-53 | no duplicates; as a set exactly the neighbours of the keys |
| DistanceTables.DistanceTable.GetDestinations | CSCI4760/Assn3/src/structure/DistanceTable.java:145-154 | no duplicates; as a set exactly the destinations of the keys |
| DistanceTables.DistanceTable.GetMinDistanceTo | CSCI4760/Assn3/src/structure/DistanceTable.java:62-86 | infinity when no key has this destination. Otherwise at most every entry for it, and equal to one of them when finite |
| DistanceTables.DistanceTable.GetNextHop | CSCI4760/Assn3/src/structure/DistanceTable.java:96-123 | null exactly when every entry for the destination is infinite; otherwise a neighbour whose entry is the least |
| DistanceTables.DistanceTable.GetMinDistaneTable | CSCI4760/Assn3/src/structure/DistanceTable.java:129-138 | keys are exactly the destinations, each holding its minimum distance in a new box of its own |
| DistanceTables.MinDistanceUnique | CSCI4760/Assn3/src/structure/DistanceTable.java:62-86 | the least cost to a destination is unique, so every iteration order gives the same result |
| DistanceTables.NextHopAgreesWithMin | CSCI4760/Assn3/src/structure/DistanceTable.java:96-123 | `getNextHop` is null exactly when `getMinDistanceTo` is infinity; otherwise its entry holds that least cost |
| Hosts.Host.constructor | CSCI4760/Assn3/src/network/Host.java:26-37 | empty name, no neighbours or known hosts, an empty new distance table |
| Hosts.Host.Named | CSCI4760/Assn3/src/network/Host.java:45-47 | as the default constructor, with the given name |
| Hosts.Host.SetHostName | CSCI4760/Assn3/src/network/Host.java:111-113 | the name becomes the argument |
| Hosts.Host.SetNeighbors | CSCI4760/Assn3/src/network/Host.java:249-251 | the neighbour list becomes the argument |
| Hosts.Host.ClearNeighborTable | CSCI4760/Assn3/src/network/Host.java:202-204 | no neighbour tables remain |
| Hosts.Host.GetNextHop | CSCI4760/Assn3/src/network/Host.java:57-60 | the distance table's next hop |
| Hosts.Host.GetMinDistanceTo | CSCI4760/Assn3/src/network/Host.java:195-197 | the distance table's least cost |
| Hosts.Host.AddNeighbor | CSCI4760/Assn3/src/network/Host.java:67-79 | appends the neighbour to both lists unless present, so it occurs exactly once; sets (n, n) to the distance and changes no other entry |
| Hosts.Host.ToDestViaNeighbor | CSCI4760/Assn3/src/network/Host.java:87-97 | the stored entry, or infinity when it is absent |
| Hosts.Host.SetKnownHosts | CSCI4760/Assn3/src/network/Host.java:127-147 | knownHosts becomes the list. Every (dest, via) with dest neither self nor a neighbour and via not self is set to infinity; every other entry is untouched |
| Hosts.Host.Recalculate | CSCI4760/Assn3/src/network/Host.java:153-188 | the table becomes the relaxation of every (dest, n) with dest not self, in order. No entry increases, and the result is true exactly when some entry strictly decreased |
| Hosts.Host.RecalculateRow | CSCI4760/Assn3/src/network/Host.java:162-185 | the inner loop relaxes one destination's row; its flag records whether an entry dropped |
| Hosts.Host.RelaxEntry | CSCI4760/Assn3/src/network/Host.java:164-184 | one entry takes d(n, n) + d_n(dest) when that is strictly lower; the flag is true exactly when the table changed |
| Hosts.Host.PutNeighborTable | CSCI4760/Assn3/src/network/Host.java:212-235 | always stores the table. True exactly when, for some known host other than self, the previous table is missing or the two boxes differ by identity |
| Hosts.RelaxLowers | CSCI4760/Assn3/src/network/Host.java:180-184 | one relaxation keeps every key and raises no entry; it lowers something exactly when it changes the table |
| Hosts.RelaxAllValue | CSCI4760/Assn3/src/network/Host.java:164-184 | a visited entry ends as the lower of its old cost (infinity if absent) and the offer |
| Hosts.RelaxAllDiagonal | CSCI4760/Assn3/src/network/Host.java:173-177 | the link entries (n, n) never change, so every offer uses the original link cost |
| Hosts.RelaxAllFrame | CSCI4760/Assn3/src/network/Host.java:181-182 | an entry that is not visited keeps its value |
| Hosts.VisitsMember | CSCI4760/Assn3/src/network/Host.java:157-162 | recalculate visits (dest, n) exactly when dest is a known host other than self and n a neighbour |
| Hosts.RecalculateKeepsOthers | CSCI4760/Assn3/src/network/Host.java:153-188 | recalculate writes only (dest, n) with dest a known host other than self and n a neighbour |
| Hosts.RecalculateEntry | CSCI4760/Assn3/src/network/Host.java:164-184 | without the NullPointerException, each written entry is min(old, d(n, n) + (dest == n ? 0 : table_n[dest])) |
| Hosts.RecalculateIdempotent | CSCI4760/Assn3/src/network/Host.java:153-188 | with unchanged neighbour tables, a second recalculate finds nothing to lower and returns false |
| Hosts.FreshBoxesAlwaysChange | CSCI4760/Assn3/src/network/Host.java:216-228 | when the two tables share no box, a change is reported whenever a known host other than self is in either table, whatever the distances |

## Left out

- Sockets: binding, timeouts, relay addresses and `connect` are not modelled. An endpoint gets the list of responses its receive calls yield (`Timeout` or a datagram) and keeps a log of the frames it sends.
- Name resolution: `InetAddress.getByName` on host names, and DNS, are not modelled. An address is a dotted quad of four octets, and any other address text is the unknown-host error.
- Character encoding: the platform charset of `getBytes`, and byte sign extension, are not modelled. Every character is taken as a single byte.
- Output streams: the error logs and `System.out` are not modelled, except that the receiver keeps its printed payloads and error entries as lists.
- `ReliableSender.main` reading its input file: the program text is replaced by a list of 30-character chunks.
- Getters: the getters of `ReliableTransportMessage`, `getBuffer`, `getStoredChecksum` and `getChecksumTerm` are field reads, so the model reads the fields.
- `main` of `ReliableTransportMessage` is empty and is not modelled.
- Old drafts: the earlier versions of the sender and receiver directly under `CSCI4760/Assn2` are not part of this model.
- `Network.java` is not part of this model. It parses the input, drives `exchangeTablesForHost` and `recalculate` until no host changes, and prints tables.
- `MinimumDistanceTable.java` has no behaviour of its own. It is the type `MinimumDistanceTable`, a map to boxed costs.
- `printTable` and `printNextHopTable` are output formatting and are not modelled.
- Sender.ReliableSender.SingleSend: the source retransmits forever while no acknowledgement is accepted. The model stops when the list of responses runs out and reports `Unanswered`. The last send, whose response would lie past the end of the list, is not logged.
- Sender.ReliableSender.Run: an unanswered send ends the run, where the source would still be retransmitting.
- Recursion depth: `singleSend` and `close` call themselves, so the source can overflow its stack. That is not modelled.
- Receiver.ReliableReceiver.Run: `receive` blocks in the source. The model also ends once the given datagrams are used up, and exceptions escaping `receive` are not modelled.
- Distances.Dist: costs are whole numbers or infinity. Double rounding, fractional costs and negative costs (which `addNeighbor` accepts) are not modelled, since the source only adds, compares and starts from infinity.
- Hashtable order: iteration order is unspecified. `GetOrderedPairs` chooses any order, which decides only the tie-breaking of `getNextHop`, and every contract holds for each order.
- OrderedPairs.OrderedPair.Equals: it takes another `OrderedPair`. The `ClassCastException` and `NullPointerException` on other arguments are not modelled.
- OrderedPairs.OrderedPair.HashCode: it requires names shorter than 2^31, as every Java `String` is.
- Hosts.Host.Recalculate: the uncaught `NullPointerException` is stated as its precondition, `CanRecalculate`. It needs a link entry and a neighbour table entry for every visited pair.
- Hosts.Host.PutNeighborTable: a null table argument, which would throw, is not modelled.
- Aliasing: the host keeps the list passed to `setKnownHosts`, so the caller's later changes would show through. The model copies lists as values. Its only object identities are the distance table and the boxed costs.
