# Verified models of nanopb and of the BoringSSL handshake and record layers

The Groute app talks to its services through gRPC and Firestore, that is, through two C
libraries vendored under `Groute/Pods`: nanopb encodes and decodes the messages, and
BoringSSL carries them. This project models the parts of the two in which the hard
decisions are taken, and proves what they are there for. To verify it:
`dafny verify dfyconfig.toml`.

## What is modelled

**The nanopb codec** (`Pb*.dfy`). A schema is a sequence of field descriptors (`PbSchema`),
a message a slot per field. `PbEncode` and `PbDecode` say, on byte sequences, what the
encoder writes and what the decoder makes of any input; `PbProject` and `PbLaws` prove the
theorems about them: the round trip, projection on known fields, concatenation as merge,
the exact check for required fields, the bounds of arrays. `PbMerge`, `PbArrays` and
`PbPresence` say what is stored of fields that are sent twice or not at all, how many entries
an array takes, and which fields are sent. The code itself works on streams,
an iterator that wraps around, substreams that share a position, a bitset of fields seen and
two passes over every submessage; `PbInput`, `PbIter`, `PbSeen`, `PbDecoder`, `PbOutput` and
`PbEncoder` are that code, each method proved to succeed exactly when the specification does
and to leave the same result. `PbCodec.Exchange` runs encoder and decoder one after the other.

**DTLS** (`Dtls*.dfy`, on the bit arithmetic of `Bits`). The sender (`DtlsSender`) cuts a
flight of messages into records and packs these into packets of at most the MTU, puts a
packet back that could not be written, and starts over on a timeout, with two epochs in use
at once (`DtlsWrite`). Its invariant accounts for every packet on the wire as a run of
records sealed from queued messages, under numbers that rise from record to record, whatever
was sealed in between and not sent; `DtlsFlight` says what it means that packets carry a
whole flight. Each call that sends accounts for every attempt to seal a record, and for the
cause when it fails. The receiver (`DtlsReceive`, `DtlsFragment`) collects fragments in a
ring of slots with a bit per byte. Both are classes over arrays and fields as in the source.
The receiver refines a window of partial messages (`DtlsWindow`), about which reassembly is
proved for every run of arrivals and deliveries. `DtlsLink` and `DtlsEndpoint` connect the
two ends, from the messages one side queues over the packets it writes to the messages the
other side hands up, for any loss, repetition, reordering and overlap on the way; `DtlsHear`
says what the records of a packet do to the end that reads them, and
`DtlsEndpoint.HearFlight` proves that a flight whose packets arrive is handed up.
`DtlsReplay` and `DtlsRead` are the replay window and the acceptance of records.

**The TLS write path** (`Tls*.dfy`). Sealed records wait in two places, the pending flight
and the write buffer, and are drained by writes that may be short, block or fail. One
invariant holds in every state of `TlsWrite.TlsWriter`: the bytes written, then those in the
write buffer, then those in the pending flight are all records in the order they were
sealed, and every record is what one call to the record protection made of its plaintext. On
top of it the retry bookkeeping of application data is proved to lose and repeat nothing.

**The client handshake up to TLS 1.2** (`Hs*.dfy`). `HsClient.Client` has a method for every
state handler, and the two loops that drive them. What the peer's messages mean is given by
unknown functions of them, and what is left to the application, the transport and the system
by the answers to eight kinds of question (`HsClient.Question`), so the contracts hold for all
runs. The ServerHello settles the parameters, and a session is resumed if and only if its id
was offered and is returned. The invariant `Client.Inv` says that the transcript is exactly
the messages handed to the transport and consumed from it, each once and in order, except, in
DTLS, a first ClientHello and the HelloVerifyRequest that answers it; that these come in the
order of RFC 5246, section 7.3, with none missing that the state implies and none that the
hellos do not provide for; that the code in every Finished is taken over exactly the messages
before it; and that the certificate, past its verification, is one that was accepted.
`HsSafety` reads off what a finished handshake and a False Start therefore mean. In the other
direction, `HsPlan` says what a server sends that plays its part, and
`Client.RunHandshake` proves that the handshake then succeeds, with just the messages
planned, unless an operation fails or the transport blocks; `HsExample` has two such runs.

## Where the code is not what one would expect

- A handshake fragment exactly `SSL_MAX_HANDSHAKE_FLIGHT` messages ahead passes the test that
  ignores fragments from too far ahead (`d1_both.cc:380-385`) and then fails the one that
  finds its slot (`d1_both.cc:267-270`), which is fatal. `DtlsWindow.ExactlyOneFlightAhead`.
- When a record cannot be sealed in the middle of a packet, `send_flight` returns without
  putting the position back, so a later call skips what the packet held. A flight is lost
  exactly if sealing failed when the position had moved since the last packet; a write that
  fails never loses anything, and a retransmission repairs the flight.
  `DtlsSender.FlightSender.SendPacket`, `Retransmit`; `DtlsLoss.LostAfterSealing` is a run
  in which a ChangeCipherSpec is lost that way.
- `SSLBuffer` keeps its offset in 16 bits and `Consume` adds to it without a check. A buffer
  that reaches beyond 2^16 bytes loses its place when it is consumed in parts.
  `TlsBuffer.ConsumingIsSafe` is the exact condition, `TlsBuffer.ConsumingGoesWrong` a
  buffer to which it happens; every entry point of `TlsWrite.TlsWriter` conserves the bytes
  unless a record, its overhead and the pending flight together exceed 65529 bytes.
- `ssl3_write_app_data` resets `wnum` before it refuses a retry with less data than it has
  already flushed, so the next, correct, retry starts from the beginning again. The progress
  is kept exactly if there was none. `TlsWrite.TlsWriter.WriteAppData`, `TlsWrite.ShortRetry`.
- The 48-bit sequence number wraps to zero before the error is reported, so a caller who goes
  on after it reuses numbers. `DtlsWrite.RecordWriter.SealRecord` proves that numbers rise in
  every epoch in which it has not happened, and `DtlsSender.FlightSender.NumbersRise` that
  they do in all of them before 2^48 attempts to seal a record.
- The nanopb decoder stops at a key of zero, and what follows is ignored; concatenation is
  merge exactly otherwise. `PbLaws.LoopAppends`. In a message type without fields the tag 0
  matches the terminator of the field table, and decoding fails.
- The wire type of a known field is looked at only to tell packed arrays from unpacked ones.
- A submessage that is received twice is merged, as protobuf asks for, but not in a oneof,
  where the second one replaces the first. `PbMerge.OccurrencesMerge`,
  `PbArrays.MemberReplaces`.
- Bytes of a fixed length in a proto3 field are sent even when all of them are zero.
  `PbPresence.ZeroEncodesToNothing`.

## Model

| member | source | states |
|---|---|---|
| `PbProject.RoundTrip` | Groute/Pods/nanopb/pb_decode.c:901-1063 | for every well-formed schema and valid message, of any nesting, decoding what the encoder writes succeeds, consumes every byte and gives an observationally equal message, whatever the destination held before |
| `PbProject.Projection` | Groute/Pods/nanopb/pb_decode.c:919-997 | a reader that knows any selection of the writer's fields, at every depth and in any order, accepts the encoding whole and gets exactly those fields |
| `PbProject.ReadMsg` | Groute/Pods/nanopb/pb_decode.c:901-1049 | the same inside a submessage, from storage that pb_message_set_to_defaults has prepared |
| `PbProject.ReadField` | Groute/Pods/nanopb/pb_encode.c:307-392 | the decoder's loop moves past the bytes of one field, known or not, and keeps what was read before |
| `PbProject.ReadArray` | Groute/Pods/nanopb/pb_decode.c:401-475 | a packed or unpacked array is read back entry by entry |
| `PbProject.SkipsItem` | Groute/Pods/nanopb/pb_decode.c:316-326 | pb_skip_field consumes exactly the payload the encoder writes for any field |
| `PbProject.SkipsField` | Groute/Pods/nanopb/pb_decode.c:933-962 | a field the reader does not know leaves the destination as it was, however many entries it has |
| `PbLaws.LoopAppends` | Groute/Pods/nanopb/pb_decode.c:919-997 | appending bytes to an input that decodes carries on where the decoder was, unless it met the end marker, and then the new bytes are never looked at |
| `PbLaws.ConcatenationIsMerge` | Groute/Pods/nanopb/pb_decode.c:901-1049 | without fixed-count arrays and end markers, decoding a and then b into one structure is decoding a+b in one call |
| `PbLaws.EndMarkerHidesTheRest` | Groute/Pods/nanopb/pb_decode.c:919-931 | after an end marker nothing that follows has any effect |
| `PbMerge.OccurrencesMerge` | Groute/Pods/nanopb/pb_decode.c:1475-1480 | a required, optional or proto3 submessage that is sent in two occurrences leaves, from any state of the decoder and whatever follows, what one occurrence with the contents of both leaves: last one wins, and submessages are merged |
| `PbMerge.SubmessagesMerge` | Groute/Pods/nanopb/pb_decode.c:1462-1485 | the same of decoding a whole message |
| `PbMerge.LastWins` | Groute/Pods/nanopb/pb_decode.c:409-416 | of two values of a field that is no submessage the later one is stored, and it is as if the earlier had not been sent |
| `PbMerge.AbsentShowsDefault` | Groute/Pods/nanopb/pb_decode.c:812-895 | after pb_decode a field that was not received shows its declared default, or zero, nothing or as many zeros as it is long, whatever its storage held before; an optional one is marked absent and an array empty |
| `PbMerge.NothingSetsDefaults` | Groute/Pods/nanopb/pb_decode.c:1051-1063 | pb_decode of no bytes succeeds without required fields and leaves every declared default |
| `PbArrays.ArrayTakesExactly` | Groute/Pods/nanopb/pb_decode.c:417-459 | a counted array takes any number of entries up to array_size and none beyond, one of fixed count none at all or exactly array_size, and both keep the entries in order |
| `PbArrays.AcceptedFits` | Groute/Pods/nanopb/pb_decode.c:1289-1458 | a value that is accepted fits its storage: an integer the range of its size, bytes and strings their arrays with the header or the NUL, bytes of fixed length exactly |
| `PbArrays.MemberReplaces` | Groute/Pods/nanopb/pb_decode.c:461-470 | a submessage in a oneof that is received again replaces the one before, which is as if it had not been sent, and is the member selected |
| `PbLaws.RequiredCheckIsExact` | Groute/Pods/nanopb/pb_decode.c:1006-1048 | when nothing else is wrong, decoding succeeds if and only if each of the first 64 required fields occurred, in whatever order |
| `PbLaws.SeenAreRead` | Groute/Pods/nanopb/pb_decode.c:988-993 | the fields marked as seen are exactly the ones whose keys were read |
| `PbLaws.DecodeKeepsBounds` | Groute/Pods/nanopb/pb_decode.c:401-475 | on success every array count, at every depth, is at most array_size, if that was so of the storage decoded into: of all of it, or of what is in use |
| `PbLaws.DecodeIsBounded` | Groute/Pods/nanopb/pb_decode.c:1051-1063 | pb_decode: whatever the storage held before, every array count in use, at every depth, is at most array_size |
| `PbLaws.StepLeavesOthers` | Groute/Pods/nanopb/pb_decode.c:933-997 | a field changes no slot but the one its tag names |
| `PbCodec.Exchange` | Groute/Pods/nanopb/pb_encode.c:494-516 | pb_encode into a buffer and pb_decode of the result, run on streams: encoding succeeds if and only if the message is in order and its size is at most that of the buffer, writes exactly the encoding, and decoding with any selection of the fields then always succeeds and agrees |
| `PbCodec.TablesAreWellFormed` | Groute/Pods/nanopb/pb_encode.c:215-303 | every well-formed schema meets what the running encoder and decoder ask of a field table |
| `PbPresence.SilentExactly` | Groute/Pods/nanopb/pb_encode.c:286-330 | a field contributes no bytes exactly if: it is optional and absent; in a oneof and not selected; an array without entries; or a proto3 field whose value is 0, empty, or a submessage in which nothing is set; a required one never |
| `PbPresence.DefaultIsUnset` | Groute/Pods/nanopb/pb_encode.c:215-303 | pb_check_proto3_default_value is true exactly if nothing is set, by the rule of the field and of every field below it |
| `PbPresence.ZeroEncodesToNothing` | Groute/Pods/nanopb/pb_encode.c:305-392 | the message in which every byte is zero is encoded in no bytes if and only if no field is required and no proto3 field holds bytes of a fixed length, there and in its proto3 submessages |
| `PbWire.Varint64RoundTrip` | Groute/Pods/nanopb/pb_encode.c:574-594 | encoding and decoding are inverse on every 64-bit value, whatever follows |
| `PbWire.VarintMinimal` | Groute/Pods/nanopb/pb_encode.c:574-594 | the encoding has at most k bytes exactly for the values of k groups |
| `PbWire.VarintAtMostTenBytes` | Groute/Pods/nanopb/pb_encode.c:574-594 | one to ten bytes |
| `PbWire.ZigZagBijection` | Groute/Pods/nanopb/pb_decode.c:1240-1252 | zigzag is a bijection between int64 and uint64 |
| `PbWire.Varint32IsLowBits` | Groute/Pods/nanopb/pb_decode.c:182-242 | the 32-bit decoder, on a varint of at most ten bytes, returns the low 32 bits of what the 64-bit decoder returns whenever it succeeds, and stops at the same byte |
| `PbWire.Varint32RoundTrip` | Groute/Pods/nanopb/pb_decode.c:182-242 | it accepts the encoding of every value below 2^32 |
| `PbWire.Varint32Rejects` | Groute/Pods/nanopb/pb_decode.c:182-242 | it rejects the encoding of every value from 2^32 up to 2^63 |
| `PbWire.LittleEndianRoundTrip` | Groute/Pods/nanopb/pb_encode.c:607-632 | fixed-width numbers are read back |
| `PbWire.OrIsAdd` | Groute/Pods/nanopb/pb_decode.c:250-270 | or-ing a group in above the bits in use adds it |
| `PbInput.IStream.Read` | Groute/Pods/nanopb/pb_decode.c:100-132 | reads exactly the bytes asked for or fails; position plus bytes_left never changes |
| `PbInput.IStream.ReadByte` | Groute/Pods/nanopb/pb_decode.c:136-152 | the next byte, failing exactly at the end |
| `PbInput.IStream.DecodeVarint` | Groute/Pods/nanopb/pb_decode.c:250-270 | refines the ten-group decoder, both in the value and in when it fails |
| `PbInput.IStream.NextByte32` | Groute/Pods/nanopb/pb_decode.c:208-236 | one round of the 32-bit decoder: groups, then the sign extension check |
| `PbInput.IStream.DecodeVarint32Eof` | Groute/Pods/nanopb/pb_decode.c:182-242 | refines the 32-bit decoder; eof exactly on an empty stream |
| `PbInput.IStream.SkipVarint` | Groute/Pods/nanopb/pb_decode.c:273-282 | skips to the byte after the varint |
| `PbInput.IStream.SkipString` | Groute/Pods/nanopb/pb_decode.c:284-291 | skips a length and as many bytes, failing if they are not there |
| `PbInput.IStream.SkipField` | Groute/Pods/nanopb/pb_decode.c:316-326 | skips the payload of a wire type; unknown wire types fail |
| `PbInput.IStream.DecodeTag` | Groute/Pods/nanopb/pb_decode.c:293-314 | tag and wire type of the next key; zero reports the end of the message |
| `PbInput.IStream.MakeSubstream` | Groute/Pods/nanopb/pb_decode.c:367-380 | a substream of exactly the announced bytes, which the parent gives up |
| `PbInput.IStream.CloseSubstream` | Groute/Pods/nanopb/pb_decode.c:382-395 | the parent continues right after the announced length, even when the substream was not read to its end |
| `PbIter.FieldIter.Begin` | Groute/Pods/nanopb/pb_common.c:8-18 | starts at the first field; false exactly for an empty table |
| `PbIter.FieldIter.Next` | Groute/Pods/nanopb/pb_common.c:20-76 | position, data offset and required index stay functions of the field index; wraps at the terminator |
| `PbIter.FieldIter.FindTag` | Groute/Pods/nanopb/pb_common.c:78-95 | finds the first field with the tag going once around from the current one, or fails back where it was exactly if there is none |
| `PbIter.FindIgnoresPosition` | Groute/Pods/nanopb/pb_common.c:78-95 | with unique tags it does not matter where the search started |
| `PbSeen.NoteAdds` | Groute/Pods/nanopb/pb_decode.c:988-993 | setting a bit of fields_seen adds that required field and loses none |
| `PbSeen.MaskTest` | Groute/Pods/nanopb/pb_decode.c:1029-1044 | comparing a word with allbits >> (32 - n) tells exactly whether the n lowest bits are set |
| `PbDecoder.SetFieldToDefault` | Groute/Pods/nanopb/pb_decode.c:812-882 | refines the specified defaults of one field |
| `PbDecoder.SetToDefaults` | Groute/Pods/nanopb/pb_decode.c:884-895 | refines the specified defaults of a message, through the iterator |
| `PbDecoder.DecVarint` | Groute/Pods/nanopb/pb_decode.c:1289-1324 | value and range check of each size, on the stream |
| `PbDecoder.DecUVarint` | Groute/Pods/nanopb/pb_decode.c:1326-1348 | the same for unsigned fields |
| `PbDecoder.DecSVarint` | Groute/Pods/nanopb/pb_decode.c:1350-1372 | the same for zigzag fields |
| `PbDecoder.DecFixed` | Groute/Pods/nanopb/pb_decode.c:1254-1286 | little-endian words |
| `PbDecoder.DecBlob` | Groute/Pods/nanopb/pb_decode.c:1391-1461 | bytes, strings and fixed-length bytes: what is stored, and every size error |
| `PbDecoder.DecItem` | Groute/Pods/nanopb/pb_decode.c:1463-1508 | an entry of any type; the nesting ends because a submessage is shorter than its parent |
| `PbDecoder.DecSubmessage` | Groute/Pods/nanopb/pb_decode.c:1463-1485 | the submessage is decoded on a substream that is closed whatever came of it |
| `PbDecoder.DecodeSubstream` | Groute/Pods/nanopb/pb_decode.c:1463-1485 | an array entry is initialised first, any other submessage is merged into |
| `PbDecoder.DecodePacked` | Groute/Pods/nanopb/pb_decode.c:419-447 | entries are appended up to array_size; anything left over in the substream is an error |
| `PbDecoder.DecodeStaticField` | Groute/Pods/nanopb/pb_decode.c:401-475 | refines the storing of one field under every rule |
| `PbDecoder.CheckRequired` | Groute/Pods/nanopb/pb_decode.c:1006-1048 | true exactly when each of the first 64 required fields is in the set seen, from any iterator position |
| `PbDecoder.CheckWords` | Groute/Pods/nanopb/pb_decode.c:1024-1045 | whole words first, then the remaining bits |
| `PbDecoder.Locals.MarkSeen` | Groute/Pods/nanopb/pb_decode.c:988-993 | the bitset refines the set of fields seen |
| `PbDecoder.Locals.SwitchToFixed` | Groute/Pods/nanopb/pb_decode.c:964-986 | turning to another fixed-count array fails unless the last one is complete |
| `PbDecoder.Locals.DecodeFound` | Groute/Pods/nanopb/pb_decode.c:964-996 | refines one step for a field of the table |
| `PbDecoder.Locals.DecodeOne` | Groute/Pods/nanopb/pb_decode.c:919-997 | one round of the loop refines one unfolding of the specified loop and consumes at least a byte |
| `PbDecoder.DecodeNoinit` | Groute/Pods/nanopb/pb_decode.c:901-1049 | for every schema and every byte string it ends, succeeds exactly when the specification does, and then gives its message and its rest |
| `PbDecoder.Decode` | Groute/Pods/nanopb/pb_decode.c:1051-1063 | the same after setting the defaults |
| `PbOutput.OStream.Write` | Groute/Pods/nanopb/pb_encode.c:101-119 | succeeds exactly if the bytes fit, and then appends just them, or only counts them |
| `PbOutput.OStream.Count` | Groute/Pods/nanopb/pb_encode.c:101-119 | writing without data on a sizing stream |
| `PbOutput.OStream.EncodeVarint` | Groute/Pods/nanopb/pb_encode.c:574-594 | writes the specified varint |
| `PbOutput.OStream.EncodeSVarint` | Groute/Pods/nanopb/pb_encode.c:596-605 | writes the varint of the zigzag value |
| `PbOutput.OStream.EncodeFixed32` | Groute/Pods/nanopb/pb_encode.c:607-616 | writes the little-endian word |
| `PbOutput.OStream.EncodeFixed64` | Groute/Pods/nanopb/pb_encode.c:619-632 | writes the little-endian double word |
| `PbOutput.OStream.EncodeTag` | Groute/Pods/nanopb/pb_encode.c:635-639 | writes tag and wire type |
| `PbOutput.OStream.EncodeString` | Groute/Pods/nanopb/pb_encode.c:674-680 | writes length and contents |
| `PbEncoder.CheckDefault` | Groute/Pods/nanopb/pb_encode.c:215-303 | decides whether a proto3 field counts as not set, through submessages |
| `PbEncoder.EncScalar` | Groute/Pods/nanopb/pb_encode.c:734-808 | every packable type; fails exactly on a size the type does not have or when the bytes do not fit |
| `PbEncoder.EncString` | Groute/Pods/nanopb/pb_encode.c:831-855 | writes the characters before the NUL |
| `PbEncoder.EncItem` | Groute/Pods/nanopb/pb_encode.c:810-868 | an entry of any type |
| `PbEncoder.EncodeSubmessage` | Groute/Pods/nanopb/pb_encode.c:682-730 | two passes, the second of which writes exactly the size of the first, so that a submessage never changes size |
| `PbEncoder.WriteSubmessage` | Groute/Pods/nanopb/pb_encode.c:702-729 | the second pass, on a stream limited to that size |
| `PbEncoder.PackedSize` | Groute/Pods/nanopb/pb_encode.c:145-165 | counts exactly the bytes of the packed entries |
| `PbEncoder.EncodePackedArray` | Groute/Pods/nanopb/pb_encode.c:139-181 | tag, size and entries; the sizing and the writing pass agree |
| `PbEncoder.EncodeUnpackedArray` | Groute/Pods/nanopb/pb_encode.c:182-208 | a tag in front of every entry |
| `PbEncoder.EncodeArrayField` | Groute/Pods/nanopb/pb_encode.c:126-211 | fails exactly if the count exceeds array_size, an entry is wrong or the bytes do not fit |
| `PbEncoder.EncodeBasicField` | Groute/Pods/nanopb/pb_encode.c:307-392 | required, optional, proto3, repeated, fixed-count and oneof fields go out exactly when they should |
| `PbEncoder.Encode` | Groute/Pods/nanopb/pb_encode.c:494-516 | writes the encoding of the message if and only if the message is in order and the bytes fit |
| `PbEncoder.GetEncodedSize` | Groute/Pods/nanopb/pb_encode.c:533-542 | the sizing pass returns the length of the encoding |
| `DtlsEndpoint.Listen` | Groute/Pods/BoringSSL-GRPC/ssl/d1_both.cc:297-438 | out of the packets the peer wrote, in however many flights and however often, any arrive, in any order and any number of times: what is handed up are messages the peer queued, from the first on, each once and as it was queued, and exactly those that reading the records one after the other comes to |
| `DtlsEndpoint.HearFlight` | Groute/Pods/BoringSSL-GRPC/ssl/d1_both.cc:297-438 | when the peer has reported a flight as sent and its packets arrive, each once and in order, all messages that the flight has in the epoch being read are handed up |
| `DtlsEndpoint.Endpoint.ReceivePacket` | Groute/Pods/BoringSSL-GRPC/ssl/d1_both.cc:297-406 | a packet does to the replay window, the messages being put together and the ChangeCipherSpec flag exactly what its records do, read in order; what is handed up stays a prefix of what the peer queued |
| `DtlsEndpoint.Endpoint.Deliver` | Groute/Pods/BoringSSL-GRPC/ssl/d1_both.cc:408-438 | hands up the current message exactly when it is complete, and marks a flight of ours that was sent as answered |
| `DtlsEndpoint.Endpoint.ChangeReadState` | Groute/Pods/BoringSSL-GRPC/ssl/dtls_method.cc:81-95 | a new epoch starts exactly if a ChangeCipherSpec was flagged and no message is waiting, and uses the flag up |
| `DtlsEndpoint.SentPacket` | Groute/Pods/BoringSSL-GRPC/ssl/d1_both.cc:739-815 | every packet written is made of records that were sealed, each with part of a message that was queued |
| `DtlsEndpoint.FrontReads` | Groute/Pods/BoringSSL-GRPC/ssl/dtls_record.cc:177-223 | the record at the front of a packet is parsed as it was sealed, and what is left is the rest of the packet |
| `DtlsHear.AllAreHeard` | Groute/Pods/BoringSSL-GRPC/ssl/dtls_record.cc:177-272 | every record of a run is taken if it is of the epoch being read, can be read, and the numbers rise from above all that was heard |
| `DtlsHear.RisesWhole` | Groute/Pods/BoringSSL-GRPC/ssl/dtls_record.cc:128-155 | numbers that rise within an epoch rise as the eight bytes the replay window compares |
| `DtlsLoss.LostAfterSealing` | Groute/Pods/BoringSSL-GRPC/ssl/d1_both.cc:739-827 | a ChangeCipherSpec queued in the first epoch and a Finished in the second; sealing the Finished fails once, and the next flush reports success although no packet ever held the ChangeCipherSpec |
| `DtlsLoss.FirstFlush` | Groute/Pods/BoringSSL-GRPC/ssl/d1_both.cc:739-827 | the flush before it: not sealed, nothing written, and the position behind the ChangeCipherSpec |
| `DtlsLink.EndToEnd` | Groute/Pods/BoringSSL-GRPC/ssl/d1_both.cc:297-438 | over every run of handshake records that carry pieces of the messages, and of deliveries, the messages handed up are the first ones sent, in order and unchanged |
| `DtlsLink.FlightCompletes` | Groute/Pods/BoringSSL-GRPC/ssl/d1_both.cc:644-827 | once the handshake records that a whole flight has in the epoch being read have arrived, among others that fit the window and in any order, none has been rejected and all its messages of that epoch are handed up one after the other |
| `DtlsLink.ByteIsSent` | Groute/Pods/BoringSSL-GRPC/ssl/d1_both.cc:782-827 | in a delivered flight every byte of every message is in some record |
| `DtlsLink.RecordArrives` | Groute/Pods/BoringSSL-GRPC/ssl/dtls_record.cc:177-351 | a sealed record is parsed, opened and read as what it carries, under the epoch of its message |
| `DtlsTypes.FragmentReads` | Groute/Pods/BoringSSL-GRPC/ssl/d1_both.cc:459-473 | a fragment put together is taken apart again |
| `DtlsReplay.ToU64BE` | Groute/Pods/BoringSSL-GRPC/ssl/dtls_record.cc:128-136 | the big-endian value |
| `DtlsReplay.ReplayWindow.ShouldDiscard` | Groute/Pods/BoringSSL-GRPC/ssl/dtls_record.cc:140-150 | discards a number exactly when it was recorded, or one 64 or more above it was |
| `DtlsReplay.ReplayWindow.Record` | Groute/Pods/BoringSSL-GRPC/ssl/dtls_record.cc:155-175 | exactly this number joins those recorded; the map and the maximum stay what they are for that set |
| `DtlsReplay.Slides` | Groute/Pods/BoringSSL-GRPC/ssl/dtls_record.cc:155-175 | shifting the map moves every number's bit and loses only those that fall out |
| `DtlsRead.RecordReader.OpenRecord` | Groute/Pods/BoringSSL-GRPC/ssl/dtls_record.cc:177-272 | a record is accepted exactly if it is whole, of the right version and epoch, neither seen before nor 64 behind one that was, and authentic; its number is then recorded, and otherwise the window is unchanged; what is dropped, the record or the rest of the packet, and what is fatal, is exact too |
| `DtlsRead.RecordReader.SetReadState` | Groute/Pods/BoringSSL-GRPC/ssl/dtls_method.cc:81-95 | a new epoch starts with nothing recorded, so that nothing is too old, and fails exactly when handshake data is left |
| `DtlsWrite.SequenceUpdate` | Groute/Pods/BoringSSL-GRPC/ssl/tls_record.cc:154-163 | the 48-bit number grows by one, and fails exactly on wrapping |
| `DtlsWrite.RecordReads` | Groute/Pods/BoringSSL-GRPC/ssl/dtls_record.cc:294-351 | what is written as a record is parsed as the same record |
| `DtlsWrite.RecordWriter.SealRecord` | Groute/Pods/BoringSSL-GRPC/ssl/dtls_record.cc:294-351 | seals exactly when the cipher does, there is room and the number is not the last; the number is then used up, is above all used before in its epoch unless the counter has wrapped, and stays used even when the record is not sent |
| `DtlsWrite.RecordWriter.UseNumber` | Groute/Pods/BoringSSL-GRPC/ssl/dtls_record.cc:327-333 | the counter of the chosen epoch goes up by one, and fails exactly on wrapping |
| `DtlsWrite.RecordWriter.SetWriteState` | Groute/Pods/BoringSSL-GRPC/ssl/dtls_method.cc:97-107 | the current epoch, cipher and counter become the previous ones; no used number is forgotten |
| `DtlsFlight.FinishedMessage` | Groute/Pods/BoringSSL-GRPC/ssl/d1_both.cc:511-537 | what dtls1_init_message and dtls1_finish_message make is one fragment with the whole message, under its number |
| `DtlsFlight.FlightContents` | Groute/Pods/BoringSSL-GRPC/ssl/d1_both.cc:782-827 | records that cover a flight contain each message's bytes contiguously and exactly once, and each ChangeCipherSpec once |
| `DtlsFlight.CoversAdvances` | Groute/Pods/BoringSSL-GRPC/ssl/d1_both.cc:739-780 | records that continue the flight never go back |
| `DtlsFlight.StaysBehind` | Groute/Pods/BoringSSL-GRPC/ssl/d1_both.cc:797-815 | a gap in a flight is not closed by later records |
| `DtlsFlight.PartAscends` | Groute/Pods/BoringSSL-GRPC/ssl/d1_both.cc:797-815 | records left out of a run do not change that its numbers rise |
| `DtlsSender.FlightSender.AddMessage` | Groute/Pods/BoringSSL-GRPC/ssl/d1_both.cc:511-598 | a message gets the next number and is queued as one fragment under it, for the current epoch, behind those queued before or as the first of a new flight; fails exactly on a full flight or a body of 2^24 bytes |
| `DtlsSender.FlightSender.AddOutgoing` | Groute/Pods/BoringSSL-GRPC/ssl/d1_both.cc:555-594 | queues for the current epoch, starting a new flight after a complete one; fails exactly on a full flight or an oversized message |
| `DtlsSender.FlightSender.AddChangeCipherSpec` | Groute/Pods/BoringSSL-GRPC/ssl/d1_both.cc:600-602 | queued like a message, but takes no number |
| `DtlsSender.FlightSender.SealPart` | Groute/Pods/BoringSSL-GRPC/ssl/dtls_record.cc:294-351 | a record gets a number above those of all records sealed before in its epoch, whether they were sent or not, unless the epoch's counter has wrapped, for which the attempts made are counted; when it fails, why |
| `DtlsSender.FlightSender.NumbersRise` | Groute/Pods/BoringSSL-GRPC/ssl/dtls_record.cc:294-351 | before 2^48 attempts to seal a record the numbers of all records sealed in an epoch rise, and so do those of the records written |
| `DtlsSender.FlightSender.SealCcs` | Groute/Pods/BoringSSL-GRPC/ssl/d1_both.cc:661-677 | the ChangeCipherSpec goes out whole or not at all, and why not is exact |
| `DtlsSender.FlightSender.SealFragment` | Groute/Pods/BoringSSL-GRPC/ssl/d1_both.cc:679-733 | the rest of the message, or exactly as much as there is room for |
| `DtlsSender.FlightSender.SealNextMessage` | Groute/Pods/BoringSSL-GRPC/ssl/d1_both.cc:644-734 | the record made continues the flight at the current position, under the epoch the message was queued in, within the room given; when there is none, the room was short, or the message cannot be sealed, for one of the reasons there are |
| `DtlsSender.FlightSender.SealNextPacket` | Groute/Pods/BoringSSL-GRPC/ssl/d1_both.cc:739-780 | a packet of at most mtu bytes made of records that continue the flight, up to its end or until no more fits; and the reason when it fails |
| `DtlsSender.FlightSender.SendPacket` | Groute/Pods/BoringSSL-GRPC/ssl/d1_both.cc:797-815 | what is written is the packet of the records sealed; a write that fails leaves position, packets and account as they were, and its records stay among those sealed, so that they go out under new, higher numbers; a record that cannot be sealed opens a gap exactly if the position has moved |
| `DtlsSender.FlightSender.SendFlight` | Groute/Pods/BoringSSL-GRPC/ssl/d1_both.cc:782-827 | ends; every packet fits the mtu and is filled; the packets written since the flight was rewound carry all of it if and only if there was no gap before; blocking opens none; and each of the ways it can fail has its cause |
| `DtlsSender.FlightSender.FlushFlight` | Groute/Pods/BoringSSL-GRPC/ssl/d1_both.cc:829-834 | the same for the first transmission |
| `DtlsSender.FlightSender.FlushWhileBlocked` | Groute/Pods/BoringSSL-GRPC/ssl/handshake.cc:502-508 | however often the BIO blocks a new flight, once flushing it again succeeds it is on the wire, whole and once |
| `DtlsSender.FlightSender.Retransmit` | Groute/Pods/BoringSSL-GRPC/ssl/d1_both.cc:836-845 | success means that the packets written during the call carry the whole flight, whatever happened before; without it the BIO blocked, the connection is shut down, or a record could not be sealed, and why |
| `DtlsSender.FlightSender.UpdateMtu` | Groute/Pods/BoringSSL-GRPC/ssl/d1_both.cc:615-632 | an mtu below the minimum becomes what the BIO answers, if that is between the minimum and 2^30, and the default otherwise; any other mtu stays |
| `DtlsSender.FlightSender.CheckTimeoutNum` | Groute/Pods/BoringSSL-GRPC/ssl/d1_lib.cc:168-187 | the mtu drops after two timeouts if it may; fails after the last one |
| `DtlsSender.FlightSender.DoubleTimeout` | Groute/Pods/BoringSSL-GRPC/ssl/d1_lib.cc:155-160 | doubles up to a minute; from 2^31 on it wraps around |
| `DtlsSender.FlightSender.HandleTimeout` | Groute/Pods/BoringSSL-GRPC/ssl/d1_lib.cc:247-267 | nothing is sent before the timer expires or after the last timeout, and otherwise the flight is; success means the packets written now carry all of it |
| `DtlsSender.FlightSender.MessageTaken` | Groute/Pods/BoringSSL-GRPC/ssl/d1_both.cc:432-437 | a flight that has been sent has been answered |
| `DtlsSender.FlightSender.OnHandshakeComplete` | Groute/Pods/BoringSSL-GRPC/ssl/dtls_method.cc:71-79 | a final flight nobody answered is kept for retransmission, any other is dropped |
| `DtlsSender.FlightSender.SetWriteState` | Groute/Pods/BoringSSL-GRPC/ssl/dtls_method.cc:97-107 | queued messages keep the epochs they were queued in, and no used number is forgotten |
| `DtlsFragment.BitRangeBits` | Groute/Pods/BoringSSL-GRPC/ssl/d1_both.cc:203-205 | bit_range has exactly the bits it names |
| `DtlsFragment.HmFragment.constructor` | Groute/Pods/BoringSSL-GRPC/ssl/d1_both.cc:152-199 | a new message with no bytes received; an empty one is complete |
| `DtlsFragment.HmFragment.Store` | Groute/Pods/BoringSSL-GRPC/ssl/d1_both.cc:393-402 | the fragment is laid over the bytes received so far |
| `DtlsFragment.HmFragment.Mark` | Groute/Pods/BoringSSL-GRPC/ssl/d1_both.cc:211-251 | exactly the range is marked, and the mask is given up exactly when every byte is |
| `DtlsFragment.SetBits` | Groute/Pods/BoringSSL-GRPC/ssl/d1_both.cc:222-236 | the three byte-wise cases together set exactly the bits of the range |
| `DtlsFragment.AllSet` | Groute/Pods/BoringSSL-GRPC/ssl/d1_both.cc:238-250 | whole bytes first, then the last bits |
| `DtlsWindow.HandsUpWhatWasSent` | Groute/Pods/BoringSSL-GRPC/ssl/d1_both.cc:297-438 | over every run of arrivals and deliveries the messages handed up are a prefix of those sent, each exactly once and in order |
| `DtlsWindow.RecordCovers` | Groute/Pods/BoringSSL-GRPC/ssl/d1_both.cc:350-404 | the bytes received of a message are those the fragments covered |
| `DtlsWindow.ExactlyOneFlightAhead` | Groute/Pods/BoringSSL-GRPC/ssl/d1_both.cc:380-385 | a fragment exactly one flight ahead fails the connection, one further ahead is ignored |
| `DtlsWindow.RejectsExactly` | Groute/Pods/BoringSSL-GRPC/ssl/d1_both.cc:360-395 | a fragment is rejected exactly if it reaches beyond its message, its message is too long, it is not of the next message in the encrypted epoch, or, among those not passed over, it is exactly one flight ahead or contradicts what was said of its message |
| `DtlsWindow.BadFragmentFails` | Groute/Pods/BoringSSL-GRPC/ssl/d1_both.cc:351-378 | a record fails if any of its fragments is out of bounds or, in the encrypted epoch, not of the next message, wherever in the record it is |
| `DtlsWindow.HonestIsTaken` | Groute/Pods/BoringSSL-GRPC/ssl/d1_both.cc:350-404 | a record from an honest peer is not rejected while no message is a flight or more ahead, none is too large, and in the encrypted epoch only the current one arrives |
| `DtlsWindow.CompleteWhenCovered` | Groute/Pods/BoringSSL-GRPC/ssl/d1_both.cc:255-259 | a message in the window is complete exactly when fragments of it have arrived and cover every byte |
| `DtlsWindow.DeliversAll` | Groute/Pods/BoringSSL-GRPC/ssl/d1_both.cc:408-438 | messages that are complete are handed up one after the other, in order |
| `DtlsReceive.Receiver.GetIncoming` | Groute/Pods/BoringSSL-GRPC/ssl/d1_both.cc:265-295 | the slot of the message, its own or a new one, rejecting exactly what is outside the window or disagrees; the sequence number in a slot is always the one looked for |
| `DtlsReceive.Receiver.HandleFragment` | Groute/Pods/BoringSSL-GRPC/ssl/d1_both.cc:352-404 | one fragment refines one step of the window |
| `DtlsReceive.Receiver.IsCurrentComplete` | Groute/Pods/BoringSSL-GRPC/ssl/d1_both.cc:255-259 | exactly when the current message has all its bytes |
| `DtlsReceive.Receiver.GetMessage` | Groute/Pods/BoringSSL-GRPC/ssl/d1_both.cc:408-424 | hands up the whole current message, with the header of an unfragmented one, exactly when it is complete |
| `DtlsReceive.Receiver.HasUnprocessed` | Groute/Pods/BoringSSL-GRPC/ssl/d1_both.cc:440-457 | true exactly if something beyond the current message has been received |
| `DtlsReceive.Receiver.OpenHandshake` | Groute/Pods/BoringSSL-GRPC/ssl/d1_both.cc:297-406 | the fragments of a record refine the window, a proper ChangeCipherSpec is flagged, and every other type is refused or discarded |
| `DtlsReceive.Receiver.TakeChangeCipherSpec` | Groute/Pods/BoringSSL-GRPC/ssl/d1_both.cc:475-490 | the flag is used up |
| `DtlsReceive.Receiver.NextMessage` | Groute/Pods/BoringSSL-GRPC/ssl/d1_both.cc:426-438 | the current message is released and the next number, in 16 bits, becomes current; DtlsSender.FlightSender.MessageTaken is its other half |
| `TlsBuffer.SSLBuffer.EnsureCap` | Groute/Pods/BoringSSL-GRPC/ssl/ssl_buffer.cc:47-81 | room for the bytes, with the contents kept, at an offset of at most seven when they are moved |
| `TlsBuffer.SSLBuffer.Append` | Groute/Pods/BoringSSL-GRPC/ssl/ssl_buffer.cc:83-88 | the bytes are added at the end |
| `TlsBuffer.SSLBuffer.Consume` | Groute/Pods/BoringSSL-GRPC/ssl/ssl_buffer.cc:90-97 | the bytes are taken off the front, unless the 16-bit offset wraps around |
| `TlsBuffer.SSLBuffer.Clear` | Groute/Pods/BoringSSL-GRPC/ssl/ssl_buffer.cc:39-45 | empty and without a buffer |
| `TlsBuffer.ConsumingIsSafe` | Groute/Pods/BoringSSL-GRPC/ssl/ssl_buffer.cc:90-97 | the contents can be consumed in any steps without losing the place exactly if they do not reach beyond 2^16 |
| `TlsWrite.TlsWriter.AddRecordToFlight` | Groute/Pods/BoringSSL-GRPC/ssl/s3_both.cc:135-165 | exactly what the record protection makes of the input goes to the end of the pending flight, if it makes a record and that is not too long; the order on the wire stays the order of sealing |
| `TlsWrite.TlsWriter.AddMessage` | Groute/Pods/BoringSSL-GRPC/ssl/s3_both.cc:184-205 | the records of a message, each made by the record protection, carry it whole and in order, none larger than the fragment size, and an empty message is still one record |
| `TlsWrite.TlsWriter.AddChangeCipherSpec` | Groute/Pods/BoringSSL-GRPC/ssl/s3_both.cc:207-218 | one record of its own, exactly when it can be sealed |
| `TlsWrite.TlsWriter.AddAlert` | Groute/Pods/BoringSSL-GRPC/ssl/s3_both.cc:220-229 | one record of its own, exactly when it can be sealed |
| `TlsWrite.TlsWriter.FlushWriteBuffer` | Groute/Pods/BoringSSL-GRPC/ssl/ssl_buffer.cc:239-252 | short and blocked writes keep the order on the wire, and nothing written is taken back; succeeds exactly if the BIO takes all of it, and then leaves the buffer empty |
| `TlsWrite.TlsWriter.FlushFlight` | Groute/Pods/BoringSSL-GRPC/ssl/s3_both.cc:231-279 | the write buffer goes first, then the flight; succeeds exactly if the BIO takes both and flushes, and then everything sealed has been written, in the order it was sealed |
| `TlsWrite.TlsWriter.MoveFlight` | Groute/Pods/BoringSSL-GRPC/ssl/s3_pkt.cc:254-266 | what is pending goes out in front of the new record |
| `TlsBuffer.ConsumingGoesWrong` | Groute/Pods/BoringSSL-GRPC/ssl/ssl_buffer.cc:90-97 | a buffer that is filled and consumed in part and then does not hold the rest |
| `TlsWrite.TlsWriter.WritePending` | Groute/Pods/BoringSSL-GRPC/ssl/s3_pkt.cc:202-218 | a retry with less, of another type or from another place writes nothing; otherwise what was sealed is flushed, with success exactly if the BIO takes it, and its length reported |
| `TlsWrite.TlsWriter.SealNext` | Groute/Pods/BoringSSL-GRPC/ssl/s3_pkt.cc:237-273 | exactly when there is room and the record protection makes a record, that record is sealed behind whatever is pending; the buffer stays addressable if record, overhead and flight fit 65529 bytes |
| `TlsWrite.TlsWriter.DoWrite` | Groute/Pods/BoringSSL-GRPC/ssl/s3_pkt.cc:221-289 | seals the record that the record protection makes of the input exactly when nothing is left over, the input is neither empty nor too long and there is room, and none while another write is pending; reports it as written exactly if the BIO takes what was pending and the record; early data is accounted for |
| `TlsWrite.TlsWriter.WriteChunk` | Groute/Pods/BoringSSL-GRPC/ssl/s3_pkt.cc:162-199 | what has been sealed stays a prefix of the caller's data, nothing sealed or written before is lost, and the order on the wire is the order of sealing |
| `TlsWrite.TlsWriter.WriteRound` | Groute/Pods/BoringSSL-GRPC/ssl/s3_pkt.cc:163-199 | early data sealed is at most what the ticket allows, and is counted when it has been flushed |
| `TlsWrite.TlsWriter.WriteAppData` | Groute/Pods/BoringSSL-GRPC/ssl/s3_pkt.cc:129-200 | over any sequence of blocked writes and conforming retries the plaintext sealed is a prefix of the caller's data, each byte in one record, the return values count the bytes flushed, the order on the wire is the order of sealing, and early data stays within the limit; outside early data what a call flushes is exact: with nothing waiting, the records before the first that cannot be sealed or that the BIO does not take; with a record waiting, nothing unless application data of at least its length is offered again, from the same place or with moving buffers allowed, and the BIO takes what waits, and then that record and those after it in the same way; a retry with less data than was already flushed is refused and forgets the progress, which matters exactly if there was any |
| `TlsWrite.ShortRetry` | Groute/Pods/BoringSSL-GRPC/ssl/s3_pkt.cc:143-157 | 1024 bytes in records of 512, of which the second is blocked: a retry with no data fails and leaves more sealed than is accounted for |
| `TlsWrite.TlsWriter.RejectEarlyData` | Groute/Pods/BoringSSL-GRPC/ssl/handshake.cc:598-602 | no early data is written any more, and what was stays within the limit |
| `TlsWrite.TlsWriter.SendAlert` | Groute/Pods/BoringSSL-GRPC/ssl/s3_pkt.cc:377-403 | an alert leaves the application data, its retry state, all that was sealed and written before and the order on the wire alone; it is sealed and sent at once, as far as the BIO takes it, or waits while the buffer is not empty |
| `TlsWrite.TlsWriter.DispatchAlert` | Groute/Pods/BoringSSL-GRPC/ssl/s3_pkt.cc:405-423 | the alert is sealed exactly when a record can be, once, behind what was sealed before, without touching the application data |
| `HsClient.Client.ClientHandshake` | Groute/Pods/BoringSSL-GRPC/ssl/handshake_client.cc:1707-1789 | between two waits there are finitely many steps, the client never moves away from the end, and no message that was sent or has arrived is forgotten |
| `HsSafety.CompleteIsSafe` | Groute/Pods/BoringSSL-GRPC/ssl/handshake_client.cc:1674-1705 | a complete flow, for what the hellos settle, has both Finished exactly once, each over the messages before it, the client's first in a full handshake and the server's in one that resumes the session whose id was offered and returned, and in a full one with certificates a verified certificate and a signed key exchange |
| `HsSafety.FinishedOnce` | Groute/Pods/BoringSSL-GRPC/ssl/handshake_client.cc:1658-1672 | exactly one Finished per side, in the order the kind of handshake asks for |
| `HsSafety.KeyIsSigned` | Groute/Pods/BoringSSL-GRPC/ssl/handshake_client.cc:891-1071 | once past its place, an ephemeral key exchange is there and signed with the verified certificate's key |
| `HsSafety.AuthenticAt` | Groute/Pods/BoringSSL-GRPC/ssl/handshake.cc:380-476 | each Finished code covers exactly the messages before it, and each CertificateVerify and key exchange signature what it should |
| `HsSafety.PlacesGoUp` | Groute/Pods/BoringSSL-GRPC/ssl/handshake_client.cc:1707-1789 | in an ordered log no message comes twice or out of place |
| `HsTypes.StepsGoDown` | Groute/Pods/BoringSSL-GRPC/ssl/handshake_client.cc:1538-1789 | the rank of a state, which depends on whether a session is resumed, goes down with every step |
| `HsTypes.StepsGoRound` | Groute/Pods/BoringSSL-GRPC/ssl/handshake_client.cc:1538-1672 | drawn without that distinction the steps form a cycle |
| `HsTypes.FullSteps` | Groute/Pods/BoringSSL-GRPC/ssl/handshake_client.cc:771-1455 | no step of a full handshake that reads the server's messages skips one it cannot do without or takes one that does not belong |
| `HsTypes.SendSteps` | Groute/Pods/BoringSSL-GRPC/ssl/handshake_client.cc:1169-1455 | nor does any that sends the client's |
| `HsTypes.LastSteps` | Groute/Pods/BoringSSL-GRPC/ssl/handshake_client.cc:1538-1705 | nor does any step of the second half, in either order |
| `HsClient.Client.DoStartConnect` | Groute/Pods/BoringSSL-GRPC/ssl/handshake_client.cc:385-452 | the session's id is offered in the first handshake if it has one, the log is the ClientHello, and the flight is flushed |
| `HsClient.Client.DoEnterEarlyData` | Groute/Pods/BoringSSL-GRPC/ssl/handshake_client.cc:454-489 | returns early exactly if early data is offered, to the step that reads the ServerHello |
| `HsClient.Client.DoReadServerHello` | Groute/Pods/BoringSSL-GRPC/ssl/handshake_client.cc:535-759 | when it goes on, the session is resumed if and only if one was offered in the first handshake and the server returned its id, the parameters are those the ServerHello names, the hash has taken over both hellos, and the handshake goes the way of a resumed or a full one; it fails only on another message, an unreadable one, one that answers early data with an older version or returns an id without resuming, or a failing operation |
| `HsClient.Client.SettleSession` | Groute/Pods/BoringSSL-GRPC/ssl/handshake_client.cc:621-653 | resumed exactly if the id that was offered is returned; an id that was made up must not be |
| `HsClient.Client.DoReadServerCertificate` | Groute/Pods/BoringSSL-GRPC/ssl/handshake_client.cc:771-819 | the certificate is taken if and only if the cipher asks for one |
| `HsClient.Client.DoReadCertificateStatus` | Groute/Pods/BoringSSL-GRPC/ssl/handshake_client.cc:821-869 | an optional message in its place |
| `HsClient.Client.DoVerifyServerCertificate` | Groute/Pods/BoringSSL-GRPC/ssl/handshake_client.cc:871-889 | goes on only with an accepted certificate; a retry changes nothing |
| `HsClient.Client.DoReadCertificateRequest` | Groute/Pods/BoringSSL-GRPC/ssl/handshake_client.cc:1073-1143 | the handshake buffer is kept exactly as long as a certificate may have to be proved |
| `HsClient.Client.DoReadServerHelloDone` | Groute/Pods/BoringSSL-GRPC/ssl/handshake_client.cc:1145-1167 | the last message of the server's first flight |
| `HsClient.Client.DoSendClientKeyExchange` | Groute/Pods/BoringSSL-GRPC/ssl/handshake_client.cc:1220-1371 | the key exchange message goes out in its place |
| `HsClient.Client.DoSendClientCertificateVerify` | Groute/Pods/BoringSSL-GRPC/ssl/handshake_client.cc:1373-1455 | the signature covers all messages before it; waiting for the key changes nothing |
| `HsClient.Client.SendFinished` | Groute/Pods/BoringSSL-GRPC/ssl/handshake.cc:431-476 | the code covers everything sent and consumed so far |
| `HsClient.Client.DoFinishFlight` | Groute/Pods/BoringSSL-GRPC/ssl/handshake_client.cc:1538-1564 | a resumed handshake is over; a full one goes on to the server's Finished, returning early exactly if False Start is on, fits the parameters, and the key exchange is ephemeral, over TLS and in the first handshake |
| `HsClient.Client.DoReadServerFinished` | Groute/Pods/BoringSSL-GRPC/ssl/handshake.cc:380-429 | accepts only the code over the transcript before the message; after it a resumed handshake sends its own Finished and a full one is over |
| `HsClient.Client.DoFinishClientHandshake` | Groute/Pods/BoringSSL-GRPC/ssl/handshake_client.cc:1674-1705 | the last step |
| `HsClient.Client.AddMessage` | Groute/Pods/BoringSSL-GRPC/ssl/handshake.cc:176-184 | a message is handed to the transport and enters the transcript, once, unless the operation fails |
| `HsClient.Client.TakeMessage` | Groute/Pods/BoringSSL-GRPC/ssl/handshake.cc:215-222 | the current message is consumed and enters the transcript, once, unless something is wrong with it |
| `HsTranscript.Transcript.Init` | Groute/Pods/BoringSSL-GRPC/ssl/ssl_transcript.cc:159-168 | an empty buffer and no hash |
| `HsTranscript.Transcript.InitHash` | Groute/Pods/BoringSSL-GRPC/ssl/ssl_transcript.cc:181-195 | the hash takes over what the buffer holds |
| `HsTranscript.Transcript.Update` | Groute/Pods/BoringSSL-GRPC/ssl/ssl_transcript.cc:236-252 | both, as far as they are active, hold the bytes added |
| `HsClient.Client.RunHandshake` | Groute/Pods/BoringSSL-GRPC/ssl/handshake.cc:491-628 | if the server plays its part and nothing fails or blocks, it returns 1, and unless it returns early has exchanged just the messages planned; from any state an earlier call left, it ends; a completed handshake is safe, under its own keys, and its transcript exactly the messages exchanged, those before the call included, except for a first ClientHello and the HelloVerifyRequest that answers it; early returns happen only with early data offered or for False Start with the server authenticated, and bring the end nearer; and an error is for good |
| `HsClient.Client.StartsOnPlan` | Groute/Pods/BoringSSL-GRPC/ssl/handshake.cc:491-628 | a new client is set for success if the records that arrive bring what the server sends in a handshake that is complete and authentic for what the hellos settle, with as many answers of the transport as records and steps |
| `HsClient.Client.AfterStep` | Groute/Pods/BoringSSL-GRPC/ssl/handshake_client.cc:1707-1789 | each step of an undisturbed client keeps what has been exchanged the beginning of what is planned |
| `HsClient.Client.DueMessage` | Groute/Pods/BoringSSL-GRPC/ssl/handshake_client.cc:771-1672 | the message that has come is then the one the state is there for, and passes every check |
| `HsPlan.NextComes` | Groute/Pods/BoringSSL-GRPC/ssl/handshake_client.cc:1712-1777 | as long as a necessary message is missing, the next of a complete flow comes no later than that |
| `HsPlan.PlanSends` | Groute/Pods/BoringSSL-GRPC/ssl/handshake_client.cc:1169-1512 | what the client sends between two messages of the server is just what a complete flow has there |
| `HsPlan.PlanSkips` | Groute/Pods/BoringSSL-GRPC/ssl/handshake_client.cc:821-1143 | what it passes over is not in the flow |
| `HsExample.FullHandshake` | Groute/Pods/BoringSSL-GRPC/ssl/handshake_client.cc:1707-1789 | such a run: a full handshake with a certificate and an ephemeral key succeeds |
| `HsExample.ResumedHandshake` | Groute/Pods/BoringSSL-GRPC/ssl/handshake_client.cc:1707-1789 | and, in DTLS, after a HelloVerifyRequest, one that resumes a session and takes a new ticket |
| `HsClient.Client.Resolve` | Groute/Pods/BoringSSL-GRPC/ssl/handshake.cc:491-609 | what each wait comes to; a lookup is reported once, and the next call goes on |
| `HsClient.Client.Step` | Groute/Pods/BoringSSL-GRPC/ssl/handshake_client.cc:1712-1777 | every handler keeps the transcript exact, the messages in order, complete and only those that belong, what was checked of the peer, and the keys, and forgets no message; it fails only if an operation does or the message at hand is not one to go on with, and waits only for a message or for an answer that takes longer |
| `HsClient.Client.DoReadHelloVerifyRequest` | Groute/Pods/BoringSSL-GRPC/ssl/handshake_client.cc:491-533 | only a HelloVerifyRequest, and only the first message, starts the transcript over with a new ClientHello; any other message leaves it alone |
| `HsClient.Client.DoReadServerKeyExchange` | Groute/Pods/BoringSSL-GRPC/ssl/handshake_client.cc:891-1071 | the message is required for ephemeral ciphers, refused for RSA, and signed whenever there is a certificate |
| `HsClient.Client.ProvideCertificate` | Groute/Pods/BoringSSL-GRPC/ssl/handshake_client.cc:1177-1211 | without a certificate the handshake buffer is released, and in SSL 3.0 nothing is sent |
| `HsClient.Client.DoSendClientCertificate` | Groute/Pods/BoringSSL-GRPC/ssl/handshake_client.cc:1169-1215 | a certificate goes out if and only if one was asked for and there is one or an empty one can be sent |
| `HsClient.Client.DoSendClientFinished` | Groute/Pods/BoringSSL-GRPC/ssl/handshake_client.cc:1457-1512 | Finished goes out once, after the optional messages, under the new keys, with the code of everything before it |
| `HsClient.Client.DoReadSessionTicket` | Groute/Pods/BoringSSL-GRPC/ssl/handshake_client.cc:1566-1647 | the ticket is taken if and only if it was announced |
| `HsClient.Client.DoProcessChangeCipherSpec` | Groute/Pods/BoringSSL-GRPC/ssl/handshake_client.cc:1649-1656 | the keys for reading change before Finished is read |

## Left out

- nanopb: heap-allocated and pointer fields, callbacks, extensions, `PB_WITHOUT_64BIT`, `PB_BUFFER_ONLY` and error messages; the delimited and null-terminated forms of `pb_encode` and `pb_decode`.
- nanopb: the destination structure is a value passed in and handed back, and a oneof's members do not overlap in it; the layout of the structure appears only as the iterator's data offset.
- nanopb: `size_t` is unbounded; `pb_size_t` has 32 bits, as the build configures it.
- PbDecoder.SetFieldToDefault: leaves the storage of a fixed-count array alone, where the source, which resets a count at that place (`pb_decode.c:843`), clears the array's first bytes; an array that is then received is overwritten entry by entry either way.
- nanopb: a proto3 submessage with a fixed-count array is excluded, because `pb_check_proto3_default_value` reads the array's data as its count; tags are unique, non-zero and below 2^29, and proto3 fields have no default, as the generator guarantees.
- PbWire.Varint32IsLowBits: only for varints of at most ten bytes, because the source counts shifts in a type of at least eight bits and what happens beyond is platform dependent.
- PbLaws.ConcatenationIsMerge: not for schemas with fixed-count arrays, because the second call expects such an array from its beginning again while one call carries its count on.
- PbInput.IStream.DecodeVarint: adds each group where the source ors it in; `PbWire.OrIsAdd` is the reason the two are the same.
- DTLS: authenticated encryption is a pair of unknown functions of the cipher, record type, version and number, and may fail at any time, except for the null cipher; sealing is assumed invertible only where a record is opened by the other end, which is taken to have the same keys for the epoch.
- DTLS: whether the timer has expired, what the BIO answers to queries for an MTU, and what writing and flushing return are inputs; the BIO carries nothing but flights, so that application data between them is not modelled.
- DtlsWrite.RecordWriter.SetWriteState: requires that the 16-bit epoch does not wrap around, as nothing in the source prevents it and a handshake uses two.
- DtlsSender.FlightSender.DoubleTimeout: takes a duration of 32 bits, as the source keeps it.
- DtlsEndpoint.Listen: for fewer than 2^16 messages, since their numbers repeat afterwards; for packets the peer wrote, so that packets forged in the first epoch, which is not protected, are not covered.
- DtlsEndpoint.HearFlight: for a flight none of whose records has been heard before, whose packets are all read before the first message is handed up, and that keeps within what the receiver accepts; of a flight that goes on in the next epoch it covers the part in the epoch being read, and again the rest after the change, as the source drops records of an epoch that has not begun.
- PbLaws.DecodeIsBounded: looks at what is in use, which leaves out arrays of fixed count, as they have none of their own and keep their storage when they are not received; `PbLaws.DecodeKeepsBounds` covers them for storage that is bounded to begin with.
- DTLS: alerts.
- TLS: record splitting for CBC ciphers, so that one call seals one record; the alignment of the buffer is kept.
- TLS: where `malloc` puts a buffer and whether it succeeds is an unknown function of the call.
- TlsWrite.TlsWriter.FlushFlight: says that everything has been written unless the 16-bit offset has wrapped around before, which `oversized` records.
- TLS: reading records, and the handshake that a write may have to run first, which is reported to the caller.
- Handshake: TLS 1.3, to which the client hands over after the ServerHello, renegotiation beyond the flags it leaves, handoff, and the server side.
- Handshake: the contents of hellos, key exchanges, tickets and extensions, and the key schedule; what a ServerHello and its extensions say is an unknown function of the message, which need not give anything, and whether another message can be parsed is one of the answers to whether an operation fails.
- Handshake: Finished codes, signatures, the verification of certificates and of key exchange signatures are unknown functions of the messages they cover; a verdict on a certificate that depends on the time or on a stapled status besides is one such function for each run.
- Handshake: whether there is a certificate of ours once the application's callbacks have run is fixed for a client, and the application does not change its certificates between the calls of one handshake; an outcome of the transport other than progress, blocking and failure is not told apart.
- Handshake: ChangeCipherSpec messages are no part of the log, which holds handshake messages; their place is the order of states.
- HsClient.Client.RunHandshake: the transport answers finitely often and then blocks, so that the loop that asks it again ends; how often is unknown. That the handshake succeeds is proved for records that each hold something for it, without early data, and with a session that can still be offered.
- HsPlan: a server's HelloVerifyRequest is planned at most once, as the client takes no second one.
- PbMerge.OccurrencesMerge: not for submessages with fixed-count arrays or contents that meet the end marker, where `PbLaws.EndMarkerHidesTheRest` says what happens.
- PbArrays.ArrayTakesExactly: for entries that are no submessages, each under a key of its own; packed arrays are covered by `PbProject.ReadArray` and the bounds.
- PbPresence.ZeroEncodesToNothing: without fixed-count arrays, which are sent whatever they hold.
- The Swift application, Firebase, the other vendored libraries, and BoringSSL's `crypto` directory.
