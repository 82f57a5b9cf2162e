# MoonBit S7, verified model

A Dafny model of a Siemens S7 communication client and of the PLC simulator that ships with it. The client
splits transfers into chunks, encodes them as TPKT/COTP/S7 frames, and parses the answers; the simulator decodes
those frames with its own offset arithmetic, updates a dictionary of data blocks, and builds the answers. The model
follows both ends byte for byte, and the main results say what the two ends achieve together.

`dafny verify dfyconfig.toml` checks the whole project. Automatic induction is switched off on every lemma; inductive
proofs recurse explicitly.

| module | models |
|---|---|
| `Bytes`, `Items` | bytes, 16-bit fields, areas, data types, word lengths, request items |
| `Telegrams` | the frame builders and response parsers of `protocol/s7comm.mbt` |
| `Simulator` | memory, request decoding and response builders of `tools/s7_sim.py`; class `DbServer` updates the dictionary in place |
| `WriteCodec` | jobs across the wire: a strict parser with literal codes, and the simulator's running offset |
| `Exchange` | one request and its answer, both directions |
| `Wire` | every telegram read with literal bytes alone: what requests carry, what replies say, what the client makes of any reply |
| `Tpkt` | `read_exactly` and `read_tpkt` on a stream that arrives in arbitrary segments |
| `Peer` | the connection state machine of the PLC and the client's end of the link |
| `Transfer`, `Client` | the chunked loops: as functions of the PLC's state with the theorems about them, and as methods over a live link |
| `S7String`, `StringAccess` | S7 STRING fields in UTF-8, alone and through the PLC |
| `Integers` | 32-bit integer fields, alone and through the PLC |
| `Floats` | the hand-written IEEE 754 conversions |
| `Sessions` | several clients at once: client steps, handler steps and byte deliveries in any order, on one shared memory |
| `Interleaving`, `History`, `Serializability`, `Progress` | what holds in every run of that system: safety, an exact account of memory, atomicity, termination |
| `Limit` | where the safety of that system ends |

## Main results

- **Whole transfers.** A chunked write is one flat update of memory, a chunked read is one slice, for every length,
  area and PDU size; the exact condition under which each succeeds is stated, and so is the exact outcome when the PLC
  refuses a chunk of either. Written data is read back unchanged under any two PDU sizes that meet those conditions.
- **Codec.** The size guard is exact and makes every narrowing conversion lossless: a parser that knows only length
  fields and literal codes recovers every item of read and write jobs, its area included. Connection requests carry both
  TSAPs, replies carry reference and payload, and a rejected read or write is reported with the PLC's own code. The simulator's own decoder recovers them if and only if the items hold whole
  elements and only the last one may be empty; then one job of many items equals the items sent one by one.
- **Concurrency.** For any number of clients, any schedule, any segmentation of the streams and any announced size, and
  whatever the clients do to each other's data: at most one message of a session is outstanding, the two sides stay in
  step, and a reply in flight is the one the PLC made, out of the memory of that moment, for the chunk the client still
  waits for, although the client never compares PDU references. Memory is what the served chunks make of it in the
  order in which they were served, and each client's write chunks are served once each, in program order. Every run makes
  a bounded number of changes, no reachable state is a deadlock, and every run can be completed. Clients that do not
  write what another one uses get the results, error for error, and leave the memory, of running the whole programs one
  after another in any order. The one condition on reads is that no reply outgrows its 16-bit length field, and it is
  exact.
- **Values.** STRING, DInt, f32 and f64 conversions round-trip exactly under a stated condition, in both directions of
  an if-and-only-if.

## Where the code and its promises part

The model follows the code. Each of these is a proved statement.

- A PLC that announces a PDU size above 964 makes every write longer than 929 bytes fail, because the chunk size grows
  with the announced size but the frame guard stays at 960 (`Transfer.ChunkedWriteSucceedsIff`,
  `Transfer.LargePduBreaksWrites`).
- `find_s7` scans from byte 0, so the TPKT length bytes can pass for an S7 header. The smallest such reply is 0x3201
  bytes long, and the client then reports a PLC error (`Exchange.ReadResponseExact`,
  `Transfer.LengthFieldTakenForHeader`).
- The comment at `client/client.mbt:342` counts 23 bytes of overhead in a read response and promises responses within
  the PDU size; the response has 25. A full chunk is answered with two bytes too many: 482 at a PDU size of 480
  (`Transfer.ReplyExceedsPdu`). `Transfer.RepliesFitPduIff` says exactly when whole replies stay within the size. Without
  the 7 bytes of the TPKT and COTP headers a reply is at most the PDU size minus 5 (`Transfer.ChunkedReadExact`).
- At an announced size of 65534 or 65535 a full read chunk gets a reply whose TPKT length field wraps to 0 or 1, and the
  client gives up the connection (`Limit.SafeIffReplyFits`, `Limit.LengthFieldWraps`).
- An empty write item encodes an element count of 1. Anywhere but last, it makes the simulator's offset drift
  (`WriteCodec.SimulatorDecodesIffAligned`, `WriteCodec.EmptyItemDrifts`).
- Byte addresses are encoded modulo 2^21 (`WriteCodec.AddressExact`).
- Cutting a string inside a four-byte character so that three of its bytes remain yields one wrong character instead of
  none (`S7String.TruncationExact`, `S7String.FourByteCutShowsGarbage`).
- `f32_from_bytes` decodes subnormal patterns with an implicit leading one, unlike IEEE 754-2019, section 3.4
  (`Floats.F32AgreesWithIeeeIff`); `f32_to_bytes` masks a carry out of the fraction away, so that 2 - 2^-25 decodes to 1
  (`Floats.F32RoundingExact`, `Floats.CarryAtTwo`);
  `f64_from_bytes` reads the low word as a signed number (`Floats.F64RoundTripExact`, `Floats.F64AgreesWithIeeeIff`);
  NaN patterns decode to an infinity (`Floats.InfinitiesBySign`); 2^129 overflows into the sign bit and encodes as
  negative zero (`Floats.F32Overflow`).
- The length indicator of a connection request is the constant 0x11, right only for TSAPs of four bytes together
  (`Wire.LengthIndicatorExact`); a TSAP of more than 255 bytes is not recoverable (`Wire.RequestCarriesTsaps`).
- A DInt field that sticks out of its data block reads as 0 without an error (`Integers.DIntSurvives`).

## Model

| member | source | states |
|---|---|---|
| `Telegrams.PutSpec` | protocol/s7comm.mbt:205-223 | twelve in-place stores leave exactly one item specification behind what was there |
| `Telegrams.Assemble` | protocol/s7comm.mbt:306-335 | the copy loops of a builder produce the TPKT, COTP and S7 headers followed by the two sections |
| `Telegrams.BuildReadPdu` | protocol/s7comm.mbt:194-252 | the read job built in place is the one `ReadFrame` names, or the size error |
| `Telegrams.BuildWritePdu` | protocol/s7comm.mbt:255-335 | the write job built in place is the one `WriteFrame` names, or the size error |
| `Telegrams.ScanForS7` | protocol/s7comm.mbt:178-189 | the scan returns the first header position, or -1 when there is none |
| `Telegrams.ParseReadResponse` | protocol/s7comm.mbt:340-380 | the client's reading of a reply, every error branch included |
| `Telegrams.BuildCotpCr` | protocol/s7comm.mbt:437-472 | the connection request built in place, for TSAPs of any length |
| `WriteCodec.GuardExact` | protocol/s7comm.mbt:306-311 | a write job is built exactly when 15 + 16n plus all data bytes is at most 960 |
| `WriteCodec.AddressExact` | protocol/s7comm.mbt:282-285 | two positions share an address exactly when bit and byte offset agree modulo 8 and 2^21 |
| `WriteCodec.ElementSizes` | protocol/constant.mbt:106-120 | the element size of every word length, the same on both sides |
| `WriteCodec.NewItemsOnWire` | protocol/constant.mbt:124-136 | a new item goes out under the word-length code of its data type, at bit 0, with the right count |
| `WriteCodec.AreaRecovered` | protocol/s7comm.mbt:40-59 | area code and data-block number on the wire name the item's own area |
| `WriteCodec.JobBytes` | protocol/s7comm.mbt:163-175 | every length field of a job frame states the real length of its section |
| `WriteCodec.NarrowingIsLossless` | protocol/s7comm.mbt:255-335 | success iff the size fits, and then a strict parser with literal codes that walks by the length fields recovers every item: area, address, word length, count, transport size and data |
| `WriteCodec.DecodePrefix` | tools/s7_sim.py:267-299 | after n whole, non-empty items the running offset stands at the n-th data item and the first n writes are recovered |
| `WriteCodec.DecodeForcesAlignment` | tools/s7_sim.py:267-299 | recovering the writes forces every item to be whole and all but the last to be non-empty |
| `WriteCodec.SimulatorDecodesIffAligned` | tools/s7_sim.py:267-299 | the simulator recovers exactly the encoded writes iff the item list is aligned |
| `WriteCodec.EmptyItemDrifts` | protocol/s7comm.mbt:275 | an empty item in front of another makes the simulator decode other writes |
| `WriteCodec.ParseJob` | tools/s7_sim.py:184-205 | the request parser finds the header of every job at index 7 and cuts both sections exactly |
| `WriteCodec.WriteJobEffect` | tools/s7_sim.py:267-299 | an aligned write job applies its writes in list order and is acknowledged |
| `WriteCodec.BatchIsSequence` | protocol/s7comm.mbt:255-335 | one job of many items has the effect of one job for each item, overlaps included |
| `Simulator.FreshBlock` | tools/s7_sim.py:211-213 | a block touched for the first time has 256 bytes, all zero |
| `Simulator.DbServer.Ensure` | tools/s7_sim.py:211-213 | a data block comes into being with 256 bytes, each zero; a present one and every other block are kept |
| `Simulator.DbServer.PokeBytes` | tools/s7_sim.py:296-297 | the byte loop overlays the data and changes no other byte or block |
| `Simulator.DbServer.HandleRead` | tools/s7_sim.py:238-265 | the read loop returns the joined clipped slices and only creates blocks |
| `Simulator.DbServer.HandleWrite` | tools/s7_sim.py:267-299 | the write loop with its running offset applies exactly the decoded writes |
| `Simulator.DbServer.Serve` | tools/s7_sim.py:338-352 | one READY turn: answer and new memory for every frame, status, SZL and malformed ones included |
| `Exchange.ReadResponseExact` | protocol/s7comm.mbt:340-380 | the client recovers a payload iff the frame length does not look like a header, whatever the payload is |
| `Exchange.WriteAckExact` | client/client.mbt:404-413 | a write succeeds iff the return code is 0xFF, and any other code is reported |
| `Exchange.ReadJobIsLossless` | protocol/s7comm.mbt:194-252 | success iff the size fits, and then the strict parser recovers every item's area, address, word length and count |
| `Exchange.ReadJobEffect` | tools/s7_sim.py:238-265 | a read job of many items returns the slices in order and changes no byte |
| `Exchange.ReadChunk` | client/client.mbt:352-369 | the answer to one read chunk is the clipped slice of the addressed area |
| `Exchange.WriteChunk` | client/client.mbt:431-445 | one write chunk fits a frame iff it has at most 929 bytes, and then it is one flat update |
| `Exchange.LoadJoin` | tools/s7_sim.py:256-263 | adjacent reads join to one read, cut at the end of the block |
| `Exchange.StoreJoin` | tools/s7_sim.py:293-297 | adjacent writes join to one write |
| `Wire.RequestCarriesTsaps` | protocol/s7comm.mbt:437-472 | a parameter walk recovers TPDU size 0x0A, the local TSAP as calling and the remote one as called, iff both have at most 255 bytes |
| `Wire.LengthIndicatorExact` | protocol/s7comm.mbt:446-456 | the fixed header of a connection request, and when its constant length indicator is right |
| `Wire.ConfirmationCarries` | tools/s7_sim.py:18-29 | what the simulator's confirmation carries |
| `Wire.ConfirmationAcceptedIff` | protocol/s7comm.mbt:475-486 | exactly which frames the client takes for a confirmation |
| `Wire.SetupAsksFor960` | protocol/s7comm.mbt:385-417 | the setup job byte by byte, asking for 960 |
| `Wire.FindIsFirst` | protocol/s7comm.mbt:178-189 | the scan finds the first position with 0x32 and a message type, error flag aside |
| `Wire.ReadReplyMeans` | protocol/s7comm.mbt:340-380 | for any reply: payload iff the return code is 0xFF, else that code; with the error flag the error class and code; short frames refused |
| `Wire.ReadReplyAtSeven` | protocol/s7comm.mbt:340-380 | the same for the usual reply: code at byte 21, payload from 25, error at 17 |
| `Wire.WriteReplyMeans` | client/client.mbt:404-413 | for any write answer: success iff the return code is 0xFF, else that code |
| `Wire.SetupReplyMeans` | protocol/s7comm.mbt:420-433 | for any setup answer: the size at bytes 25 and 26, or 480 |
| `Wire.ReplyIsLossless` | tools/s7_sim.py:56-81 | a strict parser recovers reference and payload of a read reply iff it fits its TPKT length |
| `Wire.WriteAnswer` | tools/s7_sim.py:83-98 | the write answer byte by byte |
| `Wire.SetupAnswer` | tools/s7_sim.py:31-54 | the setup answer byte by byte |
| `Wire.RequestMeans` | tools/s7_sim.py:184-205 | for any request: type, reference and both sections, cut at the end of the frame |
| `Wire.OddFramesAnswered` | tools/s7_sim.py:339-343 | frames without a header get ten zeros, malformed ones no answer |
| `Wire.UserdataAnswers` | tools/s7_sim.py:101-174 | a status request is answered with RUN at byte 44, every other userdata request with the CPU names |
| `Wire.OtherJobsAnswered` | tools/s7_sim.py:215-236 | which requests are userdata, and the ten zeros that every unknown job gets |
| `Tpkt.TakeExact` | transport/tcp.mbt:86-108 | a frame is cut off a stream exactly iff its header states its own length |
| `Tpkt.BadHeaders` | transport/tcp.mbt:89-95 | the two header errors, each for exactly its headers |
| `Tpkt.PrefixWaits` | transport/tcp.mbt:86-108 | part of a well-framed frame is never mistaken for a frame |
| `Tpkt.DeframingExact` | transport/tcp.mbt:86-108 | for every segmentation, successive reads return exactly the frames sent iff all are well framed |
| `Tpkt.Socket.ReadExactly` | transport/tcp.mbt:88-96 | n bytes are taken from any segments, or the stream ends first |
| `Tpkt.Socket.ReadTpkt` | transport/tcp.mbt:86-108 | one frame is read and exactly its bytes are consumed; a bad header costs four bytes, a closed stream everything, and both are reported |
| `Tpkt.Socket.ReadFrames` | transport/tcp.mbt:86-108 | repeated reads return the frames and leave the rest of the stream |
| `Peer.CrTurn` | tools/s7_sim.py:314-324 | the PLC accepts every connection request the client builds, and the client accepts the confirmation |
| `Peer.HandshakeExact` | tools/s7_sim.py:314-336 | exactly which frames move the handshake on; every other one ends the connection without an answer |
| `Peer.RefusedReadReported` | protocol/s7comm.mbt:363-369 | the client reports the return code of a rejected read as it stands |
| `Peer.SetupTurn` | tools/s7_sim.py:326-336 | the PLC accepts the setup job, and the client reads the announced size out of the answer |
| `Peer.NegotiationSucceeds` | transport/tcp.mbt:112-143 | negotiation leaves the PLC READY and the client with the announced size |
| `Peer.Link.PlcTurn` | tools/s7_sim.py:305-352 | one turn of the handler in each of its phases, on the frame at the front of the stream |
| `Peer.HandledIsTransact` | transport/tcp.mbt:248-292 | sending and receiving on an idle link is one exchange; when request and answer are whole frames nothing is left in flight |
| `Peer.Link.Receive` | transport/tcp.mbt:271-292 | one frame is taken off everything received so far, the PLC's answer last; bad headers and missing answers are reported |
| `Peer.Link.Negotiate` | transport/tcp.mbt:112-143 | the two exchanges of the handshake, with their error exits |
| `Transfer.WriteChunkRun` | client/client.mbt:388-414 | one chunk is applied and acknowledged, or refused, reported and not applied |
| `Transfer.ReadChunkRun` | client/client.mbt:352-377 | one chunk returns its slice exactly when the reply is readable |
| `Transfer.PieceCountIsCeiling` | client/client.mbt:430-447 | the loop makes ceil(n / max_chunk) exchanges |
| `Transfer.WriteFrom` | client/client.mbt:430-447 | from any offset: one flat update up to the first refusal, and no frame above the chunk size plus 35 |
| `Transfer.ChunkedWriteExact` | client/client.mbt:417-449 | every chunked write: one flat update, or exactly the chunks before the refused one and nothing sent after it; frames stay within the PDU size |
| `Transfer.ChunkedWriteSucceedsIff` | client/client.mbt:417-449 | without refusals a write succeeds iff the PDU size is at most 964 or the data at most 929 bytes, in ceil(n / max_chunk) exchanges |
| `Transfer.ReadFrom` | client/client.mbt:347-384 | from any offset: the collected bytes followed by one slice |
| `Transfer.ChunkedReadExact` | client/client.mbt:332-385 | every chunked read: one truncated slice, an error iff it is empty, a reply is unreadable or a chunk is refused, the refusal's own code, replies within the budget |
| `Transfer.SmallChunksAreReadable` | client/client.mbt:341-369 | no reply is unreadable while a chunk, the read or the data block stays below 12775 bytes |
| `Transfer.WriteThenRead` | client/client.mbt:332-449 | data written under one PDU size and read under another is the data; every other byte and block is unchanged |
| `Transfer.ReadRefused` | client/client.mbt:347-372 | if the PLC refuses the (k+1)-th chunk of a read after k readable replies, its code is reported and nothing is sent after the refusal |
| `Transfer.FreshRead` | tools/s7_sim.py:256-260 | a block that was never touched reads as zeros up to byte 256, and as an error exactly from there on |
| `Transfer.FreshWriteThenRead` | tools/s7_sim.py:293-297 | data written to such a block comes back whole iff it lies in its first 256 bytes |
| `Transfer.WriteExchanges` | client/client.mbt:426-431 | the exchange count of a write, the fallback chunk of 240 bytes included |
| `Transfer.ReadExchanges` | client/client.mbt:345-351 | the exchange count of a read, the fallback chunk of 240 bytes included |
| `Transfer.LargePduBreaksWrites` | client/client.mbt:426-428 | an announced size of 1000 makes a write of 930 bytes fail with nothing sent |
| `Transfer.LengthFieldTakenForHeader` | protocol/s7comm.mbt:178-189 | a reply of 0x3201 bytes is not readable, whatever memory holds |
| `Transfer.FirstReplyLongest` | client/client.mbt:347-380 | the first reply of a read has 25 bytes more than its slice, and no later reply is longer |
| `Transfer.RepliesFitPduIff` | client/client.mbt:342-346 | whole replies stay within the PDU size iff the read, or what its data block holds from the start, is at most that size minus 25 |
| `Transfer.ReplyExceedsPdu` | client/client.mbt:342-346 | at PDU size 480 a full chunk is answered with 482 bytes |
| `Client.Connect` | client/client.mbt:38-52 | the negotiated size becomes the client's, and the PLC is READY and idle |
| `Client.SendAndReceive` | client/client.mbt:361-368 | one exchange over a live link, idle again after a clean one |
| `Client.CheckAck` | client/client.mbt:404-413 | the return-code check on any write answer |
| `Client.ExecWrite` | client/client.mbt:388-414 | one write exchange over a live link, with every error exit |
| `Client.ChunkedWrite` | client/client.mbt:417-449 | the write loop over a live link leaves the PLC as `WriteRun` says |
| `Client.CopyChunk` | client/client.mbt:432-435 | the inner copy loop yields exactly the slice |
| `Client.ChunkedRead` | client/client.mbt:332-385 | the read loop over a live link returns what `ReadRun` says |
| `Client.ReadOne` | client/client.mbt:351-377 | one turn of the read loop, its payload pushed byte by byte |
| `StringAccess.AgWriteString` | client/client.mbt:118-134 | the field bytes go through the chunked write and are returned |
| `StringAccess.AgReadString` | client/client.mbt:99-113 | the chunked read is decoded, and its errors are passed on |
| `StringAccess.StringSurvivesThePlc` | client/client.mbt:99-134 | a string written and read back is its longest fitting prefix iff the cut leaves no three bytes of a four-byte character; declared and current length stand in the first two bytes |
| `StringAccess.ReadStringExact` | client/client.mbt:99-113 | a field that sticks out of its block decodes what is there, one outside is an error |
| `S7String.DecodeUtf8` | protocol/s7comm.mbt:115-143 | the index-advancing decoder computes the recursive one, on every byte sequence |
| `S7String.EncodeS7String` | protocol/s7comm.mbt:101-111 | the layout of a STRING field, cut by bytes |
| `S7String.DecodeS7String` | protocol/s7comm.mbt:148-160 | the length byte is cut to what is there, and the rest is decoded |
| `S7String.StringFieldToBytes` | protocol/field.mbt:500-506 | the field is padded with zeros to its declared size |
| `S7String.Utf8Table` | protocol/s7comm.mbt:102-104 | lead byte, continuation bytes and value of every encoded character, as in RFC 3629, section 3 |
| `S7String.FieldLayout` | protocol/s7comm.mbt:101-111 | byte 0 is the declared length, byte 1 the current one, then the cut UTF-8 bytes, then zeros |
| `S7String.CutFieldDecodes` | protocol/s7comm.mbt:148-160 | the current length is cut to the bytes that are there |
| `S7String.TruncationExact` | protocol/s7comm.mbt:101-143 | decoding a cut encoding gives the longest fitting prefix iff three bytes of a four-byte character do not remain; otherwise one character too many |
| `S7String.TruncationSafeOnBmp` | protocol/s7comm.mbt:101-143 | below U+10000 no cut does harm |
| `S7String.FieldRoundTrip` | protocol/field.mbt:500-506 | a string that fits comes back from its padded field; a longer one as `TruncationExact` says |
| `S7String.FourByteCutShowsGarbage` | protocol/s7comm.mbt:115-143 | U+10000 in a field of three bytes reads back as U+0400 |
| `Bytes.WordOfBytes` | protocol/field.mbt:216-233 | the four bytes keep a value modulo 2^32 |
| `Bytes.BytesOfWord` | protocol/field.mbt:216-233 | every four bytes are the bytes of the value they denote |
| `Integers.DIntExact` | protocol/field.mbt:237-247 | signed encoding is undone exactly on the 32-bit range, and decoding reaches it from every pattern |
| `Integers.DIntSurvives` | client/client.mbt:184-200 | a signed value written and read back: itself inside the block, 0 when the field sticks out, an error outside |
| `Floats.Pow2Loop` | protocol/field.mbt:433-444 | the loop computes the power of two for exponents of either sign |
| `Floats.Ilog2Loop` | protocol/field.mbt:447-459 | the loop terminates on every positive real, at the binary logarithm |
| `Floats.Log2Unique` | protocol/field.mbt:447-459 | the binary logarithm is the only n with 2^n <= x < 2^(n+1) |
| `Floats.F32RoundTripExact` | protocol/field.mbt:340-377 | every finite pattern survives decoding and encoding iff it is not negative zero |
| `Floats.F32AgreesWithIeeeIff` | protocol/field.mbt:340-357 | the decoder gives the IEEE 754 value iff the pattern is not subnormal |
| `Floats.F32Increasing` | protocol/field.mbt:340-357 | decoding is strictly increasing on the non-negative finite patterns |
| `Floats.F32RoundingExact` | protocol/field.mbt:360-377 | in the normal range the sign is kept, and the error is within half a unit iff rounding does not carry |
| `Floats.CarryAtTwo` | protocol/field.mbt:360-377 | 2 - 2^-25 carries, and decodes to 1 |
| `Floats.F64RoundTripExact` | protocol/field.mbt:380-430 | a normal double or a zero survives decoding and encoding iff its fifth byte is below 0x80 and it is not negative zero |
| `Floats.F64AgreesWithIeeeIff` | protocol/field.mbt:380-403 | the decoder gives the IEEE 754 value of a normal double iff its fifth byte is below 0x80 |
| `Floats.InfinitiesBySign` | protocol/field.mbt:340-403 | the largest exponent field decodes to an infinity of the sign, whatever the fraction |
| `Floats.F32Overflow` | protocol/field.mbt:360-377 | from 2^128 to 2^129 values decode to an infinity of their sign, and 2^129 encodes as negative zero |
| `Interleaving.RequestExact` | client/client.mbt:417-449 | a chunk request fails only for a write that can never fit; every other one the PLC turns into its effect and reply |
| `Interleaving.Listen` | transport/tcp.mbt:271-292 | with part of a reply received the client does nothing; with all of it, it takes exactly the reply |
| `Interleaving.Serve` | tools/s7_sim.py:305-352 | with part of a request received the PLC does nothing; with all of it, it answers exactly that request |
| `Interleaving.InStepKept` | transport/tcp.mbt:112-194 | every action of client, PLC or network keeps the two sides in step |
| `Interleaving.ExchangeTurn` | tools/s7_sim.py:338-352 | a request is served once, by its effect on shared memory, and answered with its reply |
| `Interleaving.ReplyStep` | client/client.mbt:369-379 | a reply completes its chunk or ends the operation with the error it is read as |
| `Interleaving.ReplyHasOrigin` | transport/tcp.mbt:271-292 | a reply in flight was made by a PLC step of the same session, at this point of the program, out of the memory of that moment |
| `Interleaving.EveryRunIsSafe` | tools/s7_sim.py:305-352 | in every reachable state of any number of clients: one message outstanding, PLC READY and sizes equal once connected, the reply in flight is the one made for the chunk still waited for |
| `History.MemoryIsHistory` | tools/s7_sim.py:209-301 | in every run memory is the served chunks applied in the order of the PLC's steps |
| `History.StepRemains` | client/client.mbt:430-447 | what a step serves is what it takes off the write chunks still to come |
| `History.EachWriteChunkOnce` | client/client.mbt:417-449 | in every run each write chunk of a client is served once, in program order; none is lost, repeated or overtaken |
| `History.ChunksAreFlat` | client/client.mbt:430-447 | the chunks of a write, uninterrupted, are one flat update |
| `Limit.LongReplyBreaks` | transport/tcp.mbt:92-95 | a slice of more than 65510 bytes leads to a state in which the client has given up |
| `Limit.SafeIffReplyFits` | client/client.mbt:345-346 | a client of one operation keeps its connection in every run iff no reply can outgrow its length field |
| `Limit.LengthFieldWraps` | tools/s7_sim.py:56-81 | at 65534 a read of 65511 flag bytes is answered with a length field of 0 |
| `Serializability.EffectAgrees` | tools/s7_sim.py:215-301 | serving a chunk changes shared memory as it changes the memory of its client alone, and only in that client's bytes |
| `Serializability.SystemStep` | tools/s7_sim.py:209-382 | every action of one session keeps what every session knows about shared memory |
| `Serializability.OpIsTransfer` | client/client.mbt:332-449 | the atomic operation used as specification is what the chunk loop of a client alone achieves, error for error; a readable read is the flat slice |
| `Serializability.SerialKeeps` | client/client.mbt:417-449 | programs run whole, one after another in any order, do not see each other |
| `Serializability.EveryRunIsSerializable` | client/client.mbt:417-449 | every schedule gives the results and the final memory of the programs run whole in any order |
| `Progress.StepSpends` | client/client.mbt:332-449 | every action changes nothing or spends some of a bounded budget |
| `Progress.EveryRunIsBounded` | client/client.mbt:332-449 | no schedule makes more changes than a bound computed from the programs |
| `Progress.NoDeadlock` | transport/tcp.mbt:271-292 | in every reachable state all programs are done or some action changes the state |
| `Progress.EveryRunCanFinish` | client/client.mbt:332-449 | every reachable state can be continued until all programs are done |

## Left out

- PLC control, PLC status and SZL on the client's side, with their fixed-offset parsers: constant tables. The simulator's answers to status and SZL requests are modelled.
- Timeouts, TLS, host connection and the async runtime: a missing answer is an error that ends the exchange, and steps of the concurrent system are never abandoned.
- The simulator reads whole TPKT frames here instead of whatever one `recv` returns.
- The simulator announces 480 and refuses nothing; the model lets a PLC announce any size, and refuse any read or write job with any return code other than 0xFF without applying it.
- A handler serves one frame atomically. Interleaving of two handlers inside one frame is not modelled.
- Serializability.EveryRunIsSerializable: the condition that no program writes what another one uses is sufficient, not necessary; and operations lie inside the 2^21-byte address range, where a write is one flat update.
- Limit.SafeIffReplyFits: for programs of one operation; for longer programs the condition on every read is proved sufficient.
- Offsets and lengths are unbounded integers in the model; the library's are 32 bits wide and would overflow far outside the address range the frames can express.
- Writes of items whose word length the library does not know: the library divides by zero there, and the builders require a known word length instead.
- Connection requests longer than a TPKT frame can state (TSAPs of more than 65517 bytes together).
- A negative declared string length: declared lengths are natural numbers.
- NaN, infinities as inputs of the encoders, and subnormal doubles; `Double` is modelled by `real`, on ranges where every operation of the code is exact in binary64.
- Word and Int accessors, `BoolField`, `FieldValue`, getters, error constructors and printing: one-branch facts.
- The initial contents of DB200 in the simulator: the theorems hold for every initial memory.
