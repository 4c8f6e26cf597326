# R502 fingerprint sensor driver — Dafny model

This project models the protocol engine of the `hzgrow-r502` Rust driver for
the R502 fingerprint sensor, which talks to the sensor over a UART. The driver
object `R502` owns five things: the device address, a 128-byte command
buffer, a 1024-byte receive buffer, the command whose reply it is waiting for,
and the two halves of the serial link. `send_command` runs one request/reply cycle:

1. It clears both buffers.
2. It builds the command packet. The packet is the start code `EF 01`, the
   big-endian device address, and the payload: packet type `01`, a length
   field, the instruction code and its parameters. The packet ends with a
   16-bit checksum of everything from byte 6 on.
3. It writes the packet byte by byte and flushes.
4. It reads a 9-byte reply header, then as many bytes as the header's length
   field announces.
5. It decodes the reply as the answer to the command in flight.

The model takes the source's own shape:

- `Driver.R502` is a class. Its command and receive buffers are `array<byte>`
  with fill counters, and its methods update them in place.
- Each method is proved against a specification function over its inputs and
  the state before the call:
  - `Framing.Packet` for `prepare_cmd`;
  - `Driver.WriteSpec` for the write loop;
  - `Driver.FillSpec` and `Driver.ReadReplySpec` for `read_reply`;
  - `Dispatch.ParseReply` for `parse_reply`;
  - `Driver.Exchange` for all of `send_command`.
- Lemmas state the properties of those functions: round trips, framing,
  error cases, and which bytes were read from where.

The serial link is a pair of functions:

- the byte source `rx` gives the outcome of the k-th read: a byte or a
  transport error;
- the byte sink `tx` gives the outcome of the k-th write or flush: success or
  a transport error.

The driver object counts the operations it has performed on each. This makes
every cycle a deterministic function of the link's behaviour.

Where the source panics, the model returns an error value:

- `UnknownStatusCode`: a status byte outside a decoder's table.
- `MalformedReply`: a reply too short for its decoder.
- `ReceiveBufferFull`: a push onto the full receive buffer.

`read_reply` returns `9 + length` as a `u16` (src/driver.rs:133). The model
proves this sum always fits: a successful read holds exactly that many bytes
in the 1024-byte buffer (`Driver.ReadReplyFacts`).

`Vectors` restates, over the model, every byte-exact example in the driver's
unit tests: the checksum, the serialised packets and the decoded replies.

## Model

| member | source | states |
|---|---|---|
| Bytes.BE16 | src/driver.rs:95 | the two bytes of a 16-bit value, most significant first: `256*hi + lo` is the value |
| Bytes.FromBE16 | src/driver.rs:125 | the big-endian value of a byte pair: its quotient and remainder by 256 are the high and low bytes |
| Bytes.BE32 | src/driver.rs:102 | the four address bytes, most significant first, whose big-endian value is the address |
| Bytes.FromBE32 | src/driver.rs:248-283 | the big-endian value of four bytes (the address field of a reply): its upper and lower halves are the values of the two byte pairs |
| Bytes.BE16RoundTrip | src/driver.rs:125 | reading back the encoding of a 16-bit value gives the value |
| Bytes.FromBE16RoundTrip | src/driver.rs:125 | re-encoding the value of a byte pair gives the pair |
| Bytes.BE32RoundTrip | src/driver.rs:102 | reading back the four address bytes gives the address |
| Bytes.FromBE32RoundTrip | src/driver.rs:102 | re-encoding the value of four bytes gives the four bytes |
| Checksums.Checksum | src/driver.rs:105-113 | the checksum is the 16-bit wrapped byte sum; over at most 257 bytes it equals the plain sum, so the `u16` accumulator never overflows |
| Checksums.SumBound | src/driver.rs:109-111 | each byte adds at most 0xFF to the sum |
| Checksums.SumFront | src/driver.rs:109-111 | the sum can equally be taken from the first byte on |
| Checksums.SumAppend | src/driver.rs:109-111 | the sum of a concatenation is the sum of the parts |
| Checksums.ChecksumAppendByte | src/driver.rs:110 | adding one byte to the running checksum gives the checksum of the range extended by that byte |
| Checksums.ChecksumConcat | src/driver.rs:105-113 | the checksum of a concatenation is the wrapped sum of the parts' checksums |
| Commands.Opcode | src/driver.rs:229-892 | every command's instruction code is one of the sensor's eleven codes 0x01-0x07, 0x0C, 0x0F, 0x13, 0x1D; each command's own code is pinned by its serialisation vector |
| Commands.Params | src/driver.rs:467-490 | a command's parameter bytes, big-endian fields, at most 5 bytes (Search's) |
| Commands.Payload | src/driver.rs:93 | the payload is 4 to 9 bytes: packet type 0x01, a length field counting every byte after it including the checksum, then the instruction code |
| Commands.PayloadRoundTrip | src/driver.rs:93 | the sensor's reading of the payload recovers the command, parameters included |
| Commands.PayloadInjective | src/driver.rs:93 | distinct commands never share a payload |
| Framing.Packet | src/driver.rs:91-98 | every packet is 12 to 17 bytes, so it always fits the 128-byte command buffer |
| Framing.PacketLayout | src/driver.rs:91-103 | start code, big-endian address, payload from byte 6, length field equal to the bytes after it, and the checksum of bytes 6 onward as the last two bytes; the packet is well framed |
| Framing.PacketRoundTrip | src/driver.rs:91-98 | decoding a packet the driver builds gives back the address and the command |
| Framing.PacketInjective | src/driver.rs:91-98 | different (address, command) pairs never give the same packet |
| Responses.Busy | src/responses.rs:75-77 | true exactly when bit 0 of the status register is set |
| Responses.HasFingerMatch | src/responses.rs:83-85 | true exactly when bit 1 of the status register is set |
| Responses.PasswordOk | src/responses.rs:90-92 | true exactly when bit 2 of the status register is set |
| Responses.HasValidImage | src/responses.rs:97-99 | true exactly when bit 3 of the status register is set |
| Responses.StatusRegisterBits | src/responses.rs:71-100 | the four accessors are the register's four lowest bits: together with the bits above they rebuild the register |
| Responses.AccessorsReadOnlyStatusRegister | src/responses.rs:71-100 | the accessors depend on the status register and on no other field |
| Responses.SystemParametersFrom | src/responses.rs:35-69 | each field of the block is the value whose big-endian encoding sits at its offset in the 16 bytes: status register 0-1, identifier 2-3, library size 4-5, security level 6-7, device address 8-11, packet size 12-13, baud setting 14-15 |
| Responses.SystemParametersBytes | src/responses.rs:35-69 | the sensor's encoding of a system-parameters block is 16 bytes |
| Responses.SystemParametersRoundTrip | src/responses.rs:35-69 | decoding the sensor's 16 bytes gives the block back |
| Responses.SystemParametersBytesRoundTrip | src/responses.rs:35-69 | every 16-byte block is the encoding of what it decodes to |
| Responses.PasswordVerificationStateFrom | src/responses.rs:111-118 | accepts exactly 0x00, 0x13 and 0x01, and maps each to the state whose byte it is; any other byte is rejected, where the source panics |
| Responses.PasswordStateRoundTrip | src/responses.rs:111-118 | every handshake state is recovered from its byte |
| Responses.PasswordStateInjective | src/responses.rs:111-118 | two accepted bytes that decode to the same state are the same byte |
| Responses.GenImgStatusFrom | src/responses.rs:130-138 | accepts exactly 0x00 to 0x03, in the enum's order; any higher byte is rejected, where the source panics |
| Responses.GenImgStatusRoundTrip | src/responses.rs:130-138 | every capture status is recovered from its byte |
| Responses.GenImgStatusInjective | src/responses.rs:130-138 | two accepted bytes that decode to the same status are the same byte |
| Responses.ReadSysParaResultFrom | src/responses.rs:12-18 | succeeds exactly on 28 or more bytes, otherwise MalformedReply; the library size is the big-endian pair at offsets 14-15 |
| Responses.VfyPwdResultFrom | src/responses.rs:20-26 | succeeds exactly on 12 or more bytes whose byte 9 is a known handshake code; an unknown code is reported with its value |
| Responses.GenImgResultFrom | src/responses.rs:28-33 | succeeds exactly on 12 or more bytes whose byte 9 is at most 0x03; an unknown code is reported with its value |
| Responses.StatusResultFrom | src/driver.rs:428-464 | a status-only reply decodes exactly when it has 12 or more bytes, otherwise MalformedReply |
| Responses.SearchResultFrom | src/driver.rs:493-538 | a Search reply decodes exactly when it has 16 or more bytes, otherwise MalformedReply |
| Responses.MatchResultFrom | src/driver.rs:627-665 | a Match reply decodes exactly when it has 14 or more bytes, otherwise MalformedReply |
| Responses.TemplateNumResultFrom | src/driver.rs:687-725 | a TemplateNum reply decodes exactly when it has 14 or more bytes, otherwise MalformedReply |
| Responses.ReplyFields | src/responses.rs:3-10 | a reply's confirmation code and fields take 1 to 17 bytes on the wire |
| Responses.ReplyBytes | src/driver.rs:115-134 | a reply packet has the start code, packet type 0x07 at byte 6, and a length field counting the bytes after it, which is the framing `read_reply` relies on |
| Responses.ReplyBytesLayout | src/driver.rs:136-187 | the address lies at bytes 2-5, the fields from byte 9, and the checksum last |
| Dispatch.DecodeReply | src/driver.rs:153-186 | a success is the reply variant of the in-flight command; a failure is MalformedReply or UnknownStatusCode |
| Dispatch.ParseReply | src/driver.rs:136-187 | checks in order: fewer than 7 bytes gives RecvPacketTooShort, nothing in flight gives RecvUnsolicitedReply, byte 6 not 0x07 gives RecvWrongReplyType; a success is a reply packet answering the in-flight command |
| Dispatch.ParseReplyRoundTrip | src/driver.rs:136-187 | a reply the sensor sends for the in-flight command parses to exactly that reply |
| Transport.PushBytes | src/driver.rs:76-81 | either all `n` writes succeed, or writing stops at the first failed write and reports its error |
| Transport.PushBytesAccepted | src/driver.rs:76-81 | every write before the stopping point succeeded |
| Transport.PushDone | src/driver.rs:76-79 | a clean run of writes grows by one when the next write succeeds |
| Transport.PushFaultSticky | src/driver.rs:78 | after a failed write, asking for more writes changes nothing (the early return) |
| Driver.FillSpec | src/driver.rs:118-131 | a read loop stores at most `n` bytes, within the room left; a clean loop stores all `n`; a stopped loop made one read more than it stored |
| Driver.FillStops | src/driver.rs:118-131 | a loop stops early only for a failed read, reporting the transport's error, or for a byte that finds the buffer full |
| Driver.FillDelivered | src/driver.rs:120 | every stored byte is the byte the source delivered at that read |
| Driver.FillSticky | src/driver.rs:121 | after a stop, asking for more reads changes nothing |
| Driver.FillStep | src/driver.rs:120 | a byte that fits extends a clean run of reads |
| Driver.FillReadFault | src/driver.rs:121 | a failed read after `i` good ones ends the loop with that error |
| Driver.FillOverflow | src/driver.rs:120 | a byte that arrives when the buffer is full ends the loop with ReceiveBufferFull |
| Driver.WriteSpec | src/driver.rs:75-86 | the bytes accepted are a prefix of the packet, plus one flush or failing operation; success means all bytes went out and the flush succeeded; failure is a WriteError carrying the failing operation's error |
| Driver.WriteFault | src/driver.rs:77-78 | a failed write after `i` accepted bytes ends writing with that error and no flush |
| Driver.WriteFlush | src/driver.rs:83-86 | once every byte is accepted, the flush alone decides the outcome |
| Driver.ReadReplySpec | src/driver.rs:115-134 | `read_reply` as a function of the byte source: at most 1024 bytes are kept; on success every read is kept and the returned count is the number of bytes; on failure one read more was made than was kept |
| Driver.ReadReplyHeaderStopped | src/driver.rs:118-123 | a header read that stops early ends `read_reply` with that error and nothing more is read |
| Driver.ReadReplyComposed | src/driver.rs:125-133 | after a clean header, the reply is the header followed by the body its length field announces, and on success the returned 9 + length fits in 16 bits |
| Driver.ReadReplyFacts | src/driver.rs:115-134 | a successful read holds 9 + (the length at offsets 7-8) bytes, at most 1024, and returns that count; a failed read is a read error at the first failing read, or a full buffer after exactly 1024 bytes |
| Driver.ReadReplyDelivered | src/driver.rs:115-134 | every byte in the receive buffer is the byte the source delivered at that read |
| Driver.HeaderDelivered | src/driver.rs:118-123 | every header byte is the byte delivered at that read |
| Driver.BodyDelivered | src/driver.rs:125-131 | every body byte is the byte delivered at that read, counted from the start of the reply |
| Driver.Exchange | src/driver.rs:70-89 | `send_command` as a function of the transport: no reply byte is kept unless the whole packet for the command was sent; a successful cycle kept every byte it read |
| Driver.ExchangeWriteStopped | src/driver.rs:77-85 | a failed write or flush ends the cycle with WriteError, before any read |
| Driver.ExchangeAfterWrite | src/driver.rs:88 | after a clean write, the cycle's outcome is the reply read, followed by `parse_reply` when the read succeeded |
| Driver.ExchangeReplyAnswersCommand | src/driver.rs:70-89 | a successful cycle sent the whole packet for the command, read a reply packet, and yields the reply variant of that command |
| Driver.ExchangeReadsOnlyAfterWrite | src/driver.rs:76-88 | a cycle that performed any read at all had sent the whole packet for the command first |
| Driver.ExchangeWriteErrorReadsNothing | src/driver.rs:76-86 | a failed write or flush ends the cycle before any byte is read |
| Driver.R502.constructor | src/driver.rs:40-49 | fresh empty buffers, nothing in flight, the given address and link |
| Driver.R502.WriteCmdBytes | src/driver.rs:28-30 | appends the bytes exactly when they fit in the 128-byte buffer; otherwise nothing changes and the failure is reported, where the source panics |
| Driver.R502.WriteHeader | src/driver.rs:100-103 | appends the start code and the big-endian address |
| Driver.R502.WritePayload | src/driver.rs:93 | appends the command's payload |
| Driver.R502.ComputeChecksum | src/driver.rs:105-113 | the loop returns the checksum of the buffer from byte 6, which equals the plain sum (no overflow) |
| Driver.R502.PrepareCmd | src/driver.rs:91-98 | the command buffer holds exactly `Packet(address, cmd)` and the command is in flight |
| Driver.R502.ReadReply | src/driver.rs:115-134 | result, buffer contents and reads performed are exactly those of `ReadReplySpec` on the source from the current read position |
| Driver.R502.ReadBody | src/driver.rs:125-133 | reads as many bytes as the header's length field says and returns 9 + length, or the error that stopped it |
| Driver.R502.ReadInto | src/driver.rs:118-123 | one read loop: the bytes appended, the error and the reads performed are those of `FillSpec` |
| Driver.R502.PushReceived | src/driver.rs:120 | appends the byte exactly when the 1024-byte buffer has room; otherwise nothing changes, where the source panics |
| Driver.R502.WritePacket | src/driver.rs:75-86 | the bytes the sink accepted, the operations performed and the error are those of `WriteSpec` on the command buffer |
| Driver.R502.SendCommand | src/driver.rs:70-89 | whatever the buffers held before, the packet is `Packet(address, cmd)`, the command is in flight, and result, bytes sent, bytes received and operations performed are those of `Exchange` |
| Vectors.ChecksumVector | src/driver.rs:215-226 | the checksum of `EF 01 FF FF FF FF C0 C1` is 0x0181 |
| Vectors.ReadSysParaPacket | src/driver.rs:229-245 | ReadSysPara at address 0xFFFFFFFF serialises to the tested 12 bytes |
| Vectors.VfyPwdPacket | src/driver.rs:286-307 | VfyPwd with password 0 serialises to the tested 16 bytes |
| Vectors.GenImgPacket | src/driver.rs:351-367 | GenImg serialises to the tested 12 bytes |
| Vectors.Img2TzPacket | src/driver.rs:409-425 | Img2Tz with buffer 1 serialises to the tested 13 bytes |
| Vectors.SearchPacket | src/driver.rs:467-490 | Search(1, 0, 0xFFFF) serialises to the tested 17 bytes |
| Vectors.LoadCharPacket | src/driver.rs:541-563 | LoadChar(2, 0) serialises to the tested 15 bytes |
| Vectors.MatchPacket | src/driver.rs:608-624 | Match serialises to the tested 12 bytes |
| Vectors.TemplateNumPacket | src/driver.rs:668-684 | TemplateNum serialises to the tested 12 bytes |
| Vectors.RegModelPacket | src/driver.rs:728-744 | RegModel serialises to the tested 12 bytes |
| Vectors.StorePacket | src/driver.rs:786-818 | Store(1, 4) serialises to the tested 15 bytes |
| Vectors.DeletCharPacket | src/driver.rs:860-893 | DeletChar(4, 1) serialises to the tested 16 bytes |
| Vectors.ReadSysParaReply | src/driver.rs:248-283 | the tested reply parses to ReadSysPara with address 0xFFFFFFFF and library size 200 |
| Vectors.VfyPwdReply | src/driver.rs:310-348 | the tested acknowledgement parses to VfyPwd with state Correct |
| Vectors.GenImgReply | src/driver.rs:370-406 | the tested acknowledgement parses to GenImg with status Success |
| Vectors.StatusReplies | src/driver.rs:428-932 | the acknowledgement of the Img2Tz, LoadChar, RegModel, Store and DeletChar deserialisation tests (src/driver.rs lines 428-464, 566-605, 747-783, 821-857 and 896-932) parses, at address 0xFFFFFFFF and with confirmation code 0x00 (Success), to the reply variant of each of Img2Tz, LoadChar, RegModel, Store and DeletChar |
| Vectors.SearchReply | src/driver.rs:493-538 | the tested reply parses to Search with confirmation code 0x00 (Success), match id 0 and score 255 |
| Vectors.MatchReply | src/driver.rs:627-665 | the tested reply parses to Match with confirmation code 0x00 (Success) and score 50 |
| Vectors.TemplateNumReply | src/driver.rs:687-725 | the tested reply parses to TemplateNum with confirmation code 0x00 (Success) and count 3 |

## Left out

- Blocking: the `block!` retry on `WouldBlock` belongs to the transport. Each read, write or flush is modelled by its final outcome.
- The `RefCell` around the in-flight command: a plain field, because borrowing cannot fail in this single-threaded code.
- The `Debug` derivations, src/lib.rs re-exports and the example programs under examples/.
- src/commands.rs and src/responses.rs declare fewer variants than src/driver.rs uses. The `ReadSysPara`/`VfyPwd` command variants of src/commands.rs:8-23 also carry an `address` field that the driver's own code and tests never use. The model follows the eleven commands src/driver.rs:153-184 matches on, with the fields its tests construct.
- The Rust bodies of the `ToPayload` and `FromPayload` implementations are absent from this snapshot of the repository; the encoders and decoders are modelled all the same. `Commands.Params` and the `*ResultFrom` decoders take their byte layout from the serialisation and deserialisation tests (src/driver.rs:229-932).
- The Rust definitions of the result types `Img2TzResult`, `LoadCharResult`, `RegModelResult`, `StoreResult` and `DeletCharResult`, and of the status enums the tests name (`Img2TzStatus`, `SearchStatus`, `MatchStatus`, `TemplateNumStatus` and the rest, src/driver.rs:458, 530, 599, 658, 718, 777, 851, 926), are not among the repository's source files. The five result types are modelled by one record, `Responses.StatusResult`, and the confirmation codes of all eight (these five and Search, Match, TemplateNum) are kept as a raw byte.
- Responses.StatusResultFrom: accepts every confirmation byte for the five status-only replies. The program's own status enums may reject unmapped bytes, as `PasswordVerificationState::from` and `GenImgStatus::from` do (src/responses.rs:116, 136); the model never reports UnknownStatusCode here.
- Responses.SearchResultFrom: accepts every confirmation byte, for the same reason; `SearchStatus` may reject some.
- Responses.MatchResultFrom: accepts every confirmation byte, for the same reason; `MatchStatus` may reject some.
- Responses.TemplateNumResultFrom: accepts every confirmation byte, for the same reason; `TemplateNumStatus` may reject some.
- A reply that is both too short and carries an unknown status byte is reported as MalformedReply. The order of these two checks inside `from_payload` is not visible.
- The inbound checksum and the reply's address are not validated, as in the source.
- The `None => panic!` arm of `parse_reply` cannot be reached, because line 144 returns first; it is not modelled.
- Transport errors are opaque values (`TransportError(code)`). The driver only wraps them.
