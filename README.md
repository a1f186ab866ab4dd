# minet wire codec, modelled in Dafny

This project models the wire codec of `minet`, the client library of a reverse-engineered game
handshake protocol. The codec has three layers. Each layer is sequential byte manipulation:

- **Byte codec** (`stream.dfy`, module `Stream`). `Writer` is an append-only byte buffer. It
  appends big-endian integers of 8 to 64 bits, a bool as one byte, a string as a 16-bit length
  plus its bytes, and raw byte blocks. `Reader` is a byte slice plus a cursor `pos`, with the
  invariant `pos <= |data|` (`Reader.Valid`). Every read except `BytesRemaining` returns an `Option`. Both are classes:
  the writer's `buf` is a `seq` that its methods extend, and the reader's methods move `pos`.
- **Message envelopes** (`data.dfy`, module `Data`). A `PacketMessage` is an id byte, a 16-bit
  uncompressed length, a compression flag and a body. A `FrameworkMessage` is the marker `0xfe`
  followed by the inner variant. `ParseUdp` dispatches on the first byte. `TcpFrame` and
  `UdpDatagram` build the bytes that `send_tcp` and `send_udp` hand to their sockets.
- **Concrete variants** (`packets.dfy`, module `Packets`). These are `ConnectPacket`,
  `RegisterUdp`, `RegisterTcp` and `DiscoverHost`.

Three helper modules support them. `Bytes` holds the fixed-width integer types, big-endian
encoding and decoding, and their round-trip lemmas. `Utf8` holds the UTF-8 well-formedness that
`std::str::from_utf8` checks. `Wrappers` holds `Option`.

The Rust trait objects are replaced by datatypes. These are `Box<dyn DataClone>`, the `TypeId`
lookup in `PacketMessage::id` and `clone_box`. `Packet = Connect(..)` has the one wire id 3, so
the `panic!` in `id` cannot happen. `Framework = DiscoverHost | RegisterUdp(id) | RegisterTcp(id)`.
`Message = PacketMsg(..) | FrameworkMsg(..)` is what the dispatcher returns.

Every serializer is a method that appends to a caller's `Writer`. Every deserializer is a method
that drives its own `Reader`. Each method is proved equal to a pure function (`EncodeX` or
`DecodeX`), and the lemmas are stated about those functions.

**The reader does not advance over strings.** `Reader::bytes(n)` returns the `n` bytes at the
cursor but leaves the cursor where it is. `Reader::str` is built on it, so after a string the
cursor sits just past the two-byte length prefix. The model keeps this behaviour. As a result,
`ConnectPacket::deserialize` reads its four length prefixes at the fixed offsets 4, 6, 8 and 10.
It reads the UUID at offset 12, the mobile flag from the UUID's first byte, and the colour from
the UUID's next four bytes (`Packets.DecodeConnect`). The round-trip test at
src/minet/packets.rs:148 expects a reader that consumes each string. The model follows the
reader as written, and the decoder that test expects appears under "## Findings".

`Writer::str` writes the byte length cut to 16 bits, followed by every byte of the string. Its
source comment calls it "subtly wrong". For a string of 65536 bytes or more, the prefix
understates the length. `Stream.StrAtEncodeStr` states what a reader then sees.

Two connect layouts appear in the source. `ConnectPacket::serialize` and `deserialize`
(src/minet/packets.rs:21-58) put the mobile flag right after the UUID. That layout is modelled
here. The handshake client builds its connect message by hand (src/main.rs:45-66) and writes a
CRC-32 of the UUID bytes, as an `i32`, between the UUID and the mobile flag
(src/main.rs:57-60). The two layouts are not wire-compatible. The hand-built one is not part of
this model.

## Model

| member | source | states |
|---|---|---|
| `Bytes.BigEndian` | src/minet/stream.rs:15-71 | the writer's shift-and-mask emits exactly `width` bytes |
| `Bytes.BigEndianAt` | src/minet/stream.rs:15-71 | byte k of those `width` bytes is `(i / 256^(width-1-k)) % 256`, the byte the source's shift right by 8·(width-1-k) and mask keep; for a negative `i` this is its two's complement |
| `Bytes.FromBigEndian` | src/minet/stream.rs:108-194 | the unsigned value of big-endian bytes, below `256^|s|` |
| `Bytes.FromTwosComplement` | src/minet/stream.rs:126-194 | reinterpreting an unsigned `width`-byte value as signed lands in the signed range and is the identity below the sign bit |
| `Bytes.BigEndianRoundTrip` | src/minet/stream.rs:15-194 | reading back the `width` written bytes of any integer gives it modulo `256^width` |
| `Bytes.UnsignedRoundTrip` | src/minet/stream.rs:108-182 | an unsigned value that fits in `width` bytes reads back unchanged |
| `Bytes.SignedRoundTrip` | src/minet/stream.rs:126-194 | a signed value in range, written as two's complement, reads back unchanged, negatives included |
| `Utf8.FromUtf8OrEmpty` | src/minet/stream.rs:228 | well-formed UTF-8 passes through unchanged; anything else becomes the empty string |
| `Stream.EncodeStr` | src/minet/stream.rs:83-86 | a string is written as 2 + its byte length bytes: a prefix worth the length mod 65536, then all of its bytes |
| `Stream.StrAt` | src/minet/stream.rs:223-238 | the string read with the cursor at `p` succeeds if and only if the two prefix bytes are there and at least as many bytes as the prefix counts follow them (`StrFits`) |
| `Stream.StrAtPrefix` | src/minet/stream.rs:223-238 | a prefix counting `n` followed by `n` bytes reads as those bytes when they are valid UTF-8, and as "" otherwise |
| `Stream.StrAtEncodeStr` | src/minet/stream.rs:223-230 | reading where a string was written gives its first (length mod 65536) bytes when they are valid UTF-8, and "" otherwise |
| `Stream.StrRoundTrip` | src/minet/stream.rs:223-230 | a valid text of fewer than 65536 bytes reads back whole |
| `Stream.Writer.constructor` | src/minet/stream.rs:11-13 | a new writer is empty |
| `Stream.Writer.U64` | src/minet/stream.rs:15-26 | appends exactly the 8 big-endian bytes of the value; earlier contents are kept |
| `Stream.Writer.I64` | src/minet/stream.rs:28-39 | appends the 8 big-endian two's-complement bytes; earlier contents are kept |
| `Stream.Writer.U32` | src/minet/stream.rs:41-48 | appends exactly the 4 big-endian bytes |
| `Stream.Writer.I32` | src/minet/stream.rs:50-57 | appends the 4 big-endian two's-complement bytes |
| `Stream.Writer.I16` | src/minet/stream.rs:59-64 | appends the 2 big-endian two's-complement bytes |
| `Stream.Writer.U16` | src/minet/stream.rs:66-71 | appends exactly the 2 big-endian bytes |
| `Stream.Writer.U8` | src/minet/stream.rs:73-75 | appends the one byte |
| `Stream.Writer.Bool` | src/minet/stream.rs:77-79 | appends 1 for true and 0 for false |
| `Stream.Writer.Str` | src/minet/stream.rs:81-86 | appends the truncated 16-bit prefix and then every byte of the string |
| `Stream.Writer.Bytes` | src/minet/stream.rs:88-92 | appends the block verbatim |
| `Stream.Reader.constructor` | src/minet/stream.rs:101-106 | the cursor starts at 0, so the invariant holds |
| `Stream.Reader.U64` | src/minet/stream.rs:108-124 | keeps the invariant; with fewer than 8 bytes left it fails and the cursor stays; otherwise it returns the big-endian value and advances by exactly 8 |
| `Stream.Reader.I64` | src/minet/stream.rs:126-142 | the same, returning the 64-bit two's-complement value |
| `Stream.Reader.U32` | src/minet/stream.rs:144-156 | the same with width 4 |
| `Stream.Reader.I32` | src/minet/stream.rs:158-170 | the same with width 4, signed |
| `Stream.Reader.U16` | src/minet/stream.rs:172-182 | the same with width 2 |
| `Stream.Reader.I16` | src/minet/stream.rs:184-194 | the same with width 2, signed |
| `Stream.Reader.U8` | src/minet/stream.rs:196-204 | fails at the end with the cursor unmoved; otherwise returns `data[pos]` and advances by 1 |
| `Stream.Reader.PeekU8` | src/minet/stream.rs:206-213 | returns `data[pos]`, or nothing at the end, and never moves the cursor |
| `Stream.Reader.I8` | src/minet/stream.rs:215-217 | the byte as an 8-bit two's complement, advancing by 1 |
| `Stream.Reader.Bool` | src/minet/stream.rs:219-221 | any nonzero byte is true; advances by 1 |
| `Stream.Reader.Str` | src/minet/stream.rs:223-230 | returns `StrAt` at the old cursor; the cursor advances by the 2 prefix bytes only, on success and when the bytes are missing alike |
| `Stream.Reader.Bytes` | src/minet/stream.rs:232-238 | returns `data[pos..pos+n]`, or nothing if fewer than `n` bytes remain, and never moves the cursor |
| `Stream.Reader.BytesRemaining` | src/minet/stream.rs:240-244 | returns `data[pos..]` and moves the cursor to the end |
| `Stream.UnsignedWriteRead` | src/minet/stream.rs:15-204 | u64, u32, u16 and u8 values written in sequence read back in sequence unchanged, consuming the whole buffer |
| `Stream.SignedWriteRead` | src/minet/stream.rs:28-221 | the same for i64, i32, i16 (negative values included) and bool |
| `Stream.StrReadBack` | src/minet/stream.rs:223-238 | a string under 65536 bytes reads back whole, but its own bytes are left unread |
| `Packets.EncodeConnect` | src/minet/packets.rs:22-35 | a connect packet encodes to 34 + (sum of its string byte lengths) bytes |
| `Packets.SerializeConnect` | src/minet/packets.rs:22-35 | appends build, four prefixed strings, 16 UUID bytes, mobile flag, colour and a trailing 0, in that order |
| `Packets.ConnectLayout` | src/minet/packets.rs:22-35 | each field of the encoding is found at its offset and reads back as the field's value |
| `Packets.DecodeConnect` | src/minet/packets.rs:37-57 | a decoded packet needs 28 bytes; its build number is the big-endian value of bytes 0..4, its four strings are the string reads at the prefixes at offsets 4, 6, 8 and 10, its UUID is bytes 12..28, its mobile flag is the UUID's first byte being nonzero, and its colour is the UUID's bytes 1..5 |
| `Packets.DeserializeConnect` | src/minet/packets.rs:37-57 | the reader-driven decoder returns exactly `DecodeConnect` |
| `Packets.DecodeConnectSucceeds` | src/minet/packets.rs:37-49 | decoding succeeds if and only if there are 28 bytes and each prefix at offsets 4, 6, 8 and 10 counts no more bytes than follow it; fewer than 4 bytes always fail, and 28 bytes suffice, so no trailing "mods" byte is required |
| `Packets.EmptyStringsDecode` | src/minet/packets.rs:37-57 | with four empty strings, build, strings and UUID come back; mobile comes back as `uuid[0] != 0` and colour as BE32 of `uuid[1..5]` |
| `Packets.DecodeKeepsLeadingFields` | src/minet/packets.rs:37-41 | whenever an encoding decodes at all, the build number and (below 65536 bytes) the first string come back |
| `Packets.RoundTripTestPacket` | src/minet/packets.rs:138-147 | the round-trip test's packet, whose strings total 25 bytes |
| `Packets.RoundTripTestFails` | src/minet/packets.rs:137-148 | that packet's encoding does not decode, for any UUID |
| `Packets.StrEndEncodeStr` | src/minet/stream.rs:223-238 | after a string shorter than 65536 bytes, a consuming reader's cursor lands just past its last byte |
| `Packets.ReadStrs` | src/minet/stream.rs:223-238 | `n` consuming string reads return `n` texts, and the cursor has moved past every prefix and every text byte without passing the end |
| `Packets.ReadFourStrs` | src/minet/packets.rs:22-43 | four strings written one after another from offset 4 are read back, in order, by four consuming reads that end where the last string ends |
| `Packets.AssembleConnect` | src/minet/packets.rs:39-56 | the packet built from the reads keeps the four strings in the order they were read |
| `Packets.AssembleConnectFields` | src/minet/packets.rs:44-56 | the build number, UUID, mobile flag and colour where the encoding puts them are assembled back into the same packet |
| `Packets.AdvancingDecode` | src/minet/packets.rs:37-57 | once the four consuming reads succeed with 21 bytes left, the consuming decoder returns the packet assembled from them |
| `Packets.AdvancingFromLayout` | src/minet/packets.rs:22-57 | any bytes holding the fields of `p` where its encoding puts them decode to `p` under the consuming decoder |
| `Packets.DecodeConnectAdvancing` | src/minet/packets.rs:37-57 | the decoder with each string consumed; a decoded packet accounts for all its string bytes plus 33 |
| `Packets.AdvancingRoundTrip` | src/minet/packets.rs:22-57 | with strings consumed, every packet whose strings are under 65536 bytes decodes back to itself |
| `Packets.EncodeFramework` | src/minet/packets.rs:72-120 | discover-host encodes to 1 byte; the register variants encode to 5 |
| `Packets.SerializeDiscoverHost` | src/minet/packets.rs:118-120 | appends `[1]` |
| `Packets.SerializeRegisterUdp` | src/minet/packets.rs:72-75 | appends `[3] ++ BE32(id)` |
| `Packets.SerializeRegisterTcp` | src/minet/packets.rs:96-99 | appends `[4] ++ BE32(id)` |
| `Packets.SerializeFramework` | src/minet/packets.rs:72-120 | appends the encoding of whichever variant it is given |
| `Packets.DecodeDiscoverHost` | src/minet/packets.rs:122-129 | succeeds if and only if byte 0 is 1, and then gives discover-host |
| `Packets.DecodeRegisterUdp` | src/minet/packets.rs:77-86 | succeeds if and only if byte 0 is 3 and 4 more bytes follow; the id is their BE32 and later bytes are ignored |
| `Packets.DecodeRegisterTcp` | src/minet/packets.rs:101-110 | the same with byte 0 equal to 4 |
| `Packets.DeserializeDiscoverHost` | src/minet/packets.rs:122-129 | the reader-driven decoder returns exactly `DecodeDiscoverHost` |
| `Packets.DeserializeRegisterUdp` | src/minet/packets.rs:77-86 | the reader-driven decoder returns exactly `DecodeRegisterUdp` |
| `Packets.DeserializeRegisterTcp` | src/minet/packets.rs:101-110 | the reader-driven decoder returns exactly `DecodeRegisterTcp` |
| `Packets.FrameworkRoundTrip` | src/minet/packets.rs:71-130 | each framework variant's decoder gives back the variant from its encoding, whatever follows |
| `Data.PacketId` | src/minet/data.rs:68-74 | a packet's wire id (3 for connect) is never the framework marker 0xfe |
| `Data.SerializePacket` | src/minet/data.rs:82 | appends the inner packet's own encoding |
| `Data.EncodePacketMessage` | src/minet/data.rs:78-93 | byte 0 is the id, bytes 1..3 hold the uncompressed body length mod 65536, byte 3 is the flag (exactly 1 or 0), and the rest is the packet encoding, or its compression |
| `Data.SerializePacketMessage` | src/minet/data.rs:78-93 | appends exactly `EncodePacketMessage`, building the body in a scratch writer |
| `Data.DecodePacketMessage` | src/minet/data.rs:95-126 | fewer than 4 bytes never decode; a decoded message had id byte 3 and its flag is byte 3 being nonzero |
| `Data.DeserializePacketMessage` | src/minet/data.rs:95-126 | the reader-driven decoder returns exactly `DecodePacketMessage` |
| `Data.UncompressedPacketMessage` | src/minet/data.rs:95-126 | uncompressed, it decodes if and only if the id is 3 and everything after byte 3 decodes as a connect packet, and then it holds that packet |
| `Data.CompressedPacketMessage` | src/minet/data.rs:95-126 | compressed, the body after byte 3 is decompressed with the length field as the expected size; a failed decompression fails the decode; otherwise it decodes if and only if the id is 3 and the decompressed bytes decode as a connect packet, and then it holds that packet with the flag set |
| `Data.LengthFieldIgnored` | src/minet/data.rs:98-111 | the length field does not bound an uncompressed body: any value there decodes the same |
| `Data.UnknownPacketId` | src/minet/data.rs:113-125 | any id other than 3 fails to decode |
| `Data.PacketMessageRoundTrip` | src/minet/data.rs:77-126 | decoding a packet message's encoding gives exactly what the connect decoder makes of the packet's encoding, with the same flag; compressed, this assumes decompression undoes compression |
| `Data.EmptyStringsPacketMessage` | src/minet/data.rs:77-126 | an uncompressed message around a connect packet with empty strings decodes to it with mobile and colour taken from the UUID bytes |
| `Data.EncodeFrameworkMessage` | src/minet/data.rs:145-148 | `0xfe` followed by the inner variant's own encoding |
| `Data.SerializeFrameworkMessage` | src/minet/data.rs:145-148 | appends exactly `EncodeFrameworkMessage` |
| `Data.DecodeFrameworkMessage` | src/minet/data.rs:150-167 | a decoded message had 0xfe and a second byte, and that byte is 1, 3 or 4 exactly as the variant is discover-host, register-UDP or register-TCP |
| `Data.DeserializeFrameworkMessage` | src/minet/data.rs:150-167 | the reader-driven decoder, with its peek and tail read, returns exactly `DecodeFrameworkMessage` |
| `Data.FrameworkMessageDecodes` | src/minet/data.rs:150-167 | decodes if and only if it is `[0xfe,1,..]`, or `[0xfe,3 or 4,..]` with 4 id bytes; the id is BE32 of bytes 2..6 |
| `Data.FrameworkMessageRoundTrip` | src/minet/data.rs:144-167 | every framework message decodes back from its encoding, whatever follows |
| `Data.FrameworkTestVectors` | src/minet/data.rs:205-210 | `[0xfe,1]`, `[0xfe,3,0,0,0,5]` and `[0xfe,4,0,0,0,5]` decode to discover-host, register-UDP 5 and register-TCP 5; `[0xfe,99]`, a short id and `[]` fail |
| `Data.EncodeMessage` | src/minet/data.rs:172-184 | a message's encoding starts with 0xfe if and only if it is a framework message |
| `Data.SerializeMessage` | src/minet/data.rs:179-180 | appends the encoding of either family |
| `Data.ParseUdp` | src/minet/data.rs:189-203 | empty input is nothing; a framework result came from a leading 0xfe and is the framework decoder's result; a packet result is the packet decoder's result |
| `Data.ParseUdpRoundTrip` | src/minet/data.rs:189-203 | a framework message's encoding parses back to itself; a packet message's encoding parses to what the connect decoder gives |
| `Data.UdpDatagram` | src/minet/data.rs:172-175 | a datagram is the message's serialization, with no framing |
| `Data.LengthPrefixed` | src/minet/data.rs:178-184 | a body behind a 16-bit prefix of its length mod 65536 is found whole after the prefix, and the prefix is its exact length if and only if it is under 65536 bytes |
| `Data.TcpFrame` | src/minet/data.rs:178-184 | the frame is a 16-bit prefix of the payload length mod 65536 followed by the payload; the prefix is exact if and only if the payload is under 65536 bytes |

## Left out

- Socket I/O. `send_udp` and `send_tcp` are modelled only up to the bytes they hand to the socket.
- LZ4 block compression and decompression. These come from a foreign library. They are function
  parameters (`Data.Compress`, `Data.Decompress`) with no law assumed. Only
  `Data.PacketMessageRoundTrip` and `Data.ParseUdpRoundTrip` take "decompression undoes
  compression" as a precondition, and only for the one body they concern. The `eprintln!`
  logging on a decompression failure is also left out.
- `Data.PacketMessageRoundTrip`: the compressed case requires a body shorter than 65536 bytes.
  The length field carries the body length mod 65536, so longer bodies depend on how the LZ4
  library treats a wrong expected size.
- `Data.ParseUdpRoundTrip`: for a compressed packet message it needs two hypotheses, a body
  shorter than 65536 bytes and decompression undoing compression on that body, for the reasons
  given on the two lines above. A packet message is stated without trailing bytes, because its
  body runs to the end of the datagram.
- The Rust object machinery: `DataClone`, `DataCloneBox`, `Any`, `TypeId`, `Clone` and `Debug`.
  The datatypes replace all of it.
- UTF-8 validation is the well-formedness of RFC 3629, section 4. It is not a call into
  `std::str::from_utf8`. A Rust `String` field is a `Utf8.Text`.
- Integer widths are subset types of `int`. Rust's `as u16` cast of a length is written out as
  `% 0x1_0000`. The `usize` cursor arithmetic cannot overflow in the source, so it is unbounded
  here.
- The relay loop (`src/bin/proxy.rs`) and the handshake client (`src/main.rs`) are not part of
  this model. They are socket and concurrency glue around the codec.
- The fixture and round-trip tests of `ConnectPacket` (src/minet/packets.rs:132-148) and the
  `PacketMessage` fixture test (src/minet/data.rs:212-216) are not stated as lemmas. The code as
  written does not meet them. `Packets.RoundTripTestFails` states what it does instead.
- `Packets.DecodeConnectAdvancing` is a corrected decoder. The envelopes keep the decoder as
  written.

## Findings

| source | as written | input that shows it | evidently intended | confidence | as-written member | corrected member |
|---|---|---|---|---|---|---|
| src/minet/stream.rs:232-238 | `Reader::bytes` does not advance the cursor, so `Reader::str` leaves it on the string's first byte and `ConnectPacket::deserialize` reads every later field from the wrong place | the packet of the round-trip test at src/minet/packets.rs:138-147: its second length prefix is read from the bytes `'r','u'` of "rustbot" (29301), which exceeds the 59-byte message, so decoding fails for every UUID | the cursor moves past the string's bytes, and every connect packet with strings under 65536 bytes decodes back to itself | high; not executed | `Packets.RoundTripTestFails` | `Packets.AdvancingRoundTrip` |
