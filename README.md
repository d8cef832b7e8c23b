# can_adapter core, modelled in Dafny

can_adapter connects a PC to a vehicle CAN bus through RP1210 adapters or
SLCAN serial dongles and speaks two protocols on top:

- J1939, the heavy-duty vehicle protocol;
- UDS diagnostics (ISO 14229-1:2013) carried over ISO-TP (ISO 15765-2:2016).

This project models the protocol and bookkeeping code under the adapter
plumbing. One Dafny module stands for each source file:

| module | source | what it models |
|---|---|---|
| `Bytes` | (shared) | `Option`/`Result`, uppercase hex rendering (`{:02X}`, `{:08X}`), hex-digit values, decimal rendering, big- and little-endian byte joins |
| `J1939Id` | src/j1939_packet.rs | the 29-bit identifier of section 5.2 of SAE J1939-21 as the newest packet types lay it out: priority at bit 26, PGN at bit 8, source address in the low byte |
| `J1939PacketRs` | src/j1939_packet.rs | `J1939Packet`: `new`, `new_packet`, the accessors, `header`, `as_hex`, `as_hex_nospace`, `Display`, and the conversions to and from `Packet` |
| `PacketRs` | src/packet.rs | the older `J1939Packet`: `new_rp1210`, `new`, `new_packet` (priority at bit 24, read back from bit 27), the accessors, `header`, `as_hex` |
| `J1939Wrap` | src/j1939/j1939_packet.rs | the wrapper around `Packet`: wrap and unwrap, `new`, `new_packet`, the accessors, `data` |
| `Pgn` | src/j1939/pgn.rs | the three-byte `Pgn` value and its two conversions |
| `J1939Tp` | src/j1939.rs | receive-side transport-protocol reassembly (section 5.10 of SAE J1939-21): `control`, `data`, `receive_tp`, and the frame built and matched by `request` |
| `Iso15765` | src/uds/iso15765.rs | ISO-TP framing: headers, single, first, consecutive and flow-control frames, separation time, `send`, `receive`, `transport_send`, `transport_receive` |
| `Uds` | src/uds/mod.rs | the `Iso14229Command` request builder and `Uds::cmd` |
| `PushBusRs` | src/pushbus.rs | `PushBus` and `PushBusIter`: one queue per subscriber, `close` |
| `MultiQueueRs` | src/multiqueue.rs, src/bus.rs | `MultiQueue` and `MqIter`: a shared append-only list with one cursor and one deadline per iterator |
| `BusRs` | src/bus.rs | the older `PushBus`: per-iterator queues with deadlines, `retain` on drop |
| `Connection` | src/connection.rs | the `iter_until` / `iter_for` deadline filter |
| `Slcan` | src/slcan.rs | `parse_result`, `parse`, the `CAN_SPEEDS` speed command |
| `Rp1210` | src/rp1210.rs | `verify_return`, the `client_connect` command sequence, the `send` buffer, the read-buffer decoding and the reader loop that feeds the bus |

How the model treats the source:

- **Widths.** Identifiers and fields are bit-vectors (`bv8` to `bv64`). Rust's `u32` shifts, ORs and truncating casts are therefore exact, including bits shifted past bit 31.
- **Panics.** An index that would panic in the source becomes a `requires`.
- **Time.** A wall-clock reading is a `now` parameter. A polling loop that spins until a deadline takes the finite list of clock readings it makes.
- **Sends.** Frames a routine sends are returned as values.
- **State.** Code that changes state in place is modelled as classes whose methods are proved against specification functions:
  - the buses;
  - the TP receiver's tables;
  - the UDS builder;
  - the reader loop.
- **Loops.** The hex renderers, ISO-TP padding and the consecutive-frame and reassembly loops are methods with loop invariants.
- **Pure code.** Everything else is functions and lemmas.

Some behaviours are modelled exactly as written, although they look unintended:

- In src/packet.rs, `new_packet` puts the priority at bit 24 while `priority()` reads from bit 27. A built packet therefore reads back priority 0 (`PacketRs.PriorityLost`). So does the echo of every packet the RP1210 reader decodes (`Rp1210.EchoRoundTrip`).
- A J1939 request for a PGN from 0x10000 to 0xFFFFFF (the data-page bit set) never matches a response (`J1939Tp.DataPageNeverMatches`). For a PGN of 0x1000000 or more, `pgn << 8` loses the top bits, so the response id wraps. For example, PGN 0x1000000 gives the response id `da`.

## Model

| member | source | states |
|---|---|---|
| Bytes.HexDigit | src/j1939_packet.rs:75 | the digit `{:X}` writes for a value below 16 is an uppercase hex digit that reads back as that value |
| Bytes.HexValue | src/slcan.rs:124 | a character has a hex value exactly when it is a digit of either case, and the value is below 16 |
| Bytes.Hex2 | src/j1939_packet.rs:75 | `{:02X}` is two uppercase digits whose values are the byte's high and low nibbles |
| Bytes.Hex8 | src/j1939_packet.rs:164-166 | `{:08X}` is eight uppercase hex digits |
| Bytes.Hex8Value | src/j1939_packet.rs:164-166 | the eight digits read back as the whole identifier, zero padding included |
| Bytes.HexDigitsValue | src/j1939_packet.rs:164-166 | `n` zero-padded digits of a value below 16^n read back as that value |
| Bytes.DigitsBound | src/slcan.rs:124 | `n` hex digits always read as a value below 16^n |
| Bytes.HexJoined | src/j1939_packet.rs:68-78 | space-separated hex pairs have length 3n-1, or 0 for no bytes |
| Bytes.HexJoinedAt | src/j1939_packet.rs:74-77 | byte k is rendered at characters 3k and 3k+1, and a space follows every byte but the last |
| Bytes.HexPacked | src/j1939_packet.rs:79-86 | unseparated hex pairs have length 2n |
| Bytes.HexPackedAt | src/j1939_packet.rs:82-84 | byte k is rendered at characters 2k and 2k+1 |
| Bytes.Decimal | src/j1939_packet.rs:57-58 | `{}` of a number is a non-empty string of decimal digits |
| Bytes.DecimalRoundTrip | src/j1939_packet.rs:57-58 | the digits `{}` writes read back as the number, and a number of 10 or more has no leading zero |
| Bytes.PadLeft | src/j1939_packet.rs:57 | right alignment to a width: the result is at least the width, ends with the text and is space-filled before it |
| Bytes.Le16Bytes | src/j1939.rs:131 | `u16::from_le_bytes` and `to_le_bytes` are inverse |
| Bytes.Be32Bytes | src/rp1210.rs:189 | `u32::from_be_bytes` followed by `to_le_bytes` gives the bytes back reversed |
| J1939Id.PgnOfIsMiddle | src/j1939_packet.rs:148-158 | `pgn()` is always bits 8-23 of the identifier (the OR with `dest()` changes nothing), at most 0xFFFF; `priority()` is below 64 |
| J1939Id.SourceOf | src/j1939_packet.rs:144-146 | definition: the low byte of the identifier |
| J1939Id.PgnOf | src/j1939_packet.rs:148-154 | definition: bits 8-23, with `dest()` OR-ed in below 0xF000 |
| J1939Id.DestOf | src/j1939_packet.rs:156-158 | definition: bits 8-15 |
| J1939Id.PriorityOf | src/j1939_packet.rs:160-162 | definition: everything from bit 26 up, truncated to a byte |
| J1939Id.Identifier | src/j1939_packet.rs:110-117 | definition: priority at bit 26, PGN one byte up, the destination at bit 8 below 0xF000, the source address; `u32` shifts drop high bits |
| J1939Id.IdentifierSource | src/j1939_packet.rs:101-146 | the source address of a built identifier reads back |
| J1939Id.IdentifierPriority | src/j1939_packet.rs:114-162 | for a PGN of 16 bits the priority reads back modulo 64, so every legal priority (at most 7) reads back exactly |
| J1939Id.IdentifierBroadcast | src/j1939_packet.rs:110-154 | a PDU2 PGN (0xF000-0xFFFF) reads back whole whatever destination was passed |
| J1939Id.Pdu1Identifier | src/j1939_packet.rs:110-117 | for a PDU1 PGN the destination is OR-ed in at bit 8 |
| J1939Id.IdentifierDest | src/j1939_packet.rs:116-158 | a PDU1 PGN with an empty low byte gives back the destination in `dest()` |
| J1939Id.IdentifierDirected | src/j1939_packet.rs:148-154 | ... and `pgn()` reads back as the PGN with the destination OR-ed in |
| J1939PacketRs.FromPacket | src/j1939_packet.rs:20-31 | conversion from `Packet` keeps id, payload and direction and sets channel 0 |
| J1939PacketRs.ToPacket | src/j1939_packet.rs:38-47 | conversion to `Packet` keeps id, payload and direction |
| J1939PacketRs.ConversionRoundTrip | src/j1939_packet.rs:15-47 | `Packet` to `J1939Packet` and back is the identity; the other way round too, for channel 0, when the conversion is given the packet's own time (the `f64` time is not modelled) |
| J1939PacketRs.New | src/j1939_packet.rs:122-131 | the packet keeps id, payload and channel, is a transmitted one exactly when no time is given, and has time 0 then |
| J1939PacketRs.NewPacket | src/j1939_packet.rs:101-162 | the built packet carries the data, channel and time given, is transmitted exactly when no time is given, and reads back its source address; a priority of at most 7 reads back for a 16-bit PGN, a PDU2 PGN reads back whole, and a PDU1 PGN with an empty low byte gives back the destination and the PGN with it OR-ed in |
| J1939PacketRs.IdentifierReadsBack | src/j1939_packet.rs:101-162 | the accessors read the source, the legal priority, a PDU2 PGN whole, and a PDU1 destination back out of a built identifier |
| J1939PacketRs.Header | src/j1939_packet.rs:164-166 | the header is eight uppercase hex digits that read back as the identifier |
| J1939PacketRs.NewPacketSource | src/j1939_packet.rs:101-146 | source address, payload and direction of a built packet read back |
| J1939PacketRs.NewPacketPriority | src/j1939_packet.rs:114-162 | a priority of at most 7 reads back |
| J1939PacketRs.NewPacketBroadcast | src/j1939_packet.rs:110-154 | a PDU2 PGN reads back whole |
| J1939PacketRs.NewPacketDirected | src/j1939_packet.rs:110-158 | a PDU1 PGN with empty low byte gives the destination and the PGN with the destination OR-ed in |
| J1939PacketRs.AsHex | src/j1939_packet.rs:68-78 | the loop builds the space-separated rendering: empty for no bytes, otherwise 3n-1 characters |
| J1939PacketRs.AsHexNoSpace | src/j1939_packet.rs:79-86 | the loop builds the 2n-character unseparated rendering |
| J1939PacketRs.DisplayShape | src/j1939_packet.rs:53-66 | the rendering starts with the time right-aligned in 12 columns and ends with " (TX)" exactly for transmitted packets |
| J1939PacketRs.Display | src/j1939_packet.rs:53-66 | definition: the twelve-column time, then `DisplayFields`, then " (TX)" for a transmitted packet |
| J1939PacketRs.DisplayFields | src/j1939_packet.rs:57-63 | definition: channel, header, bracketed length and spaced payload, each after a space |
| J1939PacketRs.FieldsEnd | src/j1939_packet.rs:57-63 | the fields are at least five characters long and never end in ")", so the " (TX)" suffix cannot come from them |
| J1939PacketRs.DecimalWidth | src/j1939_packet.rs:57-58 | a `u32` time has at most ten digits, so it never overflows the 12 columns |
| J1939PacketRs.HeaderExample | src/j1939_packet.rs:201-202 | the header of 0x18FFAAFA is "18FFAAFA" |
| J1939PacketRs.PayloadExample | src/j1939_packet.rs:201-202 | [1, 2, 3] renders as "01 02 03" |
| J1939PacketRs.FieldsExample | src/j1939_packet.rs:201-206 | the test packet's fields render as " 1 18FFAAFA [3] 01 02 03" |
| J1939PacketRs.DisplayExamples | src/j1939_packet.rs:198-207 | the first two renderings the tests expect, with and without " (TX)" |
| J1939PacketRs.DisplayEightExamples | src/j1939_packet.rs:198-222 | the other two renderings the tests expect: channel 2, 0x18FFAAF9, bytes 01-08, and channel 3, 0x18FFAAFB, bytes FF 00 alternating, both transmitted |
| J1939PacketRs.TimeExamples | src/j1939_packet.rs:201-205 | times 0 and 555 in twelve columns |
| PacketRs.Header | src/packet.rs:132-134 | eight uppercase hex digits that read back as the identifier |
| PacketRs.Rp1210IdentifierAddresses | src/packet.rs:49-126 | a buffer identifier's source is the last field byte and its destination the PDU-specific byte |
| PacketRs.Rp1210IdentifierPgn | src/packet.rs:50-122 | `pgn()` of a buffer identifier is the low 16 bits of the buffer's PGN |
| PacketRs.FromFieldsAddresses | src/packet.rs:48-58 | the packet of a field layout has the last field byte as source, the fields from it on as payload, and its direction, channel and time |
| PacketRs.NewRp1210Layout | src/packet.rs:42-60 | a transmitted buffer carries a big-endian time in bytes 0-3 and fields from byte 5; a received one has time 0 and fields from byte 0 |
| PacketRs.New | src/packet.rs:90-99 | keeps id, payload and channel; transmitted exactly when no time is given; time 0 then |
| PacketRs.NewRp1210 | src/packet.rs:42-60 | definition: the time from big-endian bytes 0-3 and fields from byte 5 when transmitted, time 0 and fields from byte 0 when received |
| PacketRs.FromFields | src/packet.rs:48-58 | definition: the identifier of `Rp1210Identifier` and the fields from the source address byte on as payload |
| PacketRs.Identifier | src/packet.rs:78-86 | definition: priority at bit 24, PGN one byte up, the destination at bit 8 below 0xF000, the source address |
| PacketRs.PriorityOf | src/packet.rs:128-130 | definition: everything from bit 27 up, truncated to a byte |
| PacketRs.NewPacket | src/packet.rs:69-116 | the built packet carries the data, channel and time given, is transmitted exactly when no time is given, and reads back its source address (priority, PGN and destination: `PriorityLost`, `NewPacketBroadcast`, `NewPacketDirected`) |
| PacketRs.IdentifierSource | src/packet.rs:82-114 | the source address reads back |
| PacketRs.IdentifierPriority | src/packet.rs:82-130 | a legal priority (at most 7) written at bit 24 reads back from bit 27 as 0 |
| PacketRs.IdentifierBroadcast | src/packet.rs:78-122 | a PDU2 PGN reads back whole |
| PacketRs.IdentifierDest | src/packet.rs:84-126 | a PDU1 PGN with an empty low byte gives back the destination |
| PacketRs.IdentifierDirected | src/packet.rs:84-122 | ... and the PGN with the destination OR-ed in |
| PacketRs.NewPacketSource | src/packet.rs:69-114 | source, payload and direction of a built packet read back |
| PacketRs.PriorityLost | src/packet.rs:82-130 | the priority of a built packet does not round-trip: it reads back as 0 |
| PacketRs.NewPacketBroadcast | src/packet.rs:78-122 | a PDU2 PGN reads back whole |
| PacketRs.NewPacketDirected | src/packet.rs:78-126 | a PDU1 PGN with empty low byte gives the destination and the PGN with it OR-ed in |
| PacketRs.AsHex | src/packet.rs:33-39 | for non-empty data (the empty case panics) the loop builds the space-separated rendering of 3n-1 characters |
| J1939Wrap.Wrap | src/j1939/j1939_packet.rs:10-21 | unwrapping the wrapper gives the packet back, and the J1939 view reports the packet's identifier, data, source and destination |
| J1939Wrap.Unwrap | src/j1939/j1939_packet.rs:22-31 | the unwrapped packet carries the identifier and data the J1939 view reports, and wrapping it again gives the same J1939 packet |
| J1939Wrap.WrapRoundTrip | src/j1939/j1939_packet.rs:10-31 | wrap and unwrap are inverse in both orders |
| J1939Wrap.New | src/j1939/j1939_packet.rs:98-102 | `id()` and `data()` give back the identifier and payload, and the wrapped packet is one to send: time 0, channel 0 |
| J1939Wrap.NewFields | src/j1939/j1939_packet.rs:90-102 | `id()` and `data()` give back the identifier and payload; the packet is a transmitted one on channel 0 |
| J1939Wrap.PacketNew | src/j1939/j1939_packet.rs:98-102 | definition: `Packet::new` is a transmitted packet with time 0 on channel 0 |
| J1939Wrap.PacketNewRx | src/j1939/j1939_packet.rs:56-59 | definition: `Packet::new_rx` is a received packet with the given time and channel |
| J1939Wrap.NewPacket | src/j1939/j1939_packet.rs:41-64 | definition: `new_packet` wraps `new_rx` with the time and channel when a time is given, otherwise `Packet::new`, with the `J1939Id.Identifier` identifier |
| J1939Wrap.NewPacketKind | src/j1939/j1939_packet.rs:56-62 | with a time the packet is a received one with that time and channel; without one, `Packet::new` |
| J1939Wrap.NewPacketSource | src/j1939/j1939_packet.rs:52-68 | the source address reads back |
| J1939Wrap.NewPacketPriority | src/j1939/j1939_packet.rs:52-84 | a legal priority reads back |
| J1939Wrap.NewPacketBroadcast | src/j1939/j1939_packet.rs:50-76 | a PDU2 PGN reads back whole |
| J1939Wrap.NewPacketDirected | src/j1939/j1939_packet.rs:50-80 | a PDU1 PGN with empty low byte gives the destination and the PGN with it OR-ed in |
| Pgn.ToU32 | src/j1939/pgn.rs:17-20 | the conversion to `u32` is always below 2^24 |
| Pgn.U32RoundTrip | src/j1939/pgn.rs:10-20 | `u32` to `Pgn` to `u32` reverses the byte order of the low 24 bits |
| Pgn.U32RoundTripIdentity | src/j1939/pgn.rs:13-19 | that round trip is the identity exactly for values below 2^24 whose bytes 0 and 2 are equal |
| Pgn.PgnRoundTrip | src/j1939/pgn.rs:13-19 | `Pgn` to `u32` to `Pgn` reverses the three stored bytes |
| Pgn.LittleEndianRoundTrip | src/j1939/pgn.rs:10-20 | with a little-endian `From<Pgn> for u32`, `u32 -> Pgn -> u32` keeps the low 24 bits and `Pgn -> u32 -> Pgn` is the identity |
| Pgn.FromU32 | src/j1939/pgn.rs:10-15 | definition: the three low bytes of the value, least significant first, as a little-endian target stores them |
| Pgn.ToU32LittleEndian | src/j1939/pgn.rs:17-20 | the corrected conversion back, `from_le_bytes([b0, b1, b2, 0])`, is always below 2^24 |
| J1939Tp.Control | src/j1939.rs:120-170 | a control frame changes only its sender's session, and a CTS is produced exactly for an opening frame when not passive |
| J1939Tp.ControlOpens | src/j1939.rs:127-142 | RTS (0x10) or BAM (0x20) installs a fresh empty session: size from little-endian bytes 1-2, count byte 3, PGN little-endian bytes 5-7, the frame's time |
| J1939Tp.Session | src/j1939.rs:127-139 | definition: size from bytes 1-2 little-endian, count byte 3, PGN bytes 5-7 little-endian, no data, the frame's time |
| J1939Tp.ClearToSendFields | src/j1939.rs:143-164 | the CTS goes back to the sender from the addressed node with PGN 0xEC00, payload [0x11, count, 1, 0xFF, 0xFF, PGN bytes], transmitted on channel 1 |
| J1939Tp.ClearToSend | src/j1939.rs:143-164 | definition: `new_packet(None, 1, 6, 0xEC00, source, dest, [0x11, count, 1, 0xFF, 0xFF, PGN bytes])` |
| J1939Tp.ControlAborts | src/j1939.rs:165-168 | an abort (0xFF) closes the sender's session |
| J1939Tp.ControlIgnores | src/j1939.rs:126-169 | any other control byte changes nothing and sends nothing |
| J1939Tp.Collected | src/j1939.rs:176-178 | a segment's bytes are appended only when its sequence number is 1 + collected/7 |
| J1939Tp.Expected | src/j1939.rs:176 | definition: 1 + collected/7, truncated to a byte |
| J1939Tp.Data | src/j1939.rs:172-200 | a data frame changes only its sender's session, and a completed message removes that session |
| J1939Tp.DataWithoutSession | src/j1939.rs:173-194 | a data frame from a sender without a session emits nothing and changes nothing |
| J1939Tp.DataAppends | src/j1939.rs:176-192 | the expected segment that does not complete the message is appended and nothing is emitted |
| J1939Tp.DataDropsOutOfOrder | src/j1939.rs:176-179 | an out-of-order, repeated or skipped segment leaves the table unchanged and emits nothing |
| J1939Tp.DataCompletes | src/j1939.rs:179-198 | at the declared size, exactly `size` bytes are emitted with the session's PGN and timestamp and the frame's priority, destination and source, and the session is removed |
| J1939Tp.KindOfAddresses | src/j1939.rs:89-107 | broadcast frames are those to 0xFF, and directed ones those to the node's own address |
| J1939Tp.KindOfGlobal | src/j1939.rs:89-107 | a node at 0xFF sees every session as broadcast |
| J1939Tp.KindOf | src/j1939.rs:89-107 | definition: the four masks on bits 8-23, tried in the source's order |
| J1939Tp.Step | src/j1939.rs:97-110 | broadcast traffic leaves the directed table alone and the reverse; a CTS is sent only for a directed opening frame when not passive; other frames change nothing |
| J1939Tp.ReceiveTp | src/j1939.rs:83-118 | the output holds between one and two items per input frame, and at most one CTS per frame |
| J1939Tp.ReceiveTpForwards | src/j1939.rs:97-116 | every input frame is passed on unchanged and in order |
| J1939Tp.ReassembledAfterData | src/j1939.rs:104-115 | a reassembled message sits right after the data frame that completed it |
| J1939Tp.ReceiveTpPassThrough | src/j1939.rs:108-115 | a stream with no transport-protocol frames passes through unchanged, with no CTS |
| J1939Tp.Chunk | src/j1939.rs:176-177 | a segment carries between one and seven bytes of the message |
| J1939Tp.BamRoundTrip | src/j1939.rs:97-200 | a complete broadcast transfer (an announce, then segments 1, 2, ... of the message) yields the frames followed by the message with the announce's PGN and time, and closes the session |
| J1939Tp.AnnounceStep | src/j1939.rs:98-142 | a broadcast announce opens a session and yields only itself |
| J1939Tp.DirectedRoundTrip | src/j1939.rs:97-200 | a complete directed transfer to this node (a request to send, then segments 1, 2, ... addressed to it) yields the frames followed by the message with the request's PGN and time, closes the session in the directed table only, and sends exactly one CTS, or none when passive |
| J1939Tp.RequestStep | src/j1939.rs:101-164 | a request to send addressed to this node opens a session in the directed table, yields only itself, and is answered with the CTS unless passive |
| J1939Tp.TransferAfterOpen | src/j1939.rs:172-200 | once a session of either kind is open with nothing collected, its segments in order complete it: the frames pass through, the message follows the last one, the session is removed, and no CTS is sent |
| J1939Tp.SegmentsBounds | src/j1939.rs:176-179 | a message of n bytes fills all but the last of its segments |
| J1939Tp.Receiver.Next | src/j1939.rs:97-116 | one frame through the stateful receiver: the tables, yielded packets and CTS are those of `Step` |
| J1939Tp.ReceiveAll | src/j1939.rs:83-118 | the loop over a stream yields the packets and CTS frames of `ReceiveTp` |
| J1939Tp.YieldPackets | src/j1939.rs:111-115 | one frame yields itself, then the reassembled packet if any |
| J1939Tp.Request | src/j1939.rs:53-58 | the request is a transmitted packet whose three payload bytes are the PGN little-endian |
| J1939Tp.RequestAddresses | src/j1939.rs:56 | the request goes from `sa` to `da` with PGN 0xEA00 |
| J1939Tp.RequestId | src/j1939.rs:56 | definition: 0x18EA0000 with `da` at bit 8 and `sa` in the low byte |
| J1939Tp.ResponseId | src/j1939.rs:61-64 | definition: the PGN one byte up with `da` in the low byte, and `sa` at bit 8 below 0xF000 |
| J1939Tp.ResponseMatches | src/j1939.rs:61-65 | a response built with `new_packet` from `da` to `sa` for a 16-bit PGN matches the response id |
| J1939Tp.DataPageNeverMatches | src/j1939.rs:61-65 | for a PGN from 0x10000 to 0xFFFFFF the response id has more than 24 bits, so no packet ever matches |
| J1939Tp.Find | src/j1939.rs:68-70 | `find` returns a matching packet of the stream, and returns none exactly when none matches |
| J1939Tp.FindAppend | src/j1939.rs:68-70 | `find` over two parts gives the first part's match if it has one, otherwise the second part's |
| J1939Tp.TpFind | src/j1939.rs:68-69 | `receive_tp(...).find(predicate)` read lazily: any packet found matches, and no more CTS frames are sent than frames read |
| J1939Tp.TpFindAgrees | src/j1939.rs:68-69 | where the whole stream can be read, the lazy search finds what `find` finds in the whole output of `receive_tp`, and its CTS frames are a prefix of those `receive_tp` sends |
| J1939Tp.RequestResponse | src/j1939.rs:45-73 | the frame sent is the request; any response found matches; without transport protocol no CTS is sent, and none is found exactly when none matches; with it, where the whole window can be read, the response is the first in the output of `receive_tp` and the CTS frames sent are the first of those `receive_tp` sends |
| Iso15765.New | src/uds/iso15765.rs:19-34 | the send header carries the source in its low byte and the receive header the destination |
| Iso15765.PeerHeaders | src/uds/iso15765.rs:26-32 | the peer built with the addresses swapped has the two headers exchanged |
| Iso15765.HeadersExample | src/uds/iso15765.rs:172-202 | the tests' headers for PGN 0xDA00 |
| Iso15765.FindFrame | src/uds/iso15765.rs:52-80 | the first frame of the window with the receive header in its low 24 bits, or none exactly when none has it |
| Iso15765.Matches | src/uds/iso15765.rs:52 | definition: the low 24 identifier bits equal the receive header |
| Iso15765.Padded | src/uds/iso15765.rs:41-119 | padding keeps the bytes and fills with 0xFF up to eight |
| Iso15765.Pad | src/uds/iso15765.rs:41-43 | the loop computes `Padded` |
| Iso15765.SingleFrame | src/uds/iso15765.rs:39-44 | a single frame holds the length then the request, padded to 8 (9 bytes for an 8-byte request) |
| Iso15765.SingleFrameExample | src/uds/iso15765.rs:169-181 | the test's frame for [1, 2, 3] |
| Iso15765.FirstFrame | src/uds/iso15765.rs:73-75 | the first frame is 8 bytes ending with the first six request bytes |
| Iso15765.FirstFrameHeader | src/uds/iso15765.rs:73-74 | for up to 0xFFF bytes the first two bytes are 0x1000 OR the length, big-endian |
| Iso15765.FirstFrameLength | src/uds/iso15765.rs:74-146 | for up to 0xFFF bytes the frame-type nibble is 1 and the announced length reads back |
| Iso15765.ConsecutiveFrames | src/uds/iso15765.rs:110-111 | there are len/7 consecutive frames |
| Iso15765.ConsecutiveFrameBytes | src/uds/iso15765.rs:113-116 | frame k carries the non-empty slice req[6+7(k-1) .. min(13+7(k-1), len)] after the byte 0x20 | (k mod 16) |
| Iso15765.ConsecutiveFrame | src/uds/iso15765.rs:113-119 | every consecutive frame is eight bytes long |
| Iso15765.StMinMicros | src/uds/iso15765.rs:95-101 | 0xF1-0xF9 is 100 us times the low nibble; any other value is that many ms |
| Iso15765.CheckFlowControl | src/uds/iso15765.rs:80-127 | 0x30 gives the separation time; 0x7F is a NACK; any other byte an error; no frame "No response" |
| Iso15765.Send | src/uds/iso15765.rs:35-48 | the frames sent and the outcome are those of the send specification |
| Iso15765.TransportSend | src/uds/iso15765.rs:71-129 | the frames sent and the outcome are those of the send specification |
| Iso15765.SendConsecutive | src/uds/iso15765.rs:110-122 | the loop sends exactly the consecutive frames |
| Iso15765.SendMulti | src/uds/iso15765.rs:71-124 | after an accepted flow control, the first frame and all consecutive frames are sent and the outcome is Ok |
| Iso15765.Truncate | src/uds/iso15765.rs:154 | truncation keeps the first min(len, n) bytes |
| Iso15765.Reassembled | src/uds/iso15765.rs:140-155 | the reassembled message is never longer than the announced length |
| Iso15765.ReceiveSpec | src/uds/iso15765.rs:51-63 | the result is an error exactly when no frame matches, and that error is "No response" |
| Iso15765.Receive | src/uds/iso15765.rs:51-63 | the result is that of the receive specification, and a flow control is sent exactly for a multi-frame reply |
| Iso15765.TransportReceive | src/uds/iso15765.rs:131-156 | sends the flow control [0x30, 0, 0, 0xFF x5] and reassembles in a loop exactly as `Reassembled` |
| Iso15765.FlowControl | src/uds/iso15765.rs:135-137 | definition: [0x30, 0, 0, 0xFF, 0xFF, 0xFF, 0xFF, 0xFF] on the send header |
| Iso15765.TakenPrefix | src/uds/iso15765.rs:148-152 | the frames taken from a prefix of the stream are a prefix of those taken from the stream |
| Iso15765.SingleFrameRoundTrip | src/uds/iso15765.rs:36-56 | a request of up to 8 bytes sent as a single frame is received back unchanged |
| Iso15765.ReceiveSingle | src/uds/iso15765.rs:53-55 | a single frame gives payload[1 .. 1+payload[0]] |
| Iso15765.MultiFrameRoundTrip | src/uds/iso15765.rs:71-244 | a request of 9 to 0xFFF bytes split into first and consecutive frames is reassembled exactly |
| Iso15765.FramesReassemble | src/uds/iso15765.rs:103-155 | the consecutive frames tile the request after its first six bytes |
| Iso15765.SendReceiveRoundTrip | src/uds/iso15765.rs:35-244 | the frames `send` emits for 9 to 0xFFF bytes are received back as the request |
| Iso15765.ReceiveMulti | src/uds/iso15765.rs:56-58 | a first frame starts reassembly from the frames after it |
| Uds.FlatLength | src/uds/mod.rs:110-133 | fixed-width encodings of n values give w times n bytes |
| Uds.Flat | src/uds/mod.rs:110-142 | definition: the encodings of the values, one after another, in order |
| Uds.Unflat | src/uds/mod.rs:110-133 | definition of the reference decoder: fixed-width chunks read back in order, a short tail ignored |
| Uds.UnflatFlat | src/uds/mod.rs:110-133 | decoding fixed-width encodings gives the values back |
| Uds.Word16Value | src/uds/mod.rs:112-113 | the two big-endian bytes of a `u16` read back as it |
| Uds.Word16 | src/uds/mod.rs:112-113 | the encoding of a `u16` is two bytes |
| Uds.Word24Value | src/uds/mod.rs:119-121 | the three bytes of a `u32` read back as its low 24 bits |
| Uds.Word24 | src/uds/mod.rs:119-121 | the encoding of a `u24` is three bytes |
| Uds.Word32Value | src/uds/mod.rs:127-130 | the four big-endian bytes of a `u32` read back as it |
| Uds.Word32 | src/uds/mod.rs:127-130 | the encoding of a `u32` is four bytes |
| Uds.Word56Value | src/uds/mod.rs:137-139 | the seven bytes `u64` writes read back as the low 56 bits |
| Uds.Word56 | src/uds/mod.rs:136-139 | the encoding `u64` writes is seven bytes |
| Uds.Word56Collides | src/uds/mod.rs:134-142 | two different `u64` values get the same seven bytes |
| Uds.Word64Value | src/uds/mod.rs:134-142 | eight big-endian bytes read back as the whole `u64` |
| Uds.Word64 | src/uds/mod.rs:134-142 | the evidently intended encoding of a `u64` is eight bytes |
| Uds.Words16RoundTrip | src/uds/mod.rs:110-116 | what `u16` appends decodes back to the values |
| Uds.Words32RoundTrip | src/uds/mod.rs:125-133 | what `u32` appends decodes back to the values |
| Uds.Words64RoundTrip | src/uds/mod.rs:134-142 | eight-byte encodings decode back to the values |
| Uds.Iso14229Command.Default | src/uds/mod.rs:86-94 | empty request, PGN 0xDA00, two seconds |
| Uds.Iso14229Command.Build | src/uds/mod.rs:96-103 | the request starts as [command], PGN 0xDA00, the given duration |
| Uds.Iso14229Command.U8 | src/uds/mod.rs:104-109 | appends the bytes unchanged, nothing else changes |
| Uds.Iso14229Command.U16 | src/uds/mod.rs:110-116 | appends each value as two big-endian bytes |
| Uds.Iso14229Command.U24 | src/uds/mod.rs:117-124 | appends the low three bytes of each value big-endian |
| Uds.Iso14229Command.U32 | src/uds/mod.rs:125-133 | appends each value as four big-endian bytes |
| Uds.Iso14229Command.U64 | src/uds/mod.rs:134-142 | appends only seven bytes per value, dropping the top byte |
| Uds.Iso14229Command.U64Full | src/uds/mod.rs:134-142 | appends each value as eight big-endian bytes |
| Uds.Iso14229Command.AppendBytes | src/uds/mod.rs:137-139 | the inner loop appends the value's low n bytes, most significant first |
| Uds.TopBytesAll | src/uds/mod.rs:137-139 | counting down from n-1 gives exactly the n-byte big-endian encoding |
| Uds.Cmd | src/uds/mod.rs:60-78 | each service's request: [0x10, s], [0x22, did], [0x2E, did] + value, [0x2F, did] + value, [0x27, id] + key |
| PushBusRs.NextOf | src/pushbus.rs:42-55 | closed gives None; running and empty gives Some(None); otherwise the front is popped |
| PushBusRs.NextN | src/pushbus.rs:42-55 | `n` calls give `n` results |
| PushBusRs.PushAll | src/pushbus.rs:68-74 | every registered queue gets the item at its back, nothing else changes |
| PushBusRs.PushEach | src/pushbus.rs:68-74 | several pushes keep the number of registered iterators |
| PushBusRs.CloseAll | src/pushbus.rs:21-27 | every registered iterator stops, queues unchanged |
| PushBusRs.PushEachAppends | src/pushbus.rs:59-74 | an iterator's queue receives exactly what is pushed after it registered, in order |
| PushBusRs.PushNobody | src/pushbus.rs:68-74 | items pushed with no iterator registered reach nobody |
| PushBusRs.DrainInOrder | src/pushbus.rs:47-54 | a running iterator yields its queue in order, each item once, then empty polls |
| PushBusRs.ClosedEnds | src/pushbus.rs:43-46 | after `close` every `next` gives None, whatever is queued |
| PushBusRs.PushBusIter.Next | src/pushbus.rs:42-55 | the iterator's step is `NextOf` of its state |
| PushBusRs.PushBus.constructor | src/pushbus.rs:16-20 | an empty registry |
| PushBusRs.PushBus.Close | src/pushbus.rs:21-81 | all registered iterators are stopped; the registry is unchanged |
| PushBusRs.PushBus.Iter | src/pushbus.rs:59-66 | a fresh running iterator with an empty queue is added at the end of the registry |
| PushBusRs.PushBus.Push | src/pushbus.rs:68-74 | the states become `PushAll` of the old states; the registry is unchanged |
| MultiQueueRs.Reads | src/multiqueue.rs:44-59 | successive reads give one result per call |
| MultiQueueRs.NextAt | src/multiqueue.rs:44-59 | definition: None from the deadline on; before it the item at the node and the next node, or None at the empty head |
| MultiQueueRs.ReadsInOrder | src/multiqueue.rs:44-59 | before the deadline an iterator yields the items from its position on, in order, then None |
| MultiQueueRs.LateReadsNothing | src/multiqueue.rs:46-58 | from the deadline on `next` yields None even with items pending |
| MultiQueueRs.SeesOnlyLater | src/multiqueue.rs:72-134 | an iterator yields exactly the items pushed after its creation, in push order, then None |
| MultiQueueRs.MqIter.Next | src/multiqueue.rs:44-59 | one `next` advances only this iterator's position, as `NextAt` says |
| MultiQueueRs.MultiQueue.constructor | src/multiqueue.rs:67-71 | an empty shared list |
| MultiQueueRs.MultiQueue.CloneBus | src/bus.rs:100-102 | a clone shares the same list |
| MultiQueueRs.MultiQueue.Push | src/multiqueue.rs:83-93 | the item is appended to the shared list |
| MultiQueueRs.MultiQueue.IterFor | src/multiqueue.rs:72-77 | a new iterator at the current end of the list with deadline now + duration |
| MultiQueueRs.MultiQueue.Iter | src/multiqueue.rs:79-81 | a new iterator whose deadline is now, so every `next` gives None |
| MultiQueueRs.Simple | src/multiqueue.rs:124-134 | the test: after "one", an iterator, "two" and "three", it yields "two", "three", None |
| MultiQueueRs.Independent | src/bus.rs:28-57 | reading one iterator does not consume from another |
| MultiQueueRs.IterSeesNothing | src/multiqueue.rs:79-81 | an iterator from `iter` never yields an item pushed after it was created, however soon it is read |
| MultiQueueRs.Handed | src/multiqueue.rs:109-115 | `func` receives at most one item per round, and none when every read is None |
| MultiQueueRs.EachHandsNothing | src/multiqueue.rs:105-117 | `each` and `log` never call `func`, whatever is pushed |
| MultiQueueRs.Poll | src/multiqueue.rs:44-59 | the deadline-free read is what `next` does before any deadline |
| MultiQueueRs.PollRounds | src/multiqueue.rs:109-115 | `n` rounds give `n` reads |
| MultiQueueRs.PollRoundsHand | src/multiqueue.rs:109-115 | with the deadline-free read, `func` receives the items from the node on, in push order, one per round while items remain |
| MultiQueueRs.EachForeverHandsLater | src/multiqueue.rs:105-117 | with the deadline-free read, `each` calls `func` on exactly the items pushed after it started, in push order |
| BusRs.PushAll | src/bus.rs:180-186 | every registered queue gets the item at its back |
| BusRs.PushEachAppends | src/bus.rs:170-186 | a registered queue receives every later push, in order |
| BusRs.ReadsInOrder | src/bus.rs:152-161 | while now is at most the deadline the iterator pops its queue in order, each item once |
| BusRs.NextOf | src/bus.rs:152-161 | definition: the front of the queue while running, otherwise None with the queue unchanged |
| BusRs.Reads | src/bus.rs:152-161 | successive reads give one result per call |
| BusRs.LateReadsNothing | src/bus.rs:152-167 | after the deadline `next` gives None whatever is queued |
| BusRs.Retain | src/bus.rs:146 | `retain` keeps a sub-list of the registry |
| BusRs.RetainKeeps | src/bus.rs:146-167 | an entry stays exactly when it is registered and still running |
| BusRs.RetainDistinct | src/bus.rs:146 | dropping entries keeps the registered queues distinct |
| BusRs.PushBusIter.IsRunning | src/bus.rs:165-167 | running exactly while now is at most the deadline |
| BusRs.PushBusIter.Next | src/bus.rs:152-161 | the iterator's step is `NextOf` of its queue at the first clock reading |
| BusRs.PushBusIter.Drop | src/bus.rs:143-148 | the handle's own deadline moves one second into the past, and the registry becomes `Retain` of it |
| BusRs.DropKeepsOwnEntry | src/bus.rs:143-148 | the dropped iterator's registered copy stays while its original deadline has not passed |
| BusRs.RetainDroppedKeeps | src/bus.rs:143-148 | with the intended drop an entry stays exactly when it is not the dropped queue and still running |
| BusRs.RetainDropped | src/bus.rs:143-148 | the intended drop keeps a sub-list of the registry, no longer than it |
| BusRs.PushBus.constructor | src/bus.rs:129-135 | an empty registry |
| BusRs.PushBus.CloneBus | src/bus.rs:188-190 | a clone shares the registry |
| BusRs.PushBus.IterFor | src/bus.rs:170-178 | a fresh empty queue with deadline now + duration is registered at the end |
| BusRs.PushBus.Push | src/bus.rs:180-186 | the registry contents become `PushAll` of the old ones |
| Connection.Packets | src/connection.rs:35 | empty polls are dropped |
| Connection.IterFor | src/connection.rs:43-45 | `iter_until(now + d)`: a prefix of the packets, and all of them when none is late |
| Connection.IterUntilPrefix | src/connection.rs:35-41 | what is yielded is a prefix of the packets, in order |
| Connection.IterUntil | src/connection.rs:34-41 | definition: empty polls are skipped; the first packet after `end` ends the stream and is not yielded |
| Connection.IterUntilOnTime | src/connection.rs:35-41 | when no packet is late every packet is yielded |
| Connection.IterUntilStops | src/connection.rs:36-38 | the first late packet ends the stream and is not yielded |
| Connection.IterUntilFirstLate | src/connection.rs:35-41 | the yield is exactly the packets before the first late one |
| Connection.PollsIgnored | src/connection.rs:35 | an empty poll never ends the stream and never shows, wherever it comes |
| Connection.PollsOnly | src/connection.rs:35-41 | a run of empty polls yields nothing and does not end the stream |
| Slcan.CanSpeedsIncreasing | src/slcan.rs:19 | the speed table is strictly increasing |
| Slcan.SpeedIndex | src/slcan.rs:60 | the index of a supported speed is the unique position holding it |
| Slcan.IndexOf | src/slcan.rs:60 | the index found holds the value, and no earlier position does |
| Slcan.SpeedCommand | src/slcan.rs:60 | "S" followed by the decimal index of the speed |
| Slcan.SpeedCommands | src/slcan.rs:19-60 | 250 kbit/s is "S5" and 1000 kbit/s "S8" |
| Slcan.Trim | src/slcan.rs:116 | only leading and trailing whitespace is removed |
| Slcan.TrimStart | src/slcan.rs:116 | only leading whitespace is removed, and the result starts with none |
| Slcan.TrimEnd | src/slcan.rs:116 | only trailing whitespace is removed, and the result ends with none |
| Slcan.RadixValue | src/slcan.rs:124-127 | a string of n hex digits (an optional leading '+') reads as a value below 16^n |
| Slcan.RadixOfDigits | src/slcan.rs:124-127 | without a sign it reads like plain hex digits |
| Slcan.Pairs | src/slcan.rs:125-128 | one byte per character pair, in order; any bad pair makes it an error |
| Slcan.PairsOk | src/slcan.rs:125-129 | the pairs decode exactly when every pair is hex |
| Slcan.ParseResult | src/slcan.rs:115-130 | after trimming, a line shorter than 8 or of even length is a length error, and only then |
| Slcan.ParseTrimmed | src/slcan.rs:118-130 | the length error exactly for lengths below 8 or even |
| Slcan.Parse | src/slcan.rs:110-112 | `parse` is None exactly when `parse_result` fails, and otherwise its packet |
| Slcan.ParsedFields | src/slcan.rs:124-129 | a parsed packet has the id of the first eight characters, the pairs after character 8 as payload, no time (transmitted) and channel 1 |
| Slcan.ParseAccepts | src/slcan.rs:118-129 | a line of odd length of at least 9 parses exactly when its id and every pair are hex |
| Slcan.LineRoundTrip | src/slcan.rs:115-130 | an eight-digit id, any length character and hex pairs parse back to that id and payload |
| Slcan.Line | src/slcan.rs:115-130 | the line for a frame has 9 + 2n characters: eight identifier digits, the length character, the packed payload |
| Slcan.SpacedSampleRejected | src/slcan.rs:114-119 | the example line in the comment, with spaces between its fields, has even length 34 and is turned down |
| Slcan.PackedSampleParses | src/slcan.rs:115-130 | the same frame written packed parses to identifier 0x0CF00A00 and its eight bytes |
| Rp1210.VerifyReturn | src/rp1210.rs:84-90 | success with the value exactly for 0..127, otherwise an error carrying the code |
| Rp1210.ConnectCommands | src/rp1210.rs:109-121 | protect-address only without app packetizing, then echo on [1], then all filters to pass [] |
| Rp1210.FirstFailure | src/rp1210.rs:108-121 | the commands before the first failing reply all succeeded |
| Rp1210.ConnectOutcome | src/rp1210.rs:91-123 | connecting succeeds exactly when every code is in 0..127; commands are issued in order up to the first failure |
| Rp1210.ClientConnect | src/rp1210.rs:91-123 | definition: the connect call, then the commands in order up to the first failure; the client id on success |
| Rp1210.SendBuffer | src/rp1210.rs:124-138 | [PGN bytes little-endian, priority, source, destination or 0 for PDU2] followed by the data |
| Rp1210.SendBufferPgn | src/rp1210.rs:125-131 | the first three bytes read back as the packet's PGN |
| Rp1210.DecodeRead | src/rp1210.rs:181-202 | big-endian time from bytes 0-3, payload from byte 11, PGN little-endian bytes 5-7, priority byte 8 & 7, source byte 9, destination byte 10 for PDU1 |
| Rp1210.ReadFields | src/rp1210.rs:187-191 | definition: priority byte 8 & 7, the PGN with the destination OR-ed in, destination byte 10 below 0xF000 (otherwise 0), source byte 9 |
| Rp1210.ReadId | src/rp1210.rs:187-202 | definition: the `new_packet` identifier of those fields |
| Rp1210.EchoRoundTrip | src/rp1210.rs:127-202 | decoding the echo of a sent buffer recovers PGN, source, destination, data and time; the priority reads back as 0 |
| Rp1210.EchoId | src/rp1210.rs:188-192 | the decoded identifier keeps PGN, destination and source |
| Rp1210.Pushes | src/rp1210.rs:181-217 | one pass pushes the decoded packet when bytes were read, then always None |
| Rp1210.PushesAllDecoded | src/rp1210.rs:179-218 | the packets pushed are the decoded reads in order, with one None per pass |
| Rp1210.PushesAll | src/rp1210.rs:179-218 | definition: the pushes of each pass, in order |
| Rp1210.ReadLoop | src/rp1210.rs:179-218 | the loop leaves the bus state `PushEach` of the pushes, with no iterator added or removed |
| Rp1210.ReadLoopQueues | src/rp1210.rs:179-218 | every subscriber queue receives all pushes of the loop, in order |

## Left out

- Threads, `thread::sleep`, `AtomicBool` running flags and the `Mutex`/`RwLock` wrappers: each bus is single-threaded state. The `retain` inside `PushBusIter::drop` in src/bus.rs re-locks the registry while dropping its entries (a deadlock), which is a locking issue outside the model.
- `Instant::now()`: clock readings are parameters. `Duration` is whole milliseconds.
- Floating-point time: `time_stamp_weight` and the `f64` time of `Packet`. The `Packet` to `J1939Packet` conversion takes the time as a parameter.
- The RP1210 foreign calls:
  - `libloading`;
  - the `unsafe extern` functions;
  - `get_error`;
  - `Drop`;
  - the discovery in src/rp1210_parsing.rs.

  Driver return codes are inputs.
- The `buf.len() as i16` length cast in `API::send`: the buffer length is not modelled.
- Rp1210.Readable: a read of 1 to 10 bytes panics in the source when it slices the payload. The model requires reads to be empty, failed or at least 11 bytes long.
- Serial I/O in src/slcan.rs: `Slcan::new`, `send_cmd`, the reader thread, and `unparse`/`send` (both `todo!()`).
- Slcan.ParseResult: requires an ASCII line. Byte-indexed slicing of a non-ASCII line errors or panics in the source, and that is not modelled.
- `Iso15765::send_receive` and `Iso14229Command::execute`: connection I/O. Frames that would be sent are returned instead.
- The crate's `Packet` type is not part of this model. `Iso15765.Frame` holds only the identifier and payload that ISO-TP reads.
- `Connection::send`, src/socketcanconnection.rs, src/sim.rs, src/main.rs, src/uds.rs, src/common.rs and src/j1939tp.rs: I/O, simulation or stubs.
- Iso15765.MultiFrameRoundTrip: stated for requests of at most 0xFFF bytes. Longer ones overflow the 12-bit length field, and `FirstFrame` models that overflow but no round trip is claimed.
- Uds.Iso14229Command.U16: the loop appends a value's two bytes in one step rather than by two pushes. The same holds for `U24`, `U32` and the outer loop of `U64`.
- J1939PacketRs.ConversionRoundTrip: the conversion is given the time. In the source, `From<&J1939Packet> for Packet` sets the `f64` time to weight × time. Packets from `new` have weight 1000.0, so their time 555 comes back as 555000 after `J1939Packet` → `Packet` → `J1939Packet`. Floating-point time is not modelled.
- J1939Tp.RequestResponse: sending the request can fail in the source (`connection.send(&packet)?` returns the error), and the model does not model a failed send. A failed CTS send is dropped by `receive_tp`, which ignores the result of `control`, so the CTS frames are always returned.
- PacketRs.FromFieldsAddresses: the source address and payload of `new_rp1210` are stated for the field layout that `NewRp1210` is defined through, not for `NewRp1210` directly.
- The tests in src/packet.rs (lines 158-182) expect a rendering that file's code does not produce, so they are not used as properties.
- The packet types of the three packet files are modelled separately, as each file defines them.

## Findings

| source | as written | input that shows it | evidently intended | confidence | as-written member | corrected member |
|---|---|---|---|---|---|---|
| src/j1939/pgn.rs:13-19 | `From<u32>` copies the value's native little-endian bytes, while `From<Pgn> for u32` reads them big-endian | 0x010203 becomes 0x030201 after `u32 -> Pgn -> u32` | the two conversions are inverse on 24-bit values; the crate puts PGNs on the wire least significant byte first (the request payload in src/j1939.rs, the RP1210 send buffer), so the read back is the half to correct | not executed | Pgn.U32RoundTrip | Pgn.LittleEndianRoundTrip |
| src/bus.rs:143-148 | `drop` moves the deadline of the dropped handle, but the registry holds a clone with its own deadline, so `retain` keeps it | an iterator made with `iter_for` for 60 s and dropped at once stays registered and receives every push for 60 s | dropping an iterator unregisters its queue | not executed | BusRs.DropKeepsOwnEntry | BusRs.RetainDroppedKeeps |
| src/uds/mod.rs:134-142 | `u64` pushes only the seven bytes for `i` in 6 down to 0 | 0x0100_0000_0000_0000 and 0 both append [0, 0, 0, 0, 0, 0, 0] | eight big-endian bytes per `u64` | not executed | Uds.Word56Collides | Uds.Words64RoundTrip |
| src/slcan.rs:114 | the comment above `parse_result` shows the line `0CF00A00 8 FF FF 00 FE FF FF 00 00`, with spaces between fields | that line has even length 34, so `parse_result` returns a length error | the example shows the packed form the parser reads, `0CF00A008FFFF00FEFFFF0000` | not executed | Slcan.SpacedSampleRejected | Slcan.PackedSampleParses |
| src/multiqueue.rs:79-81 | `iter` is `iter_for` with a zero duration, so its deadline is the moment it is made; `each` and `log` (lines 105-117) read through it | after `each`, every `next` returns None, so `func` is never called and the thread spins forever | an iterator without a deadline, so `each` hands every later item to `func` | not executed | MultiQueueRs.EachHandsNothing | MultiQueueRs.EachForeverHandsLater |
