/** The `J1939Packet` of src/packet.rs: a CAN frame with a 29-bit J1939
    identifier, its payload, a direction flag, a channel and a 32-bit
    timestamp. This revision puts the priority at bit 24 when it builds an
    identifier and reads it from bit 27; the transport-protocol engine, the
    RP1210 adapter and the serial-line parser build on it. */
module PacketRs {
  import opened Bytes
  import J1939Id

  /** The floating-point time-stamp weight is not part of this model. */
  datatype J1939Packet = J1939Packet(id: bv32, payload: seq<Byte>, tx: bool, channel: Byte, time: bv32)

  /** `priority()` of this revision: everything from bit 27 up. */
  function PriorityOf(id: bv32): Byte
  {
    (id >> 27) as Byte
  }

  function Source(p: J1939Packet): Byte { J1939Id.SourceOf(p.id) }

  function Dest(p: J1939Packet): Byte { J1939Id.DestOf(p.id) }

  function Pgn(p: J1939Packet): bv32 { J1939Id.PgnOf(p.id) }

  function Priority(p: J1939Packet): Byte { PriorityOf(p.id) }

  /** `header()`: `{:08X}` of the identifier, which reads back as the
      identifier itself. */
  function Header(p: J1939Packet): (s: string)
    ensures |s| == 8 && forall i :: 0 <= i < 8 ==> IsUpperHex(s[i])
    ensures DigitsValue(s) == Some(p.id as int)
  {
    Hex8Value(p.id);
    Hex8(p.id)
  }

  /** The identifier of a raw RP1210 buffer's fields: priority shifted to
      bit 27, the big-endian 24-bit PGN `[0, p0, p1, p2]` shifted up one
      byte (so `p0` lands at bit 24), and the source below. */
  function Rp1210Identifier(priority: Byte, p0: Byte, p1: Byte, p2: Byte, sa: Byte): bv32
  {
    ((priority as bv32) << 27) | ((p0 as bv32) << 24) | ((p1 as bv32) << 16) | ((p2 as bv32) << 8) | (sa as bv32)
  }

  /** `new_rp1210`: a packet from a raw RP1210 read buffer. A transmitted
      (echoed) buffer starts with a big-endian timestamp and one more byte
      before the fields; then come priority, a big-endian 24-bit PGN and the
      source address, which is also the first byte of the payload. */
  function NewRp1210(tx: bool, channel: Byte, data: seq<Byte>): (p: J1939Packet)
    requires |data| >= if tx then 10 else 5
  {
    var time := if tx then Be32(data[0], data[1], data[2], data[3]) else 0;
    FromFields(if tx then data[5..] else data, tx, channel, time)
  }

  /** The packet a buffer's fields (from the priority byte on) describe. */
  function FromFields(f: seq<Byte>, tx: bool, channel: Byte, time: bv32): J1939Packet
    requires |f| >= 5
  {
    J1939Packet(Rp1210Identifier(f[0], f[1], f[2], f[3], f[4]), f[4..], tx, channel, time)
  }

  /** The source address of a buffer's identifier is its last field byte,
      the destination the PGN's low byte. */
  lemma Rp1210IdentifierAddresses(priority: Byte, p0: Byte, p1: Byte, p2: Byte, sa: Byte)
    ensures var id := Rp1210Identifier(priority, p0, p1, p2, sa);
      J1939Id.SourceOf(id) == sa && J1939Id.DestOf(id) == p2
  {
  }

  /** `pgn()` of a buffer's identifier is the PGN's low sixteen bits: the
      data page (the PGN's top byte) is read from neither place. */
  lemma Rp1210IdentifierPgn(priority: Byte, p0: Byte, p1: Byte, p2: Byte, sa: Byte)
    ensures J1939Id.PgnOf(Rp1210Identifier(priority, p0, p1, p2, sa)) == ((p1 as bv32) << 8) | (p2 as bv32)
  {
    Rp1210Middle(priority, p0, p1, p2, sa);
    J1939Id.PgnOfMiddle(Rp1210Identifier(priority, p0, p1, p2, sa), ((p1 as bv32) << 8) | (p2 as bv32));
  }

  lemma Rp1210Middle(priority: Byte, p0: Byte, p1: Byte, p2: Byte, sa: Byte)
    ensures (Rp1210Identifier(priority, p0, p1, p2, sa) >> 8) & 0xFFFF == ((p1 as bv32) << 8) | (p2 as bv32)
  {
  }

  /** The packet of a buffer's fields: source address, destination and
      PGN from the fields, the payload from the source address byte on, and
      the given direction, channel and time. */
  lemma FromFieldsAddresses(f: seq<Byte>, tx: bool, channel: Byte, time: bv32)
    requires |f| >= 5
    ensures var p := FromFields(f, tx, channel, time);
      Source(p) == f[4] && Dest(p) == f[3] && Pgn(p) == ((f[2] as bv32) << 8) | (f[3] as bv32)
    ensures var p := FromFields(f, tx, channel, time);
      p.payload == f[4..] && p.tx == tx && p.channel == channel && p.time == time
  {
    Rp1210IdentifierAddresses(f[0], f[1], f[2], f[3], f[4]);
    Rp1210IdentifierPgn(f[0], f[1], f[2], f[3], f[4]);
  }

  /** The layout of a read buffer: a transmitted (echoed) buffer carries
      its big-endian timestamp in front; the payload starts at the source
      address byte. */
  lemma NewRp1210Layout(tx: bool, channel: Byte, data: seq<Byte>)
    requires |data| >= if tx then 10 else 5
    ensures var p, f := NewRp1210(tx, channel, data), if tx then data[5..] else data;
      && p.tx == tx && p.channel == channel
      && p.time == (if tx then Be32(data[0], data[1], data[2], data[3]) else 0)
      && p.payload == f[4..] && p.payload[0] == f[4]
  {
  }

  /** `new`: a packet without a time is one being sent. */
  function New(time: Option<bv32>, channel: Byte, id: bv32, payload: seq<Byte>): (p: J1939Packet)
    ensures p.id == id && p.payload == payload && p.channel == channel
    ensures p.tx <==> time == None
    ensures p.time == if time.Some? then time.value else 0
  {
    J1939Packet(id, payload, time.None?, channel, if time.Some? then time.value else 0)
  }

  /** The identifier `new_packet` of this revision builds: priority at bit
      24, the PGN shifted up one byte, the destination in the PDU-specific
      byte when the PGN is destination specific (below 0xF000), and the
      source in the low byte. */
  function Identifier(priority: Byte, pgn: bv32, da: Byte, sa: Byte): bv32
  {
    var da := if pgn >= 0xF000 then 0 else da;
    ((priority as bv32) << 24) | (pgn << 8) | (if pgn >= 0xF000 then 0 else (da as bv32) << 8) | (sa as bv32)
  }

  /** `new_packet`: `new` with this revision's identifier. The source
      address always reads back, but the priority, written at bit 24 and
      read from bit 27, comes back as 0; a broadcast PGN reads back whole,
      and a destination-specific one with the destination in its low byte
      (`PriorityLost`, `NewPacketBroadcast`, `NewPacketDirected`). */
  function NewPacket(time: Option<bv32>, channel: Byte, priority: Byte, pgn: bv32, da: Byte, sa: Byte,
                     data: seq<Byte>): (p: J1939Packet)
    ensures p.payload == data && p.channel == channel && (p.tx <==> time == None)
    ensures p.time == if time.Some? then time.value else 0
    ensures J1939Id.SourceOf(p.id) == sa
  {
    IdentifierSource(priority, pgn, da, sa);
    New(time, channel, Identifier(priority, pgn, da, sa), data)
  }

  lemma IdentifierSource(priority: Byte, pgn: bv32, da: Byte, sa: Byte)
    ensures J1939Id.SourceOf(Identifier(priority, pgn, da, sa)) == sa
  {
  }

  /** The priority is written at bit 24 but read from bit 27, so for every
      legal priority and a PGN of at most sixteen bits it reads back as 0. */
  lemma IdentifierPriority(priority: Byte, pgn: bv32, da: Byte, sa: Byte)
    requires priority <= 7 && pgn <= 0xFFFF
    ensures PriorityOf(Identifier(priority, pgn, da, sa)) == 0
  {
  }

  lemma IdentifierBroadcast(priority: Byte, pgn: bv32, da: Byte, sa: Byte)
    requires 0xF000 <= pgn <= 0xFFFF
    ensures var id := Identifier(priority, pgn, da, sa);
      J1939Id.PgnOf(id) == pgn && J1939Id.DestOf(id) == (pgn & 0xFF) as Byte
  {
  }

  lemma Pdu1Identifier(priority: Byte, pgn: bv32, da: Byte, sa: Byte)
    requires pgn < 0xF000
    ensures Identifier(priority, pgn, da, sa)
         == ((priority as bv32) << 24) | (pgn << 8) | ((da as bv32) << 8) | (sa as bv32)
  {
  }

  lemma IdentifierDest(priority: Byte, pgn: bv32, da: Byte, sa: Byte)
    requires pgn < 0xF000 && pgn & 0xFF == 0
    ensures J1939Id.DestOf(Identifier(priority, pgn, da, sa)) == da
  {
    Pdu1Identifier(priority, pgn, da, sa);
  }

  lemma IdentifierDirected(priority: Byte, pgn: bv32, da: Byte, sa: Byte)
    requires pgn < 0xF000 && pgn & 0xFF == 0
    ensures J1939Id.PgnOf(Identifier(priority, pgn, da, sa)) == pgn | da as bv32
  {
    Pdu1Identifier(priority, pgn, da, sa);
  }

  lemma DirectedMiddle(priority: Byte, pgn: bv32, da: Byte, sa: Byte)
    requires pgn < 0xF000 && pgn & 0xFF == 0
    ensures (Identifier(priority, pgn, da, sa) >> 8) & 0xFFFF == pgn | da as bv32
  {
    Pdu1Identifier(priority, pgn, da, sa);
  }

  /** The source address always reads back, and so do the payload and the
      direction. */
  lemma NewPacketSource(time: Option<bv32>, channel: Byte, priority: Byte, pgn: bv32, da: Byte, sa: Byte,
                        data: seq<Byte>)
    ensures var p := NewPacket(time, channel, priority, pgn, da, sa, data);
      Source(p) == sa && p.payload == data && p.tx == time.None?
  {
    IdentifierSource(priority, pgn, da, sa);
  }

  /** The priority does not round-trip: it reads back as 0. */
  lemma PriorityLost(time: Option<bv32>, channel: Byte, priority: Byte, pgn: bv32, da: Byte, sa: Byte,
                     data: seq<Byte>)
    requires priority <= 7 && pgn <= 0xFFFF
    ensures Priority(NewPacket(time, channel, priority, pgn, da, sa, data)) == 0
  {
    IdentifierPriority(priority, pgn, da, sa);
  }

  /** A broadcast (PDU2) PGN of sixteen bits reads back whole, and the
      destination argument is ignored. */
  lemma NewPacketBroadcast(time: Option<bv32>, channel: Byte, priority: Byte, pgn: bv32, da: Byte, sa: Byte,
                           data: seq<Byte>)
    requires 0xF000 <= pgn <= 0xFFFF
    ensures var p := NewPacket(time, channel, priority, pgn, da, sa, data);
      Pgn(p) == pgn && Dest(p) == (pgn & 0xFF) as Byte
  {
    IdentifierBroadcast(priority, pgn, da, sa);
  }

  /** A destination-specific (PDU1) PGN with an empty PDU-specific byte
      carries the destination there, and the PGN reads back with it. */
  lemma NewPacketDirected(time: Option<bv32>, channel: Byte, priority: Byte, pgn: bv32, da: Byte, sa: Byte,
                          data: seq<Byte>)
    requires pgn < 0xF000 && pgn & 0xFF == 0
    ensures var p := NewPacket(time, channel, priority, pgn, da, sa, data);
      Dest(p) == da && Pgn(p) == pgn | da as bv32
  {
    IdentifierDest(priority, pgn, da, sa);
    IdentifierDirected(priority, pgn, da, sa);
  }

  /** `as_hex`: the bytes as space-separated uppercase hex pairs. The
      source slices off the leading space of an empty string when there are
      no bytes, which panics; hence the precondition. */
  method AsHex(data: seq<Byte>) returns (s: string)
    requires |data| > 0
    ensures s == HexJoined(data)
    ensures |s| == 3 * |data| - 1
  {
    var acc := "";
    for i := 0 to |data|
      invariant acc == if i == 0 then "" else " " + HexJoined(data[..i])
    {
      HexJoinedLead(data, i);
      acc := acc + " " + Hex2(data[i]);
    }
    assert data[..|data|] == data;
    s := acc[1..];
  }
}
