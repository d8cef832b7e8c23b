/** The newest `J1939Packet` (src/j1939/j1939_packet.rs): a thin wrapper
    around the crate's generic `Packet` that adds the J1939 view of the
    identifier (bit-26 priority layout of module J1939Id). */
module J1939Wrap {
  import opened Bytes
  import J1939Id

  /** The generic `Packet` this wrapper holds, with the fields the wrapper
      uses: identifier, payload, direction, receive time (a `Duration`,
      here in nanoseconds) and channel. */
  datatype Packet = Packet(id: bv32, payload: seq<Byte>, tx: bool, time: nat, channel: bv32)

  /** `Packet::new`: a packet to send, with no time and channel 0. */
  function PacketNew(id: bv32, payload: seq<Byte>): Packet
  {
    Packet(id, payload, true, 0, 0)
  }

  /** `Packet::new_rx`: a received packet with its time and channel. */
  function PacketNewRx(id: bv32, payload: seq<Byte>, time: nat, channel: bv32): Packet
  {
    Packet(id, payload, false, time, channel)
  }

  datatype J1939Packet = J1939Packet(packet: Packet)

  /** `From<Packet>` and `From<&Packet>`: wrap (a clone). Unwrapping
      gives the packet back, and the J1939 view reports its identifier,
      addresses and data. */
  function Wrap(p: Packet): (j: J1939Packet)
    ensures Unwrap(j) == p
    ensures Id(j) == p.id && Data(j) == p.payload
    ensures Source(j) == J1939Id.SourceOf(p.id) && Dest(j) == J1939Id.DestOf(p.id)
  {
    J1939Packet(p)
  }

  /** `From<J1939Packet>` and `From<&J1939Packet>`: unwrap (a clone). The
      packet carries the identifier and data the J1939 view reports, and
      wrapping it again gives the same J1939 packet. */
  function Unwrap(j: J1939Packet): (p: Packet)
    ensures p.id == Id(j) && p.payload == Data(j)
    ensures J1939Packet(p) == j
  {
    j.packet
  }

  /** Wrapping and unwrapping are inverse in both orders. */
  lemma WrapRoundTrip(p: Packet, j: J1939Packet)
    ensures Unwrap(Wrap(p)) == p
    ensures Wrap(Unwrap(j)) == j
  {
  }

  function Id(j: J1939Packet): bv32 { j.packet.id }

  function Source(j: J1939Packet): Byte { J1939Id.SourceOf(j.packet.id) }

  function Dest(j: J1939Packet): Byte { J1939Id.DestOf(j.packet.id) }

  function Pgn(j: J1939Packet): bv32 { J1939Id.PgnOf(j.packet.id) }

  function Priority(j: J1939Packet): Byte { J1939Id.PriorityOf(j.packet.id) }

  /** `data()`: the wrapped packet's payload. */
  function Data(j: J1939Packet): seq<Byte> { j.packet.payload }

  /** `new_packet`: a received packet when a time is given, otherwise a
      packet to send; the channel is used only for a received packet. */
  function NewPacket(time: Option<nat>, channel: bv32, priority: Byte, pgn: bv32, da: Byte, sa: Byte,
                     data: seq<Byte>): (j: J1939Packet)
  {
    var id := J1939Id.Identifier(priority, pgn, da, sa);
    J1939Packet(if time.Some? then PacketNewRx(id, data, time.value, channel) else PacketNew(id, data))
  }

  /** `new(id, payload)`: a packet to send, wrapped; `id()` and `data()`
      give the arguments back. */
  function New(id: bv32, payload: seq<Byte>): (j: J1939Packet)
    ensures Id(j) == id && Data(j) == payload
    ensures Unwrap(j).tx && Unwrap(j).time == 0 && Unwrap(j).channel == 0
  {
    J1939Packet(PacketNew(id, payload))
  }

  /** `new` keeps the identifier and `data()` gives back the payload. */
  lemma NewFields(id: bv32, payload: seq<Byte>)
    ensures Id(New(id, payload)) == id && Data(New(id, payload)) == payload
    ensures New(id, payload).packet.tx && New(id, payload).packet.channel == 0
  {
  }

  /** A packet built with a time is a received one on the given channel at
      that time; without one it is to be sent on channel 0. Either way it
      carries the data and the built identifier. */
  lemma NewPacketKind(time: Option<nat>, channel: bv32, priority: Byte, pgn: bv32, da: Byte, sa: Byte,
                      data: seq<Byte>)
    ensures var j := NewPacket(time, channel, priority, pgn, da, sa, data);
      && (j.packet.tx <==> time.None?)
      && j.packet.channel == (if time.Some? then channel else 0)
      && j.packet.time == (if time.Some? then time.value else 0)
      && Data(j) == data && Id(j) == J1939Id.Identifier(priority, pgn, da, sa)
  {
  }

  lemma NewPacketSource(time: Option<nat>, channel: bv32, priority: Byte, pgn: bv32, da: Byte, sa: Byte,
                        data: seq<Byte>)
    ensures Source(NewPacket(time, channel, priority, pgn, da, sa, data)) == sa
  {
    J1939Id.IdentifierSource(priority, pgn, da, sa);
  }

  lemma NewPacketPriority(time: Option<nat>, channel: bv32, priority: Byte, pgn: bv32, da: Byte, sa: Byte,
                          data: seq<Byte>)
    requires priority <= 7 && pgn <= 0xFFFF
    ensures Priority(NewPacket(time, channel, priority, pgn, da, sa, data)) == priority
  {
    J1939Id.IdentifierPriority(priority, pgn, da, sa);
  }

  lemma NewPacketBroadcast(time: Option<nat>, channel: bv32, priority: Byte, pgn: bv32, da: Byte, sa: Byte,
                           data: seq<Byte>)
    requires 0xF000 <= pgn <= 0xFFFF
    ensures Pgn(NewPacket(time, channel, priority, pgn, da, sa, data)) == pgn
  {
    J1939Id.IdentifierBroadcast(priority, pgn, da, sa);
  }

  lemma NewPacketDirected(time: Option<nat>, channel: bv32, priority: Byte, pgn: bv32, da: Byte, sa: Byte,
                          data: seq<Byte>)
    requires pgn < 0xF000 && pgn & 0xFF == 0
    ensures var j := NewPacket(time, channel, priority, pgn, da, sa, data);
      Dest(j) == da && Pgn(j) == pgn | da as bv32
  {
    J1939Id.IdentifierDest(priority, pgn, da, sa);
    J1939Id.IdentifierDirected(priority, pgn, da, sa);
  }
}
