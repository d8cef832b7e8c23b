/** The 29-bit J1939 identifier (section 5.2 of SAE J1939-21): priority,
    data page, PDU format, PDU specific (the destination address for
    PDU1 formats below 0xF0) and source address, held in a `u32`.
    The two newer packet types put the priority at bit 26; src/packet.rs
    has its own placement (module PacketRs). */
module J1939Id {
  import opened Bytes

  /** `source()`: the low byte. */
  function SourceOf(id: bv32): Byte
  {
    (id & 0xFF) as Byte
  }

  /** `dest()`: the PDU-specific byte. */
  function DestOf(id: bv32): Byte
  {
    ((id >> 8) & 0xFF) as Byte
  }

  /** `pgn()`: the sixteen bits above the source byte, with the destination
      OR-ed back in for PDU1 formats. */
  function PgnOf(id: bv32): bv32
  {
    var pgn := 0xFFFF & (id >> 8);
    if pgn < 0xF000 then pgn | (DestOf(id) as bv32) else pgn
  }

  /** `priority()`: everything from bit 26 up. */
  function PriorityOf(id: bv32): Byte
  {
    (id >> 26) as Byte
  }

  /** The OR with the destination never changes anything, since those bits
      are already present; the data-page bits 24 and 25 are dropped. */
  lemma PgnOfIsMiddle(id: bv32)
    ensures PgnOf(id) == (id >> 8) & 0xFFFF
    ensures PgnOf(id) <= 0xFFFF
    ensures PriorityOf(id) < 64
  {
  }

  /** `PgnOfIsMiddle` in the form the read-back lemmas use. */
  lemma PgnOfMiddle(id: bv32, middle: bv32)
    requires (id >> 8) & 0xFFFF == middle
    ensures PgnOf(id) == middle
  {
  }

  /** The identifier `new_packet` builds in `u32` arithmetic: priority at
      bit 26, the PGN one byte up, the destination in the PDU-specific byte
      for PGNs below 0xF000, and the source address; bits shifted past bit
      31 are lost. */
  function Identifier(priority: Byte, pgn: bv32, da: Byte, sa: Byte): bv32
  {
    var da := if pgn >= 0xF000 then 0 else da;
    ((priority as bv32) << 26) | (pgn << 8) | (if pgn >= 0xF000 then 0 else (da as bv32) << 8) | (sa as bv32)
  }

  /** The source address always reads back. */
  lemma IdentifierSource(priority: Byte, pgn: bv32, da: Byte, sa: Byte)
    ensures SourceOf(Identifier(priority, pgn, da, sa)) == sa
  {
  }

  /** For a PGN of at most sixteen bits the priority reads back modulo 64:
      its top two bits are shifted out of the `u32`, so every legal
      priority (at most 7) reads back exactly. */
  lemma IdentifierPriority(priority: Byte, pgn: bv32, da: Byte, sa: Byte)
    requires pgn <= 0xFFFF
    ensures PriorityOf(Identifier(priority, pgn, da, sa)) == priority & 0x3F
    ensures priority <= 7 ==> PriorityOf(Identifier(priority, pgn, da, sa)) == priority
  {
  }

  /** A broadcast (PDU2) PGN of sixteen bits reads back whole, and the
      destination argument is ignored. */
  lemma IdentifierBroadcast(priority: Byte, pgn: bv32, da: Byte, sa: Byte)
    requires 0xF000 <= pgn <= 0xFFFF
    ensures var id := Identifier(priority, pgn, da, sa);
      PgnOf(id) == pgn && DestOf(id) == (pgn & 0xFF) as Byte && id == Identifier(priority, pgn, 0, sa)
  {
  }

  /** For a destination-specific PGN the destination is OR-ed in at the
      PDU-specific byte. */
  lemma Pdu1Identifier(priority: Byte, pgn: bv32, da: Byte, sa: Byte)
    requires pgn < 0xF000
    ensures Identifier(priority, pgn, da, sa)
         == ((priority as bv32) << 26) | (pgn << 8) | ((da as bv32) << 8) | (sa as bv32)
  {
  }

  /** A destination-specific (PDU1) PGN with an empty PDU-specific byte
      carries the destination there, and `dest()` reads it back. */
  lemma IdentifierDest(priority: Byte, pgn: bv32, da: Byte, sa: Byte)
    requires pgn < 0xF000 && pgn & 0xFF == 0
    ensures DestOf(Identifier(priority, pgn, da, sa)) == da
  {
    Pdu1Identifier(priority, pgn, da, sa);
  }

  /** The sixteen bits above the source byte are then the PGN with the
      destination in its low byte. */
  lemma DirectedMiddle(priority: Byte, pgn: bv32, da: Byte, sa: Byte)
    requires pgn < 0xF000 && pgn & 0xFF == 0
    ensures (Identifier(priority, pgn, da, sa) >> 8) & 0xFFFF == pgn | da as bv32
  {
    Pdu1Identifier(priority, pgn, da, sa);
  }

  /** ... so `pgn()` reads back as the PGN with the destination OR-ed in. */
  lemma IdentifierDirected(priority: Byte, pgn: bv32, da: Byte, sa: Byte)
    requires pgn < 0xF000 && pgn & 0xFF == 0
    ensures PgnOf(Identifier(priority, pgn, da, sa)) == pgn | da as bv32
  {
    Pdu1Identifier(priority, pgn, da, sa);
  }
}
