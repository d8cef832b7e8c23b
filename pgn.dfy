/** The three-byte `Pgn` value of src/j1939/pgn.rs and its conversions to
    and from `u32`. */
module Pgn {
  import opened Bytes

  datatype Pgn = Pgn(b0: Byte, b1: Byte, b2: Byte)

  /** `From<u32> for Pgn`: the first three bytes of the value's in-memory
      representation, which on a little-endian target are its three
      least-significant bytes, least significant first; bits 24 to 31 are
      discarded. */
  function FromU32(v: bv32): (p: Pgn)
  {
    Pgn((v & 0xFF) as Byte, ((v >> 8) & 0xFF) as Byte, ((v >> 16) & 0xFF) as Byte)
  }

  /** `From<Pgn> for u32`: the stored bytes read big-endian under a zero
      top byte, so the first stored byte is the most significant. */
  function ToU32(p: Pgn): (v: bv32)
    ensures v < 0x100_0000
  {
    Be32(0, p.b0, p.b1, p.b2)
  }

  /** The byte order of a `Pgn` reversed. */
  function Reverse(p: Pgn): Pgn
  {
    Pgn(p.b2, p.b1, p.b0)
  }

  /** The low 24 bits of a value with their byte order reversed. */
  function SwapLow24(v: bv32): bv32
  {
    ((v & 0xFF) << 16) | (v & 0xFF00) | ((v >> 16) & 0xFF)
  }

  /** `u32 -> Pgn -> u32` does not give the value back: it reverses the
      byte order of the low 24 bits (and drops the top byte). */
  lemma U32RoundTrip(v: bv32)
    ensures ToU32(FromU32(v)) == SwapLow24(v)
  {
    var lo, mid, hi := (v & 0xFF) as Byte, ((v >> 8) & 0xFF) as Byte, ((v >> 16) & 0xFF) as Byte;
    assert FromU32(v) == Pgn(lo, mid, hi);
    SwapBytes(v, lo, mid, hi);
  }

  lemma SwapBytes(v: bv32, lo: Byte, mid: Byte, hi: Byte)
    requires lo == (v & 0xFF) as Byte && mid == ((v >> 8) & 0xFF) as Byte && hi == ((v >> 16) & 0xFF) as Byte
    ensures Be32(0, lo, mid, hi) == SwapLow24(v)
  {
  }

  /** It is the identity exactly on values below 2^24 whose lowest and
      third bytes agree. */
  lemma U32RoundTripIdentity(v: bv32)
    ensures ToU32(FromU32(v)) == v <==> v < 0x100_0000 && v & 0xFF == (v >> 16) & 0xFF
  {
    U32RoundTrip(v);
  }

  /** `Pgn -> u32 -> Pgn` reverses the three stored bytes. */
  lemma PgnRoundTrip(p: Pgn)
    ensures FromU32(ToU32(p)) == Reverse(p)
  {
    BytesOfBe32(p.b0, p.b1, p.b2);
  }

  lemma BytesOfBe32(b0: Byte, b1: Byte, b2: Byte)
    ensures var v := Be32(0, b0, b1, b2);
      (v & 0xFF) as Byte == b2 && ((v >> 8) & 0xFF) as Byte == b1 && ((v >> 16) & 0xFF) as Byte == b0
  {
  }

  /** The conversion back that makes `From<u32>` its inverse:
      `u32::from_le_bytes([b0, b1, b2, 0])`, the stored bytes least
      significant first, the order the crate puts PGNs on the wire in (the
      request payload of src/j1939.rs, the RP1210 send buffer). */
  function ToU32LittleEndian(p: Pgn): (v: bv32)
    ensures v < 0x100_0000
  {
    Be32(0, p.b2, p.b1, p.b0)
  }

  /** With it, `u32 -> Pgn -> u32` keeps the low 24 bits and
      `Pgn -> u32 -> Pgn` is the identity. */
  lemma LittleEndianRoundTrip(v: bv32, p: Pgn)
    ensures ToU32LittleEndian(FromU32(v)) == v & 0xFF_FFFF
    ensures FromU32(ToU32LittleEndian(p)) == p
  {
    LowBytesJoin(v);
    BytesOfBe32(p.b2, p.b1, p.b0);
  }

  lemma LowBytesJoin(v: bv32)
    ensures Be32(0, ((v >> 16) & 0xFF) as Byte, ((v >> 8) & 0xFF) as Byte, (v & 0xFF) as Byte) == v & 0xFF_FFFF
  {
  }
}
