/** The ISO 14229-1:2013 (UDS) request builder of src/uds/mod.rs: an
    `Iso14229Command` holds the raw request bytes, the PGN it is sent on and
    a time-out, and each builder step appends its arguments to the raw bytes
    in place, multi-byte values most significant byte first. Durations are
    whole milliseconds. */
module Uds {
  import opened Bytes

  /** The bytes of a run of values, each encoded by `enc`, in order. */
  function Flat<T>(data: seq<T>, enc: T -> seq<Byte>): (s: seq<Byte>)
    decreases |data|
  {
    if data == [] then [] else Flat(data[..|data| - 1], enc) + enc(data[|data| - 1])
  }

  /** One more value appends its encoding. */
  lemma FlatSnoc<T>(data: seq<T>, i: nat, enc: T -> seq<Byte>)
    requires i < |data|
    ensures Flat(data[..i + 1], enc) == Flat(data[..i], enc) + enc(data[i])
  {
    assert data[..i + 1][..i] == data[..i];
  }

  /** A fixed-width encoding of `n` values takes `w * n` bytes. */
  lemma {:induction false} FlatLength<T>(data: seq<T>, enc: T -> seq<Byte>, w: nat)
    requires forall x :: |enc(x)| == w
    ensures |Flat(data, enc)| == w * |data|
    decreases |data|
  {
    if data != [] {
      FlatLength(data[..|data| - 1], enc, w);
      assert w * (|data| - 1) + w == w * |data|;
    }
  }

  /** Reading fixed-width chunks back with `dec`. */
  function Unflat<T>(s: seq<Byte>, w: nat, dec: seq<Byte> -> T): (data: seq<T>)
    requires w > 0
    decreases |s|
  {
    if |s| < w then [] else [dec(s[..w])] + Unflat(s[w..], w, dec)
  }

  /** A decoder that inverts a fixed-width encoder reads every value back. */
  lemma {:induction false} UnflatFlat<T>(data: seq<T>, enc: T -> seq<Byte>, dec: seq<Byte> -> T, w: nat)
    requires w > 0
    requires forall x :: |enc(x)| == w && dec(enc(x)) == x
    ensures Unflat(Flat(data, enc), w, dec) == data
    decreases |data|
  {
    if data != [] {
      var rest := data[1..];
      FlatCons(data, enc);
      UnflatFlat(rest, enc, dec, w);
      FlatLength(rest, enc, w);
      var s := enc(data[0]) + Flat(rest, enc);
      assert s[..w] == enc(data[0]) && s[w..] == Flat(rest, enc);
    }
  }

  lemma {:induction false} FlatCons<T>(data: seq<T>, enc: T -> seq<Byte>)
    requires data != []
    ensures Flat(data, enc) == enc(data[0]) + Flat(data[1..], enc)
    decreases |data|
  {
    var n := |data|;
    if n > 1 {
      FlatCons(data[..n - 1], enc);
      assert data[..n - 1][1..] == data[1..][..n - 2];
    } else {
      assert data[1..] == [];
    }
  }

  /** `as u8` on a `u16`, a `u32` and a `u64`: the low byte. */
  function Low16(x: bv16): Byte { (x & 0xFF) as Byte }
  function Low32(x: bv32): Byte { (x & 0xFF) as Byte }
  function Low64(x: bv64): Byte { (x & 0xFF) as Byte }

  /** `u16`: high byte, then low byte. */
  function Word16(d: bv16): (b: seq<Byte>)
    ensures |b| == 2
  {
    [Low16(d >> 8), Low16(d)]
  }

  function Be16Of(b: seq<Byte>): bv16
  {
    if |b| == 2 then ((b[0] as bv16) << 8) | b[1] as bv16 else 0
  }

  lemma Word16Value(d: bv16)
    ensures Be16Of(Word16(d)) == d
  {
  }

  /** `u24`: the low three bytes, most significant first. */
  function Word24(d: bv32): (b: seq<Byte>)
    ensures |b| == 3
  {
    [Low32(d >> 16), Low32(d >> 8), Low32(d)]
  }

  function Be24Of(b: seq<Byte>): bv32
  {
    if |b| == 3 then Be32(0, b[0], b[1], b[2]) else 0
  }

  /** The top byte of a `u24` argument is lost. */
  lemma Word24Value(d: bv32)
    ensures Be24Of(Word24(d)) == d & 0xFF_FFFF
  {
    Low24(d);
  }

  lemma Low24(d: bv32)
    ensures Be32(0, Low32(d >> 16), Low32(d >> 8), Low32(d)) == d & 0xFF_FFFF
  {
  }

  /** `u32`: four bytes, most significant first. */
  function Word32(d: bv32): (b: seq<Byte>)
    ensures |b| == 4
  {
    [Low32(d >> 24), Low32(d >> 16), Low32(d >> 8), Low32(d)]
  }

  function Be32Of(b: seq<Byte>): bv32
  {
    if |b| == 4 then Be32(b[0], b[1], b[2], b[3]) else 0
  }

  lemma Word32Value(d: bv32)
    ensures Be32Of(Word32(d)) == d
  {
    Low32All(d);
  }

  lemma Low32All(d: bv32)
    ensures Be32(Low32(d >> 24), Low32(d >> 16), Low32(d >> 8), Low32(d)) == d
  {
  }

  /** Byte `i` of a `u64`, counting from the least significant: the low
      byte of `d` shifted right by `8 * i` bits, which is what the inner loop
      of `u64` pushes for `i`. */
  function ByteAt(d: bv64, i: bv8): Byte
    requires i < 8
  {
    Low64(d >> (i * 8))
  }

  /** `u64` as written: the inner loop runs `i` from 6 down to 0, so only
      bytes 6 to 0 are appended. */
  function Word56(d: bv64): (b: seq<Byte>)
    ensures |b| == 7
  {
    [ByteAt(d, 6), ByteAt(d, 5), ByteAt(d, 4), ByteAt(d, 3), ByteAt(d, 2), ByteAt(d, 1), ByteAt(d, 0)]
  }

  /** All eight bytes of a `u64`, most significant first. */
  function Word64(d: bv64): (b: seq<Byte>)
    ensures |b| == 8
  {
    [ByteAt(d, 7)] + Word56(d)
  }

  /** A `u64` from its big-endian bytes. */
  function Be64(b0: Byte, b1: Byte, b2: Byte, b3: Byte, b4: Byte, b5: Byte, b6: Byte, b7: Byte): bv64
  {
    ((b0 as bv64) << 56) | ((b1 as bv64) << 48) | ((b2 as bv64) << 40) | ((b3 as bv64) << 32)
    | ((b4 as bv64) << 24) | ((b5 as bv64) << 16) | ((b6 as bv64) << 8) | (b7 as bv64)
  }

  function Be64Of(b: seq<Byte>): bv64
  {
    if |b| == 8 then Be64(b[0], b[1], b[2], b[3], b[4], b[5], b[6], b[7]) else 0
  }

  /** Byte `i` is the low byte of `d >> 8 * i`. */
  lemma ByteAtShifts(d: bv64)
    ensures ByteAt(d, 7) == Low64(d >> 56) && ByteAt(d, 6) == Low64(d >> 48)
    ensures ByteAt(d, 5) == Low64(d >> 40) && ByteAt(d, 4) == Low64(d >> 32)
    ensures ByteAt(d, 3) == Low64(d >> 24) && ByteAt(d, 2) == Low64(d >> 16)
    ensures ByteAt(d, 1) == Low64(d >> 8) && ByteAt(d, 0) == Low64(d)
  {
  }

  lemma Low64All(d: bv64)
    ensures Be64(ByteAt(d, 7), ByteAt(d, 6), ByteAt(d, 5), ByteAt(d, 4),
                 ByteAt(d, 3), ByteAt(d, 2), ByteAt(d, 1), ByteAt(d, 0)) == d
  {
    ByteAtShifts(d);
    Low64Shifts(d);
  }

  lemma Low64Shifts(d: bv64)
    ensures Be64(Low64(d >> 56), Low64(d >> 48), Low64(d >> 40), Low64(d >> 32),
                 Low64(d >> 24), Low64(d >> 16), Low64(d >> 8), Low64(d)) == d
  {
  }

  lemma Low56All(d: bv64)
    ensures Be64(0, ByteAt(d, 6), ByteAt(d, 5), ByteAt(d, 4),
                 ByteAt(d, 3), ByteAt(d, 2), ByteAt(d, 1), ByteAt(d, 0)) == d & 0x00FF_FFFF_FFFF_FFFF
  {
    ByteAtShifts(d);
    Low56Shifts(d);
  }

  lemma Low56Shifts(d: bv64)
    ensures Be64(0, Low64(d >> 48), Low64(d >> 40), Low64(d >> 32),
                 Low64(d >> 24), Low64(d >> 16), Low64(d >> 8), Low64(d)) == d & 0x00FF_FFFF_FFFF_FFFF
  {
  }

  /** The seven bytes `u64` appends read back as the value without its top
      byte. */
  lemma Word56Value(d: bv64)
    ensures Be64Of([0] + Word56(d)) == d & 0x00FF_FFFF_FFFF_FFFF
  {
    Low56All(d);
  }

  /** So two values that differ only in their top byte give the same
      request bytes. */
  lemma Word56Collides()
    ensures Word56(0x0100_0000_0000_0000) == Word56(0)
    ensures |Word56(0)| != 8
  {
  }

  /** All eight bytes read back as the value. */
  lemma Word64Value(d: bv64)
    ensures Be64Of(Word64(d)) == d
  {
    Low64All(d);
  }

  /** A run of `u16`, `u32` or (eight-byte) `u64` values reads back from
      the request bytes. */
  lemma Words16RoundTrip(data: seq<bv16>)
    ensures Unflat(Flat(data, Word16), 2, Be16Of) == data
  {
    forall x: bv16 ensures Be16Of(Word16(x)) == x {
      Word16Value(x);
    }
    UnflatFlat(data, Word16, Be16Of, 2);
  }

  lemma Words32RoundTrip(data: seq<bv32>)
    ensures Unflat(Flat(data, Word32), 4, Be32Of) == data
  {
    forall x: bv32 ensures Be32Of(Word32(x)) == x {
      Word32Value(x);
    }
    UnflatFlat(data, Word32, Be32Of, 4);
  }

  lemma Words64RoundTrip(data: seq<bv64>)
    ensures Unflat(Flat(data, Word64), 8, Be64Of) == data
  {
    forall x: bv64 ensures Be64Of(Word64(x)) == x {
      Word64Value(x);
    }
    UnflatFlat(data, Word64, Be64Of, 8);
  }

  /** The PGN a UDS request is sent on. */
  const UdsPgn: bv32 := 0xDA00

  class Iso14229Command {
    var raw: seq<Byte>
    var pgn: bv32
    var duration: nat

    /** `Default`: no bytes, PGN 0xDA00, two seconds. */
    constructor Default()
      ensures raw == [] && pgn == UdsPgn && duration == 2000
    {
      raw := [];
      pgn := UdsPgn;
      duration := 2000;
    }

    /** `build`: a request starting with its service id. */
    constructor Build(duration: nat, command: Byte)
      ensures raw == [command] && pgn == UdsPgn && this.duration == duration
    {
      raw := [];
      pgn := UdsPgn;
      this.duration := duration;
      new;
      U8([command]);
    }

    /** `u8`: the bytes, unchanged. */
    method U8(data: seq<Byte>)
      modifies this
      ensures raw == old(raw) + data
      ensures pgn == old(pgn) && duration == old(duration)
    {
      for i := 0 to |data|
        invariant raw == old(raw) + data[..i]
        invariant pgn == old(pgn) && duration == old(duration)
      {
        assert data[..i + 1] == data[..i] + [data[i]];
        raw := raw + [data[i]];
      }
      assert data[..|data|] == data;
    }

    /** `u16`: each value as two bytes, most significant first. */
    method U16(data: seq<bv16>)
      modifies this
      ensures raw == old(raw) + Flat(data, Word16)
      ensures pgn == old(pgn) && duration == old(duration)
    {
      for i := 0 to |data|
        invariant raw == old(raw) + Flat(data[..i], Word16)
        invariant pgn == old(pgn) && duration == old(duration)
      {
        // the two pushes for one value
        raw := raw + Word16(data[i]);
        FlatSnoc(data, i, Word16);
      }
      assert data[..|data|] == data;
    }

    /** `u24`: each value as its low three bytes, most significant first. */
    method U24(data: seq<bv32>)
      modifies this
      ensures raw == old(raw) + Flat(data, Word24)
      ensures pgn == old(pgn) && duration == old(duration)
    {
      for i := 0 to |data|
        invariant raw == old(raw) + Flat(data[..i], Word24)
        invariant pgn == old(pgn) && duration == old(duration)
      {
        // the three pushes for one value
        raw := raw + Word24(data[i]);
        FlatSnoc(data, i, Word24);
      }
      assert data[..|data|] == data;
    }

    /** `u32`: each value as four bytes, most significant first. */
    method U32(data: seq<bv32>)
      modifies this
      ensures raw == old(raw) + Flat(data, Word32)
      ensures pgn == old(pgn) && duration == old(duration)
    {
      for i := 0 to |data|
        invariant raw == old(raw) + Flat(data[..i], Word32)
        invariant pgn == old(pgn) && duration == old(duration)
      {
        // the four pushes for one value
        raw := raw + Word32(data[i]);
        FlatSnoc(data, i, Word32);
      }
      assert data[..|data|] == data;
    }

    /** `u64` as written: seven bytes per value, the top byte dropped. */
    method U64(data: seq<bv64>)
      modifies this
      ensures raw == old(raw) + Flat(data, Word56)
      ensures pgn == old(pgn) && duration == old(duration)
    {
      for i := 0 to |data|
        invariant raw == old(raw) + Flat(data[..i], Word56)
        invariant pgn == old(pgn) && duration == old(duration)
      {
        AppendBytes(data[i], 7);
        FlatSnoc(data, i, Word56);
      }
      assert data[..|data|] == data;
    }

    /** `u64` as evidently intended: all eight bytes per value. */
    method U64Full(data: seq<bv64>)
      modifies this
      ensures raw == old(raw) + Flat(data, Word64)
      ensures pgn == old(pgn) && duration == old(duration)
    {
      for i := 0 to |data|
        invariant raw == old(raw) + Flat(data[..i], Word64)
        invariant pgn == old(pgn) && duration == old(duration)
      {
        AppendBytes(data[i], 8);
        FlatSnoc(data, i, Word64);
      }
      assert data[..|data|] == data;
    }

    /** The inner loop of `u64`: bytes `n - 1` down to 0 of `d`. */
    method AppendBytes(d: bv64, n: bv8)
      requires n == 7 || n == 8
      modifies this
      ensures raw == old(raw) + (if n == 7 then Word56(d) else Word64(d))
      ensures pgn == old(pgn) && duration == old(duration)
    {
      var i := n;
      while i > 0
        invariant i <= n
        invariant raw == old(raw) + TopBytes(d, n, i)
        invariant pgn == old(pgn) && duration == old(duration)
      {
        i := i - 1;
        raw := raw + [ByteAt(d, i)];
      }
      TopBytesAll(d, n);
    }
  }

  /** Bytes `n - 1` down to `i` of `d`. */
  function TopBytes(d: bv64, n: bv8, i: bv8): (b: seq<Byte>)
    requires i <= n <= 8
    decreases n - i
  {
    if i == n then [] else TopBytes(d, n, i + 1) + [ByteAt(d, i)]
  }

  /** Seven of them are `Word56`, eight `Word64`. */
  lemma TopBytesAll(d: bv64, n: bv8)
    requires n == 7 || n == 8
    ensures TopBytes(d, n, 0) == if n == 7 then Word56(d) else Word64(d)
  {
    if n == 8 {
      TopBytesStep(d, n, 7);
    }
    TopBytesUpper(d, n);
    TopBytesLower(d, n);
  }

  lemma TopBytesUpper(d: bv64, n: bv8)
    requires n == 7 || n == 8
    ensures TopBytes(d, n, 4) == TopBytes(d, n, 7) + [ByteAt(d, 6), ByteAt(d, 5), ByteAt(d, 4)]
  {
    TopBytesStep(d, n, 6);
    TopBytesStep(d, n, 5);
    TopBytesStep(d, n, 4);
  }

  lemma TopBytesLower(d: bv64, n: bv8)
    requires n == 7 || n == 8
    ensures TopBytes(d, n, 0) == TopBytes(d, n, 4) + [ByteAt(d, 3), ByteAt(d, 2), ByteAt(d, 1), ByteAt(d, 0)]
  {
    TopBytesStep(d, n, 3);
    TopBytesStep(d, n, 2);
    TopBytesStep(d, n, 1);
    TopBytesStep(d, n, 0);
  }

  lemma TopBytesStep(d: bv64, n: bv8, i: bv8)
    requires i < n <= 8
    ensures TopBytes(d, n, i) == TopBytes(d, n, i + 1) + [ByteAt(d, i)]
  {
  }

  /** The UDS services of the command line. */
  datatype Service =
    | SessionControl(session: Byte)
    | ReadDataByIdentifier(did: bv16)
    | WriteDataByIdentifier(did: bv16, value: seq<Byte>)
    | IoControl(did: bv16, value: seq<Byte>)
    | Auth(id: Byte, key: seq<Byte>)

  /** `cmd`: the request for a service, with the connection's time-out. */
  method Cmd(s: Service, timeout: nat) returns (c: Iso14229Command)
    ensures fresh(c) && c.pgn == UdsPgn && c.duration == timeout
    ensures s.SessionControl? ==> c.raw == [0x10, s.session]
    ensures s.ReadDataByIdentifier? ==> c.raw == [0x22] + Word16(s.did)
    ensures s.WriteDataByIdentifier? ==> c.raw == [0x2E] + Word16(s.did) + s.value
    ensures s.IoControl? ==> c.raw == [0x2F] + Word16(s.did) + s.value
    ensures s.Auth? ==> c.raw == [0x27, s.id] + s.key
  {
    var command: Byte := if s.SessionControl? then 0x10
      else if s.ReadDataByIdentifier? then 0x22
      else if s.WriteDataByIdentifier? then 0x2E
      else if s.IoControl? then 0x2F
      else 0x27;
    c := new Iso14229Command.Build(timeout, command);
    if s.SessionControl? {
      c.U8([s.session]);
    } else if s.Auth? {
      c.U8([s.id]);
      c.U8(s.key);
    } else {
      c.U16([s.did]);
      OneWord16(s.did);
      if !s.ReadDataByIdentifier? {
        c.U8(s.value);
      }
    }
  }

  lemma OneWord16(did: bv16)
    ensures Flat([did], Word16) == Word16(did)
  {
    assert [did][..0] == [];
  }
}
