/** The `J1939Packet` of src/j1939_packet.rs: identifier, payload,
    direction, channel and a 32-bit time, with the bit-26 priority layout
    of module J1939Id, its text rendering, and the conversions to and from
    the crate's generic `Packet`. */
module J1939PacketRs {
  import opened Bytes
  import J1939Id

  /** The crate's generic `Packet` as this file sees it: identifier,
      payload and direction. Its floating-point time is not part of this
      model. */
  datatype Packet = Packet(id: bv32, payload: seq<Byte>, tx: bool)

  /** The floating-point time-stamp weight is not part of this model. */
  datatype J1939Packet = J1939Packet(id: bv32, payload: seq<Byte>, tx: bool, channel: Byte, time: bv32)

  /** `From<&Packet>`: the channel becomes 0; `time` stands for the
      packet's floating-point time cast to `u32`. */
  function FromPacket(p: Packet, time: bv32): (j: J1939Packet)
    ensures j.id == p.id && j.payload == p.payload && j.tx == p.tx
    ensures j.channel == 0 && j.time == time
  {
    J1939Packet(p.id, p.payload, p.tx, 0, time)
  }

  /** `From<&J1939Packet>`: identifier, payload and direction carry over. */
  function ToPacket(j: J1939Packet): (p: Packet)
    ensures p.id == j.id && p.payload == j.payload && p.tx == j.tx
  {
    Packet(j.id, j.payload, j.tx)
  }

  /** Converting a `Packet` and back gives the same `Packet`; converting a
      channel-0 `J1939Packet` and back, with its own time, gives it back. */
  lemma ConversionRoundTrip(p: Packet, j: J1939Packet)
    ensures ToPacket(FromPacket(p, j.time)) == p
    ensures j.channel == 0 ==> FromPacket(ToPacket(j), j.time) == j
  {
  }

  /** `new`: a packet without a time is one being sent. */
  function New(time: Option<bv32>, channel: Byte, id: bv32, payload: seq<Byte>): (p: J1939Packet)
    ensures p.id == id && p.payload == payload && p.channel == channel
    ensures p.tx <==> time == None
    ensures p.time == if time.Some? then time.value else 0
  {
    J1939Packet(id, payload, time.None?, channel, if time.Some? then time.value else 0)
  }

  /** `new_packet`: `new` with the identifier J1939 framing gives. The
      source address always reads back, and so does every legal priority
      for a sixteen-bit PGN; a broadcast PGN reads back whole. */
  function NewPacket(time: Option<bv32>, channel: Byte, priority: Byte, pgn: bv32, da: Byte, sa: Byte,
                     data: seq<Byte>): (p: J1939Packet)
    ensures p.payload == data && p.channel == channel && (p.tx <==> time == None)
    ensures p.time == if time.Some? then time.value else 0
    ensures J1939Id.SourceOf(p.id) == sa
    ensures priority <= 7 && pgn <= 0xFFFF ==> J1939Id.PriorityOf(p.id) == priority
    ensures 0xF000 <= pgn <= 0xFFFF ==> J1939Id.PgnOf(p.id) == pgn
    ensures pgn < 0xF000 && pgn & 0xFF == 0 ==> J1939Id.DestOf(p.id) == da && J1939Id.PgnOf(p.id) == pgn | da as bv32
  {
    IdentifierReadsBack(priority, pgn, da, sa);
    New(time, channel, J1939Id.Identifier(priority, pgn, da, sa), data)
  }

  /** What the accessors read back from a built identifier. */
  lemma IdentifierReadsBack(priority: Byte, pgn: bv32, da: Byte, sa: Byte)
    ensures var id := J1939Id.Identifier(priority, pgn, da, sa);
      && J1939Id.SourceOf(id) == sa
      && (priority <= 7 && pgn <= 0xFFFF ==> J1939Id.PriorityOf(id) == priority)
      && (0xF000 <= pgn <= 0xFFFF ==> J1939Id.PgnOf(id) == pgn)
      && (pgn < 0xF000 && pgn & 0xFF == 0 ==> J1939Id.DestOf(id) == da && J1939Id.PgnOf(id) == pgn | da as bv32)
  {
    J1939Id.IdentifierSource(priority, pgn, da, sa);
    if priority <= 7 && pgn <= 0xFFFF {
      J1939Id.IdentifierPriority(priority, pgn, da, sa);
    }
    if 0xF000 <= pgn <= 0xFFFF {
      J1939Id.IdentifierBroadcast(priority, pgn, da, sa);
    }
    if pgn < 0xF000 && pgn & 0xFF == 0 {
      J1939Id.IdentifierDest(priority, pgn, da, sa);
      J1939Id.IdentifierDirected(priority, pgn, da, sa);
    }
  }

  function Source(p: J1939Packet): Byte { J1939Id.SourceOf(p.id) }

  function Dest(p: J1939Packet): Byte { J1939Id.DestOf(p.id) }

  function Pgn(p: J1939Packet): bv32 { J1939Id.PgnOf(p.id) }

  function Priority(p: J1939Packet): Byte { J1939Id.PriorityOf(p.id) }

  /** `header()`: `{:08X}` of the identifier, which reads back as the
      identifier itself. */
  function Header(p: J1939Packet): (s: string)
    ensures |s| == 8 && forall i :: 0 <= i < 8 ==> IsUpperHex(s[i])
    ensures DigitsValue(s) == Some(p.id as int)
  {
    Hex8Value(p.id);
    Hex8(p.id)
  }

  /** The source address, payload and direction of a built packet read
      back. */
  lemma NewPacketSource(time: Option<bv32>, channel: Byte, priority: Byte, pgn: bv32, da: Byte, sa: Byte,
                        data: seq<Byte>)
    ensures var p := NewPacket(time, channel, priority, pgn, da, sa, data);
      Source(p) == sa && p.payload == data && p.tx == time.None? && p.channel == channel
  {
    J1939Id.IdentifierSource(priority, pgn, da, sa);
  }

  /** Every legal priority reads back. */
  lemma NewPacketPriority(time: Option<bv32>, channel: Byte, priority: Byte, pgn: bv32, da: Byte, sa: Byte,
                          data: seq<Byte>)
    requires priority <= 7 && pgn <= 0xFFFF
    ensures Priority(NewPacket(time, channel, priority, pgn, da, sa, data)) == priority
  {
    J1939Id.IdentifierPriority(priority, pgn, da, sa);
  }

  /** A broadcast (PDU2) PGN reads back whole, whatever destination was given. */
  lemma NewPacketBroadcast(time: Option<bv32>, channel: Byte, priority: Byte, pgn: bv32, da: Byte, sa: Byte,
                           data: seq<Byte>)
    requires 0xF000 <= pgn <= 0xFFFF
    ensures Pgn(NewPacket(time, channel, priority, pgn, da, sa, data)) == pgn
  {
    J1939Id.IdentifierBroadcast(priority, pgn, da, sa);
  }

  /** A destination-specific (PDU1) PGN carries the destination, and the
      PGN reads back with the destination in its low byte. */
  lemma NewPacketDirected(time: Option<bv32>, channel: Byte, priority: Byte, pgn: bv32, da: Byte, sa: Byte,
                          data: seq<Byte>)
    requires pgn < 0xF000 && pgn & 0xFF == 0
    ensures var p := NewPacket(time, channel, priority, pgn, da, sa, data);
      Dest(p) == da && Pgn(p) == pgn | da as bv32
  {
    J1939Id.IdentifierDest(priority, pgn, da, sa);
    J1939Id.IdentifierDirected(priority, pgn, da, sa);
  }

  /** `as_hex`: the bytes as space-separated uppercase hex pairs; no bytes
      give the empty string. */
  method AsHex(data: seq<Byte>) returns (s: string)
    ensures s == HexJoined(data)
    ensures |s| == if data == [] then 0 else 3 * |data| - 1
  {
    if data == [] {
      return "";
    }
    var acc := "";
    for i := 0 to |data|
      invariant acc == if i == 0 then "" else " " + HexJoined(data[..i])
    {
      HexJoinedLead(data, i);
      acc := acc + " " + Hex2(data[i]);
    }
    assert data[..|data|] == data;
    s := acc[1..];
  }

  /** `as_hex_nospace`: the bytes as uppercase hex pairs with nothing
      between them. */
  method AsHexNoSpace(data: seq<Byte>) returns (s: string)
    ensures s == HexPacked(data)
    ensures |s| == 2 * |data|
  {
    s := "";
    for i := 0 to |data|
      invariant s == HexPacked(data[..i])
    {
      assert data[..i + 1][..i] == data[..i];
      s := s + Hex2(data[i]);
    }
    assert data[..|data|] == data;
  }

  /** The `Display` rendering: the time right-aligned in twelve columns
      (the precision does not apply to an integer), then the channel, the
      header, the payload length in brackets and the payload bytes, and
      " (TX)" for a packet being sent. */
  function Display(p: J1939Packet): string
  {
    PadLeft(Decimal(p.time as int), 12) + DisplayFields(p) + (if p.tx then " (TX)" else "")
  }

  /** Everything between the time and the direction marker. */
  function DisplayFields(p: J1939Packet): string
  {
    " " + Decimal(p.channel as int) + " " + Header(p) + " [" + Decimal(|p.payload|) + "] " + HexJoined(p.payload)
  }

  /** The rendering always starts with the twelve-column time and ends
      with the direction marker exactly when the packet is being sent. */
  lemma DisplayShape(p: J1939Packet)
    ensures var s := Display(p);
      |s| > 12 && s[..12] == PadLeft(Decimal(p.time as int), 12) && s[12] == ' '
      && (p.tx <==> s[|s| - 5..] == " (TX)")
  {
    DecimalWidth(p.time as int);
    FieldsEnd(p);
    var head, fields := PadLeft(Decimal(p.time as int), 12), DisplayFields(p);
    assert fields[0] == ' ';
    MarkerShape(head, fields, p.tx);
  }

  /** Twelve columns, then fields that start with a space and do not end
      with ')', then the marker: the marker is present exactly when sent. */
  lemma MarkerShape(head: string, fields: string, tx: bool)
    requires |head| == 12 && |fields| >= 5 && fields[0] == ' ' && fields[|fields| - 1] != ')'
    ensures var s := head + fields + (if tx then " (TX)" else "");
      |s| > 12 && s[..12] == head && s[12] == ' ' && (tx <==> s[|s| - 5..] == " (TX)")
  {
    var s := head + fields + (if tx then " (TX)" else "");
    assert s[12] == fields[0];
    if !tx {
      assert s[|s| - 1] == fields[|fields| - 1];
      assert s[|s| - 5..][4] == s[|s| - 1];
    }
  }

  /** The fields end with the last digit of the last payload byte, or with
      the space after the length for an empty payload: never with the
      closing parenthesis of the direction marker. */
  lemma FieldsEnd(p: J1939Packet)
    ensures var f := DisplayFields(p); |f| >= 5 && f[|f| - 1] != ')'
  {
    var a := " " + Decimal(p.channel as int) + " " + Header(p) + " [" + Decimal(|p.payload|);
    var h := HexJoined(p.payload);
    assert DisplayFields(p) == a + "] " + h;
    if |p.payload| > 0 {
      var k := |p.payload| - 1;
      HexJoinedAt(p.payload, k);
      assert h[|h| - 1] == h[3 * k..3 * k + 2][1];
    }
    EndsWithout(a, h);
  }

  /** What follows "] " decides the last character, unless it is empty. */
  lemma EndsWithout(a: string, h: string)
    requires |a| >= 3 && (h == [] || h[|h| - 1] != ')')
    ensures var f := a + "] " + h; |f| >= 5 && f[|f| - 1] != ')'
  {
    var f := a + "] " + h;
    if h == [] {
      assert f[|f| - 1] == ' ';
    } else {
      assert f[|f| - 1] == h[|h| - 1];
    }
  }

  /** A `u32` has at most ten decimal digits, so it always fits the twelve
      columns. */
  lemma DecimalWidth(n: nat)
    requires n < 0x1_0000_0000
    ensures |Decimal(n)| <= 10
  {
    DecimalBound(n, 10);
  }

  lemma {:induction false} DecimalBound(n: nat, k: nat)
    requires k >= 1 && n < Pow10(k)
    ensures |Decimal(n)| <= k
  {
    if n >= 10 {
      assert n / 10 < Pow10(k - 1);
      DecimalBound(n / 10, k - 1);
    }
  }

  function Pow10(k: nat): (r: nat)
    ensures r >= 1
  {
    if k == 0 then 1 else 10 * Pow10(k - 1)
  }

  /** The headers of the identifiers the source's examples use. */
  lemma HeaderExample()
    ensures Hex8(0x18FFAAFA) == "18FFAAFA"
    ensures Hex8(0x18FFAAF9) == "18FFAAF9"
    ensures Hex8(0x18FFAAFB) == "18FFAAFB"
  {
    var x, y, z: bv32 := 0x18FFAAFA, 0x18FFAAF9, 0x18FFAAFB;
    assert x as int == 26213039 * 16 + 10;
    HeaderWithPrefix(x, 10);
    assert y as int == 26213039 * 16 + 9;
    HeaderWithPrefix(y, 9);
    assert z as int == 26213039 * 16 + 11;
    HeaderWithPrefix(z, 11);
  }

  /** An identifier whose seven leading digits are 18FFAAF. */
  lemma HeaderWithPrefix(x: bv32, last: nat)
    requires last < 16 && x as int == 26213039 * 16 + last
    ensures Hex8(x) == "18FFAAF" + [HexDigit(last)]
  {
    var n: nat := x as int;
    assert n / 16 == 26213039 && n % 16 == last;
    HeaderPrefix();
  }

  /** The seven leading digits those identifiers share. */
  lemma HeaderPrefix()
    ensures HexDigits(26213039, 7) == "18FFAAF"
  {
    assert HexDigits(0, 0) == "";
    assert HexDigits(1, 1) == "1";
    assert HexDigits(24, 2) == "18";
    assert HexDigits(399, 3) == "18F";
    assert HexDigits(6399, 4) == "18FF";
    assert HexDigits(102394, 5) == "18FFA";
    assert HexDigits(1638314, 6) == "18FFAA";
  }

  /** The fields of the packet the source's examples render. */
  lemma FieldsExample(time: Option<bv32>)
    ensures DisplayFields(New(time, 1, 0x18FFAAFA, [1, 2, 3])) == " 1 18FFAAFA [3] 01 02 03"
  {
    var p := New(time, 1, 0x18FFAAFA, [1, 2, 3]);
    HeaderExample();
    PayloadExample();
    assert p.channel as int == 1;
    assert Decimal(p.channel as int) == "1";
    assert Decimal(|p.payload|) == "3";
    FieldsText();
  }

  lemma PayloadExample()
    ensures HexJoined([1, 2, 3]) == "01 02 03"
  {
    var d: seq<Byte> := [1, 2, 3];
    assert d[..2] == [1, 2] && d[..2][..1] == [1];
    assert Hex2(1) == "01" && Hex2(2) == "02" && Hex2(3) == "03";
    assert Spaced(d[..2][..1], Hex2) == "01";
    assert Spaced(d[..2], Hex2) == "01 02";
  }

  lemma FieldsText()
    ensures " " + "1" + " " + "18FFAAFA" + " [" + "3" + "] " + "01 02 03" == " 1 18FFAAFA [3] 01 02 03"
  {
  }

  /** The renderings the source's own examples expect, time column first. */
  lemma DisplayExamples()
    ensures Display(New(None, 1, 0x18FFAAFA, [1, 2, 3])) == "           0" + " 1 18FFAAFA [3] 01 02 03" + " (TX)"
    ensures Display(New(Some(555), 1, 0x18FFAAFA, [1, 2, 3])) == "         555" + " 1 18FFAAFA [3] 01 02 03" + ""
  {
    FieldsExample(None);
    FieldsExample(Some(555));
    TimeExamples();
  }

  /** The two eight-byte renderings the source's examples expect. */
  lemma DisplayEightExamples()
    ensures Display(New(None, 2, 0x18FFAAF9, [1, 2, 3, 4, 5, 6, 7, 8]))
         == "           0" + " 2 18FFAAF9 [8] 01 02 03 04 05 06 07 08" + " (TX)"
    ensures Display(New(None, 3, 0x18FFAAFB, [0xFF, 0x00, 0xFF, 0x00, 0xFF, 0x00, 0xFF, 0x00]))
         == "           0" + " 3 18FFAAFB [8] FF 00 FF 00 FF 00 FF 00" + " (TX)"
  {
    CountingFields();
    AlternatingFields();
    TimeExamples();
  }

  lemma CountingFields()
    ensures DisplayFields(New(None, 2, 0x18FFAAF9, [1, 2, 3, 4, 5, 6, 7, 8]))
         == " 2 18FFAAF9 [8] 01 02 03 04 05 06 07 08"
  {
    var p := New(None, 2, 0x18FFAAF9, [1, 2, 3, 4, 5, 6, 7, 8]);
    HeaderExample();
    CountingPayload();
    assert Header(p) == "18FFAAF9";
    assert p.channel as int == 2;
    assert Decimal(p.channel as int) == "2";
    assert Decimal(|p.payload|) == "8";
    CountingText();
  }

  lemma CountingText()
    ensures " " + "2" + " " + "18FFAAF9" + " [" + "8" + "] " + "01 02 03 04 05 06 07 08"
         == " 2 18FFAAF9 [8] 01 02 03 04 05 06 07 08"
  {
  }

  lemma AlternatingFields()
    ensures DisplayFields(New(None, 3, 0x18FFAAFB, [0xFF, 0x00, 0xFF, 0x00, 0xFF, 0x00, 0xFF, 0x00]))
         == " 3 18FFAAFB [8] FF 00 FF 00 FF 00 FF 00"
  {
    var p := New(None, 3, 0x18FFAAFB, [0xFF, 0x00, 0xFF, 0x00, 0xFF, 0x00, 0xFF, 0x00]);
    HeaderExample();
    AlternatingPayload();
    assert Header(p) == "18FFAAFB";
    assert p.channel as int == 3;
    assert Decimal(p.channel as int) == "3";
    assert Decimal(|p.payload|) == "8";
    AlternatingText();
  }

  lemma AlternatingText()
    ensures " " + "3" + " " + "18FFAAFB" + " [" + "8" + "] " + "FF 00 FF 00 FF 00 FF 00"
         == " 3 18FFAAFB [8] FF 00 FF 00 FF 00 FF 00"
  {
  }

  lemma CountingPayload()
    ensures HexJoined([1, 2, 3, 4, 5, 6, 7, 8]) == "01 02 03 04 05 06 07 08"
  {
    EightBytes(1, 2, 3, 4, 5, 6, 7, 8);
    CountingDigits();
    CountingJoin();
  }

  lemma CountingDigits()
    ensures Hex2(1) == "01" && Hex2(2) == "02" && Hex2(3) == "03" && Hex2(4) == "04"
    ensures Hex2(5) == "05" && Hex2(6) == "06" && Hex2(7) == "07" && Hex2(8) == "08"
  {
  }

  lemma CountingJoin()
    ensures "01" + " " + "02" + " " + "03" + " " + "04" + " " + "05" + " " + "06" + " " + "07" + " " + "08"
         == "01 02 03 04 05 06 07 08"
  {
  }

  lemma AlternatingPayload()
    ensures HexJoined([0xFF, 0x00, 0xFF, 0x00, 0xFF, 0x00, 0xFF, 0x00]) == "FF 00 FF 00 FF 00 FF 00"
  {
    EightBytes(0xFF, 0x00, 0xFF, 0x00, 0xFF, 0x00, 0xFF, 0x00);
    AlternatingDigits();
    AlternatingJoin();
  }

  lemma AlternatingDigits()
    ensures Hex2(0xFF) == "FF" && Hex2(0) == "00"
  {
  }

  lemma AlternatingJoin()
    ensures "FF" + " " + "00" + " " + "FF" + " " + "00" + " " + "FF" + " " + "00" + " " + "FF" + " " + "00"
         == "FF 00 FF 00 FF 00 FF 00"
  {
  }

  /** Eight bytes render as their eight pairs with a space between each. */
  lemma EightBytes(b0: Byte, b1: Byte, b2: Byte, b3: Byte, b4: Byte, b5: Byte, b6: Byte, b7: Byte)
    ensures HexJoined([b0, b1, b2, b3, b4, b5, b6, b7])
         == Hex2(b0) + " " + Hex2(b1) + " " + Hex2(b2) + " " + Hex2(b3) + " "
          + Hex2(b4) + " " + Hex2(b5) + " " + Hex2(b6) + " " + Hex2(b7)
  {
    var d := [b0, b1, b2, b3, b4, b5, b6, b7];
    assert d[0] == b0 && d[1] == b1 && d[2] == b2 && d[3] == b3;
    assert d[4] == b4 && d[5] == b5 && d[6] == b6 && d[7] == b7;
    SpacedEight(d, Hex2);
  }

  lemma SpacedEight<T(!new)>(d: seq<T>, f: T -> string)
    requires forall x :: |f(x)| == 2
    requires |d| == 8
    ensures Spaced(d, f)
         == f(d[0]) + " " + f(d[1]) + " " + f(d[2]) + " " + f(d[3]) + " "
          + f(d[4]) + " " + f(d[5]) + " " + f(d[6]) + " " + f(d[7])
  {
    SpacedSix(d, f);
    SpacedTwoMore(d, f, 6);
    assert d[..8] == d;
  }

  lemma SpacedTwoMore<T(!new)>(d: seq<T>, f: T -> string, i: nat)
    requires forall x :: |f(x)| == 2
    requires 1 <= i && i + 2 <= |d|
    ensures Spaced(d[..i + 2], f) == Spaced(d[..i], f) + " " + f(d[i]) + " " + f(d[i + 1])
  {
    SpacedSnoc(d, f, i);
    SpacedSnoc(d, f, i + 1);
  }

  lemma SpacedSix<T(!new)>(d: seq<T>, f: T -> string)
    requires forall x :: |f(x)| == 2
    requires |d| >= 6
    ensures Spaced(d[..6], f)
         == f(d[0]) + " " + f(d[1]) + " " + f(d[2]) + " " + f(d[3]) + " " + f(d[4]) + " " + f(d[5])
  {
    var d4 := d[..4];
    SpacedFour(d4, f);
    assert d4[0] == d[0] && d4[1] == d[1] && d4[2] == d[2] && d4[3] == d[3];
    SpacedSnoc(d, f, 4);
    SpacedSnoc(d, f, 5);
  }

  lemma SpacedFour<T(!new)>(d: seq<T>, f: T -> string)
    requires forall x :: |f(x)| == 2
    requires |d| == 4
    ensures Spaced(d, f) == f(d[0]) + " " + f(d[1]) + " " + f(d[2]) + " " + f(d[3])
  {
    assert Spaced(d[..1], f) == f(d[0]);
    SpacedSnoc(d, f, 1);
    SpacedSnoc(d, f, 2);
    SpacedSnoc(d, f, 3);
    assert d[..4] == d;
  }

  lemma SpacedSnoc<T(!new)>(d: seq<T>, f: T -> string, i: nat)
    requires forall x :: |f(x)| == 2
    requires 1 <= i < |d|
    ensures Spaced(d[..i + 1], f) == Spaced(d[..i], f) + " " + f(d[i])
  {
    assert d[..i + 1][..i] == d[..i];
  }

  lemma TimeExamples()
    ensures PadLeft(Decimal(0), 12) == "           0"
    ensures PadLeft(Decimal(555), 12) == "         555"
  {
    assert Decimal(0) == "0";
    assert Decimal(555) == "555";
  }
}
