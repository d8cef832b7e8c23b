/** The serial-line (SLCAN) adapter of src/slcan.rs, in its pure parts: the
    table of supported bit rates with the speed command built from it, and
    the parser for one received line. A line is a variant of the Lawicel
    frame syntax without the leading command letter: eight hexadecimal
    digits of identifier, one character that is not read (the data length
    digit), and the payload as packed pairs of hexadecimal digits. The
    serial port, the reader thread and the command sequence sent on
    connection are not modelled. The line is taken to be ASCII, so that
    the byte offsets the source slices at are character offsets. */
module Slcan {
  import opened Bytes
  import PacketRs

  /** `CAN_SPEEDS`, in kbit/s. */
  const CanSpeeds: seq<nat> := [10, 20, 50, 100, 125, 250, 500, 800, 1000]

  /** `SIZE`: the number of identifier digits. */
  const Size: nat := 8

  /** The table is strictly increasing, as `binary_search` needs. */
  lemma CanSpeedsIncreasing()
    ensures forall i, j :: 0 <= i < j < |CanSpeeds| ==> CanSpeeds[i] < CanSpeeds[j]
  {
  }

  /** The position of a supported speed in the table; the source panics on
      any other speed. */
  function SpeedIndex(speed: nat): (i: nat)
    requires speed in CanSpeeds
    ensures i < |CanSpeeds| && CanSpeeds[i] == speed
    ensures forall j :: 0 <= j < |CanSpeeds| && CanSpeeds[j] == speed ==> j == i
  {
    CanSpeedsIncreasing();
    IndexOf(CanSpeeds, speed)
  }

  function IndexOf(s: seq<nat>, x: nat): (i: nat)
    requires x in s
    ensures i < |s| && s[i] == x
    ensures forall j :: 0 <= j < i ==> s[j] != x
  {
    if s[0] == x then 0 else 1 + IndexOf(s[1..], x)
  }

  /** The speed command: `S` and the speed's index in decimal. */
  function SpeedCommand(speed: nat): (cmd: string)
    requires speed in CanSpeeds
    ensures |cmd| >= 2 && cmd[0] == 'S' && cmd[1..] == Decimal(SpeedIndex(speed))
  {
    "S" + Decimal(SpeedIndex(speed))
  }

  /** 250 kbit/s, the usual J1939 rate, is command `S5`; 1 Mbit/s is `S8`. */
  lemma SpeedCommands()
    ensures SpeedCommand(250) == "S5" && SpeedCommand(1000) == "S8"
  {
    assert CanSpeeds[5] == 250 && CanSpeeds[8] == 1000;
  }

  predicate IsAscii(s: string)
  {
    forall i :: 0 <= i < |s| ==> s[i] < 128 as char
  }

  /** The ASCII characters that `char::is_whitespace` accepts: tab, line
      feed, vertical tab, form feed, carriage return and space. */
  predicate IsWhitespace(c: char)
  {
    c == ' ' || '\t' <= c <= '\r'
  }

  function TrimStart(s: string): (t: string)
    ensures |t| <= |s| && t == s[|s| - |t|..]
    ensures forall i :: 0 <= i < |s| - |t| ==> IsWhitespace(s[i])
    ensures t == [] || !IsWhitespace(t[0])
  {
    if s == [] || !IsWhitespace(s[0]) then s else TrimStart(s[1..])
  }

  function TrimEnd(s: string): (t: string)
    ensures |t| <= |s| && t == s[..|t|]
    ensures forall i :: |t| <= i < |s| ==> IsWhitespace(s[i])
    ensures t == [] || !IsWhitespace(t[|t| - 1])
  {
    if s == [] || !IsWhitespace(s[|s| - 1]) then s else TrimEnd(s[..|s| - 1])
  }

  /** The number of leading whitespace characters. */
  function Leading(s: string): (n: nat)
    ensures n <= |s|
  {
    |s| - |TrimStart(s)|
  }

  /** `str::trim`: the line without its leading and trailing whitespace. */
  function Trim(s: string): (t: string)
    ensures Leading(s) + |t| <= |s| && t == s[Leading(s)..Leading(s) + |t|]
    ensures forall i :: 0 <= i < Leading(s) ==> IsWhitespace(s[i])
    ensures forall i :: Leading(s) + |t| <= i < |s| ==> IsWhitespace(s[i])
    ensures t == [] || (!IsWhitespace(t[0]) && !IsWhitespace(t[|t| - 1]))
  {
    TrimEnd(TrimStart(s))
  }

  /** A line with no whitespace at either end is left as it is. */
  lemma TrimmedAlready(s: string)
    requires s == [] || (!IsWhitespace(s[0]) && !IsWhitespace(s[|s| - 1]))
    ensures Trim(s) == s
  {
  }

  /** `from_str_radix(_, 16)` on an unsigned field: an optional `+`, then
      one or more hexadecimal digits of either case. */
  function RadixValue(s: string): (r: Option<nat>)
    ensures r.Some? ==> r.value < Pow16(|s|)
  {
    if s == [] || s == "+" then None
    else
      var digits := if s[0] == '+' then s[1..] else s;
      var r := DigitsValue(digits);
      if r.Some? then
        DigitsBound(digits);
        assert Pow16(|digits|) <= Pow16(|s|) by { Pow16Monotone(|digits|, |s|); }
        r
      else r
  }

  lemma {:induction false} Pow16Monotone(m: nat, n: nat)
    requires m <= n
    ensures Pow16(m) <= Pow16(n)
    decreases n
  {
    if m < n {
      Pow16Monotone(m, n - 1);
    }
  }

  /** A field of digits only is read as `DigitsValue` reads it. */
  lemma RadixOfDigits(s: string)
    requires s != [] && s[0] != '+'
    ensures RadixValue(s) == DigitsValue(s)
  {
  }

  /** Payload pair `k` of the characters after the skipped one. */
  function Pair(s: string, k: nat): string
    requires 2 * k + 2 <= |s|
  {
    s[2 * k..2 * k + 2]
  }

  datatype ParseError = InvalidLength(len: nat) | InvalidId | InvalidByte

  /** The payload pairs, collected: the bytes in order, or an error when any
      pair is not a hexadecimal number. */
  function Pairs(s: string): (r: Result<seq<Byte>, ParseError>)
    requires |s| % 2 == 0
    ensures r.Ok? ==> |r.value| == |s| / 2
    ensures r.Ok? ==> forall k :: 0 <= k < |s| / 2 ==> RadixValue(Pair(s, k)) == Some(r.value[k] as nat)
    ensures r.Err? ==> r == Err(InvalidByte)
    decreases |s|
  {
    if s == [] then Ok([])
    else
      var n := |s|;
      var init := Pairs(s[..n - 2]);
      var last := RadixValue(s[n - 2..]);
      assert s[n - 2..] == Pair(s, n / 2 - 1);
      PairsPrefix(s);
      if init.Ok? && last.Some? then
        assert Pow16(2) == 256;
        Ok(init.value + [ByteOf(last.value)])
      else Err(InvalidByte)
  }

  lemma PairsPrefix(s: string)
    requires |s| % 2 == 0 && |s| >= 2
    ensures forall k :: 0 <= k < |s| / 2 - 1 ==> Pair(s[..|s| - 2], k) == Pair(s, k)
  {
  }

  /** The pairs are accepted exactly when every one of them is a
      hexadecimal number. */
  lemma {:induction false} PairsOk(s: string)
    requires |s| % 2 == 0
    ensures Pairs(s).Ok? <==> forall k :: 0 <= k < |s| / 2 ==> RadixValue(Pair(s, k)).Some?
    decreases |s|
  {
    if s != [] && forall k :: 0 <= k < |s| / 2 ==> RadixValue(Pair(s, k)).Some? {
      var n := |s|;
      var init := s[..n - 2];
      HalfOfEven(n);
      PairsPrefix(s);
      forall k | 0 <= k < |init| / 2
        ensures RadixValue(Pair(init, k)).Some?
      {
        assert Pair(init, k) == Pair(s, k);
      }
      PairsOk(init);
      assert s[n - 2..] == Pair(s, n / 2 - 1);
      var v := RadixValue(s[n - 2..]).value;
      PairsStep(s, Pairs(init).value, v);
    }
  }

  /** `parse_result`: trim, check the length, read the identifier, skip one
      character and read the payload pairs. The packet has no time, so it
      counts as sent, and is on channel 1. */
  function ParseResult(buf: string): (r: Result<PacketRs.J1939Packet, ParseError>)
    requires IsAscii(buf)
    ensures r == Err(InvalidLength(|Trim(buf)|)) <==> |Trim(buf)| < Size || |Trim(buf)| % 2 != 1
  {
    ParseTrimmed(Trim(buf))
  }

  /** The checks and conversions of `parse_result` after the trim. */
  function ParseTrimmed(t: string): (r: Result<PacketRs.J1939Packet, ParseError>)
    ensures r == Err(InvalidLength(|t|)) <==> |t| < Size || |t| % 2 != 1
  {
    var len := |t|;
    if len < Size || len % 2 != 1 then Err(InvalidLength(len))
    else
      var id := RadixValue(t[..Size]);
      if id.None? then Err(InvalidId)
      else
        assert Pow16(8) == 0x1_0000_0000;
        var payload := Pairs(t[Size + 1..]);
        if payload.Err? then Err(InvalidByte)
        else Ok(PacketRs.New(None, 1, WordOf(id.value), payload.value))
  }

  /** `parse`: the packet, or nothing when the line does not parse. */
  function Parse(buf: string): (p: Option<PacketRs.J1939Packet>)
    requires IsAscii(buf)
    ensures p.None? <==> ParseResult(buf).Err?
    ensures p.Some? ==> p.value == ParseResult(buf).value
  {
    var r := ParseResult(buf);
    if r.Ok? then Some(r.value) else None
  }

  /** What an accepted line holds: an odd trimmed length of at least nine,
      the identifier read from the first eight characters, one byte per
      pair after the ninth character, in order, no time and channel 1. */
  lemma ParsedFields(t: string)
    requires ParseTrimmed(t).Ok?
    ensures var p := ParseTrimmed(t).value;
      |t| >= 9 && |t| % 2 == 1
      && RadixValue(t[..8]) == Some(p.id as nat)
      && |p.payload| == (|t| - 9) / 2
      && (forall k :: 0 <= k < |p.payload| ==> RadixValue(Pair(t[9..], k)) == Some(p.payload[k] as nat))
      && p.tx && p.channel == 1 && p.time == 0
  {
  }

  /** A line of the right length is accepted exactly when its identifier
      and every one of its pairs are hexadecimal. */
  lemma ParseAccepts(t: string)
    requires |t| >= 9 && |t| % 2 == 1
    ensures ParseTrimmed(t).Ok? <==>
      RadixValue(t[..8]).Some? && forall k :: 0 <= k < (|t| - 9) / 2 ==> RadixValue(Pair(t[9..], k)).Some?
  {
    PairsOk(t[9..]);
  }

  /** The line an adapter sends for a frame: the identifier as eight
      uppercase digits, the length character, and the payload as packed
      pairs. */
  function Line(id: bv32, dlc: char, payload: seq<Byte>): (s: string)
    ensures |s| == 9 + 2 * |payload|
  {
    Hex8(id) + [dlc] + HexPacked(payload)
  }

  lemma {:induction false} PairsOfPacked(data: seq<Byte>)
    ensures Pairs(HexPacked(data)) == Ok(data)
  {
    if data != [] {
      var n := |data|;
      var init, last := data[..n - 1], data[n - 1];
      assert data == init + [last];
      var s := HexPacked(data);
      PackedSplit(data);
      assert s[..|s| - 2] == HexPacked(init) && s[|s| - 2..] == Hex2(last);
      PairsOfPacked(init);
      RadixOfHex2(last);
      EvenLength(n);
      assert |s| % 2 == 0 && |s[..|s| - 2]| % 2 == 0;
      PairsStep(s, init, last as nat);
    }
  }

  /** One unfolding of `Pairs`: a readable last pair extends the bytes of
      the pairs before it. */
  lemma PairsStep(s: string, init: seq<Byte>, v: nat)
    requires |s| % 2 == 0 && |s| >= 2
    requires Pairs(s[..|s| - 2]) == Ok(init)
    requires RadixValue(s[|s| - 2..]) == Some(v)
    ensures Pairs(s) == Ok(init + [ByteOf(v)])
  {
  }

  lemma PackedSplit(data: seq<Byte>)
    requires data != []
    ensures var s, n := HexPacked(data), |data|;
      s[..|s| - 2] == HexPacked(data[..n - 1]) && s[|s| - 2..] == Hex2(data[n - 1])
  {
  }

  /** Two uppercase digits read back as the byte they render. */
  lemma RadixOfHex2(b: Byte)
    ensures RadixValue(Hex2(b)) == Some(b as nat)
    ensures ByteOf(b as nat) == b
  {
    var h := Hex2(b);
    assert DigitsValue(h[..1]) == Some(b as nat / 16) by {
      assert h[..1][..0] == [];
    }
    assert DigitsValue(h) == Some(b as nat / 16 * 16 + b as nat % 16);
    RadixOfDigits(h);
    ByteOfValue(b);
  }

  lemma {:induction false} PackedIsHex(data: seq<Byte>)
    ensures forall i :: 0 <= i < |HexPacked(data)| ==> IsUpperHex(HexPacked(data)[i])
  {
    if data != [] {
      var n := |data|;
      PackedIsHex(data[..n - 1]);
      assert HexPacked(data) == HexPacked(data[..n - 1]) + Hex2(data[n - 1]);
    }
  }

  lemma LineAscii(id: bv32, dlc: char, payload: seq<Byte>)
    requires dlc < 128 as char && !IsWhitespace(dlc)
    ensures IsAscii(Line(id, dlc, payload))
    ensures !IsWhitespace(Line(id, dlc, payload)[0])
    ensures !IsWhitespace(Line(id, dlc, payload)[|Line(id, dlc, payload)| - 1])
  {
    var s := Line(id, dlc, payload);
    PackedIsHex(payload);
    forall i | 0 <= i < |s|
      ensures s[i] < 128 as char && (IsUpperHex(s[i]) || s[i] == dlc)
    {
      if i < 8 {
        assert s[i] == Hex8(id)[i];
      } else if i > 8 {
        assert s[i] == HexPacked(payload)[i - 9];
      }
    }
  }

  /** Parsing a line built from a frame gives the frame back, whatever the
      length character is (it is never read), as long as it is not
      whitespace that trimming would take off. */
  lemma LineRoundTrip(id: bv32, dlc: char, payload: seq<Byte>)
    requires dlc < 128 as char && !IsWhitespace(dlc)
    ensures IsAscii(Line(id, dlc, payload))
    ensures ParseResult(Line(id, dlc, payload)) == Ok(PacketRs.New(None, 1, id, payload))
  {
    var s := Line(id, dlc, payload);
    LineAscii(id, dlc, payload);
    TrimmedAlready(s);
    LineParses(id, dlc, payload);
  }

  lemma HalfOfEven(n: nat)
    requires n % 2 == 0 && n >= 2
    ensures (n - 2) % 2 == 0 && (n - 2) / 2 == n / 2 - 1 && 2 * (n / 2 - 1) == n - 2
  {
  }

  lemma EvenLength(n: nat)
    ensures (2 * n) % 2 == 0 && (2 * n - 2) % 2 == 0
  {
  }

  lemma OddLength(n: nat)
    ensures (9 + 2 * n) % 2 == 1
  {
  }

  lemma LineParses(id: bv32, dlc: char, payload: seq<Byte>)
    ensures ParseTrimmed(Line(id, dlc, payload)) == Ok(PacketRs.New(None, 1, id, payload))
  {
    var s := Line(id, dlc, payload);
    assert |s| >= Size && |s| % 2 == 1 by {
      OddLength(|payload|);
    }
    assert RadixValue(s[..Size]) == Some(id as int) by {
      LineId(id, dlc, payload);
    }
    assert Pairs(s[Size + 1..]) == Ok(payload) by {
      LinePayload(id, dlc, payload);
      PairsOfPacked(payload);
    }
    ParseTrimmedOk(s, id, payload);
  }

  /** A line of the right length whose identifier and pairs read back
      parses to the packet they make. */
  lemma ParseTrimmedOk(t: string, id: bv32, payload: seq<Byte>)
    requires |t| >= Size && |t| % 2 == 1
    requires RadixValue(t[..Size]) == Some(id as int)
    requires Pairs(t[Size + 1..]) == Ok(payload)
    ensures ParseTrimmed(t) == Ok(PacketRs.New(None, 1, id, payload))
  {
    WordOfValue(id);
  }

  lemma LineId(id: bv32, dlc: char, payload: seq<Byte>)
    ensures RadixValue(Line(id, dlc, payload)[..Size]) == Some(id as int)
  {
    assert Line(id, dlc, payload)[..Size] == Hex8(id);
    Hex8Value(id);
    RadixOfDigits(Hex8(id));
  }

  lemma LinePayload(id: bv32, dlc: char, payload: seq<Byte>)
    ensures Line(id, dlc, payload)[Size + 1..] == HexPacked(payload)
  {
  }

  /** The example line in the comment above `parse_result` (src/slcan.rs,
      line 114) writes the fields apart: its length, 34, is even, so the
      parser turns it down. */
  lemma SpacedSampleRejected()
    ensures IsAscii("0CF00A00 8 FF FF 00 FE FF FF 00 00")
    ensures ParseResult("0CF00A00 8 FF FF 00 FE FF FF 00 00") == Err(InvalidLength(34))
  {
    var s := "0CF00A00 8 FF FF 00 FE FF FF 00 00";
    TrimmedAlready(s);
  }

  /** The same frame as the parser reads it, packed: identifier 0x0CF00A00
      and the eight payload bytes, sent and on channel 1. */
  lemma PackedSampleParses()
    ensures IsAscii("0CF00A008FFFF00FEFFFF0000")
    ensures ParseResult("0CF00A008FFFF00FEFFFF0000")
      == Ok(PacketRs.New(None, 1, 0x0CF00A00, [0xFF, 0xFF, 0x00, 0xFE, 0xFF, 0xFF, 0x00, 0x00]))
  {
    var s := "0CF00A008FFFF00FEFFFF0000";
    assert IsAscii(s);
    TrimmedAlready(s);
    PackedSampleTrimmed();
  }

  lemma PackedSampleTrimmed()
    ensures ParseTrimmed("0CF00A008FFFF00FEFFFF0000")
      == Ok(PacketRs.New(None, 1, 0x0CF00A00, [0xFF, 0xFF, 0x00, 0xFE, 0xFF, 0xFF, 0x00, 0x00]))
  {
    var s := "0CF00A008FFFF00FEFFFF0000";
    assert s[..Size] == "0CF00A00" && s[Size + 1..] == "FFFF00FEFFFF0000";
    SampleId();
    SamplePayload();
    ParseTrimmedOk(s, 0x0CF00A00, [0xFF, 0xFF, 0x00, 0xFE, 0xFF, 0xFF, 0x00, 0x00]);
  }

  /** One more digit: the value so far times sixteen plus the digit's. */
  lemma DigitsSnoc(s: string, c: char, hi: nat, lo: nat)
    requires DigitsValue(s) == Some(hi) && HexValue(c) == Some(lo)
    ensures DigitsValue(s + [c]) == Some(hi * 16 + lo)
  {
    assert (s + [c])[..|s|] == s;
  }

  lemma SampleId()
    ensures RadixValue("0CF00A00") == Some(0x0CF00A00)
  {
    DigitsSnoc("", '0', 0, 0);
    assert "" + ['0'] == "0";
    DigitsSnoc("0", 'C', 0x0, 0xC);
    assert "0" + ['C'] == "0C";
    DigitsSnoc("0C", 'F', 0x0C, 0xF);
    assert "0C" + ['F'] == "0CF";
    DigitsSnoc("0CF", '0', 0x0CF, 0);
    assert "0CF" + ['0'] == "0CF0";
    DigitsSnoc("0CF0", '0', 0x0CF0, 0);
    assert "0CF0" + ['0'] == "0CF00";
    DigitsSnoc("0CF00", 'A', 0x0CF00, 0xA);
    assert "0CF00" + ['A'] == "0CF00A";
    DigitsSnoc("0CF00A", '0', 0x0CF00A, 0);
    assert "0CF00A" + ['0'] == "0CF00A0";
    DigitsSnoc("0CF00A0", '0', 0x0CF00A0, 0);
    assert "0CF00A0" + ['0'] == "0CF00A00";
    RadixOfDigits("0CF00A00");
  }

  /** One more readable pair: one more byte. */
  lemma PairsSnocValue(s: string, init: seq<Byte>, h: string, v: nat)
    requires |s| % 2 == 0 && Pairs(s) == Ok(init)
    requires |h| == 2 && RadixValue(h) == Some(v)
    ensures |s + h| % 2 == 0
    ensures Pairs(s + h) == Ok(init + [ByteOf(v)])
  {
    var t := s + h;
    assert |t| % 2 == 0 && |t| >= 2 by {
      EvenLength(|s| / 2 + 1);
    }
    assert t[..|t| - 2] == s;
    assert t[|t| - 2..] == h;
    PairsStep(t, init, v);
  }

  /** Two more readable pairs: two more bytes. */
  lemma PairsTwo(s: string, init: seq<Byte>, h0: string, h1: string, v0: nat, v1: nat)
    requires |s| % 2 == 0 && Pairs(s) == Ok(init)
    requires |h0| == 2 && RadixValue(h0) == Some(v0) && |h1| == 2 && RadixValue(h1) == Some(v1)
    ensures |s + h0 + h1| % 2 == 0
    ensures Pairs(s + h0 + h1) == Ok(init + [ByteOf(v0), ByteOf(v1)])
  {
    PairsSnocValue(s, init, h0, v0);
    PairsSnocValue(s + h0, init + [ByteOf(v0)], h1, v1);
    assert init + [ByteOf(v0)] + [ByteOf(v1)] == init + [ByteOf(v0), ByteOf(v1)];
  }

  lemma SamplePairs()
    ensures RadixValue("FF") == Some(255) && RadixValue("00") == Some(0) && RadixValue("FE") == Some(254)
    ensures ByteOf(255) == 0xFF && ByteOf(0) == 0x00 && ByteOf(254) == 0xFE
  {
    RadixOfHex2(0xFF);
    RadixOfHex2(0x00);
    RadixOfHex2(0xFE);
    assert Hex2(0xFF) == "FF" && Hex2(0x00) == "00" && Hex2(0xFE) == "FE";
  }

  lemma SamplePayload()
    ensures Pairs("FFFF00FEFFFF0000") == Ok([0xFF, 0xFF, 0x00, 0xFE, 0xFF, 0xFF, 0x00, 0x00])
  {
    SamplePairs();
    SampleFirstHalf();
    var b4: seq<Byte> := [0xFF, 0xFF, 0x00, 0xFE];
    var b6: seq<Byte> := [0xFF, 0xFF, 0x00, 0xFE, 0xFF, 0xFF];
    var b8: seq<Byte> := [0xFF, 0xFF, 0x00, 0xFE, 0xFF, 0xFF, 0x00, 0x00];
    PairsTwo("FFFF00FE", b4, "FF", "FF", 255, 255);
    assert b4 + [ByteOf(255), ByteOf(255)] == b6;
    assert "FFFF00FE" + "FF" + "FF" == "FFFF00FEFFFF";
    PairsTwo("FFFF00FEFFFF", b6, "00", "00", 0, 0);
    assert b6 + [ByteOf(0), ByteOf(0)] == b8;
    assert "FFFF00FEFFFF" + "00" + "00" == "FFFF00FEFFFF0000";
  }

  lemma SampleFirstHalf()
    ensures Pairs("FFFF00FE") == Ok([0xFF, 0xFF, 0x00, 0xFE])
  {
    SamplePairs();
    var b0: seq<Byte> := [];
    var b2: seq<Byte> := [0xFF, 0xFF];
    var b4: seq<Byte> := [0xFF, 0xFF, 0x00, 0xFE];
    PairsTwo("", b0, "FF", "FF", 255, 255);
    assert b0 + [ByteOf(255), ByteOf(255)] == b2;
    assert "" + "FF" + "FF" == "FFFF";
    PairsTwo("FFFF", b2, "00", "FE", 0, 254);
    assert b2 + [ByteOf(0), ByteOf(254)] == b4;
    assert "FFFF" + "00" + "FE" == "FFFF00FE";
  }
}
