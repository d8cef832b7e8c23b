/** Helpers shared by the models: optional values and results, bytes, and the
    text renderings (uppercase hexadecimal, decimal, right alignment) that
    Rust's `format!` produces for the packet types. */
module Bytes {

  datatype Option<+T> = None | Some(value: T)

  datatype Result<+T, +E> = Ok(value: T) | Err(error: E)

  /** A Rust `u8`. */
  type Byte = bv8

  /** The `n`-th uppercase hexadecimal digit, as `{:X}` writes it. */
  function HexDigit(n: nat): (c: char)
    requires n < 16
    ensures '0' <= c <= '9' || 'A' <= c <= 'F'
    ensures HexValue(c) == Some(n)
  {
    if n < 10 then '0' + n as char else 'A' + (n - 10) as char
  }

  /** The value of one hexadecimal digit of either case, as `from_str_radix(_, 16)` accepts it. */
  function HexValue(c: char): (r: Option<nat>)
    ensures r.Some? ==> r.value < 16
    ensures r.Some? <==> ('0' <= c <= '9' || 'a' <= c <= 'f' || 'A' <= c <= 'F')
  {
    if '0' <= c <= '9' then Some(c as nat - '0' as nat)
    else if 'a' <= c <= 'f' then Some(c as nat - 'a' as nat + 10)
    else if 'A' <= c <= 'F' then Some(c as nat - 'A' as nat + 10)
    else None
  }

  predicate IsUpperHex(c: char) {
    '0' <= c <= '9' || 'A' <= c <= 'F'
  }

  /** `{:02X}` of one byte. */
  function Hex2(b: Byte): (s: string)
    ensures |s| == 2 && IsUpperHex(s[0]) && IsUpperHex(s[1])
    ensures HexValue(s[0]) == Some(b as nat / 16) && HexValue(s[1]) == Some(b as nat % 16)
  {
    [HexDigit(b as nat / 16), HexDigit(b as nat % 16)]
  }

  /** The `n` low hexadecimal digits of `x`, most significant first. */
  function HexDigits(x: nat, n: nat): (s: string)
    ensures |s| == n
    ensures forall i :: 0 <= i < n ==> IsUpperHex(s[i])
  {
    if n == 0 then [] else HexDigits(x / 16, n - 1) + [HexDigit(x % 16)]
  }

  /** `{:08X}` of a `u32`. */
  function Hex8(x: bv32): (s: string)
    ensures |s| == 8
    ensures forall i :: 0 <= i < 8 ==> IsUpperHex(s[i])
  {
    var n: nat := x as int;
    HexDigits(n, 8)
  }

  /** The value of a string of hexadecimal digits read most significant first. */
  function DigitsValue(s: string): (r: Option<nat>)
  {
    if s == [] then Some(0)
    else match (DigitsValue(s[..|s| - 1]), HexValue(s[|s| - 1]))
      case (Some(hi), Some(lo)) => Some(hi * 16 + lo)
      case _ => None
  }

  lemma {:induction false} HexDigitsValue(x: nat, n: nat)
    requires x < Pow16(n)
    ensures DigitsValue(HexDigits(x, n)) == Some(x)
  {
    if n > 0 {
      var s := HexDigits(x, n);
      assert s[..n - 1] == HexDigits(x / 16, n - 1);
      HexDigitsValue(x / 16, n - 1);
    }
  }

  /** A string of `n` hexadecimal digits reads as a value below `16^n`. */
  lemma {:induction false} DigitsBound(s: string)
    requires DigitsValue(s).Some?
    ensures DigitsValue(s).value < Pow16(|s|)
  {
    if s != [] {
      DigitsBound(s[..|s| - 1]);
    }
  }

  function Pow16(n: nat): (r: nat)
    ensures r > 0
  {
    if n == 0 then 1 else 16 * Pow16(n - 1)
  }

  /** Reading the eight digits back gives the whole identifier: the rendering
      is zero-padded and loses nothing. */
  lemma Hex8Value(x: bv32)
    ensures DigitsValue(Hex8(x)) == Some(x as int)
  {
    var n: nat := x as int;
    assert Pow16(8) == 0x1_0000_0000;
    HexDigitsValue(n, 8);
  }

  /** The two-character renderings of the elements, separated by single
      spaces. */
  function Spaced<T(!new)>(data: seq<T>, f: T -> string): (s: string)
    requires forall x :: |f(x)| == 2
    ensures |s| == if |data| == 0 then 0 else 3 * |data| - 1
  {
    if |data| == 0 then "" else if |data| == 1 then f(data[0])
    else Spaced(data[..|data| - 1], f) + " " + f(data[|data| - 1])
  }

  /** Element `k` sits at characters `3k` and `3k+1`; a space follows every
      element but the last. */
  lemma {:induction false} SpacedAt<T(!new)>(data: seq<T>, f: T -> string, k: nat)
    requires forall x :: |f(x)| == 2
    requires k < |data|
    ensures Spaced(data, f)[3 * k..3 * k + 2] == f(data[k])
    ensures k + 1 < |data| ==> Spaced(data, f)[3 * k + 2] == ' '
  {
    var n := |data|;
    if n > 1 {
      var init := data[..n - 1];
      var h, x := Spaced(init, f), f(data[n - 1]);
      var s := h + " " + x;
      assert Spaced(data, f) == s;
      if k < n - 1 {
        assert data[k] == init[k];
        SpacedAt(init, f, k);
        assert s[3 * k..3 * k + 2] == h[3 * k..3 * k + 2];
        if k + 1 < n - 1 {
          assert s[3 * k + 2] == h[3 * k + 2];
        }
      } else {
        assert s[3 * k..3 * k + 2] == x;
      }
    }
  }

  /** Each byte as two uppercase hexadecimal digits, separated by single
      spaces. */
  function HexJoined(data: seq<Byte>): (s: string)
    ensures |s| == if data == [] then 0 else 3 * |data| - 1
  {
    Spaced(data, Hex2)
  }

  /** Byte `k` sits at characters `3k` and `3k+1`; a space follows every byte but the last. */
  lemma HexJoinedAt(data: seq<Byte>, k: nat)
    requires k < |data|
    ensures HexJoined(data)[3 * k..3 * k + 2] == Hex2(data[k])
    ensures k + 1 < |data| ==> HexJoined(data)[3 * k + 2] == ' '
  {
    SpacedAt(data, Hex2, k);
  }

  /** Rendering one more byte appends a space and its two digits. */
  lemma HexJoinedSnoc(data: seq<Byte>, i: nat)
    requires i < |data|
    ensures HexJoined(data[..i + 1]) ==
      if i == 0 then Hex2(data[0]) else HexJoined(data[..i]) + " " + Hex2(data[i])
  {
    assert data[..i + 1][..i] == data[..i];
  }

  /** The loop of `as_hex` writes " XX" per byte: after `i + 1` bytes it
      holds a space followed by the rendering of those bytes. */
  lemma HexJoinedLead(data: seq<Byte>, i: nat)
    requires i < |data|
    ensures (if i == 0 then "" else " " + HexJoined(data[..i])) + " " + Hex2(data[i])
         == " " + HexJoined(data[..i + 1])
  {
    HexJoinedSnoc(data, i);
  }

  /** The two-character renderings of the elements, with nothing between
      them. */
  function Packed<T(!new)>(data: seq<T>, f: T -> string): (s: string)
    requires forall x :: |f(x)| == 2
    ensures |s| == 2 * |data|
  {
    if data == [] then "" else Packed(data[..|data| - 1], f) + f(data[|data| - 1])
  }

  /** Element `k` sits at characters `2k` and `2k+1`. */
  lemma {:induction false} PackedAt<T(!new)>(data: seq<T>, f: T -> string, k: nat)
    requires forall x :: |f(x)| == 2
    requires k < |data|
    ensures Packed(data, f)[2 * k..2 * k + 2] == f(data[k])
  {
    var n, s := |data|, Packed(data, f);
    var init := data[..n - 1];
    assert s == Packed(init, f) + f(data[n - 1]);
    if k < n - 1 {
      PackedAt(init, f, k);
      assert s[2 * k..2 * k + 2] == Packed(init, f)[2 * k..2 * k + 2];
      assert data[k] == init[k];
    } else {
      assert 2 * k == |Packed(init, f)|;
    }
  }

  /** Each byte as two uppercase hexadecimal digits, with nothing between them. */
  function HexPacked(data: seq<Byte>): (s: string)
    ensures |s| == 2 * |data|
  {
    Packed(data, Hex2)
  }

  /** Byte `k` sits at characters `2k` and `2k+1`. */
  lemma HexPackedAt(data: seq<Byte>, k: nat)
    requires k < |data|
    ensures HexPacked(data)[2 * k..2 * k + 2] == Hex2(data[k])
  {
    PackedAt(data, Hex2, k);
  }

  /** `{}` of a non-negative integer. */
  function Decimal(n: nat): (s: string)
    ensures |s| >= 1
    ensures forall i :: 0 <= i < |s| ==> '0' <= s[i] <= '9'
  {
    if n < 10 then [HexDigit(n)] else Decimal(n / 10) + [HexDigit(n % 10)]
  }

  /** The value of a decimal digit. */
  function DecimalDigitValue(c: char): (r: Option<nat>)
    ensures r.Some? <==> '0' <= c <= '9'
    ensures r.Some? ==> r.value < 10
  {
    if '0' <= c <= '9' then Some(c as nat - '0' as nat) else None
  }

  /** The value of a string of decimal digits, read most significant
      first; none when a character is not a digit. */
  function DecimalValue(s: string): Option<nat>
    decreases |s|
  {
    if |s| == 0 then Some(0)
    else match (DecimalValue(s[..|s| - 1]), DecimalDigitValue(s[|s| - 1]))
      case (Some(v), Some(d)) => Some(10 * v + d)
      case _ => None
  }

  /** `{}` reads back as the number it renders, and writes no leading zero. */
  lemma {:induction false} DecimalRoundTrip(n: nat)
    ensures DecimalValue(Decimal(n)) == Some(n)
    ensures n >= 10 ==> Decimal(n)[0] != '0'
  {
    var s := Decimal(n);
    if n < 10 {
      assert s[..0] == [];
    } else {
      DecimalRoundTrip(n / 10);
      assert s[..|s| - 1] == Decimal(n / 10);
      assert s[0] == Decimal(n / 10)[0];
    }
  }

  /** Right alignment to a minimum width, as `{:w}` does for numbers. */
  function PadLeft(s: string, width: nat): (r: string)
    ensures |r| == if |s| < width then width else |s|
    ensures r[|r| - |s|..] == s
    ensures forall i :: 0 <= i < |r| - |s| ==> r[i] == ' '
  {
    if |s| < width then seq(width - |s|, _ => ' ') + s else s
  }

  /** The byte holding a value below 256, as `as u8` gives it, built from
      its two hexadecimal digits. */
  function ByteOf(n: nat): (b: Byte)
    requires n < 256
    ensures b as int == n
  {
    var hi, lo := n / 16, n % 16;
    assert n == 16 * hi + lo;
    NibbleValue(hi);
    NibbleValue(lo);
    NibblesValue(hi as Byte, lo as Byte);
    (hi as Byte << 4) | lo as Byte
  }

  lemma NibbleValue(n: nat)
    requires n < 16
    ensures (n as Byte) as int == n
  {
  }

  lemma NibblesValue(hi: Byte, lo: Byte)
    requires hi < 16 && lo < 16
    ensures ((hi << 4) | lo) as int == 16 * hi as int + lo as int
  {
  }

  /** The `u16` holding a value below 2^16, built from its two bytes. */
  function HalfOf(n: nat): (h: bv16)
    requires n < 0x1_0000
    ensures h as int == n
  {
    var hi, lo := ByteOf(n / 0x100), ByteOf(n % 0x100);
    Join16Value(hi, lo);
    ((hi as bv16) << 8) | lo as bv16
  }

  /** The `u32` holding a value below 2^32, built from its two halves. */
  function WordOf(n: nat): (w: bv32)
    requires n < 0x1_0000_0000
    ensures w as int == n
  {
    var hi, lo := HalfOf(n / 0x1_0000), HalfOf(n % 0x1_0000);
    Join32Value(hi, lo);
    ((hi as bv32) << 16) | lo as bv32
  }

  lemma WordOfValue(x: bv32)
    ensures WordOf(x as int) == x
  {
    WordInjective(WordOf(x as int), x);
  }

  /** Bytes, and words, with equal values are equal. */
  lemma ByteInjective(a: Byte, b: Byte)
    requires a as int == b as int
    ensures a == b
  {
    assert (a as int) as Byte == a && (b as int) as Byte == b;
  }

  lemma WordInjective(a: bv32, b: bv32)
    requires a as int == b as int
    ensures a == b
  {
    assert (a as int) as bv32 == a && (b as int) as bv32 == b;
  }

  lemma ByteOfValue(b: Byte)
    ensures ByteOf(b as int) == b
  {
    ByteInjective(ByteOf(b as int), b);
  }

  lemma Join16Value(hi: Byte, lo: Byte)
    ensures (((hi as bv16) << 8) | lo as bv16) as int == hi as int * 0x100 + lo as int
  {
  }

  lemma Join32Value(hi: bv16, lo: bv16)
    ensures (((hi as bv32) << 16) | lo as bv32) as int == hi as int * 0x1_0000 + lo as int
  {
  }

  /** A `u16` from its little-endian bytes (`u16::from_le_bytes`). */
  function Le16(lo: Byte, hi: Byte): bv16
  {
    ((hi as bv16) << 8) | (lo as bv16)
  }

  /** A `u32` from its big-endian bytes (`u32::from_be_bytes`). */
  function Be32(b0: Byte, b1: Byte, b2: Byte, b3: Byte): bv32
  {
    ((b0 as bv32) << 24) | ((b1 as bv32) << 16) | ((b2 as bv32) << 8) | (b3 as bv32)
  }

  /** The bytes of a `u16`, least significant first (`to_le_bytes`). */
  function LowBytes16(x: bv16): (Byte, Byte)
  {
    ((x & 0xFF) as Byte, (x >> 8) as Byte)
  }

  /** The bytes of a `u32`, least significant first (`to_le_bytes`). */
  function LowBytes32(x: bv32): (Byte, Byte, Byte, Byte)
  {
    ((x & 0xFF) as Byte, ((x >> 8) & 0xFF) as Byte, ((x >> 16) & 0xFF) as Byte, (x >> 24) as Byte)
  }

  /** `u16::from_le_bytes` and `to_le_bytes` are inverse. */
  lemma Le16Bytes(lo: Byte, hi: Byte)
    ensures LowBytes16(Le16(lo, hi)) == (lo, hi)
  {
  }

  /** `u32::from_be_bytes` and `to_le_bytes` give the bytes back in reverse order. */
  lemma Be32Bytes(b0: Byte, b1: Byte, b2: Byte, b3: Byte)
    ensures LowBytes32(Be32(b0, b1, b2, b3)) == (b3, b2, b1, b0)
  {
  }

  lemma AppendAssociative<T>(a: seq<T>, b: seq<T>, c: seq<T>)
    ensures a + (b + c) == (a + b) + c
  {
  }
}
