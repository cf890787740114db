/** The AT command-line parser of the tracker (src/applicative/at.c): the
    receive buffer filled byte by byte by the USART interrupt, command and
    header matching, separator search, and the typed decoding of
    parameters with its numeric error codes. */
module AtCommands {
  import opened Common

  /** Size of the receive buffer (AT_BUFFER_SIZE). */
  const BufferSize: nat := 64
  const Separator: uint8 := 0x2C   // ',', AT_SEPARATOR_CHAR
  const CR: uint8 := 0x0D          // AT_CR_CHAR
  const LF: uint8 := 0x0A          // AT_LF_CHAR
  /** AT_COMMAND_MIN_SIZE: shorter lines are answered "unknown command". */
  const CommandMinSize: nat := 2

  // The syntax error codes of the AT interface.
  const NoError: nat := 0x00
  const UnknownCommand: nat := 0x01
  const NoParamFound: nat := 0x02
  const NoSepFound: nat := 0x03
  const BitInvalidChar: nat := 0x04
  const BitOverflow: nat := 0x05
  const HexaOddSize: nat := 0x06
  const HexaInvalidChar: nat := 0x07
  const HexaOverflow: nat := 0x08
  const DecInvalidChar: nat := 0x09
  const DecOverflow: nat := 0x0A
  const ByteArrayInvalidLength: nat := 0x0B

  // ---------------------------------------------------------------------
  // Character helpers.

  /** AT_IsHexaChar: '0'-'9' or 'A'-'F'. */
  predicate IsHexaChar(c: uint8) { (0x30 <= c <= 0x39) || (0x41 <= c <= 0x46) }

  /** AT_IsDecimalChar: '0'-'9'. */
  predicate IsDecimalChar(c: uint8) { 0x30 <= c <= 0x39 }

  predicate IsLineEnd(c: uint8) { c == CR || c == LF }

  /** AT_AsciiToHexa: the value of an upper-case hexadecimal character;
      any other character, lower-case letters included, gives 0. */
  function AsciiToHexa(c: uint8): (v: uint8)
    ensures v < 16
    ensures !IsHexaChar(c) ==> v == 0
  {
    if 0x41 <= c <= 0x46 then c - 0x41 + 10
    else if 0x30 <= c <= 0x39 then c - 0x30
    else 0
  }

  /** AT_HexaToAscii: the upper-case hexadecimal character of a nibble, 0
      for values above 15. */
  function HexaToAscii(n: uint8): uint8
  {
    if n <= 15 then (if n <= 9 then n + 0x30 else n + 0x41 - 10) else 0
  }

  /** Converting a nibble to its character and back gives the nibble; the
      character is a hexadecimal character; larger values give 0, and
      lower-case letters convert to 0. */
  lemma HexaRoundTrip(n: uint8)
    ensures n <= 15 ==> IsHexaChar(HexaToAscii(n)) && AsciiToHexa(HexaToAscii(n)) == n
    ensures n > 15 ==> HexaToAscii(n) == 0
    ensures forall c: uint8 :: 0x61 <= c <= 0x66 ==> AsciiToHexa(c) == 0
  {
  }

  /** AT_Pow10: a ten-entry table of powers of ten, 0 above 9. */
  function Pow10(power: nat): nat
  {
    if power == 0 then 1 else if power == 1 then 10 else if power == 2 then 100
    else if power == 3 then 1000 else if power == 4 then 10000 else if power == 5 then 100000
    else if power == 6 then 1000000 else if power == 7 then 10000000 else if power == 8 then 100000000
    else if power == 9 then 1000000000
    else 0
  }

  /** The table holds 10^n for n <= 9. */
  lemma Pow10IsPower(n: nat)
    ensures n <= 9 ==> Pow10(n) == Power(10, n)
    ensures n > 9 ==> Pow10(n) == 0
  {
    assert Power(10, 0) == 1 && Power(10, 1) == 10 && Power(10, 2) == 100;
    assert Power(10, 3) == 1000 && Power(10, 4) == 10000 && Power(10, 5) == 100000;
    assert Power(10, 6) == 1000000 && Power(10, 7) == 10000000 && Power(10, 8) == 100000000;
    assert Power(10, 9) == 1000000000;
  }

  // ---------------------------------------------------------------------
  // What a parameter decodes to.

  /** AT_ParameterType. */
  datatype ParamType = Boolean | Hexadecimal | Decimal

  /** The outcome of decoding a parameter: its value, or an error code. */
  datatype ParamResult = Value(v: nat) | Error(code: nat)

  predicate AllHexa(ds: seq<uint8>)
  {
    forall i :: 0 <= i < |ds| ==> IsHexaChar(ds[i])
  }

  predicate AllDecimal(ds: seq<uint8>)
  {
    forall i :: 0 <= i < |ds| ==> IsDecimalChar(ds[i])
  }

  /** The byte coded by two hexadecimal characters, the first one giving
      the high nibble: `(hexa(hi) << 4) + hexa(lo)`. */
  function HexPair(hi: uint8, lo: uint8): uint8
  {
    16 * AsciiToHexa(hi) + AsciiToHexa(lo)
  }

  /** The bytes coded by consecutive pairs of hexadecimal characters. */
  function HexBytes(ds: seq<uint8>): (bs: seq<uint8>)
    requires |ds| % 2 == 0
    ensures |bs| == |ds| / 2
  {
    seq(|ds| / 2, k requires 0 <= k < |ds| / 2 => HexPair(ds[2 * k], ds[2 * k + 1]))
  }

  /** Length of the longest prefix of ds made of hexadecimal characters. */
  function HexaPrefix(ds: seq<uint8>): (n: nat)
    ensures n <= |ds|
    ensures AllHexa(ds[..n])
    ensures n < |ds| ==> !IsHexaChar(ds[n])
    ensures AllHexa(ds) <==> n == |ds|
  {
    if ds == [] || !IsHexaChar(ds[0]) then 0
    else
      var n := HexaPrefix(ds[1..]);
      assert ds[..n + 1] == [ds[0]] + ds[1..][..n];
      1 + n
  }

  /** Big-endian value of a byte sequence. */
  function BigEndian(bs: seq<uint8>): nat
  {
    if bs == [] then 0 else bs[0] * Power(256, |bs| - 1) + BigEndian(bs[1..])
  }

  /** The value of each character, as AT_AsciiToHexa gives it. */
  function DigitValues(ds: seq<uint8>): (vs: seq<uint8>)
    ensures |vs| == |ds|
  {
    seq(|ds|, i requires 0 <= i < |ds| => AsciiToHexa(ds[i]))
  }

  /** Sum of the digit values, the i-th weighted by AT_Pow10(n - 1 - i). */
  function WeightedDigits(vs: seq<uint8>): nat
  {
    if vs == [] then 0 else vs[0] * Pow10(|vs| - 1) + WeightedDigits(vs[1..])
  }

  /** The text of a parameter of type t, as the comment of each case of
      AT_GetParameter describes it: one character '0' or '1'; 2, 4, 6 or 8
      hexadecimal characters; 1 to 9 decimal characters. */
  predicate WellFormed(t: ParamType, ds: seq<uint8>)
  {
    match t
    case Boolean => ds == [0x30] || ds == [0x31]
    case Hexadecimal => 2 <= |ds| <= 8 && |ds| % 2 == 0 && AllHexa(ds)
    case Decimal => 1 <= |ds| <= 9 && AllDecimal(ds)
  }

  /** The error codes each case of AT_GetParameter can return. */
  function ErrorCodes(t: ParamType): set<nat>
  {
    match t
    case Boolean => {BitOverflow, BitInvalidChar}
    case Hexadecimal => {HexaOddSize, HexaOverflow, HexaInvalidChar}
    case Decimal => {DecOverflow, DecInvalidChar}
  }

  /** What AT_GetParameter decodes from the characters ds of a non-empty
      parameter, with its errors in the order the source checks them:
      a boolean must be one character, '0' or '1'; a hexadecimal number an
      even number of characters, at most 4 bytes (checked before the
      characters), all hexadecimal; a decimal number at most 9 characters
      (checked first), all decimal. */
  function DecodeParameter(t: ParamType, ds: seq<uint8>): (r: ParamResult)
    requires |ds| >= 1
    ensures r.Value? <==> WellFormed(t, ds)
    ensures r.Error? ==> r.code in ErrorCodes(t)
  {
    match t
    case Boolean =>
      if |ds| != 1 then Error(BitOverflow)
      else if ds[0] == HexaToAscii(0) || ds[0] == HexaToAscii(1) then Value(AsciiToHexa(ds[0]))
      else Error(BitInvalidChar)
    case Hexadecimal =>
      if |ds| % 2 != 0 then Error(HexaOddSize)
      else if |ds| / 2 > 4 then Error(HexaOverflow)
      else if !AllHexa(ds) then Error(HexaInvalidChar)
      else Value(BigEndian(HexBytes(ds)))
    case Decimal =>
      if |ds| > 9 then Error(DecOverflow)
      else if !AllDecimal(ds) then Error(DecInvalidChar)
      else Value(WeightedDigits(DigitValues(ds)))
  }

  /** The error paths on which AT_GetParameter returns at once, before it
      moves start_idx past the separator. */
  predicate ReturnsEarly(r: ParamResult)
  {
    r.Error? && r.code in {HexaOverflow, HexaInvalidChar, DecOverflow, DecInvalidChar}
  }

  // Properties of the decoding.

  lemma {:induction false} BigEndianBound(bs: seq<uint8>)
    ensures BigEndian(bs) < Power(256, |bs|)
  {
    if bs != [] {
      BigEndianBound(bs[1..]);
      var p := Power(256, |bs| - 1);
      DigitTimesPower(bs[0], 256, p, BigEndian(bs[1..]));
    }
  }

  /** A digit below the base, times a power, plus less than that power,
      stays below the next power. */
  lemma DigitTimesPower(d: nat, b: nat, p: nat, r: nat)
    requires d < b && r < p
    ensures d * p + r < b * p
  {
    assert d * p <= (b - 1) * p;
  }

  lemma {:induction false} WeightedDigitsBound(vs: seq<uint8>)
    requires |vs| <= 9 && forall i :: 0 <= i < |vs| ==> vs[i] <= 9
    ensures WeightedDigits(vs) < Power(10, |vs|)
  {
    if vs != [] {
      WeightedDigitsBound(vs[1..]);
      Pow10IsPower(|vs| - 1);
      var p := Power(10, |vs| - 1);
      assert vs[0] * p <= 9 * p;
    }
  }

  /** A decoded value fits the source's unsigned 32-bit parameter: a
      boolean is 0 or 1, a hexadecimal value is below 2^32 and a decimal
      value below 10^9. */
  lemma DecodedValueBounds(t: ParamType, ds: seq<uint8>)
    requires |ds| >= 1 && DecodeParameter(t, ds).Value?
    ensures t == Boolean ==> DecodeParameter(t, ds).v <= 1
    ensures t == Hexadecimal ==> DecodeParameter(t, ds).v < Uint32Limit
    ensures t == Decimal ==> DecodeParameter(t, ds).v < 1000000000
  {
    if t == Hexadecimal {
      var bs := HexBytes(ds);
      BigEndianBound(bs);
      PowerMonotone256(|bs|, 4);
    } else if t == Decimal {
      var vs := DigitValues(ds);
      assert forall i :: 0 <= i < |vs| ==> vs[i] <= 9;
      WeightedDigitsBound(vs);
      PowerMonotone10(|vs|, 9);
      Pow10IsPower(9);
    }
  }

  lemma {:induction false} PowerMonotone256(m: nat, n: nat)
    requires m <= n <= 4
    ensures Power(256, m) <= Power(256, n) <= Uint32Limit
    decreases 8 - m - n
  {
    assert Power(256, 4) == Uint32Limit by {
      assert Power(256, 1) == 256;
      assert Power(256, 2) == 65536;
      assert Power(256, 3) == 16777216;
    }
    if m < n {
      PowerMonotone256(m + 1, n);
    } else if n < 4 {
      PowerMonotone256(n + 1, 4);
    }
  }

  lemma {:induction false} PowerMonotone10(m: nat, n: nat)
    requires m <= n
    ensures Power(10, m) <= Power(10, n)
    decreases n - m
  {
    if m < n {
      PowerMonotone10(m + 1, n);
    }
  }

  /** The two characters of each byte, high nibble first. */
  function ByteText(bs: seq<uint8>): (t: seq<uint8>)
    ensures |t| == 2 * |bs|
  {
    seq(2 * |bs|, i requires 0 <= i < 2 * |bs| =>
      if i % 2 == 0 then HexaToAscii(bs[i / 2] / 16) else HexaToAscii(bs[i / 2] % 16))
  }

  /** Reading the hexadecimal text of bytes gives the bytes back. */
  lemma ByteTextRoundTrip(bs: seq<uint8>)
    ensures AllHexa(ByteText(bs)) && HexBytes(ByteText(bs)) == bs
  {
    var t := ByteText(bs);
    forall i | 0 <= i < |t| ensures IsHexaChar(t[i]) {
      HexaRoundTrip(bs[i / 2] / 16);
      HexaRoundTrip(bs[i / 2] % 16);
    }
    forall k | 0 <= k < |bs| ensures HexBytes(t)[k] == bs[k] {
      assert t[2 * k] == HexaToAscii(bs[k] / 16);
      assert t[2 * k + 1] == HexaToAscii(bs[k] % 16);
      HexaRoundTrip(bs[k] / 16);
      HexaRoundTrip(bs[k] % 16);
    }
  }

  /** Decimal text of v without leading zeros. */
  function DecimalText(v: nat): (t: seq<uint8>)
    ensures |t| >= 1
  {
    if v < 10 then [0x30 + v] else DecimalText(v / 10) + [0x30 + v % 10]
  }

  lemma {:induction false} DecimalTextShape(v: nat, n: nat)
    requires v < Power(10, n)
    ensures |DecimalText(v)| <= if n == 0 then 1 else n
    ensures AllDecimal(DecimalText(v))
  {
    if v >= 10 {
      assert n >= 2;
      assert v / 10 < Power(10, n - 1);
      DecimalTextShape(v / 10, n - 1);
    }
  }

  lemma {:induction false} WeightedDigitsAppend(vs: seq<uint8>, d: uint8)
    requires |vs| < 9
    ensures WeightedDigits(vs + [d]) == 10 * WeightedDigits(vs) + d
  {
    if vs != [] {
      assert (vs + [d])[1..] == vs[1..] + [d];
      WeightedDigitsAppend(vs[1..], d);
      Pow10IsPower(|vs|);
      Pow10IsPower(|vs| - 1);
      var p, h := Pow10(|vs| - 1), vs[0];
      assert Pow10(|vs|) == 10 * p;
      assert h * (10 * p) == 10 * (h * p);
    }
  }

  lemma {:induction false} DecimalTextValue(v: nat)
    requires v < 1000000000
    ensures |DecimalText(v)| <= 9
    ensures WeightedDigits(DigitValues(DecimalText(v))) == v
  {
    PowersOfTen();
    DecimalTextShape(v, 9);
    if v >= 10 {
      DecimalTextValue(v / 10);
      var t := DecimalText(v / 10);
      assert DigitValues(t + [0x30 + v % 10]) == DigitValues(t) + [v % 10];
      WeightedDigitsAppend(DigitValues(t), v % 10);
    }
  }

  lemma PowersOfTen()
    ensures Power(10, 9) == 1000000000
  {
  }

  /** Round trips: the text of a bit, of 1 to 4 bytes in hexadecimal, and
      of a decimal value below 10^9 decode to that value. */
  lemma ParameterRoundTrip(b: uint8, bs: seq<uint8>, v: nat)
    ensures b <= 1 ==> DecodeParameter(Boolean, [HexaToAscii(b)]) == Value(b)
    ensures 1 <= |bs| <= 4 ==> DecodeParameter(Hexadecimal, ByteText(bs)) == Value(BigEndian(bs))
    ensures v < 1000000000 ==> DecodeParameter(Decimal, DecimalText(v)) == Value(v)
  {
    ByteTextRoundTrip(bs);
    if v < 1000000000 {
      DecimalTextValue(v);
      PowersOfTen();
      DecimalTextShape(v, 9);
    }
  }
}
