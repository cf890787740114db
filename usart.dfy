/** The transmit side of USART2: USART2_SendValue renders a 32-bit value as
    binary, hexadecimal or decimal text without leading zeros, or as one raw
    byte; USART2_SendString sends a NUL-terminated string. The transmit
    register is modelled as the sequence of bytes sent so far. */
module Usart {
  import opened Common
  import AtCommands

  /** USART_Format. */
  datatype Format = Binary | Hexadecimal | Decimal | Ascii

  // ---------------------------------------------------------------------
  // Arithmetic on the positional digits of a value.

  /** The digits of v in base b from position n up, v / b^n: the part of
      the value a digit loop has gone past when it reaches position n - 1. */
  function Above(v: nat, b: nat, n: nat): nat
    requires b >= 2
  {
    if n == 0 then v else Above(v, b, n - 1) / b
  }

  lemma {:induction false} AboveIsQuotient(v: nat, b: nat, n: nat)
    requires b >= 2
    ensures Power(b, n) > 0 && Above(v, b, n) == v / Power(b, n)
  {
    if n > 0 {
      AboveIsQuotient(v, b, n - 1);
      DivDiv(v, Power(b, n - 1), b);
    }
  }

  lemma PowersOfTwo()
    ensures Power(2, 32) == Uint32Limit
    ensures Power(256, 4) == Uint32Limit
    ensures Power(10, 10) == 10000000000
  {
    assert Power(2, 8) == 256;
    assert Power(2, 16) == 65536 by { PowerAdd(2, 8, 8); }
    assert Power(2, 32) == Uint32Limit by { PowerAdd(2, 16, 16); }
    assert Power(256, 2) == 65536;
    assert Power(256, 4) == Uint32Limit by { PowerAdd(256, 2, 2); }
    assert Power(10, 5) == 100000;
    assert Power(10, 10) == 10000000000 by { PowerAdd(10, 5, 5); }
  }

  lemma {:induction false} PowerAdd(b: nat, m: nat, n: nat)
    ensures Power(b, m + n) == Power(b, m) * Power(b, n)
  {
    if n > 0 {
      PowerAdd(b, m, n - 1);
      var x, y := Power(b, m), Power(b, n - 1);
      assert Power(b, m + n) == b * (x * y);
      assert Power(b, n) == b * y;
      MulSwap(b, x, y);
    }
  }

  /** A value below b^n has no digit at position n or above. */
  lemma NothingAbove(v: nat, b: nat, n: nat)
    requires b >= 2 && v < Power(b, n)
    ensures Above(v, b, n) == 0
  {
    AboveIsQuotient(v, b, n);
    DivUnique(v, Power(b, n), 0, v);
  }

  // ---------------------------------------------------------------------
  // The texts.

  /** Binary text of v without leading zeros, "0" for 0. */
  function BinaryText(v: nat): (t: seq<uint8>)
    ensures |t| >= 1
  {
    if v < 2 then [0x30 + v] else BinaryText(v / 2) + [0x30 + v % 2]
  }

  /** Bytes of v, most significant first, starting at the most significant
      non-zero byte; a single 0 byte for 0. */
  function Bytes(v: nat): (bs: seq<uint8>)
    ensures |bs| >= 1
  {
    if v < 256 then [v] else Bytes(v / 256) + [v % 256]
  }

  /** The two upper-case hexadecimal digits of a byte, high nibble first. */
  function ByteHexText(d: uint8): seq<uint8>
  {
    [AtCommands.HexaToAscii(d / 16), AtCommands.HexaToAscii(d % 16)]
  }

  /** Hexadecimal text of v: two digits per byte, from the most
      significant non-zero byte; "00" for 0. */
  function HexText(v: nat): (t: seq<uint8>)
  {
    if v < 256 then ByteHexText(v) else HexText(v / 256) + ByteHexText(v % 256)
  }

  /** What USART2_SendValue sends for v in each format. The prefix "0b" or
      "0x" is sent on request; the decimal format has none. */
  function Prefix(letter: uint8, prefix: bool): seq<uint8>
  {
    if prefix then [0x30, letter] else []
  }

  lemma AppendAssoc(a: seq<uint8>, b: seq<uint8>, c: seq<uint8>)
    ensures (a + b) + c == a + (b + c)
  {
  }

  function ValueText(v: nat, f: Format, prefix: bool): seq<uint8>
  {
    match f
    case Binary => Prefix(0x62, prefix) + BinaryText(v)
    case Hexadecimal => Prefix(0x78, prefix) + HexText(v)
    case Decimal => AtCommands.DecimalText(v)
    case Ascii => if v <= 0xFF then [v] else []
  }

  /** The value of a text read as digits in base b, each digit as
      AT_AsciiToHexa reads it. */
  function ReadBack(t: seq<uint8>, b: nat): nat
  {
    if t == [] then 0 else b * ReadBack(t[..|t| - 1], b) + AtCommands.AsciiToHexa(t[|t| - 1])
  }

  // ---------------------------------------------------------------------
  // Properties of the texts.

  /** The binary text has at most 32 digits for a 32-bit value, only '0'
      and '1', a leading '0' only for 0, and reads back as v. */
  lemma {:induction false} BinaryTextProperties(v: nat, n: nat)
    requires v < Power(2, n)
    ensures |BinaryText(v)| <= if n == 0 then 1 else n
    ensures forall i :: 0 <= i < |BinaryText(v)| ==> BinaryText(v)[i] in {0x30, 0x31}
    ensures BinaryText(v)[0] == 0x30 <==> v == 0
    ensures ReadBack(BinaryText(v), 2) == v
  {
    var t := BinaryText(v);
    if v >= 2 {
      assert n >= 2;
      assert v / 2 < Power(2, n - 1);
      BinaryTextProperties(v / 2, n - 1);
      assert t[..|t| - 1] == BinaryText(v / 2);
    }
  }

  /** A decimal text has at most n digits below 10^n, a leading '0' only
      for 0, and reads back as v in base 10. */
  lemma {:induction false} DecimalTextProperties(v: nat, n: nat)
    requires v < Power(10, n)
    ensures |AtCommands.DecimalText(v)| <= if n == 0 then 1 else n
    ensures AtCommands.DecimalText(v)[0] == 0x30 <==> v == 0
    ensures ReadBack(AtCommands.DecimalText(v), 10) == v
  {
    var t := AtCommands.DecimalText(v);
    AtCommands.DecimalTextShape(v, n);
    if v >= 10 {
      assert n >= 2;
      assert v / 10 < Power(10, n - 1);
      DecimalTextProperties(v / 10, n - 1);
      assert t[..|t| - 1] == AtCommands.DecimalText(v / 10);
    }
  }

  /** Bytes(v) has at most n bytes below 256^n, a leading zero byte only
      for 0, and its big-endian value is v. */
  lemma {:induction false} BytesProperties(v: nat, n: nat)
    requires v < Power(256, n)
    ensures |Bytes(v)| <= if n == 0 then 1 else n
    ensures Bytes(v)[0] == 0 <==> v == 0
    ensures AtCommands.BigEndian(Bytes(v)) == v
  {
    if v >= 256 {
      assert n >= 2;
      assert v / 256 < Power(256, n - 1);
      BytesProperties(v / 256, n - 1);
      BigEndianSnoc(Bytes(v / 256), v % 256);
    }
  }

  lemma {:induction false} BigEndianSnoc(bs: seq<uint8>, d: uint8)
    ensures AtCommands.BigEndian(bs + [d]) == 256 * AtCommands.BigEndian(bs) + d
  {
    if bs != [] {
      assert (bs + [d])[1..] == bs[1..] + [d];
      BigEndianSnoc(bs[1..], d);
      var h, p := bs[0], Power(256, |bs| - 1);
      assert Power(256, |bs|) == 256 * p;
      assert h * (256 * p) == 256 * (h * p);
    }
  }

  /** The hexadecimal text of a 32-bit value has an even number of digits,
      2 to 8, starts with "00" only for 0, and the AT parser reads it back
      as v. */
  lemma HexTextProperties(v: nat)
    requires v < Uint32Limit
    ensures |HexText(v)| % 2 == 0 && 2 <= |HexText(v)| <= 8
    ensures HexText(v)[..2] == [0x30, 0x30] <==> v == 0
    ensures AtCommands.DecodeParameter(AtCommands.Hexadecimal, HexText(v)) == AtCommands.Value(v)
  {
    PowersOfTwo();
    BytesProperties(v, 4);
    var bs := Bytes(v);
    HexTextIsByteText(v);
    AtCommands.ParameterRoundTrip(0, bs, 0);
    var t := HexText(v);
    assert t[..2] == [AtCommands.HexaToAscii(bs[0] / 16), AtCommands.HexaToAscii(bs[0] % 16)];
    AtCommands.HexaRoundTrip(bs[0] / 16);
    AtCommands.HexaRoundTrip(bs[0] % 16);
  }

  // ---------------------------------------------------------------------
  // What a digit loop has sent after the digits above a position.

  /** The binary digits of the part x of the value above the current bit,
      nothing while it is 0. */
  function SentBinary(x: nat): seq<uint8>
  {
    if x == 0 then [] else BinaryText(x)
  }

  /** One bit of the binary loop: the digits of y are those of y / 2 and
      then its last bit, which is sent unless it is a leading zero; at the
      last position it is sent in any case. */
  lemma BinaryStep(y: nat)
    ensures var d := y % 2;
            SentBinary(y) == SentBinary(y / 2) + (if d == 1 || y / 2 != 0 then [0x30 + d] else [])
            && BinaryText(y) == SentBinary(y / 2) + [0x30 + d]
  {
  }

  function SentHex(x: nat): seq<uint8>
  {
    if x == 0 then [] else HexText(x)
  }

  /** One byte of the hexadecimal loop, as BinaryStep. */
  lemma HexStep(y: nat)
    ensures var d := y % 256;
            SentHex(y) == SentHex(y / 256) + (if d != 0 || y / 256 != 0 then ByteHexText(d) else [])
            && HexText(y) == SentHex(y / 256) + ByteHexText(d)
  {
  }

  /** The hexadecimal text is the text of Bytes(v), byte by byte. */
  lemma {:induction false} HexTextIsByteText(v: nat)
    ensures HexText(v) == AtCommands.ByteText(Bytes(v))
  {
    if v >= 256 {
      HexTextIsByteText(v / 256);
      ByteTextAppend(Bytes(v / 256), [v % 256]);
    }
  }

  lemma ByteTextAppend(a: seq<uint8>, b: seq<uint8>)
    ensures AtCommands.ByteText(a + b) == AtCommands.ByteText(a) + AtCommands.ByteText(b)
  {
    var l, r := AtCommands.ByteText(a + b), AtCommands.ByteText(a) + AtCommands.ByteText(b);
    assert |l| == |r|;
    forall i | 0 <= i < |l| ensures l[i] == r[i] {
      if i >= 2 * |a| {
        assert (i - 2 * |a|) / 2 == i / 2 - |a|;
        assert (i - 2 * |a|) % 2 == i % 2;
      }
    }
  }

  function SentDecimal(x: nat): seq<uint8>
  {
    if x == 0 then [] else AtCommands.DecimalText(x)
  }

  /** One digit of the decimal loop, as BinaryStep. */
  lemma DecimalStep(y: nat)
    ensures var d := y % 10;
            SentDecimal(y) == SentDecimal(y / 10) + (if d != 0 || y / 10 != 0 then [0x30 + d] else [])
            && AtCommands.DecimalText(y) == SentDecimal(y / 10) + [0x30 + d]
  {
  }

  /** One step of the decimal loop: with previous_decade holding the
      part of v above the digit x % 10, at position n where 10^n = p, what
      is left divided by p is that digit, and adding it back gives the part
      of v from position n up. */
  lemma DecadeStep(v: nat, p: nat, x: nat, prev: nat)
    requires p > 0 && x == v / p && prev == (x / 10) * (10 * p)
    ensures prev <= v
    ensures (v - prev) / p == x % 10
    ensures prev + ((v - prev) / p) * p == x * p >= 0
  {
    var r, y, d := v % p, x / 10, x % 10;
    DecadeProducts(p, x, y, d);
    assert v - prev == p * d + r;
    DivUnique(v - prev, p, d, r);
  }

  /** The products DecadeStep rearranges, for x written as 10 * y + d. */
  lemma DecadeProducts(p: nat, x: nat, y: nat, d: nat)
    requires x == 10 * y + d
    ensures y * (10 * p) == p * (10 * y)
    ensures x * p == p * x == p * (10 * y) + p * d
    ensures p * d >= 0 && x * p >= 0
  {
    MulLe(p, 0, d);
    MulLe(p, 0, x);
  }

  // ---------------------------------------------------------------------
  // The transmitter.

  class Usart2 {
    /** Every byte written to the transmit data register so far. */
    var tx: seq<uint8>

    /** USART2_Init: nothing sent yet. */
    constructor ()
      ensures tx == []
    {
      tx := [];
    }

    /** USART2_FillTxBuffer: one byte to the transmit register. */
    method FillTxBuffer(b: uint8)
      modifies this
      ensures tx == old(tx) + [b]
    {
      tx := tx + [b];
    }

    /** USART2_SendValue. */
    method SendValue(v: nat, format: Format, printPrefix: uint8)
      requires v < Uint32Limit
      modifies this
      ensures tx == old(tx) + ValueText(v, format, printPrefix != 0)
    {
      match format
      case Binary =>
        SendPrefix(0x62, printPrefix != 0);
        SendBinary(v);
        AppendAssoc(old(tx), Prefix(0x62, printPrefix != 0), BinaryText(v));
      case Hexadecimal =>
        SendPrefix(0x78, printPrefix != 0);
        SendHexadecimal(v);
        AppendAssoc(old(tx), Prefix(0x78, printPrefix != 0), HexText(v));
      case Decimal =>
        SendDecimal(v);
      case Ascii =>
        if v <= 0xFF {
          FillTxBuffer(v);
        }
    }

    /** The "0b" or "0x" prefix of the binary and hexadecimal formats:
        '0' then the format's letter, when the caller asks for it. */
    method SendPrefix(letter: uint8, wanted: bool)
      modifies this
      ensures tx == old(tx) + Prefix(letter, wanted)
    {
      if wanted {
        FillTxBuffer(0x30);
        FillTxBuffer(letter);
      }
    }

    /** The binary case: bits 31 down to 0, skipping leading zeros and
        sending the last bit in any case. The test of tx_value & (1 << idx)
        is written as the bit at position idx. */
    method SendBinary(v: nat)
      requires v < Uint32Limit
      modifies this
      ensures tx == old(tx) + BinaryText(v)
    {
      var found := false;
      var idx: nat := 31;
      PowersOfTwo();
      NothingAbove(v, 2, 32);
      while true
        invariant idx <= 31
        invariant found == (Above(v, 2, idx + 1) != 0)
        invariant tx == old(tx) + SentBinary(Above(v, 2, idx + 1))
        decreases idx
      {
        var bit := Above(v, 2, idx) % 2;
        BinaryStep(Above(v, 2, idx));
        if bit == 1 {
          FillTxBuffer(0x31);
          found := true;
        } else if found || idx == 0 {
          FillTxBuffer(0x30);
        }
        if idx == 0 {
          break;
        }
        idx := idx - 1;
      }
    }

    /** The hexadecimal case: bytes 3 down to 0, skipping leading zero
        bytes and sending the last byte in any case, high nibble first. The
        masks and shifts are written as the byte at position idx and its
        two nibbles. */
    method SendHexadecimal(v: nat)
      requires v < Uint32Limit
      modifies this
      ensures tx == old(tx) + HexText(v)
    {
      var found := false;
      var idx: nat := 3;
      PowersOfTwo();
      NothingAbove(v, 256, 4);
      while true
        invariant idx <= 3
        invariant found == (Above(v, 256, idx + 1) != 0)
        invariant tx == old(tx) + SentHex(Above(v, 256, idx + 1))
        decreases idx
      {
        var current: uint8 := Above(v, 256, idx) % 256;
        ghost var y := Above(v, 256, idx);
        assert Above(v, 256, idx + 1) == y / 256;
        HexStep(y);
        if current != 0 {
          found := true;
        }
        ghost var before := tx;
        if found || idx == 0 {
          FillTxBuffer(AtCommands.HexaToAscii(current / 16));
          FillTxBuffer(AtCommands.HexaToAscii(current % 16));
        }
        assert tx == before + if found || idx == 0 then ByteHexText(current) else [];
        assert idx > 0 ==> tx == old(tx) + SentHex(y);
        if idx == 0 {
          break;
        }
        idx := idx - 1;
      }
    }

    /** The decimal case: digits 9 down to 0, each the rest of the value
        not yet accounted for by previous_decade divided by AT_Pow10(idx),
        skipping leading zeros and sending the units in any case. */
    method SendDecimal(v: nat)
      requires v < Uint32Limit
      modifies this
      ensures tx == old(tx) + AtCommands.DecimalText(v)
    {
      var found := false;
      var previous: nat := 0;
      var idx: nat := 9;
      PowersOfTwo();
      NothingAbove(v, 10, 10);
      while true
        invariant idx <= 9
        invariant previous == Above(v, 10, idx + 1) * Power(10, idx + 1)
        invariant found == (Above(v, 10, idx + 1) != 0)
        invariant tx == old(tx) + SentDecimal(Above(v, 10, idx + 1))
        decreases idx
      {
        AtCommands.Pow10IsPower(idx);
        AboveIsQuotient(v, 10, idx);
        var power := AtCommands.Pow10(idx);
        DecadeStep(v, power, Above(v, 10, idx), previous);
        var current: uint8 := (v - previous) / power;
        previous := previous + current * power;
        DecimalStep(Above(v, 10, idx));
        if current != 0 {
          found := true;
        }
        if found || idx == 0 {
          FillTxBuffer(current + 0x30);
        }
        if idx == 0 {
          break;
        }
        idx := idx - 1;
      }
    }

    /** USART2_SendString: the bytes of s up to, not including, the first
        NUL. */
    method SendString(s: seq<uint8>)
      requires exists i :: 0 <= i < |s| && s[i] == 0
      modifies this
      ensures tx == old(tx) + CString(s)
    {
      ghost var n := FindFrom(s, 0, 0);
      var i := 0;
      while s[i] != 0
        invariant i <= n
        invariant tx == old(tx) + s[..i]
        decreases n - i
      {
        FillTxBuffer(s[i]);
        i := i + 1;
        assert s[..i] == s[..i - 1] + [s[i - 1]];
      }
    }
  }

  /** The string a NUL-terminated buffer holds. */
  function CString(s: seq<uint8>): (t: seq<uint8>)
    requires exists i :: 0 <= i < |s| && s[i] == 0
  {
    s[..FindFrom(s, 0, 0)]
  }

  /** A string without NUL, terminated and followed by anything, is what
      USART2_SendString sends of it. */
  lemma CStringRoundTrip(t: seq<uint8>, rest: seq<uint8>)
    requires forall i :: 0 <= i < |t| ==> t[i] != 0
    ensures var s := t + [0] + rest;
            (exists i :: 0 <= i < |s| && s[i] == 0) && CString(s) == t
  {
    var s := t + [0] + rest;
    assert s[|t|] == 0;
    FindFromIs(s, 0, 0, |t|);
    assert s[..|t|] == t;
  }
}
