/** The character helpers and the NMEA 0183 sentence checksum of the
    NEO-M8N GPS driver (src/components/neom8n.c). */
module Nmea {
  import opened Common

  /** Size of each NMEA receive buffer (NMEA_RX_BUFFER_SIZE). */
  const BufferSize: nat := 128

  const Dollar: uint8 := 0x24    // '$', NMEA_MESSAGE_START_CHAR
  const Star: uint8 := 0x2A      // '*', NMEA_CHECKSUM_START_CHAR

  predicate IsDecimalDigit(c: uint8) { 0x30 <= c <= 0x39 }
  predicate IsUpperHexLetter(c: uint8) { 0x41 <= c <= 0x46 }

  /** NEOM8N_AsciiToHexa: the value of an upper-case hexadecimal digit.
      Anything else, lower-case letters included, converts to 0. */
  function AsciiToHexa(c: uint8): (v: uint8)
    ensures v < 16
    ensures !IsDecimalDigit(c) && !IsUpperHexLetter(c) ==> v == 0
  {
    if IsDecimalDigit(c) then c - 0x30
    else if IsUpperHexLetter(c) then c - 0x41 + 10
    else 0
  }

  /** The upper-case hexadecimal digit of a nibble, as a u-blox receiver
      writes it after the '*' of a sentence. */
  function HexDigit(n: nat): (c: uint8)
    requires n < 16
    ensures IsDecimalDigit(c) || IsUpperHexLetter(c)
  {
    if n < 10 then 0x30 + n else 0x41 + n - 10
  }

  lemma HexDigitRoundTrip(n: nat)
    requires n < 16
    ensures AsciiToHexa(HexDigit(n)) == n
  {
  }

  /** NEOM8N_Pow10: a nine-entry table of powers of ten. Exponents outside
      the table give 0 (the source accepts n = 9, one past its table). */
  function Pow10(n: nat): nat
  {
    if n == 0 then 1 else if n == 1 then 10 else if n == 2 then 100
    else if n == 3 then 1000 else if n == 4 then 10000 else if n == 5 then 100000
    else if n == 6 then 1000000 else if n == 7 then 10000000 else if n == 8 then 100000000
    else 0
  }

  /** The table holds 10^n for every exponent it covers. */
  lemma Pow10IsPower(n: nat)
    ensures n < 9 ==> Pow10(n) == Power(10, n)
    ensures n >= 9 ==> Pow10(n) == 0
  {
    PowersOfTen();
  }

  lemma PowersOfTen()
    ensures Power(10, 0) == 1 && Power(10, 1) == 10 && Power(10, 2) == 100
    ensures Power(10, 3) == 1000 && Power(10, 4) == 10000 && Power(10, 5) == 100000
    ensures Power(10, 6) == 1000000 && Power(10, 7) == 10000000 && Power(10, 8) == 100000000
    ensures Power(10, 9) == 1000000000
  {
  }

  /** Bitwise exclusive OR of two bytes. */
  function Xor8(a: uint8, b: uint8): uint8
  {
    ((a as bv8) ^ (b as bv8)) as int
  }

  /** Exclusive OR of all bytes of s: the NMEA sentence checksum of a
      payload. */
  function XorAll(s: seq<uint8>): uint8
  {
    if s == [] then 0 else Xor8(XorAll(s[..|s| - 1]), s[|s| - 1])
  }

  /** The checksum a sentence announces (NEOM8N_GetNmeaChecksum): the two
      hexadecimal characters after the first '*' of the buffer, or 0 when
      the buffer holds no '*'. */
  function ReceivedChecksum(s: seq<uint8>): uint8
  {
    var star := FindFrom(s, Star, 0);
    if star < |s| then 16 * AsciiToHexa(At(s, star + 1)) + AsciiToHexa(At(s, star + 2)) else 0
  }

  /** The checksum of the sentence's contents (NEOM8N_ComputeNmeaChecksum):
      the exclusive OR of the bytes strictly between the first '$' and the
      first '*' after it, or 0 when no '*' follows. */
  function ComputedChecksum(s: seq<uint8>): uint8
  {
    var dollar := FindFrom(s, Dollar, 0);
    var star := FindFrom(s, Star, dollar);
    if star < |s| then XorAll(s[dollar + 1 .. star]) else 0
  }

  /** ComputedChecksum in terms of the two scans. */
  lemma ComputedChecksumFrom(s: seq<uint8>, dollar: nat, star: nat)
    requires dollar == FindFrom(s, Dollar, 0) && star == FindFrom(s, Star, dollar)
    ensures ComputedChecksum(s) == if star < |s| then XorAll(s[dollar + 1 .. star]) else 0
  {
  }

  lemma XorAllSnoc(s: seq<uint8>, lo: nat, i: nat)
    requires lo <= i < |s|
    ensures XorAll(s[lo .. i + 1]) == Xor8(XorAll(s[lo .. i]), s[i])
  {
    assert s[lo .. i + 1][..i - lo] == s[lo .. i];
  }

  predicate ChecksumsMatch(s: seq<uint8>)
  {
    ComputedChecksum(s) == ReceivedChecksum(s)
  }

  /** The scan loop the driver runs to find a character: from index
      `from`, advance while the index is inside the buffer and the byte is
      not c. */
  method ScanFor(buf: array<uint8>, c: uint8, from: nat) returns (i: nat)
    requires from <= buf.Length
    ensures i == FindFrom(buf[..], c, from)
  {
    i := from;
    while i < buf.Length && buf[i] != c
      invariant from <= i <= buf.Length
      invariant forall j :: from <= j < i ==> buf[j] != c
    {
      i := i + 1;
    }
  }

  /** NEOM8N_GetNmeaChecksum. */
  method GetNmeaChecksum(buf: array<uint8>) returns (ck: uint8)
    requires buf.Length == BufferSize
    ensures ck == ReceivedChecksum(buf[..])
  {
    var i := ScanFor(buf, Star, 0);
    ck := 0;
    if i < BufferSize {
      ck := 16 * AsciiToHexa(At(buf[..], i + 1)) + AsciiToHexa(At(buf[..], i + 2));
    }
  }

  /** NEOM8N_ComputeNmeaChecksum. */
  method ComputeNmeaChecksum(buf: array<uint8>) returns (ck: uint8)
    requires buf.Length == BufferSize
    ensures ck == ComputedChecksum(buf[..])
  {
    ghost var s := buf[..];
    var start := ScanFor(buf, Dollar, 0);
    var star := ScanFor(buf, Star, start);
    ComputedChecksumFrom(s, start, star);
    ck := 0;
    if star < BufferSize {
      var i := start + 1;
      while i < star
        invariant start + 1 <= i <= star
        invariant ck == XorAll(s[start + 1 .. i])
      {
        XorAllSnoc(s, start + 1, i);
        ck := Xor8(ck, buf[i]);
        i := i + 1;
      }
      assert ck == XorAll(s[start + 1 .. star]);
    }
  }

  lemma ComputedChecksumOfSentence(payload: seq<uint8>, rest: seq<uint8>)
    requires forall i :: 0 <= i < |payload| ==> payload[i] != Star
    requires |rest| > 0 && rest[0] == Star
    ensures ComputedChecksum([Dollar] + payload + rest) == XorAll(payload)
  {
    var s := [Dollar] + payload + rest;
    var star := |payload| + 1;
    assert s[1 .. star] == payload;
    assert s[star] == Star;
    forall i | 1 <= i < star ensures s[i] != Star {
      assert s[i] == s[1 .. star][i - 1];
    }
    ComputedChecksumAt(s, star);
  }

  /** A sentence starting with '$' whose first '*' is at index star. */
  lemma ComputedChecksumAt(s: seq<uint8>, star: nat)
    requires 0 < star < |s| && s[0] == Dollar && s[star] == Star
    requires forall i :: 1 <= i < star ==> s[i] != Star
    ensures ComputedChecksum(s) == XorAll(s[1 .. star])
  {
    FindFromIs(s, Dollar, 0, 0);
    FindFromIs(s, Star, 0, star);
  }

  lemma ReceivedChecksumOfSentence(payload: seq<uint8>, hi: uint8, lo: uint8, tail: seq<uint8>)
    requires forall i :: 0 <= i < |payload| ==> payload[i] != Star
    ensures ReceivedChecksum([Dollar] + payload + [Star, hi, lo] + tail)
            == 16 * AsciiToHexa(hi) + AsciiToHexa(lo)
  {
    var s := [Dollar] + payload + [Star, hi, lo] + tail;
    var star := |payload| + 1;
    forall i | 0 <= i < star ensures s[i] != Star {
      if i > 0 { assert s[i] == payload[i - 1]; }
    }
    FindFromIs(s, Star, 0, star);
    assert At(s, star + 1) == hi && At(s, star + 2) == lo;
  }

  /** A sentence built the way a receiver builds it, '$', a payload free of
      '$' and '*', '*', then the payload's checksum in two upper-case
      hexadecimal digits, passes the comparison, and both checksums equal
      the payload's. */
  lemma SentenceChecksumRoundTrip(payload: seq<uint8>, tail: seq<uint8>)
    requires forall i :: 0 <= i < |payload| ==> payload[i] != Star && payload[i] != Dollar
    ensures var ck := XorAll(payload);
            var s := [Dollar] + payload + [Star, HexDigit(ck / 16), HexDigit(ck % 16)] + tail;
            ComputedChecksum(s) == ck && ReceivedChecksum(s) == ck
  {
    var ck := XorAll(payload);
    var hi, lo := HexDigit(ck / 16), HexDigit(ck % 16);
    var s := [Dollar] + payload + [Star, hi, lo] + tail;
    ComputedChecksumOfSentence(payload, [Star, hi, lo] + tail);
    assert s == [Dollar] + payload + ([Star, hi, lo] + tail);
    ReceivedChecksumOfSentence(payload, hi, lo, tail);
    HexDigitRoundTrip(ck / 16);
    HexDigitRoundTrip(ck % 16);
    assert ReceivedChecksum(s) == 16 * (ck / 16) + ck % 16;
  }
}
