/** The NMEA GGA sentence parser and position validator of the NEO-M8N GPS
    driver (src/components/neom8n.c, NEOM8N_ParseNmeaGgaMessage and
    NEOM8N_PositionIsValid).

    The parser walks the buffer from index 0 up to the first line feed,
    counting commas. When it reaches the k-th comma it checks the field
    that the comma closes and decodes it into the candidate position. The
    specification below splits the line into its comma-separated fields
    (Fields), states the check made on the k-th closed field (FieldCheck)
    and what each decodes to; ScanGgaFields is proved to agree with it. */
module Gga {
  import opened Common
  import opened Nmea

  const LF: uint8 := 0x0A        // '\n', NMEA_LF
  const Comma: uint8 := 0x2C     // ',', NMEA_SEP
  const Dot: uint8 := 0x2E       // '.', NMEA_DOT
  const CharA: uint8 := 0x41
  const CharE: uint8 := 0x45     // NMEA_GGA_EAST
  const CharG: uint8 := 0x47
  const CharM: uint8 := 0x4D     // NMEA_GGA_METERS
  const CharN: uint8 := 0x4E     // NMEA_GGA_NORTH
  const CharS: uint8 := 0x53     // NMEA_GGA_SOUTH
  const CharW: uint8 := 0x57     // NMEA_GGA_WEST

  /** The Position record: latitude ddmm.mmmmm and longitude dddmm.mmmmm,
      the fractional minutes kept as an integer scaled by 10^5 (the
      firmware calls them "seconds"), and altitude in whole meters. */
  datatype Position = Position(
    latDegrees: nat, latMinutes: nat, latSeconds: nat, latNorth: bool,
    longDegrees: nat, longMinutes: nat, longSeconds: nat, longEast: bool,
    altitude: nat)

  /** The latitude and the longitude of a position, in units of 10^-5
      minute. */
  function LatitudeUnits(p: Position): nat
  {
    (p.latDegrees * 60 + p.latMinutes) * 100000 + p.latSeconds
  }

  function LongitudeUnits(p: Position): nat
  {
    (p.longDegrees * 60 + p.longMinutes) * 100000 + p.longSeconds
  }

  /** NEOM8N_PositionIsValid: degrees, minutes and scaled fractional minutes
      within the bounds of a geodetic position. A position passes exactly
      when its minutes and fractional minutes are proper digits of their
      units and it lies strictly below 90 degrees of latitude and 180
      degrees of longitude. */
  predicate PositionIsValid(p: Position): (valid: bool)
    ensures valid <==>
      && p.latMinutes < 60 && p.latSeconds < 100000 && LatitudeUnits(p) < 90 * 60 * 100000
      && p.longMinutes < 60 && p.longSeconds < 100000 && LongitudeUnits(p) < 180 * 60 * 100000
  {
    AngleBound(p.latDegrees, p.latMinutes, p.latSeconds, 90);
    AngleBound(p.longDegrees, p.longMinutes, p.longSeconds, 180);
    && p.latDegrees <= 89 && p.latMinutes <= 59 && p.latSeconds <= 99999
    && p.longDegrees <= 179 && p.longMinutes <= 59 && p.longSeconds <= 99999
  }

  /** With proper minutes and fractional minutes, an angle lies below
      `bound` degrees exactly when its degrees do. */
  lemma AngleBound(d: nat, m: nat, s: nat, bound: nat)
    requires bound >= 1
    ensures m < 60 && s < 100000 ==> ((d * 60 + m) * 100000 + s < bound * 60 * 100000 <==> d < bound)
  {
    if m < 60 && s < 100000 {
      if d < bound {
        assert d * 60 + m <= (bound - 1) * 60 + 59;
      } else {
        assert d * 60 + m >= bound * 60;
      }
    }
  }

  // ---------------------------------------------------------------------
  // The line and its fields.

  /** Index of the first line feed, or the buffer size: the scan stops there. */
  function LineEnd(s: seq<uint8>): (r: nat)
    ensures r <= |s|
    ensures r < |s| ==> s[r] == LF
  {
    FindFrom(s, LF, 0)
  }

  /** The characters the parser looks at: everything before the first line
      feed. */
  function Line(s: seq<uint8>): seq<uint8>
  {
    s[..LineEnd(s)]
  }

  /** Index of the first '$', or the buffer size. */
  function DollarIndex(s: seq<uint8>): (r: nat)
    ensures r <= |s|
  {
    FindFrom(s, Dollar, 0)
  }

  function Last<T>(xs: seq<T>): T
    requires |xs| >= 1
  {
    xs[|xs| - 1]
  }

  /** The fields of t: the runs of characters between commas, in order,
      one more than t has commas. */
  function Fields(t: seq<uint8>): (r: seq<seq<uint8>>)
    ensures |r| >= 1
  {
    if t == [] then [[]]
    else
      var f := Fields(t[..|t| - 1]);
      if t[|t| - 1] == Comma then f + [[]]
      else f[..|f| - 1] + [Last(f) + [t[|t| - 1]]]
  }

  /** The fields a comma has closed: all but the last. The k-th of them
      (counting from 1) is the one the parser checks at the k-th comma. */
  function Closed(t: seq<uint8>): seq<seq<uint8>>
  {
    var f := Fields(t);
    f[..|f| - 1]
  }

  /** The fields put back together, a comma between each two. */
  function Join(fs: seq<seq<uint8>>): seq<uint8>
    requires |fs| >= 1
  {
    if |fs| == 1 then fs[0] else Join(fs[..|fs| - 1]) + [Comma] + Last(fs)
  }

  /** One more character: a comma closes the open field and opens an empty
      one; anything else extends the open field. */
  lemma FieldsStep(t: seq<uint8>, c: uint8)
    ensures c == Comma ==> Closed(t + [c]) == Closed(t) + [Last(Fields(t))] && Last(Fields(t + [c])) == []
    ensures c != Comma ==> Closed(t + [c]) == Closed(t) && Last(Fields(t + [c])) == Last(Fields(t)) + [c]
  {
    assert (t + [c])[..|t|] == t;
  }

  /** Joining the fields with commas gives the text back. */
  lemma {:induction false} JoinFields(t: seq<uint8>)
    ensures Join(Fields(t)) == t
  {
    if t != [] {
      var u, c := t[..|t| - 1], t[|t| - 1];
      assert t == u + [c];
      JoinFields(u);
      var f := Fields(u);
      if c == Comma {
        assert (f + [[]])[..|f|] == f;
      } else if |f| > 1 {
        var g := f[..|f| - 1] + [Last(f) + [c]];
        assert g[..|g| - 1] == f[..|f| - 1];
      }
    }
  }

  /** No field holds a comma. With JoinFields, this makes Fields the split
      of the text at its commas. */
  lemma {:induction false} FieldsHaveNoComma(t: seq<uint8>)
    ensures forall j, i :: 0 <= j < |Fields(t)| && 0 <= i < |Fields(t)[j]| ==> Fields(t)[j][i] != Comma
  {
    if t != [] {
      var u, c := t[..|t| - 1], t[|t| - 1];
      FieldsHaveNoComma(u);
    }
  }

  /** Reading further never changes a field already closed. */
  lemma {:induction false} ClosedGrows(t: seq<uint8>, u: seq<uint8>)
    ensures Closed(t) <= Closed(t + u)
    decreases |u|
  {
    if u == [] {
      assert t + u == t;
    } else {
      var v, c := u[..|u| - 1], u[|u| - 1];
      assert t + u == (t + v) + [c];
      ClosedGrows(t, v);
      FieldsStep(t + v, c);
      var a, b, d := Closed(t), Closed(t + v), Closed(t + u);
      assert b <= d;
      assert a == b[..|a|] && b == d[..|b|];
      assert d[..|a|] == d[..|b|][..|a|];
    }
  }

  /** The check the parser makes at the k-th comma on the field f it
      closes: the address field is 6 characters with "GGA" three places
      after the first '$'; the latitude has 10 characters; N/S is one of
      those letters; the longitude has 11 characters; E/W likewise; the
      altitude is non-empty and does not start with '.'; the altitude unit
      is exactly "M". Other fields are not checked. */
  predicate FieldCheck(s: seq<uint8>, k: nat, f: seq<uint8>)
  {
    if k == 1 then
      |f| == 6 && At(s, DollarIndex(s) + 3) == CharG && At(s, DollarIndex(s) + 4) == CharG
      && At(s, DollarIndex(s) + 5) == CharA
    else if k == 3 then |f| == 10
    else if k == 4 then |f| == 1 && (f[0] == CharN || f[0] == CharS)
    else if k == 5 then |f| == 11
    else if k == 6 then |f| == 1 && (f[0] == CharE || f[0] == CharW)
    else if k == 10 then |f| >= 1 && f[0] != Dot
    else if k == 11 then |f| == 1 && f[0] == CharM
    else true
  }

  /** Every closed field of cs passes the check of its comma. */
  predicate ChecksPass(s: seq<uint8>, cs: seq<seq<uint8>>)
  {
    forall j :: 0 <= j < |cs| ==> FieldCheck(s, j + 1, cs[j])
  }

  /** The parser rejects the line: some comma closes a field that fails
      its check. */
  predicate LineRejected(s: seq<uint8>)
  {
    !ChecksPass(s, Closed(Line(s)))
  }

  /** The parser accepts the line: no check fails and the line has at least
      eleven commas, the last checked one closing the altitude unit. */
  predicate FieldsAccepted(s: seq<uint8>)
  {
    ChecksPass(s, Closed(Line(s))) && |Closed(Line(s))| >= 11
  }

  // ---------------------------------------------------------------------
  // What the fields decode to.

  /** Sum over the characters of ds of NEOM8N_Pow10(position from the
      right) times the character's hexadecimal value, as the source's
      digit loops accumulate it. */
  function DigitSum(ds: seq<uint8>): nat
  {
    if ds == [] then 0 else Pow10(|ds| - 1) * AsciiToHexa(ds[0]) + DigitSum(ds[1..])
  }

  lemma DigitSumStep(s: seq<uint8>, lo: nat, hi: nat)
    requires lo < hi <= |s|
    ensures DigitSum(s[lo .. hi]) == Pow10(hi - lo - 1) * AsciiToHexa(s[lo]) + DigitSum(s[lo + 1 .. hi])
  {
    assert s[lo .. hi][1..] == s[lo + 1 .. hi];
  }

  /** The value of a run of decimal digits read left to right. */
  function DecimalValue(ds: seq<uint8>): int
  {
    if ds == [] then 0 else 10 * DecimalValue(ds[..|ds| - 1]) + (ds[|ds| - 1] as int - 0x30)
  }

  predicate AllDecimal(ds: seq<uint8>)
  {
    forall i :: 0 <= i < |ds| ==> IsDecimalDigit(ds[i])
  }

  lemma {:induction false} DigitSumAppend(ds: seq<uint8>, d: uint8)
    requires |ds| < 9
    ensures DigitSum(ds + [d]) == 10 * DigitSum(ds) + AsciiToHexa(d)
  {
    if ds == [] {
      assert DigitSum([d]) == AsciiToHexa(d);
    } else {
      assert (ds + [d])[1..] == ds[1..] + [d];
      DigitSumAppend(ds[1..], d);
      Pow10IsPower(|ds|);
      Pow10IsPower(|ds| - 1);
      var p, h, rest := Pow10(|ds| - 1), AsciiToHexa(ds[0]), DigitSum(ds[1..]);
      assert Pow10(|ds|) == 10 * p;
      assert DigitSum(ds) == p * h + rest;
      assert DigitSum(ds + [d]) == (10 * p) * h + (10 * rest + AsciiToHexa(d));
      MulSwap(10, p, h);
    }
  }

  /** For at most nine decimal digits the source's weighted sum is the
      ordinary decimal value. */
  lemma {:induction false} DigitSumIsDecimal(ds: seq<uint8>)
    requires |ds| <= 9 && AllDecimal(ds)
    ensures DigitSum(ds) == DecimalValue(ds)
  {
    if ds != [] {
      var init := ds[..|ds| - 1];
      assert ds == init + [ds[|ds| - 1]];
      DigitSumIsDecimal(init);
      DigitSumAppend(init, ds[|ds| - 1]);
    }
  }

  /** Whatever the characters, the weighted sum stays below 2 * 10^9, so
      the source's unsigned accumulators never wrap: digits further than
      nine places from the right weigh 0. */
  lemma {:induction false} DigitSumBound(ds: seq<uint8>)
    ensures DigitSum(ds) < 2 * Power(10, if |ds| < 9 then |ds| else 9)
  {
    if ds != [] {
      DigitSumBound(ds[1..]);
      var n := |ds|;
      Pow10IsPower(n - 1);
      if n - 1 < 9 {
        assert Power(10, n) == 10 * Power(10, n - 1);
        assert Pow10(n - 1) * AsciiToHexa(ds[0]) <= 15 * Power(10, n - 1);
      }
    }
  }

  /** Latitude ddmm.mmmmm: degrees from characters 0-1, minutes from 2-3,
      scaled fractional minutes from the five characters after the dot
      position (which is not checked). */
  function DecodeLatitude(f: seq<uint8>): (nat, nat, nat)
    requires |f| == 10
  {
    (10 * AsciiToHexa(f[0]) + AsciiToHexa(f[1]),
     10 * AsciiToHexa(f[2]) + AsciiToHexa(f[3]),
     DigitSum(f[5..10]))
  }

  /** Longitude dddmm.mmmmm: degrees from characters 0-2, minutes from 3-4,
      scaled fractional minutes from 6-10. */
  function DecodeLongitude(f: seq<uint8>): (nat, nat, nat)
    requires |f| == 11
  {
    (DigitSum(f[0..3]),
     10 * AsciiToHexa(f[3]) + AsciiToHexa(f[4]),
     DigitSum(f[6..11]))
  }

  /** Altitude: the integer part before the first '.', plus one when a
      fractional part exists and its first character is 5 or more. */
  function DecodeAltitude(f: seq<uint8>): nat
    requires |f| >= 1 && f[0] != Dot
  {
    var n := FindFrom(f, Dot, 0);
    DigitSum(f[..n]) + (if |f| - n >= 2 && AsciiToHexa(f[n + 1]) >= 5 then 1 else 0)
  }

  /** The decoded altitude fits the source's 32-bit accumulator. */
  lemma AltitudeFitsUnsigned(f: seq<uint8>)
    requires |f| >= 1 && f[0] != Dot
    ensures DecodeAltitude(f) < Uint32Limit
  {
    var n := FindFrom(f, Dot, 0);
    DigitSumBound(f[..n]);
    PowersOfTen();
    if n < 9 { PowerMonotone(n, 9); }
  }

  lemma {:induction false} PowerMonotone(m: nat, n: nat)
    requires m <= n
    ensures Power(10, m) <= Power(10, n)
    decreases n - m
  {
    if m < n {
      PowerMonotone(m, n - 1);
    }
  }

  /** When the integer part is at most nine decimal digits, the altitude is
      its decimal value, rounded half up on the first fractional digit. */
  lemma AltitudeIsRoundedDecimal(f: seq<uint8>, n: nat)
    requires |f| >= 1 && f[0] != Dot && n == FindFrom(f, Dot, 0)
    requires n <= 9 && AllDecimal(f[..n])
    requires n + 1 < |f| ==> IsDecimalDigit(f[n + 1])
    ensures DecodeAltitude(f) == DecimalValue(f[..n]) + (if n + 1 < |f| && f[n + 1] >= 0x35 then 1 else 0)
  {
    DigitSumIsDecimal(f[..n]);
    if n + 1 < |f| {
      RoundsUp(f[n + 1]);
    }
  }

  /** A decimal digit is 5 or more exactly when its character is '5' or
      above. */
  lemma RoundsUp(c: uint8)
    requires IsDecimalDigit(c)
    ensures AsciiToHexa(c) >= 5 <==> c >= 0x35
  {
  }

  /** The position carried by an accepted line: latitude from its third
      field, N/S from the fourth, longitude from the fifth, E/W from the
      sixth and altitude from the tenth. */
  function GgaPosition(s: seq<uint8>): Position
    requires FieldsAccepted(s)
  {
    AcceptedFieldShapes(s);
    var cs := Closed(Line(s));
    var (latD, latM, latS) := DecodeLatitude(cs[2]);
    var (longD, longM, longS) := DecodeLongitude(cs[4]);
    Position(latD, latM, latS, cs[3][0] == CharN,
             longD, longM, longS, cs[5][0] == CharE,
             DecodeAltitude(cs[9]))
  }

  /** The shape of an accepted line: an address field of 6 characters with
      "GGA" three places after the '$', a 10-character latitude, N or S, an
      11-character longitude, E or W, a non-empty altitude not starting
      with '.', and the unit "M". */
  lemma AcceptedFieldShapes(s: seq<uint8>)
    requires FieldsAccepted(s)
    ensures var cs := Closed(Line(s));
      && |cs[0]| == 6
      && At(s, DollarIndex(s) + 3) == CharG && At(s, DollarIndex(s) + 4) == CharG && At(s, DollarIndex(s) + 5) == CharA
      && |cs[2]| == 10
      && cs[3] in {[CharN], [CharS]}
      && |cs[4]| == 11
      && cs[5] in {[CharE], [CharW]}
      && |cs[9]| >= 1 && cs[9][0] != Dot
      && cs[10] == [CharM]
  {
    var cs := Closed(Line(s));
    assert FieldCheck(s, 1, cs[0]) && FieldCheck(s, 3, cs[2]) && FieldCheck(s, 4, cs[3]);
    assert FieldCheck(s, 5, cs[4]) && FieldCheck(s, 6, cs[5]);
    assert FieldCheck(s, 10, cs[9]) && FieldCheck(s, 11, cs[10]);
    assert cs[3] == [cs[3][0]] && cs[5] == [cs[5][0]] && cs[10] == [cs[10][0]];
  }

  // ---------------------------------------------------------------------
  // The scan, as the source runs it.

  /** The digit loop the parser runs for each multi-digit number: the sum
      of NEOM8N_Pow10(distance from the last digit) times the value of each
      character of buf[lo..hi]. */
  method SumDigits(buf: array<uint8>, lo: nat, hi: nat) returns (v: nat)
    requires lo <= hi <= buf.Length
    ensures v == DigitSum(buf[lo .. hi])
  {
    ghost var s := buf[..];
    v := 0;
    for k := 0 to hi - lo
      invariant v + DigitSum(s[lo + k .. hi]) == DigitSum(s[lo .. hi])
    {
      DigitSumStep(s, lo + k, hi);
      v := v + Pow10(hi - lo - 1 - k) * AsciiToHexa(buf[lo + k]);
    }
  }

  /** The latitude case of the field switch: fields read from the 10
      characters after the separator at sep. */
  method DecodeLatitudeField(buf: array<uint8>, sep: nat) returns (deg: nat, min: nat, sec: nat)
    requires sep + 10 < buf.Length
    ensures (deg, min, sec) == DecodeLatitude(buf[sep + 1 .. sep + 11])
  {
    deg := AsciiToHexa(buf[sep + 1]) * 10 + AsciiToHexa(buf[sep + 2]);
    min := AsciiToHexa(buf[sep + 3]) * 10 + AsciiToHexa(buf[sep + 4]);
    sec := SumDigits(buf, sep + 6, sep + 11);
    assert buf[sep + 1 .. sep + 11][5..10] == buf[sep + 6 .. sep + 11];
  }

  /** The longitude case of the field switch: the 11 characters after sep. */
  method DecodeLongitudeField(buf: array<uint8>, sep: nat) returns (deg: nat, min: nat, sec: nat)
    requires sep + 11 < buf.Length
    ensures (deg, min, sec) == DecodeLongitude(buf[sep + 1 .. sep + 12])
  {
    deg := SumDigits(buf, sep + 1, sep + 4);
    min := AsciiToHexa(buf[sep + 4]) * 10 + AsciiToHexa(buf[sep + 5]);
    sec := SumDigits(buf, sep + 7, sep + 12);
    assert buf[sep + 1 .. sep + 12][0..3] == buf[sep + 1 .. sep + 4];
    assert buf[sep + 1 .. sep + 12][6..11] == buf[sep + 7 .. sep + 12];
  }

  /** The altitude case of the field switch, for the field between the
      separators at sep and idx. */
  method ParseAltitudeField(buf: array<uint8>, sep: nat, idx: nat) returns (error: bool, alt: nat)
    requires sep < idx <= buf.Length
    ensures error <==> !(idx - sep >= 2 && buf[sep + 1] != Dot)
    ensures !error ==> alt == DecodeAltitude(buf[sep + 1 .. idx])
  {
    ghost var f := buf[sep + 1 .. idx];
    var len := idx - sep - 1;
    error := false;
    alt := 0;
    if len >= 1 {
      var n := 0;
      while n < len
        invariant n <= len
        invariant forall j :: 0 <= j < n ==> f[j] != Dot
      {
        if buf[sep + 1 + n] == Dot {
          break;
        }
        n := n + 1;
      }
      assert n == FindFrom(f, Dot, 0);
      if n > 0 {
        alt := SumDigits(buf, sep + 1, sep + 1 + n);
        assert buf[sep + 1 .. sep + 1 + n] == f[..n];
        if len - n >= 2 {
          if AsciiToHexa(buf[sep + n + 2]) >= 5 {
            alt := alt + 1;
          }
        }
      } else {
        error := true;
      }
    } else {
      error := true;
    }
  }

  /** The candidate position once the field switch has seen the k-th comma
      close field f: the latitude, N/S, longitude, E/W and altitude cases
      write their part when the field has the width they expect (a wrong
      N/S or E/W letter of the right width still writes "south" or
      "west"); every other case leaves the position as it is. */
  function FieldUpdate(k: nat, f: seq<uint8>, pos: Position): Position
  {
    if k == 3 && |f| == 10 then
      var (d, m, sc) := DecodeLatitude(f);
      pos.(latDegrees := d, latMinutes := m, latSeconds := sc)
    else if k == 4 && |f| == 1 then pos.(latNorth := f[0] == CharN)
    else if k == 5 && |f| == 11 then
      var (d, m, sc) := DecodeLongitude(f);
      pos.(longDegrees := d, longMinutes := m, longSeconds := sc)
    else if k == 6 && |f| == 1 then pos.(longEast := f[0] == CharE)
    else if k == 10 && |f| >= 1 && f[0] != Dot then pos.(altitude := DecodeAltitude(f))
    else pos
  }

  /** One pass of the field switch, for the field-th comma found at idx;
      sep is the previous comma, or the first '$' for the first comma. */
  method ApplyField(buf: array<uint8>, field: nat, sep: nat, idx: nat, pos: Position)
    returns (error: bool, next: Position)
    requires idx < buf.Length
    requires field == 1 ==> sep == DollarIndex(buf[..])
    requires field >= 2 ==> sep < idx
    ensures var f := if field >= 2 then buf[sep + 1 .. idx] else buf[..idx];
            error == !FieldCheck(buf[..], field, f) && next == FieldUpdate(field, f, pos)
  {
    error := false;
    next := pos;
    if field == 1 {
      if idx == 6 {
        if At(buf[..], sep + 3) != CharG || At(buf[..], sep + 4) != CharG || At(buf[..], sep + 5) != CharA {
          error := true;
        }
      } else {
        error := true;
      }
    } else if field == 3 {
      if idx - sep == 11 {
        var d, m, sc := DecodeLatitudeField(buf, sep);
        next := pos.(latDegrees := d, latMinutes := m, latSeconds := sc);
      } else {
        error := true;
      }
    } else if field == 4 {
      if idx - sep == 2 {
        if buf[sep + 1] == CharN {
          next := pos.(latNorth := true);
        } else if buf[sep + 1] == CharS {
          next := pos.(latNorth := false);
        } else {
          next := pos.(latNorth := false);
          error := true;
        }
      } else {
        error := true;
      }
    } else if field == 5 {
      if idx - sep == 12 {
        var d, m, sc := DecodeLongitudeField(buf, sep);
        next := pos.(longDegrees := d, longMinutes := m, longSeconds := sc);
      } else {
        error := true;
      }
    } else if field == 6 {
      if idx - sep == 2 {
        if buf[sep + 1] == CharE {
          next := pos.(longEast := true);
        } else if buf[sep + 1] == CharW {
          next := pos.(longEast := false);
        } else {
          next := pos.(longEast := false);
          error := true;
        }
      } else {
        error := true;
      }
    } else if field == 10 {
      var alt;
      error, alt := ParseAltitudeField(buf, sep, idx);
      if !error {
        next := pos.(altitude := alt);
      }
    } else if field == 11 {
      if !(idx - sep == 2 && buf[sep + 1] == CharM) {
        error := true;
      }
    }
  }

  /** What the candidate position holds once the parser has closed the
      fields cs: the parts of every field closed so far, decoded. */
  predicate Decoded(cs: seq<seq<uint8>>, pos: Position)
  {
    && (|cs| >= 3 ==> |cs[2]| == 10 && (pos.latDegrees, pos.latMinutes, pos.latSeconds) == DecodeLatitude(cs[2]))
    && (|cs| >= 4 ==> |cs[3]| == 1 && pos.latNorth == (cs[3][0] == CharN))
    && (|cs| >= 5 ==> |cs[4]| == 11 && (pos.longDegrees, pos.longMinutes, pos.longSeconds) == DecodeLongitude(cs[4]))
    && (|cs| >= 6 ==> |cs[5]| == 1 && pos.longEast == (cs[5][0] == CharE))
    && (|cs| >= 10 ==> |cs[9]| >= 1 && cs[9][0] != Dot && pos.altitude == DecodeAltitude(cs[9]))
  }

  /** Closing a field that passes its check keeps the candidate position
      decoded. */
  lemma DecodedStep(s: seq<uint8>, cs: seq<seq<uint8>>, f: seq<uint8>, pos: Position)
    requires Decoded(cs, pos) && FieldCheck(s, |cs| + 1, f)
    ensures Decoded(cs + [f], FieldUpdate(|cs| + 1, f, pos))
  {
    var cs', next := cs + [f], FieldUpdate(|cs| + 1, f, pos);
    assert cs'[..|cs|] == cs;
  }

  /** The candidate position after the switch has seen every field of cs
      closed in turn, starting from pos. */
  function Replay(cs: seq<seq<uint8>>, pos: Position): Position
  {
    if cs == [] then pos else FieldUpdate(|cs|, Last(cs), Replay(cs[..|cs| - 1], pos))
  }

  lemma ReplayStep(cs: seq<seq<uint8>>, f: seq<uint8>, pos: Position)
    ensures Replay(cs + [f], pos) == FieldUpdate(|cs| + 1, f, Replay(cs, pos))
  {
    assert (cs + [f])[..|cs|] == cs;
  }

  lemma ChecksStep(s: seq<uint8>, cs: seq<seq<uint8>>, f: seq<uint8>)
    ensures ChecksPass(s, cs + [f]) <==> ChecksPass(s, cs) && FieldCheck(s, |cs| + 1, f)
  {
    if ChecksPass(s, cs + [f]) {
      forall j | 0 <= j < |cs| ensures FieldCheck(s, j + 1, cs[j]) {
        assert (cs + [f])[j] == cs[j];
      }
      assert (cs + [f])[|cs|] == f;
    }
  }

  /** Whatever the starting position, replaying fields that pass their
      checks leaves every closed field decoded. */
  lemma {:induction false} ReplayDecoded(s: seq<uint8>, cs: seq<seq<uint8>>, pos: Position)
    requires ChecksPass(s, cs)
    ensures Decoded(cs, Replay(cs, pos))
  {
    if cs != [] {
      var init, f := cs[..|cs| - 1], Last(cs);
      assert cs == init + [f];
      ChecksStep(s, init, f);
      ReplayDecoded(s, init, pos);
      DecodedStep(s, init, f, Replay(init, pos));
      ReplayStep(init, f, pos);
    }
  }

  /** On an accepted line, what Decoded describes is the line's position. */
  lemma DecodedIsGgaPosition(s: seq<uint8>, pos: Position)
    requires FieldsAccepted(s) && Decoded(Closed(Line(s)), pos)
    ensures pos == GgaPosition(s)
  {
  }

  /** The scan reads one more character of the line. */
  lemma ScanReads(s: seq<uint8>, idx: nat)
    requires idx < |s|
    ensures s[idx] == Comma ==> Closed(s[..idx + 1]) == Closed(s[..idx]) + [Last(Fields(s[..idx]))]
    ensures s[idx] == Comma ==> Last(Fields(s[..idx + 1])) == []
    ensures s[idx] != Comma ==> Closed(s[..idx + 1]) == Closed(s[..idx])
    ensures s[idx] != Comma ==> Last(Fields(s[..idx + 1])) == Last(Fields(s[..idx])) + [s[idx]]
  {
    assert s[..idx + 1] == s[..idx] + [s[idx]];
    FieldsStep(s[..idx], s[idx]);
  }

  /** A comma of the line closes a field that fails its check: the line is
      rejected, whatever follows. */
  lemma FailedCheckRejects(s: seq<uint8>, idx: nat)
    requires idx < LineEnd(s) && s[idx] == Comma
    requires !FieldCheck(s, |Closed(s[..idx])| + 1, Last(Fields(s[..idx])))
    ensures LineRejected(s)
  {
    ScanReads(s, idx);
    var cs := Closed(s[..idx + 1]);
    assert !FieldCheck(s, |cs|, cs[|cs| - 1]);
    assert Line(s) == s[..idx + 1] + s[idx + 1 .. LineEnd(s)];
    ClosedGrows(s[..idx + 1], s[idx + 1 .. LineEnd(s)]);
    assert Closed(Line(s))[|cs| - 1] == cs[|cs| - 1];
  }

  /** A comma closes a field that passes its check: the checks still pass
      and the candidate position is the replay one field further. */
  lemma PassedCheckKeeps(s: seq<uint8>, idx: nat, prev: Position)
    requires idx < |s| && s[idx] == Comma
    requires ChecksPass(s, Closed(s[..idx]))
    requires FieldCheck(s, |Closed(s[..idx])| + 1, Last(Fields(s[..idx])))
    ensures ChecksPass(s, Closed(s[..idx + 1]))
    ensures Replay(Closed(s[..idx + 1]), prev)
            == FieldUpdate(|Closed(s[..idx])| + 1, Last(Fields(s[..idx])), Replay(Closed(s[..idx]), prev))
  {
    ScanReads(s, idx);
    ChecksStep(s, Closed(s[..idx]), Last(Fields(s[..idx])));
    ReplayStep(Closed(s[..idx]), Last(Fields(s[..idx])), prev);
  }

  /** The scan reached the line end with every check passed. */
  lemma ScanComplete(s: seq<uint8>, idx: nat, prev: Position)
    requires idx == LineEnd(s)
    requires ChecksPass(s, Closed(s[..idx]))
    ensures !LineRejected(s)
    ensures FieldsAccepted(s) <==> |Closed(s[..idx])| >= 11
    ensures FieldsAccepted(s) ==> Replay(Closed(Line(s)), prev) == GgaPosition(s)
  {
    if FieldsAccepted(s) {
      ReplayDecoded(s, Closed(Line(s)), prev);
      DecodedIsGgaPosition(s, Replay(Closed(Line(s)), prev));
    }
  }

  /** What the scan knows when it reaches idx having closed `field`
      fields, sep being the last comma (or the first '$' before any). */
  predicate ScanState(s: seq<uint8>, idx: nat, field: nat, sep: nat, prev: Position, pos: Position)
    requires idx <= |s|
  {
    && field == |Closed(s[..idx])|
    && (field == 0 ==> sep == DollarIndex(s) && Last(Fields(s[..idx])) == s[..idx])
    && (field >= 1 ==> sep < idx && Last(Fields(s[..idx])) == s[sep + 1 .. idx])
    && ChecksPass(s, Closed(s[..idx]))
    && pos == Replay(Closed(s[..idx]), prev)
  }

  /** The scan meets a comma and the switch reports on the field it closes:
      either the line is rejected, or the scan state moves past the comma. */
  lemma CommaStep(s: seq<uint8>, idx: nat, field: nat, sep: nat, prev: Position, pos: Position,
                  error: bool, next: Position)
    requires idx < LineEnd(s) && s[idx] == Comma
    requires ScanState(s, idx, field, sep, prev, pos)
    requires var f := if field + 1 >= 2 then s[sep + 1 .. idx] else s[..idx];
             error == !FieldCheck(s, field + 1, f) && next == FieldUpdate(field + 1, f, pos)
    ensures error ==> field + 1 <= 11 && LineRejected(s)
    ensures !error ==> ScanState(s, idx + 1, field + 1, idx, prev, next)
  {
    ScanReads(s, idx);
    if error {
      FailedCheckRejects(s, idx);
    } else {
      PassedCheckKeeps(s, idx, prev);
    }
  }

  /** Any other character of the line extends the open field. */
  lemma OtherStep(s: seq<uint8>, idx: nat, field: nat, sep: nat, prev: Position, pos: Position)
    requires idx < LineEnd(s) && s[idx] != Comma
    requires ScanState(s, idx, field, sep, prev, pos)
    ensures ScanState(s, idx + 1, field, sep, prev, pos)
  {
    ScanReads(s, idx);
    var open := Last(Fields(s[..idx + 1]));
    assert Closed(s[..idx + 1]) == Closed(s[..idx]);
    if field >= 1 {
      SliceSnoc(s, sep + 1, idx);
      assert open == s[sep + 1 .. idx + 1];
    } else {
      SliceSnoc(s, 0, idx);
      assert open == s[..idx + 1];
    }
  }

  lemma SliceSnoc(s: seq<uint8>, lo: nat, i: nat)
    requires lo <= i < |s|
    ensures s[lo .. i + 1] == s[lo .. i] + [s[i]]
  {
  }

  /** The field loop of NEOM8N_ParseNmeaGgaMessage (the part run once the
      checksums agree), reading the buffer without changing it. `error` is
      the flag on which the source zeroes the buffer, `success` the value
      it gives nmea_gga_parsing_success, and `pos` the candidate position,
      which starts as `prev` and is written field by field. */
  method ScanGgaFields(buf: array<uint8>, prev: Position) returns (error: bool, success: bool, pos: Position)
    requires buf.Length == BufferSize
    ensures error <==> LineRejected(buf[..])
    ensures success <==> FieldsAccepted(buf[..])
    ensures !error ==> pos == Replay(Closed(Line(buf[..])), prev)
    ensures success ==> pos == GgaPosition(buf[..])
  {
    ghost var s := buf[..];
    var sep: nat := ScanFor(buf, Dollar, 0);
    var field: nat := 0;
    var idx: nat := 0;
    error, success, pos := false, false, prev;
    while idx < BufferSize && buf[idx] != LF
      invariant idx <= LineEnd(s)
      invariant !error
      invariant ScanState(s, idx, field, sep, prev, pos)
      invariant success <==> field >= 11
      decreases BufferSize - idx
    {
      if buf[idx] == Comma {
        ghost var before := pos;
        error, pos := ApplyField(buf, field + 1, sep, idx, pos);
        CommaStep(s, idx, field, sep, prev, before, error, pos);
        if error {
          break;
        }
        field := field + 1;
        if field == 11 {
          success := true;
        }
        sep := idx;
      } else {
        OtherStep(s, idx, field, sep, prev, pos);
      }
      idx := idx + 1;
    }
    if !error {
      ScanComplete(s, idx, prev);
    }
  }
}
