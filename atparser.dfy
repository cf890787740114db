/** The receive context of the AT interface (AT_Context of
    src/applicative/at.c): the 64-byte line buffer the USART interrupt
    fills, and the cursor (start, end and separator indices) the parameter
    routines move along it. */
module AtParser {
  import opened Common
  import opened AtCommands

  const Zeros: seq<uint8> := ZeroBytes(BufferSize)

  // ---------------------------------------------------------------------
  // Filling the receive buffer (AT_FillRxBuffer).

  /** The part of the context the USART interrupt updates, as a value. */
  datatype RxState = RxState(buf: seq<uint8>, idx: nat, lineEnd: bool)

  predicate RxValid(st: RxState)
  {
    |st.buf| == BufferSize && st.idx < BufferSize
  }

  /** The state after AT_Reset. */
  const Empty: RxState := RxState(Zeros, 0, false)

  /** Whether AT_FillRxBuffer keeps byte b: any byte other than a line end,
      and a line end only when the buffer is not empty and the previous
      byte is not a line end itself. */
  predicate Stores(st: RxState, b: uint8)
    requires RxValid(st)
  {
    !IsLineEnd(b) || (st.idx > 0 && !IsLineEnd(st.buf[st.idx - 1]))
  }

  /** AT_FillRxBuffer on the state as a value: a kept byte is written at
      the index, the index moves on and wraps from 64 to 0, and a kept line
      end raises the line-end flag. */
  function FillStep(st: RxState, b: uint8): (r: RxState)
    requires RxValid(st)
    ensures RxValid(r)
    ensures Stores(st, b) ==> r.buf[st.idx] == b && r.idx == (st.idx + 1) % BufferSize
    ensures !Stores(st, b) ==> r == st
    ensures r.lineEnd <==> st.lineEnd || (IsLineEnd(b) && Stores(st, b))
  {
    if Stores(st, b) then RxState(st.buf[st.idx := b], (st.idx + 1) % BufferSize, st.lineEnd || IsLineEnd(b))
    else st
  }

  /** The state after the interrupt has delivered the bytes bs, in order. */
  function Feed(st: RxState, bs: seq<uint8>): (r: RxState)
    requires RxValid(st)
    ensures RxValid(r)
  {
    if bs == [] then st else FillStep(Feed(st, bs[..|bs| - 1]), bs[|bs| - 1])
  }

  lemma {:induction false} FeedAppend(st: RxState, a: seq<uint8>, b: seq<uint8>)
    requires RxValid(st)
    ensures Feed(st, a + b) == Feed(Feed(st, a), b)
    decreases |b|
  {
    if b != [] {
      var ab := a + b;
      assert ab[..|ab| - 1] == a + b[..|b| - 1];
      assert ab[|ab| - 1] == b[|b| - 1];
      FeedAppend(st, a, b[..|b| - 1]);
      calc {
        Feed(st, ab);
        FillStep(Feed(st, a + b[..|b| - 1]), b[|b| - 1]);
        FillStep(Feed(Feed(st, a), b[..|b| - 1]), b[|b| - 1]);
        Feed(Feed(st, a), b);
      }
    } else {
      assert a + b == a;
    }
  }

  predicate NoLineEnd(l: seq<uint8>)
  {
    forall i :: 0 <= i < |l| ==> !IsLineEnd(l[i])
  }

  predicate AllLineEnds(l: seq<uint8>)
  {
    forall i :: 0 <= i < |l| ==> IsLineEnd(l[i])
  }

  /** Line ends that arrive while the buffer is empty are dropped. */
  lemma {:induction false} LineEndsOnEmpty(ends: seq<uint8>)
    requires AllLineEnds(ends)
    ensures Feed(Empty, ends) == Empty
  {
    if ends != [] {
      LineEndsOnEmpty(ends[..|ends| - 1]);
    }
  }

  /** Characters other than line ends are stored one after the other. */
  lemma {:induction false} FeedText(l: seq<uint8>)
    requires |l| < BufferSize && NoLineEnd(l)
    ensures Feed(Empty, l) == RxState(l + Zeros[|l|..], |l|, false)
  {
    if l != [] {
      var p := l[..|l| - 1];
      FeedText(p);
      assert (p + Zeros[|p|..])[|p| := l[|l| - 1]] == l + Zeros[|l|..];
    }
  }

  /** Once a line end has been stored, further line ends are dropped. */
  lemma {:induction false} LineEndsAfterLineEnd(st: RxState, ends: seq<uint8>)
    requires RxValid(st) && st.idx > 0 && IsLineEnd(st.buf[st.idx - 1])
    requires AllLineEnds(ends)
    ensures Feed(st, ends) == st
  {
    if ends != [] {
      LineEndsAfterLineEnd(st, ends[..|ends| - 1]);
    }
  }

  /** A line of 63 characters fills the buffer: its line end is stored in
      the last cell, the index wraps to 0 and the decode flag is raised.
      The dispatcher then answers the short-command error, so no parameter
      is read with an index below 2. */
  lemma FullLineWrapsIndex(l: seq<uint8>, e: uint8)
    requires |l| == BufferSize - 1 && NoLineEnd(l) && IsLineEnd(e)
    ensures Feed(Empty, l + [e]) == RxState(l + [e], 0, true)
    ensures Dispatch(l + [e], 0) == TooShort
  {
    FeedAppend(Empty, l, [e]);
    FeedText(l);
    assert (l + Zeros[|l|..])[|l| := e] == l + [e];
  }

  /** The line the buffer holds once the interrupt has delivered the
      characters of l and a line end e. */
  function TypedLine(l: seq<uint8>, e: uint8): seq<uint8>
    requires |l| + 1 < BufferSize
  {
    l + [e] + Zeros[|l| + 1..]
  }

  /** A command typed at the interface: stray line ends, the characters of
      the line, then one or more line ends. The buffer then holds the line
      and its first line end, the index is just past that line end, and the
      flag that triggers decoding is set. */
  lemma FeedLine(pre: seq<uint8>, l: seq<uint8>, ends: seq<uint8>)
    requires AllLineEnds(pre) && AllLineEnds(ends) && |ends| >= 1
    requires 1 <= |l| && |l| + 1 < BufferSize && NoLineEnd(l)
    ensures Feed(Empty, pre + l + ends) == RxState(TypedLine(l, ends[0]), |l| + 1, true)
  {
    FeedAppend(Empty, pre, l);
    LineEndsOnEmpty(pre);
    FeedText(l);
    FeedAppend(Empty, pre + l, ends);
    LineEndsAfterText(l, ends);
  }

  lemma LineEndsAfterText(l: seq<uint8>, ends: seq<uint8>)
    requires AllLineEnds(ends) && |ends| >= 1
    requires 1 <= |l| && |l| + 1 < BufferSize && NoLineEnd(l)
    ensures Feed(RxState(l + Zeros[|l|..], |l|, false), ends) == RxState(TypedLine(l, ends[0]), |l| + 1, true)
  {
    var st := RxState(l + Zeros[|l|..], |l|, false);
    var st1 := RxState(TypedLine(l, ends[0]), |l| + 1, true);
    FeedAppend(st, [ends[0]], ends[1..]);
    assert [ends[0]] + ends[1..] == ends;
    assert [ends[0]][..0] == [];
    assert st.buf[|l| - 1] == l[|l| - 1];
    assert st.buf[|l| := ends[0]] == TypedLine(l, ends[0]);
    assert Feed(st, [ends[0]]) == st1;
    LineEndsAfterLineEnd(st1, ends[1..]);
  }

  // ---------------------------------------------------------------------
  // Command and header matching.

  /** AT_CompareCommand's verdict: the bytes received before the single
      line end are exactly cmd. */
  predicate CommandMatches(buf: seq<uint8>, rxIdx: nat, cmd: seq<uint8>)
    requires rxIdx <= |buf|
  {
    rxIdx >= 1 && |cmd| == rxIdx - 1 && buf[..|cmd|] == cmd
  }

  /** AT_CompareHeader's verdict: h is a prefix of the received bytes. */
  predicate HeaderMatches(buf: seq<uint8>, rxIdx: nat, h: seq<uint8>)
    requires rxIdx <= |buf|
  {
    |h| <= rxIdx && buf[..|h|] == h
  }

  /** On a typed line, a command matches exactly when it is the line, and
      a header matches exactly when it starts the line (a header holds no
      line end). */
  lemma TypedLineMatches(l: seq<uint8>, e: uint8, cmd: seq<uint8>, h: seq<uint8>)
    requires 1 <= |l| && |l| + 1 < BufferSize && IsLineEnd(e) && NoLineEnd(h)
    ensures CommandMatches(TypedLine(l, e), |l| + 1, cmd) <==> cmd == l
    ensures HeaderMatches(TypedLine(l, e), |l| + 1, h) <==> |h| <= |l| && l[..|h|] == h
  {
    var buf := TypedLine(l, e);
    assert buf[..|l|] == l;
    if |h| > |l| {
      assert h[|l|] != buf[|l|];
    }
    if |h| <= |l| {
      assert buf[..|h|] == l[..|h|];
    }
  }

  // ---------------------------------------------------------------------
  // Locating and decoding parameters.

  /** The parsing cursor: start_idx, end_idx and separator_idx. */
  datatype Cursor = Cursor(start: nat, end: nat, sep: nat)

  /** The separator AT_SearchSeparator finds: the first ',' strictly after
      sep and before rxIdx, if any. */
  function NextSeparator(buf: seq<uint8>, sep: nat, rxIdx: nat): (r: Option<nat>)
    requires rxIdx <= |buf|
    ensures r.Some? ==> sep < r.value < rxIdx && buf[r.value] == Separator
    ensures r.Some? ==> forall j :: sep < j < r.value ==> buf[j] != Separator
    ensures r.None? ==> forall j :: sep < j < rxIdx ==> buf[j] != Separator
  {
    if sep + 1 >= rxIdx then None
    else
      var i := FindFrom(buf[..rxIdx], Separator, sep + 1);
      if i < rxIdx then Some(i) else None
  }

  /** Where the parameter under the cursor ends. */
  datatype Span = NoSeparator | Span(end: nat, sep: nat)

  /** The last parameter ends just before the line end; any other one just
      before the next separator, which must exist. */
  function Locate(buf: seq<uint8>, rxIdx: nat, sep: nat, last: bool): (r: Span)
    requires rxIdx <= |buf| && (last ==> rxIdx >= 2)
    ensures r.Span? ==> r.end + 1 < rxIdx
    ensures r.Span? && !last ==> buf[r.end + 1] == Separator && r.sep == r.end + 1 && sep < r.sep
    ensures r.Span? && !last ==> forall j :: sep < j < r.sep ==> buf[j] != Separator
    ensures r.Span? && last ==> r.end + 2 == rxIdx && r.sep == sep
    ensures r.NoSeparator? <==> !last && forall j :: sep < j < rxIdx ==> buf[j] != Separator
  {
    if last then Span(rxIdx - 2, sep)
    else match NextSeparator(buf, sep, rxIdx)
      case None => NoSeparator
      case Some(i) => Span(i - 1, i)
  }

  /** The outcome of AT_GetParameter: its return code, the value it
      stores (only on success) and the new cursor. */
  datatype Parsed = Parsed(code: nat, value: Option<nat>, cursor: Cursor)

  /** AT_GetParameter as a function of the line and the cursor. On a
      missing separator or an empty parameter it returns at once; on the
      errors of ReturnsEarly too; otherwise the cursor's start moves past
      the separator when there is one. */
  function ParameterStep(buf: seq<uint8>, rxIdx: nat, c: Cursor, t: ParamType, last: bool): (p: Parsed)
    requires rxIdx <= |buf| && (last ==> rxIdx >= 2)
    ensures p.code == NoError <==> p.value.Some?
    ensures p.code == NoSepFound <==> Locate(buf, rxIdx, c.sep, last).NoSeparator?
    ensures p.code != NoSepFound ==> Locate(buf, rxIdx, c.sep, last) == Span(p.cursor.end, p.cursor.sep)
    ensures p.code != NoSepFound ==> (p.code == NoParamFound <==> p.cursor.end < c.start)
    ensures p.value.Some? ==>
              c.start <= p.cursor.end && DecodeParameter(t, buf[c.start .. p.cursor.end + 1]) == Value(p.value.value)
    ensures p.value.Some? && !last ==> p.cursor.start == p.cursor.sep + 1
  {
    match Locate(buf, rxIdx, c.sep, last)
    case NoSeparator => Parsed(NoSepFound, None, c)
    case Span(e, s) =>
      if e < c.start then Parsed(NoParamFound, None, Cursor(c.start, e, s))
      else ParameterDecoded(buf, Cursor(c.start, e, s), t)
  }

  /** The second half of ParameterStep, once the parameter is known to
      span buf[c.start .. c.end + 1]. */
  function ParameterDecoded(buf: seq<uint8>, c: Cursor, t: ParamType): (p: Parsed)
    requires c.start <= c.end < |buf|
    ensures p.code == NoError <==> p.value.Some?
    ensures p.code != NoSepFound && p.code != NoParamFound
    ensures p.cursor.end == c.end && p.cursor.sep == c.sep
    ensures p.value.Some? ==> DecodeParameter(t, buf[c.start .. c.end + 1]) == Value(p.value.value)
    ensures p.value.Some? && c.sep > 0 ==> p.cursor.start == c.sep + 1
    ensures p.code != NoError ==> DecodeParameter(t, buf[c.start .. c.end + 1]) == Error(p.code)
  {
    var r := DecodeParameter(t, buf[c.start .. c.end + 1]);
    var c2 := if !ReturnsEarly(r) && c.sep > 0 then c.(start := c.sep + 1) else c;
    if r.Value? then Parsed(NoError, Some(r.v), c2) else Parsed(r.code, None, c2)
  }

  /** The outcome of AT_GetByteArray: its return code, the number of
      bytes written and the new cursor. */
  datatype Extracted = Extracted(code: nat, count: nat, cursor: Cursor)

  /** AT_GetByteArray as a function of the line and the cursor. A byte
      array must have an even number of characters, at most maxLength
      bytes (checked before the characters) and only hexadecimal
      characters; on an invalid character, the bytes completed before it
      have been written. */
  function ByteArrayStep(buf: seq<uint8>, rxIdx: nat, c: Cursor, last: bool, maxLength: nat): (p: Extracted)
    requires rxIdx <= |buf| && (last ==> rxIdx >= 2)
    ensures p.code == NoError ==> p.count <= maxLength
    ensures p.count > 0 ==> c.start + 2 * p.count < rxIdx
    ensures p.code == NoSepFound <==> Locate(buf, rxIdx, c.sep, last).NoSeparator?
    ensures p.code != NoSepFound ==> Locate(buf, rxIdx, c.sep, last) == Span(p.cursor.end, p.cursor.sep)
    ensures p.code != NoSepFound ==> (p.code == NoParamFound <==> p.cursor.end < c.start)
    ensures p.code == NoError ==>
              c.start + 2 * p.count == p.cursor.end + 1 && AllHexa(buf[c.start .. p.cursor.end + 1])
    ensures p.code == NoError && !last ==> p.cursor.start == p.cursor.sep + 1
  {
    match Locate(buf, rxIdx, c.sep, last)
    case NoSeparator => Extracted(NoSepFound, 0, c)
    case Span(e, s) =>
      if e < c.start then Extracted(NoParamFound, 0, Cursor(c.start, e, s))
      else ByteArrayDecoded(buf, Cursor(c.start, e, s), maxLength)
  }

  /** The second half of ByteArrayStep, once the array is known to span
      buf[c.start .. c.end + 1]. */
  function ByteArrayDecoded(buf: seq<uint8>, c: Cursor, maxLength: nat): (p: Extracted)
    requires c.start <= c.end < |buf|
    ensures p.code == NoError ==> p.count <= maxLength
    ensures 2 * p.count <= c.end + 1 - c.start
    ensures p.cursor.end == c.end && p.cursor.sep == c.sep
    ensures p.code != NoSepFound && p.code != NoParamFound
    ensures p.code == NoError ==> 2 * p.count == c.end + 1 - c.start && AllHexa(buf[c.start .. c.end + 1])
    ensures p.code == NoError && c.sep > 0 ==> p.cursor.start == c.sep + 1
  {
    var ds := buf[c.start .. c.end + 1];
    var c2 := if c.sep > 0 then c.(start := c.sep + 1) else c;
    if |ds| % 2 != 0 then Extracted(HexaOddSize, 0, c2)
    else if |ds| / 2 > maxLength then Extracted(ByteArrayInvalidLength, 0, c)
    else if !AllHexa(ds) then Extracted(HexaInvalidChar, HexaPrefix(ds) / 2, c)
    else Extracted(NoError, |ds| / 2, c2)
  }

  /** An odd index delta is an even number of characters. */
  lemma OddDelta(d: nat)
    requires d % 2 != 0
    ensures (d + 1) % 2 == 0
  {
  }

  /** ByteArrayDecoded when the characters are an even number of more
      bytes than allowed: the length is rejected and the cursor stays. */
  lemma LengthRejected(buf: seq<uint8>, c: Cursor, maxLength: nat)
    requires c.start <= c.end < |buf|
    requires (c.end - c.start) % 2 != 0 && (c.end - c.start + 1) / 2 > maxLength
    ensures ByteArrayDecoded(buf, c, maxLength) == Extracted(ByteArrayInvalidLength, 0, c)
  {
    OddDelta(c.end - c.start);
  }

  /** ByteArrayDecoded once the length checks have passed, in terms of
      what the scan of the characters finds. */
  lemma ScannedByteArray(buf: seq<uint8>, c: Cursor, maxLength: nat, ok: bool, count: nat)
    requires c.start <= c.end < |buf|
    requires (c.end - c.start) % 2 != 0 && (c.end - c.start + 1) / 2 <= maxLength
    requires ok == AllHexa(buf[c.start .. c.end + 1])
    requires count == HexaPrefix(buf[c.start .. c.end + 1]) / 2
    ensures ByteArrayDecoded(buf, c, maxLength)
            == Extracted(if ok then NoError else HexaInvalidChar, count, if ok && c.sep > 0 then c.(start := c.sep + 1) else c)
  {
    var ds := buf[c.start .. c.end + 1];
    OddDelta(c.end - c.start);
    assert |ds| % 2 == 0 && |ds| / 2 <= maxLength;
  }

  /** A line made of a header and the text of one value (a bit, 1 to 4
      bytes in hexadecimal, or a decimal value below 10^9), read as the last
      parameter from just after the header, gives that value back. */
  lemma LastParameterRoundTrip(h: seq<uint8>, text: seq<uint8>, e: uint8, t: ParamType, v: nat)
    requires |h| >= 1 && |h| + |text| + 1 < BufferSize && IsLineEnd(e)
    requires DecodeParameter.requires(t, text) && DecodeParameter(t, text) == Value(v)
    ensures var line := h + text;
            ParameterStep(TypedLine(line, e), |line| + 1, Cursor(|h|, 0, 0), t, true)
              == Parsed(NoError, Some(v), Cursor(|h|, |line| - 1, 0))
  {
    var line := h + text;
    var buf := TypedLine(line, e);
    assert buf[|h| .. |line|] == text;
    assert Locate(buf, |line| + 1, 0, true) == Span(|line| - 1, 0);
  }

  /** The same for byte arrays: the hexadecimal text of at most maxLength
      bytes, read as the last parameter, yields exactly those bytes. */
  lemma LastByteArrayRoundTrip(h: seq<uint8>, bs: seq<uint8>, e: uint8, maxLength: nat)
    requires |h| >= 1 && 1 <= |bs| <= maxLength && |h| + 2 * |bs| + 1 < BufferSize && IsLineEnd(e)
    ensures var line := h + ByteText(bs);
            var p := ByteArrayStep(TypedLine(line, e), |line| + 1, Cursor(|h|, 0, 0), true, maxLength);
            p == Extracted(NoError, |bs|, Cursor(|h|, |line| - 1, 0))
            && HexBytes(TypedLine(line, e)[|h| .. |h| + 2 * p.count]) == bs
  {
    var line := h + ByteText(bs);
    var buf := TypedLine(line, e);
    assert buf[|h| .. |line|] == ByteText(bs);
    ByteTextRoundTrip(bs);
    var c := Cursor(|h|, |line| - 1, 0);
    assert Locate(buf, |line| + 1, 0, true) == Span(|line| - 1, 0);
    assert ByteArrayDecoded(buf, c, maxLength) == Extracted(NoError, |bs|, c);
  }

  predicate SeparatorFree(l: seq<uint8>)
  {
    forall i :: 0 <= i < |l| ==> l[i] != Separator
  }

  /** A text of hexadecimal characters holds no separator. */
  lemma HexaSeparatorFree(text: seq<uint8>)
    requires AllHexa(text)
    ensures SeparatorFree(text)
  {
  }

  /** On a line made of a header, a parameter text and a separator, both
      free of separators after the line's first character, the parameter
      read from just after the header is located as the text, ending
      before that separator. */
  lemma LocatedBeforeSeparator(h: seq<uint8>, text: seq<uint8>, rest: seq<uint8>, e: uint8)
    requires |h| >= 1 && |text| >= 1 && SeparatorFree(h[1..]) && SeparatorFree(text)
    requires |h| + |text| + |rest| + 2 < BufferSize
    ensures var line := h + text + [Separator] + rest;
            var buf, k := TypedLine(line, e), |h| + |text|;
            Locate(buf, |line| + 1, 0, false) == Span(k - 1, k) && buf[|h| .. k] == text
  {
    var line := h + text + [Separator] + rest;
    var buf := TypedLine(line, e);
    var k := |h| + |text|;
    assert buf[..k + 1] == h + text + [Separator];
    forall j | 1 <= j < k ensures buf[j] != Separator {
      if j < |h| {
        assert buf[j] == h[1..][j - 1];
      } else {
        assert buf[j] == text[j - |h|];
      }
    }
    FindFromIs(buf[..|line| + 1], Separator, 1, k);
  }

  /** A line made of a header, the text of one value, a separator and the
      rest of the line: the value, read as a parameter that is not the
      last one, comes back, and the cursor's start moves past the
      separator. */
  lemma ParameterBeforeSeparatorRoundTrip(h: seq<uint8>, text: seq<uint8>, rest: seq<uint8>, e: uint8, t: ParamType, v: nat)
    requires |h| >= 1 && SeparatorFree(h[1..]) && |h| + |text| + |rest| + 2 < BufferSize
    requires |text| >= 1 && DecodeParameter(t, text) == Value(v)
    ensures var line := h + text + [Separator] + rest;
            var k := |h| + |text|;
            ParameterStep(TypedLine(line, e), |line| + 1, Cursor(|h|, 0, 0), t, false)
              == Parsed(NoError, Some(v), Cursor(k + 1, k - 1, k))
  {
    assert SeparatorFree(text) by {
      if t != Boolean { HexaSeparatorFree(text); }
    }
    LocatedBeforeSeparator(h, text, rest, e);
  }

  /** The same for byte arrays: the hexadecimal text of at most maxLength
      bytes followed by a separator yields exactly those bytes, and the
      cursor's start moves past the separator. */
  lemma ByteArrayBeforeSeparatorRoundTrip(h: seq<uint8>, bs: seq<uint8>, rest: seq<uint8>, e: uint8, maxLength: nat)
    requires |h| >= 1 && SeparatorFree(h[1..]) && 1 <= |bs| <= maxLength
    requires |h| + 2 * |bs| + |rest| + 2 < BufferSize
    ensures var line := h + ByteText(bs) + [Separator] + rest;
            var k := |h| + 2 * |bs|;
            var p := ByteArrayStep(TypedLine(line, e), |line| + 1, Cursor(|h|, 0, 0), false, maxLength);
            p == Extracted(NoError, |bs|, Cursor(k + 1, k - 1, k))
            && HexBytes(TypedLine(line, e)[|h| .. |h| + 2 * p.count]) == bs
  {
    ByteTextRoundTrip(bs);
    HexaSeparatorFree(ByteText(bs));
    LocatedBeforeSeparator(h, ByteText(bs), rest, e);
    var k := |h| + 2 * |bs|;
    var buf := TypedLine(h + ByteText(bs) + [Separator] + rest, e);
    DecodedByteText(buf, Cursor(|h|, k - 1, k), maxLength, bs);
  }

  /** The located hexadecimal text of at most maxLength bytes decodes
      without error to all of them. */
  lemma DecodedByteText(buf: seq<uint8>, c: Cursor, maxLength: nat, bs: seq<uint8>)
    requires c.start <= c.end < |buf| && 1 <= |bs| <= maxLength
    requires buf[c.start .. c.end + 1] == ByteText(bs) && AllHexa(ByteText(bs))
    ensures ByteArrayDecoded(buf, c, maxLength)
            == Extracted(NoError, |bs|, if c.sep > 0 then c.(start := c.sep + 1) else c)
  {
  }

  // ---------------------------------------------------------------------
  // Scan loops shared by AT_GetParameter and AT_GetByteArray.

  /** The character scan of AT_GetParameter and AT_GetByteArray: stops at
      the first non-hexadecimal character, and writes a byte into out each
      time a pair of characters is complete. */
  method ReadHexBytes(buf: array<uint8>, lo: nat, hi: nat, out: array<uint8>) returns (ok: bool, count: nat)
    requires lo <= hi <= buf.Length && (hi - lo) % 2 == 0 && (hi - lo) / 2 <= out.Length
    requires out != buf
    modifies out
    ensures ok == AllHexa(buf[lo..hi])
    ensures count == HexaPrefix(buf[lo..hi]) / 2
    ensures count <= out.Length && lo + 2 * count <= hi
    ensures forall k :: 0 <= k < count ==> out[k] == HexPair(buf[lo + 2 * k], buf[lo + 2 * k + 1])
    ensures forall k :: count <= k < out.Length ==> out[k] == old(out[k])
  {
    var i := lo;
    var digitIdx: nat := 0;
    count := 0;
    while i < hi
      invariant lo <= i <= hi && digitIdx == i - lo
      invariant forall j :: lo <= j < i ==> IsHexaChar(buf[j])
      invariant count == digitIdx / 2
      invariant forall k :: 0 <= k < count ==> out[k] == HexPair(buf[lo + 2 * k], buf[lo + 2 * k + 1])
      invariant forall k :: count <= k < out.Length ==> out[k] == old(out[k])
    {
      digitIdx := digitIdx + 1;
      if !IsHexaChar(buf[i]) {
        break;
      }
      if digitIdx % 2 == 0 {
        out[digitIdx / 2 - 1] := HexPair(buf[i - 1], buf[i]);
        count := count + 1;
      }
      i := i + 1;
    }
    ScanResult(buf[..], lo, hi, i - lo);
    ok := i == hi;
  }

  /** The checks and the scan of AT_GetByteArray once the array is located
      at c: the odd index delta, the length, then the characters. The
      cursor returned has its start moved past the separator, if any,
      unless the length or a character was rejected. */
  method DecodeByteArray(buf: array<uint8>, c: Cursor, maxLength: nat, out: array<uint8>) returns (p: Extracted)
    requires c.start <= c.end < buf.Length && out != buf && maxLength <= out.Length
    modifies out
    ensures p == ByteArrayDecoded(buf[..], c, maxLength)
    ensures forall k :: 0 <= k < p.count ==> out[k] == HexPair(buf[c.start + 2 * k], buf[c.start + 2 * k + 1])
    ensures forall k :: p.count <= k < out.Length ==> out[k] == old(out[k])
  {
    if (c.end - c.start) % 2 != 0 {
      var code, count := ReadByteArray(buf, c, maxLength, out);
      if code != NoError {
        return Extracted(code, count, c);
      }
      p := Extracted(NoError, count, c);
    } else {
      p := Extracted(HexaOddSize, 0, c);
    }
    if c.sep > 0 {
      p := p.(cursor := c.(start := c.sep + 1));
    }
  }

  /** The branch of AT_GetByteArray taken on an odd index delta: the
      length check, then the scan of the characters into out. */
  method ReadByteArray(buf: array<uint8>, c: Cursor, maxLength: nat, out: array<uint8>) returns (code: nat, count: nat)
    requires c.start <= c.end < buf.Length && out != buf && maxLength <= out.Length
    requires (c.end - c.start) % 2 != 0
    modifies out
    ensures ByteArrayDecoded(buf[..], c, maxLength)
            == Extracted(code, count, if code == NoError && c.sep > 0 then c.(start := c.sep + 1) else c)
    ensures forall k :: 0 <= k < count ==> out[k] == HexPair(buf[c.start + 2 * k], buf[c.start + 2 * k + 1])
    ensures forall k :: count <= k < out.Length ==> out[k] == old(out[k])
  {
    if (c.end - c.start + 1) / 2 > maxLength {
      LengthRejected(buf[..], c, maxLength);
      return ByteArrayInvalidLength, 0;
    }
    var ok;
    ok, count := ReadHexBytes(buf, c.start, c.end + 1, out);
    code := if ok then NoError else HexaInvalidChar;
    ScannedByteArray(buf[..], c, maxLength, ok, count);
  }

  /** What the scan of ReadHexBytes has established when it stops after n
      characters, either on a non-hexadecimal one or at the end. */
  lemma ScanResult(s: seq<uint8>, lo: nat, hi: nat, n: nat)
    requires lo <= hi <= |s| && lo + n <= hi
    requires forall j :: lo <= j < lo + n ==> IsHexaChar(s[j])
    requires lo + n < hi ==> !IsHexaChar(s[lo + n])
    ensures AllHexa(s[lo..hi]) <==> lo + n == hi
    ensures HexaPrefix(s[lo..hi]) == n
  {
    var ds := s[lo..hi];
    assert AllHexa(ds[..n]);
    if lo + n < hi {
      HexaPrefixIs(ds, n);
    } else {
      assert ds[..n] == ds;
    }
  }

  /** Bytes given pair by pair are the HexBytes of those pairs. */
  lemma HexBytesPointwise(bs: seq<uint8>, ds: seq<uint8>, count: nat)
    requires |bs| == count && 2 * count == |ds|
    requires forall k :: 0 <= k < count ==> bs[k] == HexPair(ds[2 * k], ds[2 * k + 1])
    ensures bs == HexBytes(ds)
  {
  }

  /** A prefix of hexadecimal characters followed by another character is
      the one HexaPrefix measures. */
  lemma {:induction false} HexaPrefixIs(ds: seq<uint8>, n: nat)
    requires n < |ds| && AllHexa(ds[..n]) && !IsHexaChar(ds[n])
    ensures HexaPrefix(ds) == n
  {
    if n > 0 {
      assert ds[1..][..n - 1] == ds[1..n];
      assert IsHexaChar(ds[..n][0]);
      HexaPrefixIs(ds[1..], n - 1);
    }
  }

  /** The value loop of the hexadecimal case: each byte, most significant
      first, shifted left by 8 * (n - 1 - i) bits. The bytes occupy
      disjoint bit positions, so the source's OR is written as a sum. */
  method BigEndianValue(bytes: array<uint8>, n: nat) returns (value: nat)
    requires n <= bytes.Length
    ensures value == BigEndian(bytes[..n])
  {
    value := 0;
    var i := 0;
    while i < n
      invariant i <= n
      invariant value + BigEndian(bytes[i..n]) == BigEndian(bytes[..n])
    {
      assert bytes[i..n][1..] == bytes[i + 1..n];
      value := value + bytes[i] * Power(256, n - i - 1);
      i := i + 1;
    }
  }

  /** The two loops of the decimal case: check and store each digit, then
      sum them weighted by AT_Pow10, most significant first. */
  method ReadDecimal(buf: array<uint8>, lo: nat, hi: nat) returns (ok: bool, value: nat)
    requires lo <= hi <= buf.Length && hi - lo <= 9
    ensures ok == AllDecimal(buf[lo..hi])
    ensures ok ==> value == WeightedDigits(DigitValues(buf[lo..hi]))
  {
    var digits := new uint8[9];
    ok := StoreDigits(buf, lo, hi, digits);
    value := 0;
    if ok {
      assert digits[..hi - lo] == DigitValues(buf[lo..hi]);
      value := DecimalValue(digits, hi - lo);
    }
  }

  /** The first loop of the decimal case: stops on the first character
      that is not a decimal digit, and stores the value of each digit. */
  method StoreDigits(buf: array<uint8>, lo: nat, hi: nat, digits: array<uint8>) returns (ok: bool)
    requires lo <= hi <= buf.Length && hi - lo <= digits.Length && digits != buf
    modifies digits
    ensures ok == AllDecimal(buf[lo..hi])
    ensures ok ==> forall k :: 0 <= k < hi - lo ==> digits[k] == AsciiToHexa(buf[lo + k])
  {
    var i := lo;
    while i < hi
      invariant lo <= i <= hi
      invariant forall j :: lo <= j < i ==> IsDecimalChar(buf[j])
      invariant forall k :: 0 <= k < i - lo ==> digits[k] == AsciiToHexa(buf[lo + k])
    {
      if !IsDecimalChar(buf[i]) {
        assert buf[lo..hi][i - lo] == buf[i];
        return false;
      }
      digits[i - lo] := AsciiToHexa(buf[i]);
      i := i + 1;
    }
    return true;
  }

  /** The second loop of the decimal case: the digits weighted by AT_Pow10,
      most significant first. */
  method DecimalValue(digits: array<uint8>, n: nat) returns (value: nat)
    requires n <= digits.Length
    ensures value == WeightedDigits(digits[..n])
  {
    value := 0;
    var i := 0;
    while i < n
      invariant i <= n
      invariant value + WeightedDigits(digits[i..n]) == WeightedDigits(digits[..n])
    {
      assert digits[i..n][1..] == digits[i + 1..n];
      value := value + digits[i] * Pow10(n - i - 1);
      i := i + 1;
    }
  }

  /** The type switch of AT_GetParameter on the characters buf[lo..hi). */
  method ReadParameter(buf: array<uint8>, lo: nat, hi: nat, t: ParamType) returns (r: ParamResult)
    requires lo < hi <= buf.Length
    ensures r == DecodeParameter(t, buf[lo..hi])
  {
    match t
    case Boolean =>
      if hi - 1 - lo == 0 {
        var bit := buf[lo];
        if bit == HexaToAscii(0) || bit == HexaToAscii(1) {
          r := Value(AsciiToHexa(bit));
        } else {
          r := Error(BitInvalidChar);
        }
      } else {
        r := Error(BitOverflow);
      }
    case Hexadecimal =>
      if (hi - 1 - lo) % 2 != 0 {
        var n := (hi - lo) / 2;
        if n > 4 {
          return Error(HexaOverflow);
        }
        var bytes := new uint8[4];
        var ok, count := ReadHexBytes(buf, lo, hi, bytes);
        if !ok {
          return Error(HexaInvalidChar);
        }
        HexBytesPointwise(bytes[..n], buf[lo..hi], n);
        var value := BigEndianValue(bytes, n);
        r := Value(value);
      } else {
        r := Error(HexaOddSize);
      }
    case Decimal =>
      if hi - lo > 9 {
        return Error(DecOverflow);
      }
      var ok, value := ReadDecimal(buf, lo, hi);
      if !ok {
        return Error(DecInvalidChar);
      }
      r := Value(value);
  }

  // ---------------------------------------------------------------------
  // Command dispatch (which branch of AT_DecodeRxBuffer runs).

  /** The branches of AT_DecodeRxBuffer, in the order it tries them. */
  datatype Command =
    | TooShort | Test | Gps | Adc | Ths | AccRead | AccSet | NvmRead | NvmSet
    | IdRead | IdSet | KeyRead | KeySet | OutOfBand | SendBit | SendEmptyFrame
    | SendFrame | ContinuousWave | TestMode | Unknown

  /** The ASCII bytes of a string literal. */
  function Ascii(s: string): (r: seq<uint8>)
    requires forall i :: 0 <= i < |s| ==> s[i] as int < 256
    ensures |r| == |s|
  {
    seq(|s|, i requires 0 <= i < |s| => s[i] as int)
  }

  /** Whether a branch is selected by an exact command (true) or by a
      header followed by parameters (false), and its text. */
  predicate IsHeader(c: Command)
  {
    c in {Gps, AccSet, NvmSet, IdSet, KeySet, SendBit, SendFrame, ContinuousWave, TestMode}
  }

  function Text(c: Command): seq<uint8>
  {
    match c
    case Test => [0x41, 0x54]  // "AT"
    case Gps => [0x41, 0x54, 0x24, 0x47, 0x50, 0x53, 0x3D]  // "AT$GPS="
    case Adc => [0x41, 0x54, 0x24, 0x41, 0x44, 0x43, 0x3F]  // "AT$ADC?"
    case Ths => [0x41, 0x54, 0x24, 0x54, 0x48, 0x53, 0x3F]  // "AT$THS?"
    case AccRead => [0x41, 0x54, 0x24, 0x41, 0x43, 0x43, 0x3F]  // "AT$ACC?"
    case AccSet => [0x41, 0x54, 0x24, 0x41, 0x43, 0x43, 0x3D]  // "AT$ACC="
    case NvmRead => [0x41, 0x54, 0x24, 0x4E, 0x56, 0x4D, 0x52]  // "AT$NVMR"
    case NvmSet => [0x41, 0x54, 0x24, 0x4E, 0x56, 0x4D, 0x3D]  // "AT$NVM="
    case IdRead => [0x41, 0x54, 0x24, 0x49, 0x44, 0x3F]  // "AT$ID?"
    case IdSet => [0x41, 0x54, 0x24, 0x49, 0x44, 0x3D]  // "AT$ID="
    case KeyRead => [0x41, 0x54, 0x24, 0x4B, 0x45, 0x59, 0x3F]  // "AT$KEY?"
    case KeySet => [0x41, 0x54, 0x24, 0x4B, 0x45, 0x59, 0x3D]  // "AT$KEY="
    case OutOfBand => [0x41, 0x54, 0x24, 0x53, 0x4F]  // "AT$SO"
    case SendBit => [0x41, 0x54, 0x24, 0x53, 0x42, 0x3D]  // "AT$SB="
    case SendEmptyFrame => [0x41, 0x54, 0x24, 0x53, 0x46]  // "AT$SF"
    case SendFrame => [0x41, 0x54, 0x24, 0x53, 0x46, 0x3D]  // "AT$SF="
    case ContinuousWave => [0x41, 0x54, 0x24, 0x43, 0x57, 0x3D]  // "AT$CW="
    case TestMode => [0x41, 0x54, 0x24, 0x54, 0x4D, 0x3D]  // "AT$TM="
    case _ => []
  }

  /** The branches selected by a command or a header of the chain. */
  predicate IsEntry(c: Command)
  {
    c != TooShort && c != Unknown
  }

  /** The entries DispatchTail tries. */
  predicate InTail(c: Command)
  {
    c in {IdRead, IdSet, KeyRead, KeySet, OutOfBand, SendBit, SendEmptyFrame, SendFrame, ContinuousWave, TestMode}
  }

  predicate Selects(buf: seq<uint8>, rxIdx: nat, c: Command)
    requires rxIdx <= |buf|
  {
    if IsHeader(c) then HeaderMatches(buf, rxIdx, Text(c)) else CommandMatches(buf, rxIdx, Text(c))
  }

  /** The branch AT_DecodeRxBuffer takes: a line shorter than two bytes
      is an unknown command; otherwise the first command or header of the
      if-else chain that matches, and Unknown when none does. */
  function Dispatch(buf: seq<uint8>, rxIdx: nat): (c: Command)
    requires rxIdx <= |buf|
    ensures c == TooShort <==> rxIdx < CommandMinSize
    ensures c != TooShort && c != Unknown ==> Selects(buf, rxIdx, c)
    ensures c == Unknown ==> forall d :: IsEntry(d) ==> !Selects(buf, rxIdx, d)
  {
    if rxIdx < CommandMinSize then TooShort
    else if CommandMatches(buf, rxIdx, Text(Test)) then Test
    else if HeaderMatches(buf, rxIdx, Text(Gps)) then Gps
    else if CommandMatches(buf, rxIdx, Text(Adc)) then Adc
    else if CommandMatches(buf, rxIdx, Text(Ths)) then Ths
    else if CommandMatches(buf, rxIdx, Text(AccRead)) then AccRead
    else if HeaderMatches(buf, rxIdx, Text(AccSet)) then AccSet
    else if CommandMatches(buf, rxIdx, Text(NvmRead)) then NvmRead
    else if HeaderMatches(buf, rxIdx, Text(NvmSet)) then NvmSet
    else DispatchTail(buf, rxIdx)
  }

  /** The identifier, key, Sigfox and radio test entries of the chain. */
  function DispatchTail(buf: seq<uint8>, rxIdx: nat): (c: Command)
    requires rxIdx <= |buf|
    ensures c == Unknown || InTail(c)
    ensures c != Unknown ==> Selects(buf, rxIdx, c)
    ensures c == Unknown ==> forall d :: InTail(d) ==> !Selects(buf, rxIdx, d)
  {
    if CommandMatches(buf, rxIdx, Text(IdRead)) then IdRead
    else if HeaderMatches(buf, rxIdx, Text(IdSet)) then IdSet
    else if CommandMatches(buf, rxIdx, Text(KeyRead)) then KeyRead
    else if HeaderMatches(buf, rxIdx, Text(KeySet)) then KeySet
    else if CommandMatches(buf, rxIdx, Text(OutOfBand)) then OutOfBand
    else if HeaderMatches(buf, rxIdx, Text(SendBit)) then SendBit
    else if CommandMatches(buf, rxIdx, Text(SendEmptyFrame)) then SendEmptyFrame
    else if HeaderMatches(buf, rxIdx, Text(SendFrame)) then SendFrame
    else if HeaderMatches(buf, rxIdx, Text(ContinuousWave)) then ContinuousWave
    else if HeaderMatches(buf, rxIdx, Text(TestMode)) then TestMode
    else Unknown
  }

  const Equals: uint8 := 0x3D   // '='

  /** A header's text ends with its only '='; a command's text holds none. */
  predicate Shaped(t: seq<uint8>, header: bool)
  {
    if header then |t| >= 1 && t[|t| - 1] == Equals && forall i :: 0 <= i < |t| - 1 ==> t[i] != Equals
    else forall i :: 0 <= i < |t| ==> t[i] != Equals
  }

  lemma TextShape(c: Command)
    requires IsEntry(c)
    ensures |Text(c)| >= 2 && NoLineEnd(Text(c)) && Shaped(Text(c), IsHeader(c))
  {
  }

  /** No two entries of the chain have the same text. */
  lemma TextInjective(c: Command, d: Command)
    requires IsEntry(c) && IsEntry(d) && Text(c) == Text(d)
    ensures c == d
  {
  }

  /** A text that selects a line made of a text and the parameters that
      may follow it is that text: a header cannot be a proper prefix of
      another text, since it would end with an '=' the other one does not
      have there. */
  lemma ShapedSelection(tc: seq<uint8>, hc: bool, p: seq<uint8>, td: seq<uint8>, hd: bool)
    requires Shaped(tc, hc) && Shaped(td, hd) && (!hc ==> p == [])
    requires hd ==> |td| <= |tc| + |p| && (tc + p)[..|td|] == td
    requires !hd ==> td == tc + p
    ensures td == tc
  {
    assert (tc + p)[..|tc|] == tc;
  }

  /** The matching a text of either shape makes on a typed line: the
      line's own text matches it, and any other text that matches is that
      text. */
  lemma TypedTextSelection(tc: seq<uint8>, hc: bool, p: seq<uint8>, e: uint8, td: seq<uint8>, hd: bool)
    requires Shaped(tc, hc) && Shaped(td, hd) && NoLineEnd(tc) && NoLineEnd(td)
    requires (hc ==> NoLineEnd(p)) && (!hc ==> p == [])
    requires 1 <= |tc| && |tc| + |p| + 1 < BufferSize && IsLineEnd(e)
    ensures var buf, n := TypedLine(tc + p, e), |tc| + |p| + 1;
            && (if hc then HeaderMatches(buf, n, tc) else CommandMatches(buf, n, tc))
            && ((if hd then HeaderMatches(buf, n, td) else CommandMatches(buf, n, td)) ==> td == tc)
  {
    var l := tc + p;
    assert NoLineEnd(l) by {
      forall i | 0 <= i < |l| ensures !IsLineEnd(l[i]) {
        if i >= |tc| { assert l[i] == p[i - |tc|]; }
      }
    }
    TypedLineMatches(l, e, tc, tc);
    TypedLineMatches(l, e, td, td);
    assert l[..|tc|] == tc;
    if hd && |td| <= |l| && l[..|td|] == td {
      ShapedSelection(tc, hc, p, td, hd);
    } else if !hd && td == l {
      ShapedSelection(tc, hc, p, td, hd);
    }
  }

  /** A typed command, or a typed header followed by its parameters,
      selects its own entry. */
  lemma TypedLineSelectsOwn(c: Command, p: seq<uint8>, e: uint8)
    requires IsEntry(c) && IsLineEnd(e)
    requires IsHeader(c) ==> NoLineEnd(p)
    requires !IsHeader(c) ==> p == []
    requires |Text(c)| + |p| + 1 < BufferSize
    ensures Selects(TypedLine(Text(c) + p, e), |Text(c)| + |p| + 1, c)
  {
    TextShape(c);
    TypedTextSelection(Text(c), IsHeader(c), p, e, Text(c), IsHeader(c));
  }

  /** ... and no other entry. */
  lemma TypedLineSelectsNoOther(c: Command, p: seq<uint8>, e: uint8, d: Command)
    requires IsEntry(c) && IsEntry(d) && d != c && IsLineEnd(e)
    requires IsHeader(c) ==> NoLineEnd(p)
    requires !IsHeader(c) ==> p == []
    requires |Text(c)| + |p| + 1 < BufferSize
    ensures !Selects(TypedLine(Text(c) + p, e), |Text(c)| + |p| + 1, d)
  {
    TextShape(c);
    TextShape(d);
    TypedTextSelection(Text(c), IsHeader(c), p, e, Text(d), IsHeader(d));
    if Text(d) == Text(c) {
      TextInjective(c, d);
    }
  }

  /** Whatever the order of the chain, a typed command reaches its own
      branch, and so does a typed header followed by its parameters: no
      earlier entry is selected by the line. */
  lemma DispatchTypedLine(c: Command, p: seq<uint8>, e: uint8)
    requires IsEntry(c) && IsLineEnd(e)
    requires IsHeader(c) ==> NoLineEnd(p)
    requires !IsHeader(c) ==> p == []
    requires |Text(c)| + |p| + 1 < BufferSize
    ensures Dispatch(TypedLine(Text(c) + p, e), |Text(c)| + |p| + 1) == c
  {
    var d := Dispatch(TypedLine(Text(c) + p, e), |Text(c)| + |p| + 1);
    TextShape(c);
    TypedLineSelectsOwn(c, p, e);
    if IsEntry(d) && d != c {
      TypedLineSelectsNoOther(c, p, e, d);
    }
  }

  // ---------------------------------------------------------------------
  // The arguments of AT$SB=<bit>[,<downlink_request>].

  /** What the AT$SB branch asks of the Sigfox library: a bit and a
      downlink request, or an error reply carrying a parameter's code. */
  datatype BitRequest = Send(bit: nat, downlink: nat) | Refused(code: nat)

  /** A boolean parameter read successfully is 0 or 1. */
  lemma BooleanValue(buf: seq<uint8>, rxIdx: nat, c: Cursor, last: bool)
    requires rxIdx <= |buf| && (last ==> rxIdx >= 2)
    ensures var p := ParameterStep(buf, rxIdx, c, Boolean, last);
            p.value.Some? ==> p.value.value <= 1
  {
    assert AsciiToHexa(HexaToAscii(0)) == 0 && AsciiToHexa(HexaToAscii(1)) == 1;
  }

  /** The AT$SB branch as written: when the bit cannot be read as a first
      parameter, for whatever reason, it is read again as the last one,
      from where the failed attempt left the cursor. */
  function SendBitAsWritten(buf: seq<uint8>, rxIdx: nat, c: Cursor): (r: BitRequest)
    requires 2 <= rxIdx <= |buf|
    ensures r.Send? ==> r.bit <= 1 && r.downlink <= 1
  {
    var p := ParameterStep(buf, rxIdx, c, Boolean, false);
    BooleanValue(buf, rxIdx, c, false);
    BooleanValue(buf, rxIdx, p.cursor, true);
    var q := ParameterStep(buf, rxIdx, p.cursor, Boolean, true);
    if p.code == NoError then
      if q.code == NoError then Send(p.value.value, q.value.value) else Refused(q.code)
    else if q.code == NoError then Send(q.value.value, 0)
    else Refused(q.code)
  }

  /** The AT$SB branch as intended: the one-parameter form is tried only
      when there is no separator, so an invalid first parameter is
      reported. */
  function SendBitCorrected(buf: seq<uint8>, rxIdx: nat, c: Cursor): (r: BitRequest)
    requires 2 <= rxIdx <= |buf|
    ensures r.Send? ==> r.bit <= 1 && r.downlink <= 1
  {
    var p := ParameterStep(buf, rxIdx, c, Boolean, false);
    BooleanValue(buf, rxIdx, c, false);
    BooleanValue(buf, rxIdx, p.cursor, true);
    var q := ParameterStep(buf, rxIdx, p.cursor, Boolean, true);
    if p.code == NoError then
      if q.code == NoError then Send(p.value.value, q.value.value) else Refused(q.code)
    else if p.code != NoSepFound then Refused(p.code)
    else if q.code == NoError then Send(q.value.value, 0)
    else Refused(q.code)
  }

  /** "AT$SB=2,1": the bit '2' is invalid, yet the branch as written sends
      the bit 1, taken from the downlink request, without a downlink. */
  lemma SendBitAsWrittenIgnoresFirstError()
    ensures var buf := Ascii("AT$SB=2,1") + [CR];
            ParameterStep(buf, 10, Cursor(6, 0, 0), Boolean, false).code == BitInvalidChar
            && SendBitAsWritten(buf, 10, Cursor(6, 0, 0)) == Send(1, 0)
  {
    var buf := Ascii("AT$SB=2,1") + [CR];
    FindFromIs(buf[..10], Separator, 7, 7);
    assert Locate(buf, 10, 0, false) == Span(6, 7);
    assert buf[6..7] == [0x32];
    assert ParameterStep(buf, 10, Cursor(6, 0, 0), Boolean, false) == Parsed(BitInvalidChar, None, Cursor(8, 6, 7));
    assert buf[8..9] == [0x31];
  }

  /** With the correction, on a line holding a separator the request is
      sent exactly when both parameters are read, and the error reported
      is that of the first parameter that fails. */
  lemma SendBitCorrectedReportsFirstError(buf: seq<uint8>, rxIdx: nat, c: Cursor)
    requires 2 <= rxIdx <= |buf|
    requires NextSeparator(buf, c.sep, rxIdx).Some?
    ensures var p := ParameterStep(buf, rxIdx, c, Boolean, false);
            var q := ParameterStep(buf, rxIdx, p.cursor, Boolean, true);
            var r := SendBitCorrected(buf, rxIdx, c);
            (r.Send? <==> p.code == NoError && q.code == NoError)
            && (r.Send? ==> r == Send(p.value.value, q.value.value))
            && (p.code != NoError ==> r == Refused(p.code))
            && (p.code == NoError && q.code != NoError ==> r == Refused(q.code))
  {
    var p := ParameterStep(buf, rxIdx, c, Boolean, false);
    assert p.code != NoSepFound by {
      match Locate(buf, rxIdx, c.sep, false)
      case Span(e, s) =>
        if e >= c.start {
          var ds := buf[c.start .. e + 1];
          assert DecodeParameter(Boolean, ds).Error? ==> DecodeParameter(Boolean, ds).code in {BitOverflow, BitInvalidChar};
        }
    }
  }

  /** A well-formed "AT$SB=<bit>,<downlink_request>" line asks for that bit
      and that downlink request, in both forms of the branch. */
  lemma SendBitRoundTrip(b: uint8, d: uint8, e: uint8)
    requires b <= 1 && d <= 1
    ensures var line := Text(SendBit) + [HexaToAscii(b), Separator, HexaToAscii(d)];
            SendBitCorrected(TypedLine(line, e), 10, Cursor(6, 0, 0)) == Send(b, d)
            && SendBitAsWritten(TypedLine(line, e), 10, Cursor(6, 0, 0)) == Send(b, d)
  {
    var line := Text(SendBit) + [HexaToAscii(b), Separator, HexaToAscii(d)];
    var buf := TypedLine(line, e);
    ParameterBeforeSeparatorRoundTrip(Text(SendBit), [HexaToAscii(b)], [HexaToAscii(d)], e, Boolean, b);
    assert line == Text(SendBit) + [HexaToAscii(b)] + [Separator] + [HexaToAscii(d)];
    assert buf[8..9] == [HexaToAscii(d)];
  }

  /** On a line without separator both forms of the branch read the bit as
      the last parameter and ask for no downlink. */
  lemma SendBitSingleParameter(buf: seq<uint8>, rxIdx: nat, c: Cursor)
    requires 2 <= rxIdx <= |buf|
    requires NextSeparator(buf, c.sep, rxIdx).None?
    ensures var q := ParameterStep(buf, rxIdx, c, Boolean, true);
            var r := SendBitCorrected(buf, rxIdx, c);
            r == SendBitAsWritten(buf, rxIdx, c)
            && r == if q.code == NoError then Send(q.value.value, 0) else Refused(q.code)
  {
  }

  // ---------------------------------------------------------------------
  // The context.

  class AtContext {
    /** at_rx_buf, at_rx_buf_idx and at_line_end_flag. */
    const rxBuf: array<uint8>
    var rxIdx: nat
    var lineEndFlag: bool
    /** start_idx, end_idx and separator_idx. */
    var startIdx: nat
    var endIdx: nat
    var separatorIdx: nat

    ghost predicate Valid()
      reads this
    {
      rxBuf.Length == BufferSize && rxIdx < BufferSize
      && startIdx <= BufferSize && separatorIdx < BufferSize
    }

    function State(): RxState
      reads this, rxBuf
    {
      RxState(rxBuf[..], rxIdx, lineEndFlag)
    }

    function Position(): Cursor
      reads this
    {
      Cursor(startIdx, endIdx, separatorIdx)
    }

    /** AT_Init: the parser starts reset. */
    constructor ()
      ensures Valid() && State() == Empty && Position() == Cursor(0, 0, 0)
    {
      rxBuf := new uint8[BufferSize](_ => 0);
      rxIdx, lineEndFlag := 0, false;
      startIdx, endIdx, separatorIdx := 0, 0, 0;
    }

    /** AT_Reset: clears the buffer, its index, the flag and the cursor. */
    method Reset()
      requires Valid()
      modifies this, rxBuf
      ensures Valid() && State() == Empty && Position() == Cursor(0, 0, 0)
    {
      var idx := 0;
      while idx < BufferSize
        invariant idx <= BufferSize
        invariant forall j :: 0 <= j < idx ==> rxBuf[j] == 0
      {
        rxBuf[idx] := 0;
        idx := idx + 1;
      }
      assert rxBuf[..] == Zeros;
      rxIdx, lineEndFlag := 0, false;
      startIdx, endIdx, separatorIdx := 0, 0, 0;
    }

    /** AT_FillRxBuffer: one byte from the USART interrupt. */
    method FillRxBuffer(b: uint8)
      requires Valid()
      modifies rxBuf, this`rxIdx, this`lineEndFlag
      ensures Valid()
      ensures State() == FillStep(old(State()), b)
    {
      var increment := true;
      if IsLineEnd(b) {
        if rxIdx > 0 && !IsLineEnd(rxBuf[rxIdx - 1]) {
          rxBuf[rxIdx] := b;
          lineEndFlag := true;
        } else {
          increment := false;
        }
      } else {
        rxBuf[rxIdx] := b;
      }
      if increment {
        rxIdx := rxIdx + 1;
        if rxIdx >= BufferSize {
          rxIdx := 0;
        }
      }
    }

    /** AT_CompareCommand. */
    method CompareCommand(cmd: seq<uint8>) returns (code: nat)
      requires Valid()
      ensures code == if CommandMatches(rxBuf[..], rxIdx, cmd) then NoError else UnknownCommand
    {
      var idx := 0;
      while idx < |cmd| && idx < rxIdx
        invariant idx <= |cmd| && idx <= rxIdx
        invariant rxBuf[..idx] == cmd[..idx]
      {
        if cmd[idx] != rxBuf[idx] {
          break;
        }
        idx := idx + 1;
      }
      code := UnknownCommand;
      if rxIdx >= 1 && idx == rxIdx - 1 && idx == |cmd| {
        code := NoError;
      }
    }

    /** AT_CompareHeader: on success the cursor starts just after the
        header, otherwise at 0. */
    method CompareHeader(h: seq<uint8>) returns (code: nat)
      requires Valid()
      modifies this`startIdx
      ensures Valid()
      ensures HeaderMatches(rxBuf[..], rxIdx, h) ==> code == NoError && startIdx == |h|
      ensures !HeaderMatches(rxBuf[..], rxIdx, h) ==> code == UnknownCommand && startIdx == 0
    {
      var idx := 0;
      while idx < |h| && idx < rxIdx
        invariant idx <= |h| && idx <= rxIdx
        invariant rxBuf[..idx] == h[..idx]
      {
        if h[idx] != rxBuf[idx] {
          break;
        }
        idx := idx + 1;
      }
      if idx == |h| {
        startIdx := idx;
        code := NoError;
      } else {
        startIdx := 0;
        code := UnknownCommand;
      }
    }

    /** AT_SearchSeparator: moves separator_idx to the next ',' of the line,
        and leaves it where it is when there is none. */
    method SearchSeparator() returns (found: bool)
      requires Valid()
      modifies this`separatorIdx
      ensures Valid()
      ensures var next := NextSeparator(rxBuf[..], old(separatorIdx), rxIdx);
              found == next.Some? && separatorIdx == if found then next.value else old(separatorIdx)
    {
      found := false;
      var i := separatorIdx + 1;
      while i < rxIdx
        invariant separatorIdx == old(separatorIdx) && separatorIdx + 1 <= i
        invariant forall j :: separatorIdx < j < i && j < rxIdx ==> rxBuf[j] != Separator
      {
        if rxBuf[i] == Separator {
          FindFromIs(rxBuf[..rxIdx], Separator, separatorIdx + 1, i);
          separatorIdx := i;
          found := true;
          break;
        }
        i := i + 1;
      }
    }

    /** The part AT_GetParameter and AT_GetByteArray share: find where the
        parameter ends (searching the separator unless it is the last one)
        and reject a missing separator or an empty parameter. */
    method LocateParameter(last: bool) returns (code: nat)
      requires Valid() && (last ==> rxIdx >= 2)
      modifies this`endIdx, this`separatorIdx
      ensures Valid()
      ensures match Locate(rxBuf[..], rxIdx, old(separatorIdx), last)
              case NoSeparator => code == NoSepFound && Position() == old(Position())
              case Span(e, s) =>
                Position() == Cursor(startIdx, e, s) && startIdx == old(startIdx)
                && code == if e < startIdx then NoParamFound else NoError
    {
      if last {
        endIdx := rxIdx - 2;
      } else {
        var found := SearchSeparator();
        if !found {
          return NoSepFound;
        }
        endIdx := separatorIdx - 1;
      }
      code := NoError;
      if endIdx < startIdx {
        code := NoParamFound;
      }
    }

    /** AT_GetParameter. The value is stored only on success; prev is what
        the caller's variable held before. */
    method GetParameter(t: ParamType, last: bool, prev: nat) returns (code: nat, value: nat)
      requires Valid() && (last ==> rxIdx >= 2)
      modifies this`startIdx, this`endIdx, this`separatorIdx
      ensures Valid()
      ensures var p := ParameterStep(rxBuf[..], rxIdx, old(Position()), t, last);
              code == p.code && Position() == p.cursor
              && value == if p.value.Some? then p.value.value else prev
    {
      value := prev;
      code := LocateParameter(last);
      if code == NoError {
        code, value := DecodeLocatedParameter(t, prev);
      }
    }

    /** The type switch of AT_GetParameter and the move of start_idx past
        the separator that follows it. */
    method DecodeLocatedParameter(t: ParamType, prev: nat) returns (code: nat, value: nat)
      requires Valid() && startIdx <= endIdx < BufferSize
      modifies this`startIdx
      ensures Valid()
      ensures var p := ParameterDecoded(rxBuf[..], old(Position()), t);
              code == p.code && Position() == p.cursor
              && value == if p.value.Some? then p.value.value else prev
    {
      value := prev;
      var r := ReadParameter(rxBuf, startIdx, endIdx + 1, t);
      if r.Value? {
        value := r.v;
        code := NoError;
      } else {
        code := r.code;
        if ReturnsEarly(r) {
          return;
        }
      }
      if separatorIdx > 0 {
        startIdx := separatorIdx + 1;
      }
    }

    /** AT_GetByteArray: writes the decoded bytes into out, and returns
        how many it wrote. */
    method GetByteArray(last: bool, out: array<uint8>, maxLength: nat) returns (code: nat, extracted: nat)
      requires Valid() && (last ==> rxIdx >= 2)
      requires out != rxBuf && maxLength <= out.Length
      modifies this`startIdx, this`endIdx, this`separatorIdx, out
      ensures Valid()
      ensures var p := ByteArrayStep(rxBuf[..], rxIdx, old(Position()), last, maxLength);
              code == p.code && extracted == p.count && Position() == p.cursor
      ensures forall k :: 0 <= k < extracted ==>
                out[k] == HexPair(rxBuf[old(startIdx) + 2 * k], rxBuf[old(startIdx) + 2 * k + 1])
      ensures forall k :: extracted <= k < out.Length ==> out[k] == old(out[k])
    {
      extracted := 0;
      code := LocateParameter(last);
      if code == NoError {
        code, extracted := DecodeLocatedByteArray(out, maxLength);
      }
    }

    /** The checks and the scan of AT_GetByteArray once the array is
        located, and the move of the cursor's start that follows them. */
    method DecodeLocatedByteArray(out: array<uint8>, maxLength: nat) returns (code: nat, extracted: nat)
      requires Valid() && startIdx <= endIdx < BufferSize
      requires out != rxBuf && maxLength <= out.Length
      modifies this`startIdx, out
      ensures Valid()
      ensures var p := ByteArrayDecoded(rxBuf[..], old(Position()), maxLength);
              code == p.code && extracted == p.count && Position() == p.cursor
      ensures forall k :: 0 <= k < extracted ==>
                out[k] == HexPair(rxBuf[old(startIdx) + 2 * k], rxBuf[old(startIdx) + 2 * k + 1])
      ensures forall k :: extracted <= k < out.Length ==> out[k] == old(out[k])
    {
      var p := DecodeByteArray(rxBuf, Position(), maxLength, out);
      startIdx := p.cursor.start;
      code, extracted := p.code, p.count;
    }

    /** AT_DecodeRxBuffer, down to the branch it takes; the header
        comparisons leave the cursor's start after the matching header, or
        at 0 once one of them has failed. */
    method DecodeRxBuffer() returns (c: Command)
      requires Valid()
      modifies this`startIdx
      ensures Valid()
      ensures c == Dispatch(rxBuf[..], rxIdx)
      ensures c in {TooShort, Test} ==> startIdx == old(startIdx)
      ensures IsHeader(c) ==> startIdx == |Text(c)|
      ensures !IsHeader(c) && c !in {TooShort, Test} ==> startIdx == 0
    {
      if rxIdx < CommandMinSize {
        return TooShort;
      }
      var code := CompareCommand(Text(Test));
      if code == NoError { return Test; }
      code := CompareHeader(Text(Gps));
      if code == NoError { return Gps; }
      code := CompareCommand(Text(Adc));
      if code == NoError { return Adc; }
      code := CompareCommand(Text(Ths));
      if code == NoError { return Ths; }
      code := CompareCommand(Text(AccRead));
      if code == NoError { return AccRead; }
      code := CompareHeader(Text(AccSet));
      if code == NoError { return AccSet; }
      code := CompareCommand(Text(NvmRead));
      if code == NoError { return NvmRead; }
      code := CompareHeader(Text(NvmSet));
      if code == NoError { return NvmSet; }
      c := DecodeRxBufferTail();
    }

    /** The rest of the chain of AT_DecodeRxBuffer, reached after a header
        comparison has failed. */
    method DecodeRxBufferTail() returns (c: Command)
      requires Valid() && startIdx == 0
      modifies this`startIdx
      ensures Valid()
      ensures c == DispatchTail(rxBuf[..], rxIdx)
      ensures IsHeader(c) ==> startIdx == |Text(c)|
      ensures !IsHeader(c) ==> startIdx == 0
    {
      var code;
      code := CompareCommand(Text(IdRead));
      if code == NoError { return IdRead; }
      code := CompareHeader(Text(IdSet));
      if code == NoError { return IdSet; }
      code := CompareCommand(Text(KeyRead));
      if code == NoError { return KeyRead; }
      code := CompareHeader(Text(KeySet));
      if code == NoError { return KeySet; }
      code := CompareCommand(Text(OutOfBand));
      if code == NoError { return OutOfBand; }
      code := CompareHeader(Text(SendBit));
      if code == NoError { return SendBit; }
      code := CompareCommand(Text(SendEmptyFrame));
      if code == NoError { return SendEmptyFrame; }
      code := CompareHeader(Text(SendFrame));
      if code == NoError { return SendFrame; }
      code := CompareHeader(Text(ContinuousWave));
      if code == NoError { return ContinuousWave; }
      code := CompareHeader(Text(TestMode));
      if code == NoError { return TestMode; }
      return Unknown;
    }

    /** The parameters of AT$SB, read with the correction of
        SendBitCorrected. */
    method SendBitArguments() returns (r: BitRequest)
      requires Valid() && rxIdx >= 2
      modifies this`startIdx, this`endIdx, this`separatorIdx
      ensures Valid()
      ensures r == SendBitCorrected(rxBuf[..], rxIdx, old(Position()))
    {
      var code, bit := GetParameter(Boolean, false, 0);
      if code == NoError {
        var code2, downlink := GetParameter(Boolean, true, 0);
        r := if code2 == NoError then Send(bit, downlink) else Refused(code2);
      } else if code == NoSepFound {
        code, bit := GetParameter(Boolean, true, 0);
        r := if code == NoError then Send(bit, 0) else Refused(code);
      } else {
        r := Refused(code);
      }
    }

    /** AT_Task: when a line end has arrived, decode the line and reset
        the parser; otherwise nothing happens. */
    method Task() returns (decoded: Option<Command>)
      requires Valid()
      modifies this, rxBuf
      ensures Valid()
      ensures old(lineEndFlag) ==>
        decoded == Some(Dispatch(old(rxBuf[..]), old(rxIdx))) && State() == Empty && Position() == Cursor(0, 0, 0)
      ensures !old(lineEndFlag) ==>
        decoded == None && State() == old(State()) && Position() == old(Position())
    {
      decoded := None;
      if lineEndFlag {
        var c := DecodeRxBuffer();
        decoded := Some(c);
        Reset();
      }
    }
  }
}
