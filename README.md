# TKFX tracker firmware: verified model of its byte-level core

This project models, in Dafny, the parts of the TKFX Sigfox tracker
firmware that turn bytes into meaning and back, and proves what they do.

- **The NEO-M8N GPS driver** (`src/components/neom8n.c`) is modelled in
  `nmea.dfy`, `gga.dfy`, `ubx.dfy` and `neom8n.dfy`. It covers:
  - the NMEA 0183 sentence checksums;
  - the GGA sentence parser, with its field checks and its integer
    decoding of latitude, longitude and altitude;
  - the position range check;
  - the UBX-CFG-MSG frames and their 8-bit Fletcher checksum;
  - the two DMA receive buffers used in turn;
  - the wake-up loop of `NEOM8N_GetPosition`. It is modelled over a
    trace of wake-up events, each giving:
    - whether the RTC flag is set;
    - whether a line feed arrived;
    - the bytes of the buffer the DMA gave up;
    - the supercap voltage the ADC reads.
- **The AT command-line parser** (`src/applicative/at.c`) is modelled in
  `at.dfy` and `atparser.dfy`. It covers:
  - the 64-byte receive buffer filled by the USART interrupt;
  - exact-command and header matching;
  - the separator search;
  - typed parameter and byte-array decoding, with the numeric error codes;
  - which branch of `AT_DecodeRxBuffer` a line selects.
- **The USART2 transmit side** (`src/peripherals/usart.c`) is modelled in
  `usart.dfy`. Values are sent as binary, hexadecimal or decimal text
  without leading zeros, or as one raw byte. Strings are NUL-terminated.
  The transmit register is modelled as the sequence of bytes sent so far.
- **The Sigfox monitoring frame** (`src/applicative/monitoring.c`) is
  modelled in `monitoring.dfy`.
- **The SHT3x sensor driver** (`src/components/sht3x.c`) is modelled in
  `sht3x.dfy`. It covers the unit conversions and the result cache that
  the getters read and then reset.

Code that updates state in place is modelled with methods on classes and
arrays:
- the AT context and its receive buffer;
- the NEO-M8N context and its two buffers;
- the UBX frame buffer;
- the monitoring output array;
- the SHT3x cache;
- the USART transmit sink.

Each such method is proved against a specification function, and the
lemmas beside that function state what the firmware promises. Examples:
- a sentence built as a receiver builds it passes the checksum comparison;
- the decoded value of a parameter's text is that value;
- the monitoring frame gives back the measurements;
- an acquisition session delivers only positions that are within range
  and come from an accepted GGA line.

`USART2_HexaToAscii` and `USART2_Pow10` (`src/peripherals/usart.c:114-133`)
are the same code as `AT_HexaToAscii` and `AT_Pow10`. The USART model
uses the AT module's definitions of them.

A few behaviours of the code are worth stating plainly, because the
model keeps them:
- `NEOM8N_ParseNmeaGgaMessage` accepts only a latitude field of exactly
  10 characters and a longitude field of exactly 11.
- `NEOM8N_GetPosition` assigns only `NEOM8N_TIMEOUT` and
  `NEOM8N_SUCCESS`, so a break on a low supercap returns the timeout code.
- The supercap is sampled only after a wake-up that reported a line feed.
- The digits of the latitude, longitude and altitude are never validated,
  and a character that is not a hexadecimal digit counts as 0.

## Model

| member | source | states |
|---|---|---|
| Nmea.AsciiToHexa | src/components/neom8n.c:77-88 | The value is below 16 and is 0 for any character other than a decimal digit or an upper-case hexadecimal letter. |
| Nmea.HexDigitRoundTrip | src/components/neom8n.c:77-88 | The upper-case hexadecimal digit of every nibble converts back to that nibble. |
| Nmea.Pow10IsPower | src/components/neom8n.c:94-101 | The table gives 10^n for n below 9 and 0 from 9 on, where the source reads one entry past its table. |
| Nmea.ScanFor | src/components/neom8n.c:131-133 | The index scan stops at the first occurrence of the character at or after its start, or at the buffer size when there is none. |
| Nmea.GetNmeaChecksum | src/components/neom8n.c:126-138 | The result is the value of the two hexadecimal characters after the first `*`, or 0 when the 128 bytes hold no `*`. |
| Nmea.ComputeNmeaChecksum | src/components/neom8n.c:144-164 | The result is the exclusive OR of the bytes strictly between the first `$` and the first `*` after it, or 0 when no `*` follows. |
| Nmea.ComputedChecksumOfSentence | src/components/neom8n.c:144-164 | For `$`, a payload without `*`, then `*`, the computed checksum is the exclusive OR of the payload. |
| Nmea.ComputedChecksumAt | src/components/neom8n.c:144-164 | For a buffer starting with `$` whose first `*` is at index k, the computed checksum is the exclusive OR of bytes 1 to k - 1. |
| Nmea.ReceivedChecksumOfSentence | src/components/neom8n.c:126-138 | For `$`, a payload without `*`, then `*`, the received checksum is the value of the two characters that follow the `*`. |
| Nmea.SentenceChecksumRoundTrip | src/components/neom8n.c:170-176 | A sentence whose payload holds no `$` or `*`, closed by `*` and the two hexadecimal digits of the payload's checksum, gets that checksum from both routines, so it passes the comparison. |
| Ubx.FletcherClosedForm | src/components/neom8n.c:108-120 | CK_A is the byte sum modulo 256. CK_B is the sum in which the i-th of n bytes counts n - i times, modulo 256. |
| Ubx.ComputeUbxChecksum | src/components/neom8n.c:108-120 | The two bytes after class, id, length and payload receive CK_A and CK_B of those bytes, and no other byte changes. |
| Ubx.CfgMsgFrameValid | src/components/neom8n.c:363-390 | Every CFG-MSG frame is a well-formed UBX frame. Bytes 0-6 are B5 62 06 01 08 00 F0, byte 7 is the message id, bytes 8-13 are the rate and the last two bytes are its checksum. |
| Ubx.SelectionFrameAt | src/components/neom8n.c:371-389 | The selection is 16 bytes per message. Frame i is the CFG-MSG frame of the i-th message id, with the rate taken from bit i of the mask. |
| Ubx.GgaMaskSelectsGgaOnly | src/components/neom8n.c:363-365 | The GGA mask enables exactly the message with id 0x00 (GGA) and disables the other seventeen. |
| Ubx.CompleteCfgMsgFrame | src/components/neom8n.c:372-383 | One loop pass leaves the frame buffer holding exactly the CFG-MSG frame of the id and rate. |
| Ubx.SelectNmeaMessages | src/components/neom8n.c:363-390 | The bytes sent are the 18 CFG-MSG frames, in table order, with rates from the mask. |
| Gga.PositionIsValid | src/components/neom8n.c:345-356 | A position passes the range check exactly when its minutes are below 60, its fractional minutes below 10^5, and it lies strictly below 90 degrees of latitude and 180 degrees of longitude. |
| Gga.JoinFields | src/components/neom8n.c:185-187 | Joining the fields with commas gives the line back. |
| Gga.FieldsHaveNoComma | src/components/neom8n.c:185-187 | No field holds a comma, so the fields are the split of the line at its commas. |
| Gga.ClosedGrows | src/components/neom8n.c:185-333 | Reading further never changes a field that a comma has already closed. |
| Gga.DigitSumIsDecimal | src/components/neom8n.c:284-288 | For at most nine decimal digits, the Pow10-weighted sum of the source is the ordinary decimal value. |
| Gga.DigitSumBound | src/components/neom8n.c:284-288 | Whatever the characters, the weighted sum stays below 2 * 10^9, so the 32-bit accumulators never wrap. |
| Gga.AltitudeFitsUnsigned | src/components/neom8n.c:273-303 | The decoded altitude fits an unsigned 32-bit integer. |
| Gga.AltitudeIsRoundedDecimal | src/components/neom8n.c:273-303 | With at most nine integer digits, the altitude is the decimal value before the first `.`, plus 1 exactly when a fractional digit follows and it is `5` or above. |
| Gga.AcceptedFieldShapes | src/components/neom8n.c:189-318 | An accepted line has an address field of 6 characters with `GGA` three places after the `$`, a 10-character latitude, N or S, an 11-character longitude, E or W, an altitude that is non-empty and does not start with `.`, and the unit `M`. |
| Gga.SumDigits | src/components/neom8n.c:286-288 | The digit loop computes the Pow10-weighted sum of the characters. |
| Gga.DecodeLatitudeField | src/components/neom8n.c:200-212 | Degrees come from characters 0-1, minutes from 2-3 and scaled fractional minutes from the five characters after the dot position. |
| Gga.DecodeLongitudeField | src/components/neom8n.c:235-250 | Degrees come from characters 0-2, minutes from 3-4 and scaled fractional minutes from 6-10. |
| Gga.ParseAltitudeField | src/components/neom8n.c:273-303 | An error is reported exactly when the field is empty or starts with `.`. Otherwise the altitude is the rounded integer part. |
| Gga.ApplyField | src/components/neom8n.c:186-323 | At the k-th comma, the error flag is the negation of the k-th field check, and the candidate position gets that field's update. |
| Gga.ReplayDecoded | src/components/neom8n.c:200-303 | Whatever the starting candidate, replaying fields that pass their checks leaves every closed field decoded in the candidate. |
| Gga.FailedCheckRejects | src/components/neom8n.c:325-330 | A comma that closes a failing field makes the whole line rejected, whatever follows. |
| Gga.ScanComplete | src/components/neom8n.c:185-333 | When the scan reaches the line end with every check passed, the line is accepted exactly when it has at least eleven closed fields, and then the candidate is the line's position. |
| Gga.ScanGgaFields | src/components/neom8n.c:178-333 | The error flag is set exactly when some field check fails. Success is set exactly when all checks pass and the line has at least eleven fields, the last of them the altitude unit. On success the candidate is the line's position. |
| Neom8nDriver.AcceptedLineKept | src/components/neom8n.c:170-339 | An accepted buffer is never erased. Its line has at least eleven fields, with a 10-character latitude and an 11-character longitude. |
| Neom8nDriver.NoStarPassesChecksum | src/components/neom8n.c:126-164 | A buffer without `*` has both checksums 0, so it passes the checksum comparison. |
| Neom8nDriver.Erase | src/components/neom8n.c:326-338 | The erase loop leaves all 128 bytes of the buffer at 0. |
| Neom8nDriver.Neom8n.Init | src/components/neom8n.c:398-412 | Both buffers are zeroed and the line-feed, parse and validity flags and the supercap voltage are cleared. |
| Neom8nDriver.Neom8n.SwitchDmaBuffer | src/components/neom8n.c:530-546 | The buffer selection flips and the line-feed flag takes the interrupt's value. |
| Neom8nDriver.Neom8n.ParseNmeaGgaMessage | src/components/neom8n.c:170-339 | Parse-success is raised by an accepted line and otherwise keeps its value. The buffer is erased exactly when the checksums differ or a field check fails. An accepted line yields its position, and a checksum mismatch leaves the candidate untouched. |
| Neom8nDriver.Neom8n.Receive | src/components/neom8n.c:530-546 | After the DMA fills its buffer and the interrupt switches buffers, the buffer the parser reads holds exactly what the DMA wrote. |
| Neom8nDriver.Neom8n.HandleLine | src/components/neom8n.c:464-505 | After a line feed, the wake-up sets data-valid and SUCCESS, and copies the line's position, exactly when the parse accepts the line and its position is within range. It clears the line-feed flag and stops exactly when the supercap reads below the threshold. |
| Neom8nDriver.Neom8n.WakeUp | src/components/neom8n.c:455-507 | One pass of the loop is the session's step: either a position is delivered, or the session ends on a low supercap, or it continues. |
| Neom8nDriver.Neom8n.Acquire | src/components/neom8n.c:455-507 | The loop ends as the session does. The fix counter is the wake-up count in unsigned 32-bit arithmetic. The code is SUCCESS exactly when a position was delivered, and otherwise the caller's position is unchanged. |
| Neom8nDriver.Neom8n.GetPosition | src/components/neom8n.c:431-524 | Returns SUCCESS exactly when the session delivers a position, and then that position; otherwise TIMEOUT and the caller's position. The fix duration is the wake-up count, replaced by the timeout when the RTC flag is set or the count exceeds it. The bytes sent are the CFG-MSG frames that enable GGA and disable the other messages. |
| Neom8nDriver.ClampedFix | src/components/neom8n.c:518-520 | The returned fix duration never exceeds the timeout, and it is the wake-up count when neither clamp applies. |
| Neom8nDriver.SessionDeliversValidPosition | src/components/neom8n.c:464-493 | A delivered position is within range and is the position of an accepted buffer handed over with a line feed during the session. |
| Neom8nDriver.SessionEndsOnTimerOrLine | src/components/neom8n.c:455-505 | A session ends on the RTC flag or right after a line-feed wake-up. A session that ends without a position and without the RTC flag ended on a low supercap. No earlier wake-up delivered or read a low supercap. |
| AtCommands.AsciiToHexa | src/applicative/at.c:135-144 | The value is below 16 and is 0 for any character that is not a decimal digit or an upper-case hexadecimal letter. |
| AtCommands.DecodeParameter | src/applicative/at.c:301-385 | A value comes back exactly when the text is well formed for its type: one character `0` or `1`; 2, 4, 6 or 8 hexadecimal characters; 1 to 9 decimal digits. Any error code is one of those the type's case returns. |
| AtCommands.HexaRoundTrip | src/applicative/at.c:135-164 | For n up to 15, the character of n is hexadecimal and converts back to n. Above 15 the character is 0, and lower-case letters convert to 0. |
| AtCommands.Pow10IsPower | src/applicative/at.c:178-185 | The table gives 10^n for n up to 9 and 0 above. |
| AtCommands.HexaPrefix | src/applicative/at.c:333-345 | The scan of hexadecimal characters covers the longest all-hexadecimal prefix. It covers the whole parameter exactly when every character is hexadecimal. |
| AtCommands.DecodedValueBounds | src/applicative/at.c:301-381 | A decoded boolean is 0 or 1, a hexadecimal value is below 2^32 and a decimal value is below 10^9. |
| AtCommands.ByteTextRoundTrip | src/applicative/at.c:333-345 | Reading the hexadecimal text of bytes, pair by pair, gives the bytes back. |
| AtCommands.DecimalTextValue | src/applicative/at.c:358-380 | The decimal text of a value below 10^9 has at most 9 digits, and the Pow10-weighted sum of its digits is the value. |
| AtCommands.ParameterRoundTrip | src/applicative/at.c:301-381 | The text of a bit, of 1 to 4 bytes in hexadecimal, or of a decimal value below 10^9 decodes to that value. |
| AtParser.FillStep | src/applicative/at.c:1138-1164 | A kept byte is stored at the index, and the index moves on and wraps from 64 to 0. A line end is kept only in a non-empty buffer after a byte that is not a line end, and a dropped byte changes nothing. The line-end flag is raised exactly by a kept line end. |
| AtParser.LineEndsOnEmpty | src/applicative/at.c:1141-1151 | Line ends that arrive while the buffer is empty are dropped. |
| AtParser.FeedText | src/applicative/at.c:1153-1163 | Characters other than line ends are stored one after the other. |
| AtParser.LineEndsAfterLineEnd | src/applicative/at.c:1141-1151 | Once a line end is stored, further line ends are dropped. |
| AtParser.LineEndsAfterText | src/applicative/at.c:1138-1164 | After a line that is not empty, the first line end is stored and raises the decode flag, and the ones after it are dropped. |
| AtParser.FeedLine | src/applicative/at.c:1138-1164 | After stray line ends, a line and one or more line ends, the buffer holds the line and its first line end. The index is just past that line end and the decode flag is set. |
| AtParser.FullLineWrapsIndex | src/applicative/at.c:1138-1164 | A line of 63 characters and a line end fill the buffer: the index wraps to 0 with the decode flag set, and the dispatcher then answers the short-command error. |
| AtParser.TypedLineMatches | src/applicative/at.c:192-243 | On a typed line, a command matches exactly when it is the line. A header matches exactly when it starts the line. |
| AtParser.NextSeparator | src/applicative/at.c:249-261 | The separator found is the first `,` strictly after the current one and before the index, and none is found only when there is no such `,`. |
| AtParser.Locate | src/applicative/at.c:283-295 | The last parameter ends just before the line end. Any other parameter ends just before the first separator after the current one, and a missing separator is reported exactly when there is none. |
| AtParser.ParameterStep | src/applicative/at.c:269-391 | A value is stored exactly when the code is NoError. NoSepFound is returned exactly when a parameter that is not the last has no separator after it. Otherwise the parameter ends before the line end or before the first following separator, and NoParamFound means it is empty. A value stored is the decoding of the parameter's text, and then the start moves past the separator when one follows. |
| AtParser.ParameterDecoded | src/applicative/at.c:301-390 | A value is stored exactly when the located parameter decodes without error, and it is the decoded value. Any other code is the decoding's error. The end and separator stay as located, and on success the start moves past a separator. |
| AtParser.ByteArrayStep | src/applicative/at.c:399-461 | NoSepFound and NoParamFound are returned as for a parameter, and the array ends before the line end or the first following separator. On success the characters are all hexadecimal, at most max_length bytes are extracted and they cover the whole array, and the start moves past the separator when one follows. Any bytes extracted come from characters before the line end. |
| AtParser.ByteArrayDecoded | src/applicative/at.c:424-460 | On success the characters are all hexadecimal, the byte count is half their number and at most the maximum length, and the start moves past a separator. The count never exceeds half the characters, and the parameter's end and separator stay as located. |
| AtParser.LastParameterRoundTrip | src/applicative/at.c:269-391 | A header followed by the text of a value, read as the last parameter, gives NoError and the value. The cursor then spans the text. |
| AtParser.LastByteArrayRoundTrip | src/applicative/at.c:399-461 | A header followed by the hexadecimal text of at most max_length bytes, read as the last parameter, gives NoError, that count and exactly those bytes. |
| AtParser.ParameterBeforeSeparatorRoundTrip | src/applicative/at.c:269-391 | A header, the text of a value and a separator, read as a parameter that is not the last, give NoError and the value. The parameter ends before the separator and the start moves just past it. |
| AtParser.ByteArrayBeforeSeparatorRoundTrip | src/applicative/at.c:399-461 | A header, the hexadecimal text of at most max_length bytes and a separator give NoError, that count and exactly those bytes. The start moves just past the separator. |
| AtParser.ReadHexBytes | src/applicative/at.c:333-345 | The scan succeeds exactly when every character is hexadecimal. The count is the number of complete pairs before the first other character, and byte k of the output is 16 * hex(d2k) + hex(d2k+1). The rest of the output array is unchanged. |
| AtParser.BigEndianValue | src/applicative/at.c:347-350 | The value is the big-endian value of the bytes, most significant first. |
| AtParser.ReadDecimal | src/applicative/at.c:365-380 | The scan succeeds exactly when every character is a decimal digit, and then the value is the sum of d_i * 10^(n-1-i). |
| AtParser.StoreDigits | src/applicative/at.c:366-374 | The scan succeeds exactly when every character is a decimal digit. Digit k of the store is then the value of character k. |
| AtParser.DecimalValue | src/applicative/at.c:376-378 | The value is the sum of d_i * 10^(n-1-i) over the stored digits, most significant first. |
| AtParser.ReadParameter | src/applicative/at.c:301-385 | The type switch returns the decoded value or the error code. The errors are checked in the source's order: bit overflow before invalid bit, odd size before hexadecimal overflow before invalid character, decimal overflow before invalid character. |
| AtParser.ReadByteArray | src/applicative/at.c:426-451 | Too many bytes give the invalid-length code. Otherwise the characters are scanned into the output as ByteArrayDecoded describes. |
| AtParser.DecodeByteArray | src/applicative/at.c:424-460 | The outcome is the byte-array decoding of the located parameter. Each byte written is its character pair's value, and the rest of the output is unchanged. |
| AtParser.Dispatch | src/applicative/at.c:590-1084 | The line is too short exactly when it has fewer than two bytes. Any other branch taken is selected by its command or header, and "unknown" comes back only when no command or header of the chain selects the line. |
| AtParser.DispatchTail | src/applicative/at.c:753-1083 | This part of the chain takes one of its own branches only when that branch's command or header selects the line, and "unknown" only when none of them does. |
| AtParser.DispatchTypedLine | src/applicative/at.c:590-1084 | A typed command, or a typed header followed by any parameters, reaches its own branch despite the order of the chain, for example AT$SF against AT$SF=, AT$ACC? against AT$ACC= and AT$NVMR against AT$NVM=. |
| AtParser.BooleanValue | src/applicative/at.c:302-320 | A boolean parameter read successfully is 0 or 1. |
| AtParser.SendBitAsWritten | src/applicative/at.c:852-906 | The AT$SB branch as written: whenever the first read fails, the bit is read again as the last parameter. A request is only ever made with a bit and a downlink flag that are 0 or 1. |
| AtParser.SendBitCorrected | src/applicative/at.c:852-906 | The AT$SB branch with the one-parameter form tried only when there is no separator. A request is only ever made with a bit and a downlink flag that are 0 or 1. |
| AtParser.SendBitAsWrittenIgnoresFirstError | src/applicative/at.c:852-906 | On `AT$SB=2,1` the first parameter is an invalid bit, yet the branch as written requests bit 1 with no downlink. |
| AtParser.SendBitCorrectedReportsFirstError | src/applicative/at.c:852-906 | With the correction, on a line holding a separator, a request is made exactly when both parameters are read. The error reported is that of the first parameter that fails. |
| AtParser.SendBitSingleParameter | src/applicative/at.c:884-904 | On a line without separator, both forms read the bit as the last parameter and ask for no downlink. |
| AtParser.SendBitRoundTrip | src/applicative/at.c:852-872 | A well-formed `AT$SB=<bit>,<downlink_request>` line asks for that bit and that downlink request, in both forms of the branch. |
| AtParser.AtContext.constructor | src/applicative/at.c:1111-1116 | AT_Init leaves the parser reset. |
| AtParser.AtContext.Reset | src/applicative/at.c:1091-1104 | The buffer is zeroed, and the index, the line-end flag and the cursor are cleared. |
| AtParser.AtContext.FillRxBuffer | src/applicative/at.c:1138-1164 | The new context is FillStep of the old one. |
| AtParser.AtContext.CompareCommand | src/applicative/at.c:192-212 | NoError exactly when the command has the length index - 1 and equals the first bytes received; UnknownCommand otherwise. |
| AtParser.AtContext.CompareHeader | src/applicative/at.c:219-243 | NoError exactly when the header is a prefix of the received bytes, and start_idx is then the header length. Otherwise UnknownCommand, and start_idx is 0. |
| AtParser.AtContext.SearchSeparator | src/applicative/at.c:249-261 | Reports whether a next separator exists and moves separator_idx to it. Otherwise separator_idx is left as it was. |
| AtParser.AtContext.LocateParameter | src/applicative/at.c:283-300 | Reports a missing separator without moving the cursor. Otherwise it sets end_idx and separator_idx as located, and reports an empty parameter when end_idx < start_idx. |
| AtParser.AtContext.GetParameter | src/applicative/at.c:269-391 | The return code, the value stored (only on success) and the new cursor are those of ParameterStep. The start index moves past the separator except on the early returns. |
| AtParser.AtContext.DecodeLocatedParameter | src/applicative/at.c:301-390 | The code, value and cursor are those of the decoding of the located parameter. |
| AtParser.AtContext.GetByteArray | src/applicative/at.c:399-461 | The code, the count extracted and the new cursor are those of ByteArrayStep. Byte k written is the value of the k-th character pair, and bytes past the count are unchanged. |
| AtParser.AtContext.DecodeLocatedByteArray | src/applicative/at.c:424-460 | The code, count, cursor and bytes are those of the byte-array decoding of the located parameter. |
| AtParser.AtContext.DecodeRxBuffer | src/applicative/at.c:579-1085 | The branch taken is Dispatch of the line: selected by its text, and "unknown" only when nothing in the chain selects the line. The start index is left after the matching header, or at 0 once a header comparison has failed. |
| AtParser.AtContext.DecodeRxBufferTail | src/applicative/at.c:753-1083 | The branch taken is DispatchTail of the line: one of its own branches exactly as its text selects the line, and "unknown" only when none does. The start index follows the same rule. |
| AtParser.AtContext.SendBitArguments | src/applicative/at.c:852-906 | The parameter reads of AT$SB give the corrected request. |
| AtParser.AtContext.Task | src/applicative/at.c:1122-1127 | With the line-end flag set, the line is decoded and the parser reset. Without it, nothing changes. |
| Usart.BinaryTextProperties | src/peripherals/usart.c:193-214 | The binary text of a value below 2^n has at most n digits, all `0` or `1`. It starts with `0` only for 0 and reads back as the value. |
| Usart.DecimalTextProperties | src/peripherals/usart.c:236-252 | The decimal text of a value below 10^n has at most n digits. It starts with `0` only for 0 and reads back in base 10 as the value. |
| Usart.HexTextProperties | src/peripherals/usart.c:215-235 | The hexadecimal text of a 32-bit value has an even number of digits, 2 to 8. It starts with `00` only for 0, and the AT parser reads it back as the value. |
| Usart.BytesProperties | src/peripherals/usart.c:215-235 | The bytes from the most significant non-zero one have at most n bytes below 256^n, a leading zero only for 0, and big-endian value v. |
| Usart.HexTextIsByteText | src/peripherals/usart.c:226-232 | The hexadecimal text is two upper-case digits per byte, high nibble first. |
| Usart.CStringRoundTrip | src/peripherals/usart.c:272-284 | A string without NUL, terminated and followed by anything, is exactly what is sent of it. |
| Usart.Usart2.FillTxBuffer | src/peripherals/usart.c:88-108 | One byte is appended to what has been sent. |
| Usart.Usart2.SendValue | src/peripherals/usart.c:182-259 | Appends the optional prefix `0b` or `0x` and the binary or hexadecimal text, or the decimal text, or the raw byte when the value is at most 0xFF and nothing otherwise. |
| Usart.Usart2.SendPrefix | src/peripherals/usart.c:194-198 | Appends `0` and the format letter exactly when the caller asks for a prefix. |
| Usart.Usart2.SendBinary | src/peripherals/usart.c:196-213 | The bit loop, which skips leading zeros and always sends bit 0, appends exactly the binary text of the value. |
| Usart.Usart2.SendHexadecimal | src/peripherals/usart.c:218-234 | The byte loop, which skips leading zero bytes and always sends byte 0, appends exactly the hexadecimal text of the value. |
| Usart.Usart2.SendDecimal | src/peripherals/usart.c:236-252 | The decade loop, which uses previous_decade and skips leading zeros, appends exactly the decimal text of the value. |
| Usart.Usart2.SendString | src/peripherals/usart.c:272-284 | Appends the bytes of the string up to, not including, the first NUL. |
| Monitoring.SignMagnitude | src/applicative/monitoring.c:19-37 | Bit 7 of a temperature byte is set exactly when the temperature is negative. |
| Monitoring.UnpackSigfoxData | src/applicative/monitoring.c:17-49 | Reading the frame gives the temperatures (-128 reads as 0), the humidity and the status byte. It also gives the low 16 bits of the solar cell voltage and the low 12 bits of the supercap and MCU voltages. |
| Monitoring.SigfoxDataRoundTrip | src/applicative/monitoring.c:17-49 | Measurements within the frame's ranges are read back exactly. |
| Monitoring.TemperatureByte | src/applicative/monitoring.c:19-27 | Clearing the byte and OR-ing the sign bit and the masked absolute value gives the sign-magnitude byte. |
| Monitoring.BuildSigfoxData | src/applicative/monitoring.c:17-49 | Bytes 0-8 of the array receive the frame, and no other byte changes. |
| Sht3x.ToSignedChar | src/components/sht3x.c:59 | The `signed char` conversion is congruent modulo 256 and keeps every value in -128..127. |
| Sht3x.TemperatureRange | src/components/sht3x.c:58-59 | Up to the raw reading 64786, the last one converted to 127 degrees, the temperature is 175 * raw / 65535 - 45, at least -45 and growing with the reading. |
| Sht3x.TemperatureWraps | src/components/sht3x.c:58-59 | The first reading above 127 degrees, 64787, is stored as -128, and the largest reading, 130 degrees, as -126. |
| Sht3x.HumidityRange | src/components/sht3x.c:61-62 | Humidity lies in 0..100 and grows with the reading: 0 at raw 0 and 100 at full scale. |
| Sht3x.Sht3xContext.constructor | src/components/sht3x.c:37-41 | The cache starts at the sentinels 0x7F and 0xFF. |
| Sht3x.Sht3xContext.PerformMeasurements | src/components/sht3x.c:47-63 | A failed write or read leaves the cache untouched. Otherwise the cache holds the converted temperature from bytes 0-1 and the humidity from bytes 3-4, and the CRC bytes are ignored. |
| Sht3x.Sht3xContext.GetTemperature | src/components/sht3x.c:69-74 | Returns the cached temperature and resets it to 0x7F; the humidity is untouched. |
| Sht3x.Sht3xContext.GetHumidity | src/components/sht3x.c:80-84 | Returns the cached humidity and resets it to 0xFF; the temperature is untouched. |

## Left out

- Hardware I/O is not modelled:
  - register writes, clock switching, sleep, watchdog reloads, GPIO and the backup pin (`NEOM8N_SetVbckp`), and interrupt enabling;
  - the USART transmit busy-wait, and the ring buffer behind the disabled `USE_TXE_INTERRUPT` option.
- Hardware outputs become inputs:
  - the RTC flag, the DMA transfers and the ADC reading in `NEOM8N_GetPosition` come from the wake-up trace;
  - the I2C transfers and the delay in `SHT3X_PerformMeasurements` become its arguments.
- The LPUART and USART interrupts are modelled as atomic steps between passes of the loops that read their results, not as concurrent code. The steps are `Neom8n.Receive` and `AtContext.FillRxBuffer`.
- The actions of the AT commands are not modelled, only which branch a line selects. These actions are:
  - the replies and print helpers;
  - the Sigfox library calls;
  - NVM, ADC, accelerometer and radio test modes.
  The accelerometer flag of `AT_Init` and `AT_Task` is left out too.
- The AT model assumes `ATM` is defined (`src/applicative/at.c:29`; `inc/mode.h` selects `SSM` instead) and that every `AT_COMMANDS_*` group is compiled in. With a group left out, its entries drop out of the chain of `AT_DecodeRxBuffer` (`src/applicative/at.c:601-1079`).
- `SHT3X_PerformMeasurements` ignores the sensor's CRC bytes, and so does the model.
- Bitwise OR of bits that are still clear is written as addition, and masks and shifts as division and remainder by powers of two.
- Out-of-bounds reads of the source are guarded, and guarded reads of bytes past the buffer give 0 (`Common.At`). Examples:
  - the NMEA scans test the byte before the index;
  - the checksum characters after a `*` at index 126 or 127;
  - `NEOM8N_Pow10(9)`, which reads past its table, gives 0.
- `AtParser.FillStep` tests that the index is positive before reading the previous byte. `AT_FillRxBuffer` reads `at_rx_buf[idx-1]` first.
- `AtParser.AtContext.GetParameter` requires an index of at least 2 for the last parameter, because the source's `at_rx_buf_idx - 2` would wrap below that. The requirement holds wherever the source reads a parameter, for two reasons:
  - `AT_DecodeRxBuffer` answers an index below `AT_COMMAND_MIN_SIZE` with the unknown-command error before reading anything (src/applicative/at.c:591);
  - every branch that reads parameters has first matched a header of at least 6 bytes, which must lie below the index.
- The decode flag can be raised with index 0. A 63-character line stores its line end in the last cell and the index wraps to 0 (`AtParser.FullLineWrapsIndex`). Such a line is answered by the short-command guard.
- `AtParser.AtContext.GetByteArray` has the same requirement, for the same reasons.
- `Neom8nDriver.Neom8n.ParseNmeaGgaMessage` does not state the candidate position left by a line rejected on a field check: the fields decoded before the failing one. The acquisition loop never uses that candidate.
- `Gga.ScanGgaFields` has the same gap.
- `Neom8nDriver.Neom8n.GetPosition` starts the local candidate position from the caller's position, where the source leaves it uninitialised. A delivered position never depends on it.
- The `Position` record and `NMEA_LF` are not part of this model. The record's fields are unbounded naturals and flags, and `NMEA_LF` is the line feed 0x0A.
- `Monitoring.MonitoringData` holds the voltages as unbounded naturals. The frame keeps their low 16 or 12 bits, as the masks do.

## Findings

| source | as written | input that shows it | evidently intended | confidence | as-written member | corrected member |
|---|---|---|---|---|---|---|
| src/applicative/at.c:852-906 | Any failure of the first parameter of AT$SB, not only a missing separator, falls back to reading the bit as the last parameter. The cursor has already moved past the separator. | `AT$SB=2,1`: bit `2` is invalid, yet bit 1 is sent with no downlink request | Fall back to the one-parameter form only when there is no separator. Otherwise reply with the first parameter's error. | not executed | AtParser.SendBitAsWritten, AtParser.SendBitAsWrittenIgnoresFirstError | AtParser.SendBitCorrected, AtParser.SendBitCorrectedReportsFirstError, AtParser.AtContext.SendBitArguments |
