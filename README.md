# Bus-frame client: framing and field decoding

This project models the core of a Node.js client for a bus-telemetry server.
A bus reports over TCP in binary frames. The socket hands each chunk over as
hex text, and two parts of the program turn that text into reports:

- **The framer** (`distillFrames` in `TCPClient.js`) works on a buffer. It
  prepends the buffer kept from the previous chunk (`lastData`) and looks for
  the marker `2626`. It reads the declared length, then cuts out one whole
  frame. It checks the frame's terminator byte `0b` and its XOR checksum.
  When a check fails, it skips one character and looks for the next marker.
  A frame that passes is delivered. A checksum failure is handed to the
  error handler. Whatever cannot be decided yet stays in `lastData`.
- **The resolver** (`frameHandle` and `distill` in `FrameResolver.js`) takes a
  delivered frame and picks a decoding table by the command id: `41` is the
  real-time report and `79` is the stop report. It then walks the table over
  the frame's content. Each field takes a fixed number of hex characters.
  A formatter turns those characters into a value. The resolver then builds
  the composite fields from their two parts: latitude, longitude, direction,
  mileage and stop distance. Finally it decodes the 32-bit status word with a
  second table of 23 one-bit fields.

Modules:

- `Wrappers`: `Option` and `Result`.
- `HexText`: hex digits, `parseInt(·, 16)`, `toLowerCase`, `slice`, and XOR
  over bytes.
- `TcpFraming`: the framer. `Scan` is the specification function. The class
  `TcpClient`, with its method `DistillFrames`, is the loop proved against it.
- `FramingProperties`: delivered frames are valid, how chunks compose,
  round-trips from encoded frames, and the layout of the buffer.
- `FrameResolver`: the tables, the formatters, `Fields` and `Decode` (the
  specification functions), the methods `DistillFields` and `Distill`, and
  `FrameHandle`.
- `ResolverProperties`: the per-field lemmas, table distinctness, the bit
  and number formatters, and stop codes.
- `ReportProperties`: a whole report of either command decoded at once, the
  status word, the composites, and frames from encoding to report.

JavaScript values are modelled as follows:

- The datatype `Value` stands for them.
- NaN is `Num(None)` or `Real(None)`.
- The decimals the composites build are exact reals.
- `parseInt(v, 16)` reads the longest lowercase hex prefix, and an empty
  prefix is NaN.
- `String.fromCharCode` keeps the low 16 bits of its argument.
- `parseFloat("a.b")` reads the longest decimal number at the front of the
  text, so `"12.NaN"` reads as 12. `Number("a.b")`, which the division by 60 applies,
  gives NaN when either part is NaN.

The frame layout is the one the code reads:

- The command id is byte 2.
- The length is bytes 3-4.
- The content starts at byte 9, and the last two bytes are the checksum and
  the terminator.
- The status table has 23 entries.
- The status word is read from the most significant bit first: the bit
  string of `FrameResolver.js:121` is `toString(2)` padded on the left, so
  its first character is the highest bit.

## Model

| member | source | states |
|---|---|---|
| TcpFraming.IndexOf | TCPClient.js:34 | `indexOf` gives the first position where the marker occurs, and -1 exactly when it occurs nowhere |
| TcpFraming.FrameLen | TCPClient.js:41 | the frame length is the big-endian value of bytes 3-4 plus 5, so at least 5 |
| TcpFraming.Examine | TCPClient.js:46-63 | a buffer holding a whole candidate resyncs one character later or takes the frame; a taken frame is valid, and what remains is a strictly shorter suffix |
| TcpFraming.ScanStep | TCPClient.js:34-63 | one loop pass: a `break` keeps a suffix that may still become a frame; a `continue` or a push leaves a strictly shorter suffix; a pushed frame is valid |
| TcpFraming.Scan | TCPClient.js:30-66 | the kept buffer is lowercase hex, a suffix of the input, and either holds no marker or starts with one whose header or frame is incomplete |
| TcpFraming.ScanFromScan | TCPClient.js:33-64 | the loop with its frames and errors carried in local state gives the same outcome as `Scan`, appended to what was already collected |
| TcpFraming.CheckDigitTest | TCPClient.js:53-57 | comparing the parsed check byte with the running XOR is the same test as `ChecksumHolds` |
| TcpFraming.ChecksumMatches | TCPClient.js:53-57 | the inner `for` loop XORs every byte before the check byte, and the result is true exactly when the checksum holds |
| TcpFraming.TcpClient.constructor | TCPClient.js:20 | a new client keeps an empty buffer and has reported no error |
| TcpFraming.TcpClient.DistillFrames | TCPClient.js:30-67 | one chunk lowercased and appended to `lastData`: the frames returned, the new `lastData` and the errors handed to the handler are those of `Scan` on that buffer; the buffer invariant is kept |
| TcpFraming.ExamineBadTerminator | TCPClient.js:48-51 | a candidate not ending in `0b` makes the loop drop one character and report nothing |
| TcpFraming.ExamineBadChecksum | TCPClient.js:57-60 | a candidate whose checksum fails makes the loop drop one character and report that candidate |
| TcpFraming.ExamineAccepted | TCPClient.js:62-63 | a candidate passing both tests is pushed and the buffer continues after it |
| FramingProperties.ExamineShape | TCPClient.js:46-63 | resyncing drops exactly one character, a reported frame fails only its checksum, and a taken frame plus the rest is the buffer |
| FramingProperties.StepShape | TCPClient.js:34-63 | each pass of the loop cuts at the first marker: a `break` keeps the buffer or its part from that marker on, a resync continues one past it, and a push splits it there |
| FramingProperties.FramesValid | TCPClient.js:46-62 | every delivered frame starts with the marker, has the declared length, ends with `0b` and carries a correct checksum |
| FramingProperties.ErrorsFailChecksum | TCPClient.js:57-60 | every error reported is for a complete candidate whose terminator is right and whose checksum is wrong |
| FramingProperties.NoMarkerKept | TCPClient.js:34-65 | a buffer without a marker is kept whole and yields nothing |
| FramingProperties.Layout | TCPClient.js:30-65 | the buffer is the delivered frames, in order, separated by skipped text, followed by skipped text and the kept rest |
| FramingProperties.ScanAppend | TCPClient.js:31-65 | scanning `a + b` at once equals scanning `a`, then scanning what `a` left followed by `b` |
| FramingProperties.TwoChunks | TCPClient.js:21-66 | two chunks delivered one after the other give the same frames and errors as one chunk holding both |
| FramingProperties.ValidHead | TCPClient.js:34-63 | a valid frame at the front of the buffer is taken whole, whatever follows |
| FramingProperties.ValidFramesDelivered | TCPClient.js:30-66 | back-to-back valid frames are all delivered in order, with no error and nothing kept |
| FramingProperties.RejectedHead | TCPClient.js:53-60 | a complete candidate with the `0b` terminator and a wrong checksum, whatever follows it, is reported once and scanning resumes one character on |
| FramingProperties.ResyncRecovers | TCPClient.js:34-65 | resynchronisation recovers: a candidate that fails only its checksum, followed by a valid frame, gives one checksum report and then that frame, unaltered, with nothing kept; this holds when the candidate holds no marker after its first character |
| FramingProperties.NextFrameStep | TCPClient.js:34-63 | the pass after that report takes the valid frame whole and leaves nothing behind it |
| FramingProperties.FrameAfterRejected | TCPClient.js:34-36 | after the dropped character, the first marker is the valid frame's own: none straddles the two, because the candidate ends in `b` |
| FramingProperties.FalseMarkerWaits | TCPClient.js:34-45 | where recovery stalls: a false marker inside the rejected candidate whose declared length reaches past the buffer makes the loop break, so the valid frame behind it is kept in `lastData` and not delivered by this call |
| FramingProperties.FalseMarkerStep | TCPClient.js:34-45 | the pass after the report cuts at the false marker and waits for the frame its length declares |
| FramingProperties.EncodedFrameValid | TCPClient.js:38-61 | a frame built from a command byte and a body, with marker, length, XOR and terminator, passes every check of the loop |
| FramingProperties.EncodeRoundTrip | TCPClient.js:30-66 | the hex text of an encoded frame is delivered exactly as itself, with no error and nothing kept |
| HexText.Lower | TCPClient.js:31 | `toLowerCase` keeps the length, makes hex text lowercase, and leaves lowercase text as it is |
| HexText.ParseHex | FrameResolver.js:83 | `parseInt(v, 16)` is NaN exactly for text that does not start with a hex digit, and the value of the digits for lowercase hex text |
| HexText.Slice | FrameResolver.js:34-35 | `slice(i, j)` has `min(j, length) - i` characters when that is positive, and none otherwise |
| FrameResolver.FrameHandle | FrameResolver.js:12-20 | `frameHandle` answers, instead of null, exactly when `slice(4, 6)` is `41` or `79` |
| FrameResolver.TableFor | FrameResolver.js:16-17 | `frameContentHandle` has a handler exactly for `41` and `79`, and each handler's table starts with the common fields |
| FrameResolver.Fields | FrameResolver.js:30-44 | the loop can fail only by a duplicate field name |
| FrameResolver.Decode | FrameResolver.js:28-64 | a decoded report holds every field name of its table and otherwise only composite names and `status`; a table with `statusRaw` gets a `status` record; the error for a `statusRaw` that is not text arises only for a table with `statusRaw` |
| FrameResolver.Format | FrameResolver.js:71-131 | each formatter gives its own kind of value: text, number, flag, pair, stop, date; a field without a formatter keeps its raw characters; a bit string has at least 32 characters; a two-way choice gives one of its two texts. The value each field of the source's tables takes is stated by the `*Read` lemmas of `ReportProperties` |
| FrameResolver.DateTextOf | FrameResolver.js:112-118 | the date text is the year prefix followed by the six two-digit groups in order, separated as in `YYYY-MM-DD hh:mm:ss` |
| FrameResolver.StopOf | FrameResolver.js:224-248 | the stop type has English and Chinese names exactly when the low 16 bits of the code are one of `F B f I i`; either both names are present or neither; NaN names none |
| FrameResolver.Degrees | FrameResolver.js:46-49 | a coordinate is a number, NaN exactly when a part is missing, NaN or not a number or pair |
| FrameResolver.Decimal | FrameResolver.js:52-58 | the model's decimal of a first part `a` and a second part `b` is a number, NaN exactly when `a` is missing, NaN or not a number |
| FrameResolver.PadLeft | FrameResolver.js:266-273 | the result is as long as the longer of `len` and `s`, ends with `s`, and every character before `s` is the padding character |
| FrameResolver.Bin | FrameResolver.js:121 | `toString(2)` gives binary digits without a leading zero whose value is the number |
| FrameResolver.FieldsKeys | FrameResolver.js:29-44 | a successful loop holds the fields present before and the names of the table, and nothing else |
| FrameResolver.FieldsStep | FrameResolver.js:34-43 | one loop iteration throws on an existing name, and otherwise stores the formatted next `width` characters under the field's name |
| FrameResolver.Composites | FrameResolver.js:45-59 | the composite blocks add only composite names and leave every other field unchanged |
| FrameResolver.StatusRawKept | FrameResolver.js:45-61 | the composite blocks leave `statusRaw` as the loop stored it |
| FrameResolver.DistillFields | FrameResolver.js:29-44 | the `for .. of` loop over the table, which slices and formats each field and throws on a duplicate, computes `Fields` |
| FrameResolver.Distill | FrameResolver.js:28-64 | `distill` (the loop, the composite blocks, then the recursive decoding of the status bits) computes `Decode` |
| FrameResolver.Content | FrameResolver.js:14 | `slice(18, -4)` is the text between the 9-byte header and the 2-byte trailer, and empty for a shorter frame |
| FrameResolver.Fraction | FrameResolver.js:45-58 | the digits of a number behind a decimal point give a value in [0, 1) |
| ResolverProperties.FieldsFailure | FrameResolver.js:40-41 | the loop throws at the first field whose name is already present, and the error names that field |
| ResolverProperties.FieldsSuccess | FrameResolver.js:30-44 | the loop succeeds exactly when no table name repeats and none was present before |
| ResolverProperties.FieldsKeep | FrameResolver.js:43 | a field stored before the rest of the loop keeps its value |
| ResolverProperties.FieldsRead | FrameResolver.js:34-43 | each field of a successful loop is its formatter applied to the characters at its offset, as many as its width (fewer when the text runs out) |
| ResolverProperties.DistinctSucceeds | FrameResolver.js:39-42 | `distill` throws on a table exactly when two of its fields share a name |
| ResolverProperties.DistinctConcat | FrameResolver.js:211-223 | appending a table whose names are new and distinct keeps the names distinct |
| ResolverProperties.CommonWidths | FrameResolver.js:70-132 | the 20 common fields take 76 hex characters, and `statusRaw` is read from characters 58 to 66 |
| ResolverProperties.CommandWidths | FrameResolver.js:211-261 | the table of command `41` has 22 fields taking 80 characters, that of `79` 25 fields taking 96, and both read `statusRaw` at character 58 |
| ResolverProperties.StatusDistinct | FrameResolver.js:133-203 | the 23 status fields have different names |
| ResolverProperties.CommonDistinct | FrameResolver.js:70-132 | the 20 common content fields have different names |
| ResolverProperties.CommandTablesDistinct | FrameResolver.js:211-262 | the tables of both commands name each field once, so neither handler ever throws a duplicate |
| ResolverProperties.BinLength | FrameResolver.js:121 | the binary text of a number below `2^k` has at most `k` digits |
| ResolverProperties.LeadingZeros | FrameResolver.js:266-273 | leading `'0'` padding does not change the value of a bit string |
| ResolverProperties.PadBits | FrameResolver.js:119-122 | padding the binary text of a number with `'0'` gives a bit string with the same value |
| ResolverProperties.BitAt | FrameResolver.js:119-122 | character `k` of a bit string of length `n` is `'1'` exactly when bit `n - 1 - k` of its value is set |
| ResolverProperties.StopByte | FrameResolver.js:225 | the stop-type field reads its two hex digits as the character code |
| ResolverProperties.StopKinds | FrameResolver.js:227-243 | the five codes name dock, first, end, park and gas stops, with their Chinese names |
| ResolverProperties.DigitsLeading | FrameResolver.js:52-58 | a number's decimal text has `Digits(n)` characters: `10^(d - 1) <= n < 10^d` for `n > 0` |
| ResolverProperties.DecimalParts | FrameResolver.js:52-58 | `parseFloat(a + '.' + b)` lies in [a, a + 1): it is `a` plus the fraction of `b`, or `a` when `b` is NaN |
| ResolverProperties.DegreesRange | FrameResolver.js:45-50 | the coordinate lies between `d + m/60` and `d + (m + 1)/60` for degrees `d`, minutes `m` and any fraction of a minute |
| ReportProperties.BitStringFormat | FrameResolver.js:119-122 | the `statusRaw` formatter gives 32 bits with the parsed value for a number below `2^32`, and `"NaN"` after 29 zeros for NaN |
| ReportProperties.EightDigits | FrameResolver.js:119-121 | eight lowercase hex digits parse to a number below `2^32` |
| ReportProperties.StatusSpan | FrameResolver.js:133-203 | the status table has 23 one-character fields, so it reads 23 characters |
| ReportProperties.StatusPartsAbsent | FrameResolver.js:133-203 | no status field is the first part of a composite, so the status decoding adds no composite |
| ReportProperties.CompositesNone | FrameResolver.js:45-59 | without any first part, the composite blocks change nothing |
| ReportProperties.DecodePlain | FrameResolver.js:28-64 | a table with distinct names, no `statusRaw` and no composite parts decodes to exactly the loop's fields |
| ReportProperties.StatusDecode | FrameResolver.js:133-203 | the status table decodes any text; the result has the status names, and field `k` is the formatter applied to character `k` |
| ReportProperties.StatusTransforms | FrameResolver.js:133-203 | every status field is a test for `'1'` except field 11, `direction`, which chooses between uplink and downlink |
| ReportProperties.FlagsRead | FrameResolver.js:133-203 | a one-character `== '1'` field of a bit string is the bit of the value at the matching weight |
| ReportProperties.StatusBits | FrameResolver.js:133-203 | for 32 bits, status field `k` (other than `direction`) is true exactly when bit `31 - k` of the value is set |
| ReportProperties.StatusDirection | FrameResolver.js:167-169 | the status `direction` is uplink exactly when bit 20 of the value is set |
| ReportProperties.StatusFlags | FrameResolver.js:119-203 | from the eight hex digits of `statusRaw`, status field `k` is bit `31 - k` of their value, and `direction` is uplink exactly when bit 20 is set |
| ReportProperties.CompositesParts | FrameResolver.js:45-58 | each composite is present after the blocks exactly when it was before or its first part is |
| ReportProperties.CompositeStep | FrameResolver.js:45-59 | a block whose first part is present adds exactly its composite name |
| ReportProperties.CompositesKeys | FrameResolver.js:45-59 | with all five first parts present, the composites add exactly the five composite names |
| ReportProperties.LatitudeValue | FrameResolver.js:45-47 | the latitude is the degrees of `latitude1` plus its minutes, with `latitude2` as their fraction, over 60 |
| ReportProperties.LongitudeValue | FrameResolver.js:48-50 | the longitude is built the same way from `longitude1` and `longitude2` |
| ReportProperties.DirectionValue | FrameResolver.js:51-53 | the direction is `parseFloat(direction1 + '.' + direction2)` |
| ReportProperties.MileageValue | FrameResolver.js:54-56 | the mileage is `parseFloat(mileage1 + '.' + mileage2)` |
| ReportProperties.StopDistanceValue | FrameResolver.js:57-59 | the stop distance is `parseFloat(stopDistance1 + '.' + stopDistance2)` |
| ReportProperties.FieldsAt | FrameResolver.js:30-44 | every field of a successful loop is read at the sum of the widths before it |
| ReportProperties.RawRead | FrameResolver.js:119-122 | the `statusRaw` field is the bit-string formatter applied to its eight characters |
| ReportProperties.ReportShape | FrameResolver.js:28-64 | for a report table, the loop succeeds with the table's names, the status bits decode, and the report is the composites plus the status record |
| ReportProperties.ReportDecode | FrameResolver.js:28-64 | a report table decodes any content: the keys are the table's names, the five composites and `status`; each field is its formatter at its offset; `status` is the decoded `statusRaw` bits |
| ReportProperties.ReportComposites | FrameResolver.js:45-59 | in a decoded report, each composite is built from its two parts as read |
| ReportProperties.CommonLayout | FrameResolver.js:70-132 | `statusRaw` is common field 16, 8 characters wide with the bit-string formatter; the first parts of the composites are fields 4, 7, 11, 13 and 18, the coordinates read as pairs and the rest as numbers, and each second part follows its first as a number |
| ReportProperties.CommandNotExtra | FrameResolver.js:211-262 | neither command table names a composite or `status` |
| ReportProperties.CommandReportTables | FrameResolver.js:211-262 | the tables of commands `41` and `79` satisfy every condition `ReportDecode` needs |
| ReportProperties.CommandStatusAt | FrameResolver.js:60-62 | either command decodes its content, and its `status` record is the status table applied to the bit string of content characters 58 to 66 |
| ReportProperties.FrameHandleCommand | FrameResolver.js:12-20 | `frameHandle` answers exactly for command ids `41` and `79`, decodes the content with that command's table, and then always succeeds |
| ReportProperties.HexByteInjective | FrameResolver.js:13 | different command bytes have different hex texts |
| ReportProperties.EncodedFields | FrameResolver.js:13-14 | in an encoded frame, `slice(4, 6)` is the command byte and `slice(18, -4)` is the body after its first four bytes |
| ReportProperties.DeviceReport | FrameResolver.js:12-20 | an encoded frame is delivered whole by the framer, commands `0x41` and `0x79` decode its content with their tables, and any other command gives null |
| ReportProperties.CommandsCommonFirst | FrameResolver.js:211-223 | both command tables begin with the common fields (`commonRegulation.content.concat`) and meet every condition `ReportDecode` needs |
| ReportProperties.CommonReadings | FrameResolver.js:73-96 | the common fields 2, 3, 6 and 9 are `gpsEffective` (equal to `41`), `latitudeDirection` (`4e` gives `north`, else `south`), `longitudeDirection` (`45` gives `east`, else `west`) and `altitude` (hundreds), each with the source's width |
| ReportProperties.GpsEffectiveRead | FrameResolver.js:73-75 | in a report of either command, `gpsEffective` is true exactly when content characters 6 to 8 are `41` |
| ReportProperties.LatitudeDirectionRead | FrameResolver.js:76-78 | in a report of either command, `latitudeDirection` is `north` exactly when content characters 8 to 10 are `4e`, and `south` otherwise |
| ReportProperties.LongitudeDirectionRead | FrameResolver.js:85-87 | in a report of either command, `longitudeDirection` is `east` exactly when content characters 18 to 20 are `45`, and `west` otherwise |
| ReportProperties.AltitudeRead | FrameResolver.js:94-96 | in a report of either command, `altitude` is the byte at content characters 28 to 30 times 100 plus the byte at 30 to 32, and NaN when either byte is NaN |
| ReportProperties.HundredsAt | FrameResolver.js:95 | the altitude formatter on four characters multiplies the byte of the first two by 100 and adds the byte of the last two |
| ReportProperties.HundredsHex | FrameResolver.js:95 | on lowercase hex, the altitude is the number `hi * 100 + lo` of its two bytes, never NaN |
| FrameResolver.Hundreds | FrameResolver.js:95 | `hi * 100 + lo` is NaN exactly when either part is NaN; when the low byte is below 100, both bytes can be read back from the altitude (its hundreds are `hi`, the remainder is `lo`) |
| ReportProperties.StopExtrasAt | FrameResolver.js:223-251 | the stop report has 25 fields; `stopType` is field 20 at content character 76 and `inOutBound` is field 21 at character 78, both two characters wide |
| ReportProperties.StopTypeRead | FrameResolver.js:224-225 | in a stop report, `stopType` is the stop named by the character code `parseInt` reads from content characters 76 to 78 |
| ReportProperties.InOutBoundRead | FrameResolver.js:249-251 | in a stop report, `inOutBound` is `in` exactly when content characters 78 to 80 read as zero, and `out` otherwise (including NaN) |

## Left out

- The socket lifecycle is not modelled: connecting, `setEncoding`, the `error` and `close` events and the prototype methods after line 80 of `TCPClient.js`. `DistillFrames` takes the chunk as a parameter that is already hex.
- The `dataHandle` and `errHandle` callbacks are not modelled as calls. `DistillFrames` returns the frames instead (the source calls `dataHandle` only when there are any), and each checksum error is appended to `errorLog`.
- Error messages are not modelled: the text of the `Error` objects is not kept, only the failing frame.
- `RW.js`, `index.js` and `test.js` are not part of this model.
- The `time` field needs the clock for its year prefix, which becomes the parameter `yearPrefix`. The field's value is the date text handed to `new Date`; parsing that text into a `Date` is not modelled.
- Resynchronisation does not always recover the next frame within one call. A corrupted frame can hold `2626` after its first character. The loop then reads a length at that false marker, and when that length reaches past the buffer, it breaks and keeps the valid frame behind it in `lastData` (`FramingProperties.FalseMarkerWaits`). So recovery is proved only for corrupted frames without such a marker (`FramingProperties.ResyncRecovers`).
- Floating point is not modelled: the composites compute exact reals, so rounding of JavaScript doubles is not captured.
- `ResolverProperties.DecimalParts`: states the decimal as the integer part plus `Fraction`, not as a product with a power of ten, since real division by a variable power of ten is beyond what the verifier decides reliably.
- Uppercase hex input to `parseInt` is not modelled: the buffer is lowercased before any field is read.
- Property names that `in` finds on `Object.prototype` (such as `constructor`) are not modelled: the model's maps hold only the fields stored, and the command lookup in `frameHandle` knows only `41` and `79`.
- A `statusRaw` value that is not text becomes the error `StatusNotText`. JavaScript would throw for a number, a boolean or an object, but would slice an array such as a `HexPair` value as a list; the model does not follow that case. No table of the source produces either: `statusRaw` always has the bit-string formatter.
- `FrameResolver.Degrees`: a first part that is not a pair, or a second part that is not a number, gives NaN, while JavaScript's string concatenation and `parseInt` would coerce text and array parts. The tables of the source give every part a numeric formatter (`ReportProperties.CommonLayout`), so their reports are not affected; other tables are.
- `FrameResolver.Decimal`: a first part that is not a number gives NaN and a second part that is not a number is dropped, leaving the first part, while JavaScript's string concatenation would coerce text and array parts (`parseFloat("12.5")` is 12.5, `parseFloat("3,4.5")` is 3, `parseFloat("12.3,4")` is 12.3). The tables of the source give every part a numeric formatter (`ReportProperties.CommonLayout`), so their reports are not affected; other tables are.
- `padLeft`'s defaults are not modelled: the model always passes the padding character `'0'` and text, so `char || '0'` and `str + ''` have nothing to do.
- `parseInt`'s leading whitespace, sign and `0x` prefix are not modelled: the fields are lowercase hex text cut from the frame, and `ParseHex` reads only lowercase hex digits from the start.
