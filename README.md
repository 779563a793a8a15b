# HiJo GPS telemetry core in Dafny

A model of the telemetry core of HiJo, a handheld GPS tracker written in Rust for the
nRF52840. The core turns the receiver's serial byte stream into NMEA sentences, classifies
and decodes them, and folds each fix into trip statistics: a ring buffer of the last sixteen
fixes, the last segment, the total distance and the current speed. It also covers the
allocation-free number formatter and the text the display helpers choose.

The model has one file per source file:

| Dafny file | module | source |
|---|---|---|
| `common.dfy` | `Common` | Rust `str`, `heapless::String`, `split`, `get` and unsigned `parse`, which the core relies on |
| `external.dfy` | `Nmea`, `Chrono` | values from the `nmea` crate and `chrono::NaiveTime` |
| `assembler.dfy` | `Assembler` | `src/gps/assembler.rs` |
| `reader.dfy` | `Reader` | `src/gps/reader.rs` |
| `gps.dfy` | `Gps` | `src/gps.rs` |
| `fns.dfy` | `Fns` | `src/gps/fns.rs` |
| `stack.dfy` | `Stack` | `src/gps/stack.rs` |
| `float.dfy` | `Float` | `src/utils/float.rs` |
| `draw.dfy` | `DrawFns` | `src/draw_fns/utils.rs` |

Code that updates state keeps its form. `NmeaAssembler`, `GpsReader`, `Gps`, `GeoStack` and
`FloatToString` are classes, and their methods are proved against specification functions:

- `Transition` specifies the assembler;
- `Scan` specifies the sentence buffer of `src/gps.rs`;
- `NextState` specifies `add_coords`;
- `Rendering` and `Capped` specify `convert`.

Properties about several calls are lemmas about those functions. The rest of the core is
pure and is modelled as functions.

Conventions:

- A Rust string is modelled by its UTF-8 bytes (`Bytes`). A `heapless::String<N>` is a
  `Bytes` of at most `N` bytes.
- `push` and `push_str` add all of their argument or nothing.
- `push(byte as char)` of a byte from 0x80 up adds that byte's two-byte UTF-8 encoding.
- `f64` and `f32` values are modelled as `real`.
- A time of day is a whole number of milliseconds since midnight.
- What the `nmea` parser reports for a sentence is an input (`NmeaReport`).
- The Haversine distance is a function parameter (`Distance`).
- Code that panics through `unwrap`, an index or an overflowing `collect` returns
  `Abortable.Panicked`.

The model follows the code as written:

- `add_coords` has no recording flag and no elevation gain.
- Its distance threshold is 1.0 ft.
- A fix is counted only when its HDOP is strictly below 2.0, so an HDOP of exactly 2.0 is
  not counted.
- A malformed ZDA sentence makes `get_date_time` panic; it is not reported as a failure.
- `parse_line` in `src/gps/reader.rs` treats every sentence that is not GGA as ZDA.
- `haversine_distance_ft` is declared over `LatLonAlt` in `src/gps/fns.rs`, but
  `add_coords` passes `LatLon` values. The model takes the call site's two-coordinate form.

## Model

| member | source | states |
|---|---|---|
| Common.EncodeByteChar | src/gps/assembler.rs:41 | `byte as char` encodes an ASCII byte as itself and any byte from 0x80 up as two bytes, each 0x80 or above |
| Common.PushChar | src/gps/assembler.rs:41 | `push(byte as char)` on a string of capacity `cap` appends the whole UTF-8 encoding of the byte exactly when it fits, and otherwise leaves the string unchanged; it never exceeds the capacity |
| Common.PushStr | src/gps/reader.rs:102-103 | `push_str` appends the whole text when it fits and otherwise leaves the string unchanged |
| Common.Labelled | src/gps/reader.rs:102-103 | the tag, then the sentence if it fits after the tag in the 128-byte message; otherwise the tag alone |
| Common.Get | src/gps/reader.rs:79-81 | `get(a..b)` succeeds exactly when `a <= b <= len` and both ends are character boundaries, and then yields bytes `a..b` |
| Common.Split | src/gps/reader.rs:74 | `split(",")` gives one piece more than there are commas, and no piece contains a comma |
| Common.JoinSplit | src/gps/reader.rs:74 | joining the pieces of a split with the separator gives back the original line |
| Common.SplitJoin | src/gps/reader.rs:74 | splitting fields that were joined with a separator none of them contains gives back the fields |
| Common.ParseUnsigned | src/gps/reader.rs:76-81 | an unsigned `parse` succeeds exactly when the text, after one optional `+`, is a non-empty run of decimal digits whose value is at most the type's maximum, and the result is that value |
| Common.ParseUnsignedRejects | src/gps/reader.rs:76-81 | `1a`, a bare `+`, `++7` and `256` (as a `u8`) do not parse; `+7` parses to 7 |
| Common.Digits | src/utils/float.rs:44-55 | the decimal text of a number: one to many digits, no leading zero, with a length that grows with the number (one digit below 10, at least four from 1000) |
| Common.Pad2 | src/gps/reader.rs:84-87 | two-digit zero-padded formatting: all digits, exactly two for a number below 100 |
| Common.ParseDigits | src/gps/reader.rs:76-78 | the decimal digits of `n` parse back to `n` in any type that can hold it |
| Common.ParsePad2 | src/gps/reader.rs:84-87 | the zero-padded two-digit form of `n` parses back to `n` |
| Chrono.Hour | src/draw_fns/utils.rs:33 | `hour()`: the whole hours since midnight, below 24 |
| Chrono.Minute | src/draw_fns/utils.rs:34 | `minute()`: the whole minutes since the start of the hour, below 60 |
| Chrono.Second | src/draw_fns/utils.rs:35 | `second()`: the whole seconds since the start of the minute, below 60 |
| Chrono.Since | src/gps/stack.rs:53 | the difference of two times of day is signed, under one day in magnitude, and added to the earlier time gives the later one |
| Fns.CalculateSpeed | src/gps/fns.rs:38-45 | zero duration gives speed 0; otherwise speed × time × 22 = distance × 15 (feet per second to miles per hour); a non-negative distance over a positive time gives a non-negative speed |
| Fns.ToFeet | src/gps/fns.rs:47-49 | one metre is 3.28084 feet (the constant of line 12); zero metres is zero feet, and a positive length in feet exceeds the same length in metres |
| Fns.SpeedFactor | src/gps/fns.rs:13 | the factor 3600/5280 is 15/22: 22 ft/s is 15 mph, and a mile in an hour is 1 mph |
| Fns.ToFeetLinear | src/gps/fns.rs:47-49 | the metre-to-foot conversion is additive and scales linearly, so any length in feet is the length in metres times the feet in one metre |
| Fns.SpeedMonotone | src/gps/fns.rs:38-45 | over the same positive duration, a longer distance never gives a lower speed |
| Assembler.Transition | src/gps/assembler.rs:17-46 | a sentence is emitted exactly on LF with a non-empty buffer, and it is the whole buffer, which empties; `$` restarts with `$`; CR changes nothing; any other byte is pushed while building, and one whose encoding does not fit the 82 bytes leaves the buffer unchanged; well-formed buffers stay well formed (at most 82 bytes, `$` first, no `$`/CR/LF after it) |
| Assembler.NmeaAssembler.constructor | src/gps/assembler.rs:11-13 | the assembler starts idle, with an empty buffer |
| Assembler.NmeaAssembler.PushByte | src/gps/assembler.rs:17-46 | the returned sentence and new buffer are those of `Transition`; an emitted sentence starts with `$` and has 1 to 82 bytes |
| Assembler.FeedBody | src/gps/assembler.rs:19-44 | pushing `$` and the first `k` bytes of a body emits nothing, and leaves `$` and those bytes (UTF-8 encoded) in the buffer |
| Assembler.FeedSentence | src/gps/assembler.rs:17-46 | from any state, `$` + body + CR LF emits exactly one sentence, at the LF, equal to `$` + body, and the assembler ends idle |
| Assembler.AsciiEncodesToItself | src/gps/assembler.rs:41 | for ASCII bytes the `as char` re-encoding is the identity, so the emitted sentence is the bytes as received |
| Reader.GetPos | src/gps/reader.rs:61-69 | each field of the reader's result is the parser's accessor for it |
| Reader.IsSentenceOfInterest | src/gps/reader.rs:92-94 | true exactly for lines starting with `$GNGGA` or `$GNZDA` |
| Reader.GetDateTime | src/gps/reader.rs:71-90 | panics when a split yields fewer than five or more than ten fields; a decoded date has fields within their Rust integer types, a `HH:MM` time of 5 bytes, and a `DD/MM/YY` date of 8 to 10 bytes |
| Reader.GetDateTimeReturns | src/gps/reader.rs:71-90 | returns exactly when the split gives five to ten fields, field 1 has at least six bytes with a character boundary after the sixth, its three two-byte slices parse as `u8`, the day and month parse as `u8`, the year parses as `u32` and has at least four bytes; every other line panics |
| Reader.GetDateTimeValues | src/gps/reader.rs:71-90 | a returned date holds exactly the values parsed from those fields and slices, the date rendered `DD/MM/` and bytes 2..4 of the year field, and the time `HH:MM` |
| Reader.ParseLine | src/gps/reader.rs:96-147 | a `$GNGGA` line gets `[GGA-OK] ` with the fix and position, `[GGA-NOFIX] ` without them, or `[ERR] ` on a parser error; any other line is decoded as ZDA with `[ZDA] `, panicking exactly when `get_date_time` does; the message always fits 128 bytes |
| Reader.GpsReader.constructor | src/gps/reader.rs:48-59 | the reader starts with a fresh, idle assembler |
| Reader.GpsReader.HandleByte | src/gps/reader.rs:152-164 | the byte goes through the assembler's `Transition`; a completed sentence of interest is sent as `ParseLine` gives it, and nothing is sent otherwise |
| Reader.ZdaFields | src/gps/reader.rs:72-73 | a ZDA sentence has the `$GNZDA` tag and five fields before any trailing ones |
| Reader.ZdaSplit | src/gps/reader.rs:74 | splitting a printed ZDA sentence on commas gives back its fields |
| Reader.HhmmssSlices | src/gps/reader.rs:79-81 | the hour, minute and second slices at offsets 0, 2 and 4 of `hhmmss` exist and are the two-digit fields |
| Reader.YearSlice | src/gps/reader.rs:84 | the third and fourth digits of a four-digit year are a valid slice |
| Reader.DecodedFields | src/gps/reader.rs:71-90 | when every field parses, `get_date_time` returns those values with `DD/MM/YY` and `HH:MM` renderings |
| Reader.ZdaRoundTrip | src/gps/reader.rs:71-90 | decoding a ZDA sentence printed from a date and time returns exactly those numbers, `DD/MM/YY` and `HH:MM` |
| Reader.ZdaSampleFields | src/gps/reader.rs:72-73 | the sample sentence in the source is the printed form of 19:50:27 on 7 September 2025 |
| Reader.ZdaSample | src/gps/reader.rs:71-90 | the sample sentence decodes to 7/9/2025 19:50:27, displayed as `07/09/25` and `19:50` |
| Reader.ZdaSampleRendering | src/gps/reader.rs:84-87 | the renderings of the sample date and time are `07/09/25` and `19:50` |
| Gps.GetPos | src/gps.rs:67-73 | latitude, longitude and altitude are the parser's values |
| Gps.ParseLine | src/gps.rs:75-119 | always returns; a line without a leading `$` or without a `*` gets `[BAD] `; otherwise `[OK] ` with the fix and position, `[NOFIX] ` or `[ERR] `; a fix is present exactly when the position is; the message fits 128 bytes |
| Gps.ScannedLineGuard | src/gps.rs:75-78 | every line the scan completes starts with `$`, so the `[BAD]` guard rejects it exactly when it has no `*` |
| Gps.Absorb | src/gps.rs:40-58 | a `$` completes the buffered line exactly when the buffer is non-empty; as written it then leaves the buffer empty; CR changes nothing; other bytes are appended only while a line is open |
| Gps.Scan | src/gps.rs:35-65 | a completed line ends at a `$` within the bytes read, is non-empty and starts with `$`; the buffer stays within 128 bytes |
| Gps.ScanCompletes | src/gps.rs:41-48 | a `$` read while a line is buffered returns that line after one byte and leaves the buffer empty |
| Gps.Gps.Init | src/gps.rs:26-33 | the sentence buffer starts empty |
| Gps.Gps.AbsorbByte | src/gps.rs:40-58 | what one byte does to `sentence_buffer` is exactly `Absorb` without the restart: a `$` on a non-empty buffer swaps the line out and leaves the buffer empty, a `$` on an empty one starts a line, CR is ignored, and other bytes are pushed only onto a started line; the buffer stays within 128 bytes and starts with `$` |
| Gps.Gps.ReadAndParse | src/gps.rs:35-65 | returns the classified line that `Scan` completes, after the bytes `Scan` consumes, and leaves its buffer; when the source runs dry, returns nothing after reading every byte |
| Gps.Collect | src/gps.rs:35-65 | every line returned by repeated calls is non-empty and starts with `$` |
| Gps.SkipsEveryOtherSentence | src/gps.rs:41-51 | as written, the stream `$A$B$C$` yields only `$A` and `$C` |
| Gps.ScanBody | src/gps.rs:53-58 | absorbing a plain body into an open line completes nothing and appends the body |
| Gps.ScanSentence | src/gps.rs:41-51 | when `$` also restarts the buffer, a body followed by `$` is one sentence and the next one is started |
| Gps.CollectDeliversAll | src/gps.rs:35-65 | when `$` also restarts the buffer, every sentence of a stream is delivered, in order |
| Gps.CollectFromIdle | src/gps.rs:35-65 | the same from the initial, empty buffer |
| Stack.RingPush | src/gps/stack.rs:34-41 | the buffer grows by one until it holds 16; it is then the newest 16 of the old buffer plus the item, and the item is last |
| Stack.RingPushComplete | src/gps/stack.rs:34-41 | pushing a complete fix into a buffer of complete fixes keeps it so |
| Stack.RingPushAllKeepsNewest | src/gps/stack.rs:34-41 | after any run of pushes, the buffer is the newest 16 of everything pushed, oldest first (FIFO eviction) |
| Stack.NextState | src/gps/stack.rs:43-82 | the buffer stays within 16; a fix lacking position, HDOP or time changes nothing; a complete fix always sets the current HDOP; a fix sooner than the minimum interval changes nothing else |
| Stack.NextStateAggregates | src/gps/stack.rs:53-76 | the last segment, total and speed change exactly when a fix passes the time, HDOP and distance filters; then the segment is recorded, added to the total, and gives the speed over the elapsed seconds; the thresholds never change |
| Stack.NextStatePushes | src/gps/stack.rs:70-80 | an accepted fix is pushed twice; a complete fix that is not too soon but is not accepted is pushed once; other fixes are not pushed |
| Stack.NextStateSound | src/gps/stack.rs:43-82 | a sound state (at most 16 complete fixes, non-negative total and threshold) stays sound, and its total does not decrease |
| Stack.NextStates | src/gps/stack.rs:43-82 | any run of fixes from a sound state ends in a sound state |
| Stack.TotalNeverDecreases | src/gps/stack.rs:73 | the total distance never decreases over any run of fixes, whatever the distance function reports |
| Stack.TotalIsAcceptedDistance | src/gps/stack.rs:70-76 | the total grows by exactly the sum of the segments of the accepted fixes |
| Stack.GeoStack.constructor | src/gps/stack.rs:22-32 | an empty buffer, zero aggregates, a 1000 ms interval and a 1.0 ft threshold |
| Stack.GeoStack.RingBufferPush | src/gps/stack.rs:34-41 | the buffer becomes `RingPush` of the old one, and nothing else changes |
| Stack.GeoStack.AddCoords | src/gps/stack.rs:43-82 | on any buffer of at most 16 entries, the new state is `NextState` of the old one, and a sound state stays sound |
| Stack.AcceptedFixStoredTwice | src/gps/stack.rs:70-80 | as written, a fix accepted one second after the previous one ends up twice in the buffer, 0 ms apart, below the 1000 ms minimum |
| Stack.NextStateOnce | src/gps/stack.rs:70-80 | an accepted fix is pushed once, with the same aggregates as `add_coords` |
| Stack.NextStateOnceKeepsSpacing | src/gps/stack.rs:53-80 | with one push per fix, a sound buffer whose fixes are at least the minimum interval apart stays so |
| Float.Capped | src/utils/float.rs:75-83 | what a 32-byte buffer keeps of a text is its first 32 bytes, or all of it when shorter |
| Float.CappedAppend | src/utils/float.rs:85-90 | writing in two steps keeps what writing in one step would keep |
| Float.FracDigits | src/utils/float.rs:57-67 | there are exactly `precision` fractional digits, all decimal |
| Float.FracDigitsValue | src/utils/float.rs:57-67 | the fractional digits are the fraction truncated to `precision` places: their value is floor(f × 10^precision) |
| Float.Magnitude | src/utils/float.rs:31-35 | the magnitude is non-negative and is the value or its negation |
| Float.FractionalPart | src/utils/float.rs:38-39 | the fraction is in [0, 1), and the integer part plus the fraction is the magnitude |
| Float.Rendering | src/utils/float.rs:16-73 | the text `convert` writes: it is never empty, starts with `-` exactly for a negative value, and holds a `.` exactly when there is a fraction and a non-zero precision |
| Float.RenderingInOrder | src/utils/float.rs:31-67 | the rendering is the sign, then the integer digits, then `.` and `precision` digits exactly when the fraction is positive and the precision is non-zero |
| Float.DigitsFit | src/utils/float.rs:44-55 | a number below 10^k has at most k digits |
| Float.RenderingLength | src/utils/float.rs:44-67 | the integer part of a value below 2^64 takes at most 20 digits, so the rendering takes at most 22 + `precision` bytes |
| Float.RenderingShape | src/utils/float.rs:31-67 | a rendering starts with `-` exactly for a negative value; the digits of the integer part follow and parse back to it; more text follows exactly when there is a fraction and a non-zero precision; the integer digits parse back as a `u64` |
| Float.RenderingWholeNumber | src/utils/float.rs:42-63 | a whole number renders as its digits (`0` for zero), whatever the precision, and they parse back to it |
| Float.FloatToString.constructor | src/utils/float.rs:7-14 | an empty buffer with the given precision |
| Float.FloatToString.WriteChar | src/utils/float.rs:75-83 | succeeds exactly when the length is below 32, and then appends the byte; otherwise it changes nothing |
| Float.FloatToString.WriteStr | src/utils/float.rs:85-90 | succeeds exactly when all of the text fits; what is written is the first bytes of the text that fit, in order |
| Float.FloatToString.Convert | src/utils/float.rs:16-73 | for a finite value below 2^64 in magnitude, restarts from an empty buffer and returns exactly what is written: the first 32 bytes of `Rendering` |
| Float.FloatToString.IntegerDigits | src/utils/float.rs:44-55 | the digits the loop leaves at the end of the 20-byte scratch buffer are the decimal text of the integer part |
| Float.FloatToString.WriteFraction | src/utils/float.rs:57-67 | the fractional loop appends exactly the first `precision` fractional digits, within the 32-byte cap |
| DrawFns.CountBelowAntitone | src/draw_fns/utils.rs:236-249 | a smaller HDOP is below at least as many thresholds |
| DrawFns.HdopLabel | src/draw_fns/utils.rs:230-258 | the quality label is one to three bytes long |
| DrawFns.HdopLabelMarks | src/draw_fns/utils.rs:230-258 | `X` for an invalid fix and `N/A` for none; GPS and DGPS show `O` and `D` with one `)` per threshold (1, 2) that the HDOP is below; float RTK shows `R` with one `)` below 1; RTK shows `R))`; any other type shows `??` |
| DrawFns.HdopLabelMonotone | src/draw_fns/utils.rs:236-249 | a better HDOP never shows fewer marks, and the letter does not depend on the HDOP |
| DrawFns.FixStatusText | src/draw_fns/utils.rs:94-108 | `NO GPS`, `INVALID`, `GPS`, `DGPS`, and `OTHER` for any other fix type |
| DrawFns.FixStatusDistinguishes | src/draw_fns/utils.rs:94-108 | texts of the same length come from the same reading, or from two fix types shown as `OTHER` |
| DrawFns.RecordingStatusText | src/draw_fns/utils.rs:119 | `>>` when recording and `--` otherwise |
| DrawFns.TotalDistanceDisplay | src/draw_fns/utils.rs:177-184 | miles exactly above 5280 ft, then the value in miles with 3 decimals; otherwise the raw feet with 0 decimals and unit `'` |
| DrawFns.TotalDistanceRange | src/draw_fns/utils.rs:180-184 | a distance in miles is shown as more than one mile; a distance in feet is at most 5280 |
| DrawFns.Compose | src/draw_fns/utils.rs:55-66 | never over 32 bytes; when everything fits, prefix and space, number, suffix |
| DrawFns.OptionalFloatText | src/draw_fns/utils.rs:52-68 | nothing exactly for a missing value; otherwise at most 32 bytes, and when everything fits, prefix and space, `convert`'s text, suffix |
| DrawFns.TotalDistanceText | src/draw_fns/utils.rs:177-185 | the total-distance text fits 32 bytes |
| DrawFns.TotalDistanceTextComplete | src/draw_fns/utils.rs:177-185 | the total-distance text is never cut short: `> `, the full rendering of the shown value, and the unit |
| DrawFns.FormatNaiveTimeHhmmss | src/draw_fns/utils.rs:27-38 | never panics; 8 bytes with `:` at positions 2 and 5, whose three fields parse back to the hour, minute and second |
| DrawFns.FormattedTimeRoundTrip | src/draw_fns/utils.rs:27-38 | the three fields give back the time of day to the second: (h·60 + m)·60 + s is the time in whole seconds |

## Left out

- UART input is not modelled: `uart.read` in `GpsReader::run` and in `Gps::read_and_parse`, and all of `src/uart.rs`. A byte source is a finite sequence, and a failing read is the end of that sequence.
- The `nmea` crate is not modelled. What `Nmea::parse` and its accessors report is an input.
- The body of `haversine_distance_ft` (trigonometry in `f64`) and `to_radians` are not modelled; the distance is a function parameter.
- IEEE floating point is not modelled: rounding, NaN, infinities and the `NaN`/`inf`/`-inf` branches of `convert`. Values are exact reals.
- Float.FloatToString.Convert: requires a finite value whose integer part fits a `u64`, because the saturating `as u64` cast of larger values is not modelled.
- DrawFns.OptionalFloatText: requires a value within the same bound as `convert`, for the same reason.
- DrawFns.TotalDistanceText, DrawFns.TotalDistanceTextComplete: require a raw distance strictly between -2^64 and 2^64 feet, although `draw_total_distance` accepts any `f64`, because the distance is rendered by `convert` and its saturating `as u64` cast is not modelled.
- The embassy channel between the reader and the control loop is not modelled: it is concurrency. `HandleByte` returns what would be sent.
- Display drawing is not modelled (`Text::draw`, positions, fonts, `draw_static_text`, `draw_blinky`, `draw_storage_status`, `draw_coords`); only the text each helper chooses is.
- `draw_total_elev_gain`, `draw_current_speed` and `draw_last_segment_distance` are calls of `draw_optional_float` with fixed arguments; `OptionalFloatText` covers them.
- `testing_filename_draw` only unwraps its argument and draws `format_naivetime_hhmmss`; only the formatting is modelled.
- The main loop, button handling and marquee in `src/main.rs` are not part of this model. They are hardware and UI glue.
- `src/storage/sd.rs` is SD-card file I/O and is not part of this model.
- `defmt` logging is not modelled.

## Findings

| source | as written | input that shows it | evidently intended | confidence | as-written member | corrected member |
|---|---|---|---|---|---|---|
| src/gps.rs:41-51 | a `$` that completes the buffered line returns that line, and the `$` itself is not kept, so the next sentence has no start and its bytes are ignored | the stream `$A$B$C$` gives `$A` and then `$C`; `$B` is lost | the `$` also starts the next sentence, so every sentence is delivered | not executed; the model shows every other sentence is lost | Gps.SkipsEveryOtherSentence | Gps.CollectDeliversAll |
| src/gps/stack.rs:70-80 | a fix that passes all three filters is pushed at line 71 and again at line 80 | a fix one second and 10 ft after the previous one, with HDOP 1.0, is stored twice, 0 ms apart | each admitted fix is stored once, so entries stay at least the minimum interval apart | not executed; the model shows the duplicate entry | Stack.AcceptedFixStoredTwice | Stack.NextStateOnceKeepsSpacing |

The class methods `Gps.Gps.ReadAndParse` and `Stack.GeoStack.AddCoords` model the code as
written. The corrected behaviour is given by `Absorb` with `restart` and by
`Stack.NextStateOnce`, and the rest of the model does not depend on it.
