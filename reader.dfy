/** The sentence layer of the asynchronous GPS reader (src/gps/reader.rs): which assembled
    sentences are looked at, how a GGA or ZDA sentence becomes a labelled `ParseOut`, and how
    a ZDA sentence is decoded into a calendar date and time of day. */
module Reader {
  import opened Common
  import opened Nmea
  import opened Chrono
  import Assembler

  /** Capacity of the diagnostic message, `heapless::String<128>`. */
  const MessageCap: nat := 128

  /** A position fix as the reader hands it on. */
  datatype GpsReaderResults = GpsReaderResults(
    lat: Option<real>,
    lon: Option<real>,
    alt: Option<real>,
    hdop: Option<real>,
    timestamp: Option<NaiveTime>)

  /** A decoded ZDA sentence; `prettyDate` is a `String<10>`, `prettyTime` a `String<5>`. */
  datatype InternalDateDTO = InternalDateDTO(
    day: nat,
    month: nat,
    year: nat,
    hour: nat,
    minute: nat,
    second: nat,
    prettyDate: Bytes,
    prettyTime: Bytes)

  /** What the reader sends to the control loop for one sentence. */
  datatype ParseOut = ParseOut(
    fix: Option<FixType>,
    line: Bytes,
    readerResults: Option<GpsReaderResults>,
    readerDatetime: Option<InternalDateDTO>)

  const GgaPrefix: Bytes := Ascii("$GNGGA")
  const ZdaPrefix: Bytes := Ascii("$GNZDA")

  const GgaOkLabel: Bytes := Ascii("[GGA-OK] ")
  const GgaNoFixLabel: Bytes := Ascii("[GGA-NOFIX] ")
  const ErrLabel: Bytes := Ascii("[ERR] ")
  const ZdaLabel: Bytes := Ascii("[ZDA] ")

  /** `get_pos`: the fix as the parser's accessors report it, field for field. */
  function GetPos(st: NmeaState): (r: GpsReaderResults)
    ensures r.lat == st.latitude && r.lon == st.longitude && r.alt == st.altitude
    ensures r.hdop == st.hdop && r.timestamp == st.fixTimestamp
  {
    GpsReaderResults(st.latitude, st.longitude, st.altitude, st.hdop, st.fixTimestamp)
  }

  /** `is_sentence_of_interest`: a GGA or a ZDA sentence from a multi-constellation receiver. */
  function IsSentenceOfInterest(line: Bytes): (r: bool)
    ensures r ==> |line| >= 6 && line[0] == Dollar
    ensures r <==> StartsWith(line, GgaPrefix) || StartsWith(line, ZdaPrefix)
  {
    StartsWith(line, GgaPrefix) || StartsWith(line, ZdaPrefix)
  }

  /** A field that was sliced out (or not) and is then parsed with `unwrap`. */
  function ParseField(field: Option<Bytes>, max: nat): Option<nat>
  {
    if field.None? then None else ParseUnsigned(field.value, max)
  }

  /** `get_date_time`: splits a ZDA sentence on commas into at most ten fields; field 1 starts
      with `hhmmss`, fields 2, 3 and 4 are day, month and year. Every failed index, slice or
      parse is an `unwrap` that panics. */
  function GetDateTime(line: Bytes): (r: Abortable<InternalDateDTO>)
    ensures |Split(line, Comma)| < 5 || |Split(line, Comma)| > 10 ==> r.Panicked?
    ensures r.Returned? ==>
      r.value.hour <= 99 && r.value.minute <= 99 && r.value.second <= 99 &&
      r.value.day <= U8Max && r.value.month <= U8Max && r.value.year <= U32Max
    ensures r.Returned? ==> |r.value.prettyTime| == 5 && r.value.prettyTime[2] == Colon
    ensures r.Returned? ==> 8 <= |r.value.prettyDate| <= 10
  {
    var items := Split(line, Comma);
    if |items| > 10 || |items| < 5 then Panicked
    else
      var hhmmss := items[1];
      var day := ParseUnsigned(items[2], U8Max);
      var month := ParseUnsigned(items[3], U8Max);
      var year := ParseUnsigned(items[4], U32Max);
      var hour := ParseField(Get(hhmmss, 0, 2), U8Max);
      var minute := ParseField(Get(hhmmss, 2, 4), U8Max);
      var second := ParseField(Get(hhmmss, 4, 6), U8Max);
      var yy := Get(items[4], 2, 4);
      if day.None? || month.None? || year.None? || hour.None? || minute.None? || second.None? || yy.None?
      then Panicked
      else
        var prettyDate := Pad2(day.value) + [Slash] + Pad2(month.value) + [Slash] + yy.value;
        var prettyTime := Pad2(hour.value) + [Colon] + Pad2(minute.value);
        Returned(InternalDateDTO(day.value, month.value, year.value, hour.value, minute.value, second.value, prettyDate, prettyTime))
  }

  /** When `get_date_time` returns: between five and ten fields; a time field of at least six
      bytes whose first six are three numbers of at most 255 and end on a character
      boundary; a day and a month of at most 255 and a year that fits a `u32`, the year
      at least four bytes long. Every other sentence makes one of its `unwrap`s panic. */
  lemma GetDateTimeReturns(line: Bytes)
    ensures var items := Split(line, Comma);
      GetDateTime(line).Returned? <==>
        5 <= |items| <= 10 && |items[1]| >= 6 && IsCharBoundary(items[1], 6) && |items[4]| >= 4 &&
        ParseUnsigned(items[1][0..2], U8Max).Some? &&
        ParseUnsigned(items[1][2..4], U8Max).Some? &&
        ParseUnsigned(items[1][4..6], U8Max).Some? &&
        ParseUnsigned(items[2], U8Max).Some? &&
        ParseUnsigned(items[3], U8Max).Some? &&
        ParseUnsigned(items[4], U32Max).Some?
  {
    var items := Split(line, Comma);
    if 5 <= |items| <= 10 && |items[1]| >= 6 && IsCharBoundary(items[1], 6) && |items[4]| >= 4 &&
       ParseUnsigned(items[1][0..2], U8Max).Some? &&
       ParseUnsigned(items[1][2..4], U8Max).Some? &&
       ParseUnsigned(items[1][4..6], U8Max).Some? &&
       ParseUnsigned(items[4], U32Max).Some?
    {
      var hhmmss := items[1];
      assert hhmmss[2] == hhmmss[2..4][0] && hhmmss[4] == hhmmss[4..6][0];
      assert IsCharBoundary(hhmmss, 2) && IsCharBoundary(hhmmss, 4);
      assert IsCharBoundary(items[4], 2);
      assert IsCharBoundary(items[4], 4);
    }
  }

  /** What `get_date_time` returns: the six numbers parsed from their fields and slices, the
      date rendered `DD/MM/` followed by the third and fourth bytes of the year field, and
      the time rendered `HH:MM`. */
  lemma GetDateTimeValues(line: Bytes)
    requires GetDateTime(line).Returned?
    ensures var items := Split(line, Comma);
      var dt := GetDateTime(line).value;
      |items| >= 5 && |items[1]| >= 6 && |items[4]| >= 4 &&
      ParseUnsigned(items[1][0..2], U8Max) == Some(dt.hour) &&
      ParseUnsigned(items[1][2..4], U8Max) == Some(dt.minute) &&
      ParseUnsigned(items[1][4..6], U8Max) == Some(dt.second) &&
      ParseUnsigned(items[2], U8Max) == Some(dt.day) &&
      ParseUnsigned(items[3], U8Max) == Some(dt.month) &&
      ParseUnsigned(items[4], U32Max) == Some(dt.year) &&
      dt.prettyDate == Pad2(dt.day) + [Slash] + Pad2(dt.month) + [Slash] + items[4][2..4] &&
      dt.prettyTime == Pad2(dt.hour) + [Colon] + Pad2(dt.minute)
  {
  }

  /** `parse_line`: a `$GNGGA` sentence goes to the NMEA parser (whose report is `nmea`);
      anything else is taken to be ZDA and decoded by `get_date_time`. The label and the
      sentence always fit the 128-byte message. */
  function ParseLine(line: Bytes, nmea: NmeaReport): (r: Abortable<Option<ParseOut>>)
    requires |line| <= Assembler.MaxLen
    ensures r.Returned? ==> r.value.Some? && |r.value.value.line| <= MessageCap
    ensures StartsWith(line, GgaPrefix) && nmea.ParseOk? && nmea.state.fixType.Some? ==>
      r == Returned(Some(ParseOut(nmea.state.fixType, GgaOkLabel + line, Some(GetPos(nmea.state)), None)))
    ensures StartsWith(line, GgaPrefix) && nmea.ParseOk? && nmea.state.fixType.None? ==>
      r == Returned(Some(ParseOut(None, GgaNoFixLabel + line, None, None)))
    ensures StartsWith(line, GgaPrefix) && nmea.ParseErr? ==>
      r == Returned(Some(ParseOut(None, ErrLabel + line, None, None)))
    ensures !StartsWith(line, GgaPrefix) ==>
      (r.Panicked? <==> GetDateTime(line).Panicked?) &&
      (r.Returned? ==> r.value.value == ParseOut(None, ZdaLabel + line, None, Some(GetDateTime(line).value)))
  {
    if StartsWith(line, GgaPrefix) then
      match nmea
      case ParseOk(st) =>
        if st.fixType.Some? then
          Returned(Some(ParseOut(st.fixType, Labelled(GgaOkLabel, line, MessageCap), Some(GetPos(st)), None)))
        else
          Returned(Some(ParseOut(None, Labelled(GgaNoFixLabel, line, MessageCap), None, None)))
      case ParseErr =>
        Returned(Some(ParseOut(None, Labelled(ErrLabel, line, MessageCap), None, None)))
    else
      var msg := Labelled(ZdaLabel, line, MessageCap);
      match GetDateTime(line)
      case Panicked => Panicked
      case Returned(dt) => Returned(Some(ParseOut(None, msg, None, Some(dt))))
  }

  /** The state of `GpsReader` that this model keeps: its assembler. The UART, the NMEA
      parser and the channel sender are outside it. */
  class GpsReader {
    const assembler: Assembler.NmeaAssembler

    constructor ()
      ensures fresh(assembler) && assembler.Valid() && assembler.buf == []
    {
      assembler := new Assembler.NmeaAssembler();
    }

    /** One iteration of `run` for a byte the UART delivered: the byte goes through the
        assembler, and a completed sentence of interest is parsed (`nmea` being what the
        parser reports for it). `Returned(Some(out))` is what is sent on the channel;
        `Returned(None)` means nothing is sent. */
    method HandleByte(byte: Byte, nmea: NmeaReport) returns (sent: Abortable<Option<ParseOut>>)
      requires assembler.Valid()
      modifies assembler
      ensures assembler.Valid()
      ensures var step := Assembler.Transition(old(assembler.buf), byte);
        assembler.buf == step.buf &&
        sent == if step.out.Some? && IsSentenceOfInterest(step.out.value)
                then ParseLine(step.out.value, nmea)
                else Returned(None)
    {
      var sentence := assembler.PushByte(byte);
      if sentence.Some? {
        if IsSentenceOfInterest(sentence.value) {
          var out := ParseLine(sentence.value, nmea);
          if out.Panicked? {
            return Panicked;
          }
          if out.value.Some? {
            return Returned(Some(out.value.value));
          }
        }
      }
      sent := Returned(None);
    }
  }

  /** A ZDA sentence as a receiver prints it: `$GNZDA,hhmmss<fraction>,dd,mm,yyyy` followed by
      further fields. */
  function ZdaSentence(hour: nat, minute: nat, second: nat, fraction: Bytes, day: nat, month: nat, year: nat, trailing: seq<Bytes>): Bytes {
    Join(ZdaFields(hour, minute, second, fraction, day, month, year, trailing), Comma)
  }

  /** The fields of a ZDA sentence, before it is joined with commas. */
  function ZdaFields(hour: nat, minute: nat, second: nat, fraction: Bytes, day: nat, month: nat, year: nat, trailing: seq<Bytes>): (r: seq<Bytes>)
    ensures |r| == 5 + |trailing| && r[0] == ZdaPrefix
  {
    [ZdaPrefix, Pad2(hour) + Pad2(minute) + Pad2(second) + fraction, Pad2(day), Pad2(month), Digits(year)] + trailing
  }

  /** Splitting a printed ZDA sentence on commas gives back its fields when none of them
      holds a comma. */
  lemma ZdaSplit(hour: nat, minute: nat, second: nat, fraction: Bytes, day: nat, month: nat, year: nat, trailing: seq<Bytes>)
    requires Comma !in fraction
    requires forall i :: 0 <= i < |trailing| ==> Comma !in trailing[i]
    ensures Split(ZdaSentence(hour, minute, second, fraction, day, month, year, trailing), Comma)
         == ZdaFields(hour, minute, second, fraction, day, month, year, trailing)
  {
    ZdaFieldsCommaFree(hour, minute, second, fraction, day, month, year, trailing);
    SplitJoin(ZdaFields(hour, minute, second, fraction, day, month, year, trailing), Comma);
  }

  lemma ZdaFieldsCommaFree(hour: nat, minute: nat, second: nat, fraction: Bytes, day: nat, month: nat, year: nat, trailing: seq<Bytes>)
    requires Comma !in fraction
    requires forall i :: 0 <= i < |trailing| ==> Comma !in trailing[i]
    ensures var parts := ZdaFields(hour, minute, second, fraction, day, month, year, trailing);
      forall i :: 0 <= i < |parts| ==> Comma !in parts[i]
  {
    var parts := ZdaFields(hour, minute, second, fraction, day, month, year, trailing);
    HhmmssCommaFree(hour, minute, second, fraction);
    assert Comma !in ZdaPrefix;
    forall i | 0 <= i < |parts|
      ensures Comma !in parts[i]
    {
      if i >= 5 {
        assert parts[i] == trailing[i - 5];
      }
    }
  }

  lemma HhmmssCommaFree(hour: nat, minute: nat, second: nat, fraction: Bytes)
    requires Comma !in fraction
    ensures Comma !in Pad2(hour) + Pad2(minute) + Pad2(second) + fraction
  {
    var hhmmss := Pad2(hour) + Pad2(minute) + Pad2(second) + fraction;
    assert forall b :: b in hhmmss ==> b in Pad2(hour) || b in Pad2(minute) || b in Pad2(second) || b in fraction;
  }

  /** Hours, minutes and seconds are sliced out of `hhmmss<fraction>` at byte offsets 0, 2, 4
      and 6, all of which are character boundaries when the fraction starts with ASCII. */
  lemma HhmmssSlices(hour: nat, minute: nat, second: nat, fraction: Bytes)
    requires hour < 100 && minute < 100 && second < 100
    requires fraction == [] || fraction[0] < 0x80
    ensures var hhmmss := Pad2(hour) + Pad2(minute) + Pad2(second) + fraction;
      Get(hhmmss, 0, 2) == Some(Pad2(hour)) &&
      Get(hhmmss, 2, 4) == Some(Pad2(minute)) &&
      Get(hhmmss, 4, 6) == Some(Pad2(second))
  {
    var hhmmss := Pad2(hour) + Pad2(minute) + Pad2(second) + fraction;
    assert hhmmss[0..2] == Pad2(hour);
    assert hhmmss[2..4] == Pad2(minute);
    assert hhmmss[4..6] == Pad2(second);
    assert IsDigit(hhmmss[2]) && IsDigit(hhmmss[4]);
    assert IsCharBoundary(hhmmss, 6);
  }

  /** The last two digits of a four-digit year are a slice on character boundaries. */
  lemma YearSlice(year: nat)
    requires 1000 <= year
    ensures Get(Digits(year), 2, 4) == Some(Digits(year)[2..4])
  {
    var d := Digits(year);
    assert IsDigit(d[2]);
    assert |d| == 4 || IsDigit(d[4]);
  }

  /** `get_date_time` on a sentence whose fields all parse: the fields, and their rendering. */
  lemma DecodedFields(line: Bytes, day: nat, month: nat, year: nat, hour: nat, minute: nat, second: nat)
    requires var items := Split(line, Comma);
      5 <= |items| <= 10 &&
      ParseUnsigned(items[2], U8Max) == Some(day) &&
      ParseUnsigned(items[3], U8Max) == Some(month) &&
      ParseUnsigned(items[4], U32Max) == Some(year) &&
      ParseField(Get(items[1], 0, 2), U8Max) == Some(hour) &&
      ParseField(Get(items[1], 2, 4), U8Max) == Some(minute) &&
      ParseField(Get(items[1], 4, 6), U8Max) == Some(second) &&
      Get(items[4], 2, 4).Some?
    ensures GetDateTime(line) == Returned(InternalDateDTO(day, month, year, hour, minute, second,
      Pad2(day) + [Slash] + Pad2(month) + [Slash] + Split(line, Comma)[4][2..4],
      Pad2(hour) + [Colon] + Pad2(minute)))
  {
  }

  /** Decoding a ZDA sentence recovers the numbers it was printed from, and renders
      `DD/MM/YY` (the third and fourth year digits) and `HH:MM`. */
  lemma ZdaRoundTrip(hour: nat, minute: nat, second: nat, fraction: Bytes, day: nat, month: nat, year: nat, trailing: seq<Bytes>)
    requires hour < 100 && minute < 100 && second < 100
    requires day <= U8Max && month <= U8Max && 1000 <= year <= U32Max
    requires Comma !in fraction && (fraction == [] || fraction[0] < 0x80)
    requires |trailing| <= 5 && forall i :: 0 <= i < |trailing| ==> Comma !in trailing[i]
    ensures GetDateTime(ZdaSentence(hour, minute, second, fraction, day, month, year, trailing))
         == Returned(InternalDateDTO(day, month, year, hour, minute, second,
                                     Pad2(day) + [Slash] + Pad2(month) + [Slash] + Digits(year)[2..4],
                                     Pad2(hour) + [Colon] + Pad2(minute)))
  {
    var line := ZdaSentence(hour, minute, second, fraction, day, month, year, trailing);
    var items := Split(line, Comma);
    ZdaSplit(hour, minute, second, fraction, day, month, year, trailing);
    ZdaFieldsAt(hour, minute, second, fraction, day, month, year, trailing);
    HhmmssSlices(hour, minute, second, fraction);
    YearSlice(year);
    ParsePad2(hour, U8Max);
    ParsePad2(minute, U8Max);
    ParsePad2(second, U8Max);
    ParsePad2(day, U8Max);
    ParsePad2(month, U8Max);
    ParseDigits(year, U32Max);
    DecodedFields(line, day, month, year, hour, minute, second);
  }

  /** The fields of a ZDA sentence, one by one. */
  lemma ZdaFieldsAt(hour: nat, minute: nat, second: nat, fraction: Bytes, day: nat, month: nat, year: nat, trailing: seq<Bytes>)
    ensures var parts := ZdaFields(hour, minute, second, fraction, day, month, year, trailing);
      parts[1] == Pad2(hour) + Pad2(minute) + Pad2(second) + fraction &&
      parts[2] == Pad2(day) && parts[3] == Pad2(month) && parts[4] == Digits(year)
  {
  }

  /** The fields of the sample sentence of `get_date_time`. */
  lemma ZdaSampleFields()
    ensures ZdaFields(19, 50, 27, Ascii(".000"), 7, 9, 2025, [[], Ascii("*4B")])
         == [Ascii("$GNZDA"), Ascii("195027.000"), Ascii("07"), Ascii("09"), Ascii("2025"), [], Ascii("*4B")]
  {
    SampleYear();
    SampleHhmmss();
    assert Pad2(7) == Ascii("07") && Pad2(9) == Ascii("09");
  }

  lemma SampleYear()
    ensures Digits(2025) == Ascii("2025")
  {
    assert Digits(2) == [Zero + 2];
    assert Digits(20) == Digits(2) + [Zero];
    assert Digits(202) == Digits(20) + [Zero + 2];
  }

  lemma SampleHhmmss()
    ensures Pad2(19) + Pad2(50) + Pad2(27) + Ascii(".000") == Ascii("195027.000")
  {
    assert Pad2(19) == Ascii("19") && Pad2(50) == Ascii("50") && Pad2(27) == Ascii("27");
  }

  /** The sample sentence of `get_date_time` (the fields above joined with commas):
      7 September 2025, 19:50:27, shown as `07/09/25` and `19:50`. */
  lemma ZdaSample()
    ensures GetDateTime(ZdaSentence(19, 50, 27, Ascii(".000"), 7, 9, 2025, [[], Ascii("*4B")]))
         == Returned(InternalDateDTO(7, 9, 2025, 19, 50, 27, Ascii("07/09/25"), Ascii("19:50")))
  {
    ZdaRoundTrip(19, 50, 27, Ascii(".000"), 7, 9, 2025, [[], Ascii("*4B")]);
    ZdaSampleRendering();
  }

  lemma ZdaSampleRendering()
    ensures Pad2(7) + [Slash] + Pad2(9) + [Slash] + Digits(2025)[2..4] == Ascii("07/09/25")
    ensures Pad2(19) + [Colon] + Pad2(50) == Ascii("19:50")
  {
    SampleYear();
  }
}
