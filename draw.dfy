/** The text choices of the display helpers in src/draw_fns/utils.rs: which label, number,
    precision and unit each helper hands to the display. The drawing itself (position, font,
    the display driver) is not part of this model. */
module DrawFns {
  import opened Common
  import opened Chrono
  import opened Nmea
  import Float

  /** Capacity of the `String<32>` that `draw_optional_float` composes its text in. */
  const TextCap: nat := 32

  /** Capacity of the `String<8>` that `format_naivetime_hhmmss` writes into. */
  const TimeCap: nat := 8

  /** Feet in a mile: the point where the distance display switches unit. */
  const FeetPerMile: real := 5280.0

  const CloseParen: Byte := 41
  const LetterD: Byte := 68
  const LetterO: Byte := 79
  const LetterR: Byte := 82
  const GreaterThan: Byte := 62

  /** `n` closing parentheses: the signal-strength marks after a fix letter. */
  function Marks(n: nat): (r: Bytes)
    ensures |r| == n && forall i :: 0 <= i < |r| ==> r[i] == CloseParen
  {
    if n == 0 then [] else Marks(n - 1) + [CloseParen]
  }

  /** How many of the given thresholds `hdop` lies strictly below. */
  function CountBelow(hdop: real, thresholds: seq<real>): (n: nat)
    ensures n <= |thresholds|
  {
    if thresholds == [] then 0
    else CountBelow(hdop, thresholds[1..]) + (if hdop < thresholds[0] then 1 else 0)
  }

  /** A smaller HDOP (a better geometry) lies below at least as many thresholds. */
  lemma {:induction false} CountBelowAntitone(h1: real, h2: real, thresholds: seq<real>)
    requires h1 <= h2
    ensures CountBelow(h1, thresholds) >= CountBelow(h2, thresholds)
  {
    if thresholds != [] {
      CountBelowAntitone(h1, h2, thresholds[1..]);
    }
  }

  /** The fix types `draw_hdop` and `draw_fix_status` have no case of their own for. */
  predicate Unlisted(fix: FixType) {
    fix !in {Invalid, Gps, DGps, FloatRtk, Rtk}
  }

  /** The quality label of `draw_hdop`: a letter for the kind of fix followed by one mark per
      HDOP threshold (1 and 2 for a plain or differential fix, 1 for a float RTK fix) that
      the reading is below. Each later `if` overrides the label the earlier one set. */
  function HdopLabel(fix: Option<FixType>, hdop: real): (r: Bytes)
    ensures 1 <= |r| <= 3
  {
    match fix
    case Some(Invalid) => Ascii("X")
    case Some(Gps) =>
      var q := Ascii("O");
      var q := if hdop < 2.0 then Ascii("O)") else q;
      if hdop < 1.0 then Ascii("O))") else q
    case Some(DGps) =>
      var q := Ascii("D");
      var q := if hdop < 2.0 then Ascii("D)") else q;
      if hdop < 1.0 then Ascii("D))") else q
    case Some(FloatRtk) =>
      var q := Ascii("R");
      if hdop < 1.0 then Ascii("R)") else q
    case Some(Rtk) => Ascii("R))")
    case None => Ascii("N/A")
    case Some(_) => Ascii("??")
  }

  /** The label spelled out: a letter for the kind of fix followed by one mark per
      threshold the HDOP lies below, or a fixed text. */
  lemma HdopLabelMarks(fix: Option<FixType>, hdop: real)
    ensures fix == None ==> HdopLabel(fix, hdop) == Ascii("N/A")
    ensures fix == Some(Invalid) ==> HdopLabel(fix, hdop) == Ascii("X")
    ensures fix == Some(Gps) ==> HdopLabel(fix, hdop) == [LetterO] + Marks(CountBelow(hdop, [1.0, 2.0]))
    ensures fix == Some(DGps) ==> HdopLabel(fix, hdop) == [LetterD] + Marks(CountBelow(hdop, [1.0, 2.0]))
    ensures fix == Some(FloatRtk) ==> HdopLabel(fix, hdop) == [LetterR] + Marks(CountBelow(hdop, [1.0]))
    ensures fix == Some(Rtk) ==> HdopLabel(fix, hdop) == [LetterR] + Marks(2)
    ensures fix.Some? && Unlisted(fix.value) ==> HdopLabel(fix, hdop) == Ascii("??")
  {
    match fix
    case Some(Gps) => TwoThresholdLabel(Gps, LetterO, hdop);
    case Some(DGps) => TwoThresholdLabel(DGps, LetterD, hdop);
    case Some(FloatRtk) =>
      assert Marks(1) == [CloseParen];
      assert CountBelow(hdop, [1.0]) == if hdop < 1.0 then 1 else 0;
    case Some(Rtk) => assert Marks(2) == [CloseParen, CloseParen];
    case _ =>
  }

  /** The labels of the plain and the differential fix. */
  lemma TwoThresholdLabel(fix: FixType, letter: Byte, hdop: real)
    requires (fix == Gps && letter == LetterO) || (fix == DGps && letter == LetterD)
    ensures HdopLabel(Some(fix), hdop) == [letter] + Marks(CountBelow(hdop, [1.0, 2.0]))
  {
    assert Marks(1) == [CloseParen];
    assert Marks(2) == [CloseParen, CloseParen];
    assert [1.0, 2.0][1..] == [2.0];
    assert CountBelow(hdop, [2.0]) == if hdop < 2.0 then 1 else 0;
  }

  /** For a fix whose label depends on the HDOP, a better (smaller) HDOP never shows fewer
      marks, and the letter does not depend on the HDOP at all. */
  lemma HdopLabelMonotone(fix: FixType, h1: real, h2: real)
    requires fix in {Gps, DGps, FloatRtk}
    requires h1 <= h2
    ensures |HdopLabel(Some(fix), h1)| >= |HdopLabel(Some(fix), h2)|
    ensures HdopLabel(Some(fix), h1)[0] == HdopLabel(Some(fix), h2)[0]
  {
    HdopLabelMarks(Some(fix), h1);
    HdopLabelMarks(Some(fix), h2);
    CountBelowAntitone(h1, h2, [1.0, 2.0]);
    CountBelowAntitone(h1, h2, [1.0]);
  }

  /** The text of `draw_fix_status`. */
  function FixStatusText(fix: Option<FixType>): (r: Bytes)
    ensures fix == None ==> r == Ascii("NO GPS")
    ensures fix == Some(Invalid) ==> r == Ascii("INVALID")
    ensures fix == Some(Gps) ==> r == Ascii("GPS")
    ensures fix == Some(DGps) ==> r == Ascii("DGPS")
    ensures fix.Some? && fix.value !in {Invalid, Gps, DGps} ==> r == Ascii("OTHER")
  {
    if fix.Some? then
      match fix.value
      case Invalid => Ascii("INVALID")
      case Gps => Ascii("GPS")
      case DGps => Ascii("DGPS")
      case _ => Ascii("OTHER")
    else
      Ascii("NO GPS")
  }

  /** The fix-status text tells the five cases apart: two readings with texts of the same
      length are the same reading, or both are fix types without a text of their own. */
  lemma FixStatusDistinguishes(a: Option<FixType>, b: Option<FixType>)
    requires |FixStatusText(a)| == |FixStatusText(b)|
    ensures a == b || (a.Some? && b.Some? && a.value !in {Invalid, Gps, DGps} && b.value !in {Invalid, Gps, DGps})
  {
  }

  /** The text of `draw_recording_status`. */
  function RecordingStatusText(isRecording: bool): (r: Bytes)
    ensures |r| == 2 && r[0] == r[1]
    ensures r[0] == GreaterThan <==> isRecording
    ensures isRecording ==> r == Ascii(">>")
    ensures !isRecording ==> r == Ascii("--")
  {
    if isRecording then Ascii(">>") else Ascii("--")
  }

  /** What `draw_total_distance` passes to `draw_optional_float`. */
  datatype DistanceDisplay = DistanceDisplay(value: real, precision: nat, unit: Bytes)

  /** `draw_total_distance`'s choice: a distance above a mile is shown in miles with three
      decimals, anything else in feet with none. The second assignment overrides the first. */
  function TotalDistanceDisplay(distanceRaw: real): (d: DistanceDisplay)
    ensures d.unit == Ascii("mi.") <==> distanceRaw > FeetPerMile
    ensures d.unit == Ascii("mi.") ==> d.value * FeetPerMile == distanceRaw && d.precision == 3
    ensures d.unit != Ascii("mi.") ==> d == DistanceDisplay(distanceRaw, 0, Ascii("'"))
  {
    var shown := DistanceDisplay(distanceRaw, 0, Ascii("'"));
    if distanceRaw > FeetPerMile then DistanceDisplay(distanceRaw / FeetPerMile, 3, Ascii("mi."))
    else shown
  }

  /** A distance is never shown as less than one mile, and a distance in feet never
      exceeds a mile. */
  lemma TotalDistanceRange(distanceRaw: real)
    ensures var d := TotalDistanceDisplay(distanceRaw);
      (d.unit == Ascii("mi.") ==> d.value > 1.0) && (d.unit == Ascii("'") ==> d.value <= FeetPerMile)
  {
  }

  /** The prefix and a space, the number, and the suffix pushed in turn into a `String<32>`,
      each `push_str` kept whole or dropped whole. */
  function Compose(prefix: Option<Bytes>, number: Bytes, suffix: Option<Bytes>): (r: Bytes)
    ensures |r| <= TextCap
    ensures var lead := if prefix.Some? then prefix.value + [Space] else [];
      var tail := if suffix.Some? then suffix.value else [];
      |lead| + |number| + |tail| <= TextCap ==> r == lead + number + tail
  {
    var text := if prefix.Some? then PushStr(PushStr([], prefix.value, TextCap), [Space], TextCap) else [];
    var text := PushStr(text, number, TextCap);
    if suffix.Some? then PushStr(text, suffix.value, TextCap) else text
  }

  /** The text of `draw_optional_float`: nothing for a missing value; otherwise the prefix
      and a space, the number as `FloatToString::convert` renders it, and the suffix. */
  function OptionalFloatText(prefix: Option<Bytes>, suffix: Option<Bytes>, precision: nat,
                             value: Option<real>): (r: Option<Bytes>)
    requires value.Some? ==> -(Float.U64Limit as real) < value.value < Float.U64Limit as real
    ensures r.None? <==> value.None?
    ensures r.Some? ==> |r.value| <= TextCap
    ensures r.Some? ==>
      var lead := if prefix.Some? then prefix.value + [Space] else [];
      var number := Float.Capped(Float.Rendering(value.value, precision));
      var tail := if suffix.Some? then suffix.value else [];
      |lead| + |number| + |tail| <= TextCap ==> r.value == lead + number + tail
  {
    if value.Some? then Some(Compose(prefix, Float.Capped(Float.Rendering(value.value, precision)), suffix))
    else None
  }

  /** The text of `draw_total_distance`. */
  function TotalDistanceText(distanceRaw: real): (r: Bytes)
    requires -(Float.U64Limit as real) < distanceRaw < Float.U64Limit as real
    ensures |r| <= TextCap
  {
    var d := TotalDistanceDisplay(distanceRaw);
    OptionalFloatText(Some([GreaterThan]), Some(d.unit), d.precision, Some(d.value)).value
  }

  /** The total-distance text is never cut short: it is `> `, the full rendering of the
      shown value, and the unit, for every distance whose integer part fits a `u64`. */
  lemma TotalDistanceTextComplete(distanceRaw: real)
    requires -(Float.U64Limit as real) < distanceRaw < Float.U64Limit as real
    ensures var d := TotalDistanceDisplay(distanceRaw);
      TotalDistanceText(distanceRaw) == [GreaterThan, Space] + Float.Rendering(d.value, d.precision) + d.unit
  {
    var d := TotalDistanceDisplay(distanceRaw);
    if distanceRaw > FeetPerMile {
      assert 0.0 < d.value < distanceRaw;
    }
    Float.RenderingLength(d.value, d.precision);
    assert [GreaterThan] + [Space] == [GreaterThan, Space];
  }

  /** `format_naivetime_hhmmss`: `HH:MM:SS` written into a `String<8>`, the `unwrap`
      panicking if the text did not fit. */
  function FormatNaiveTimeHhmmss(time: NaiveTime): (r: Abortable<Bytes>)
    ensures r.Returned? && |r.value| == TimeCap
    ensures r.Returned? ==> r.value[2] == Colon && r.value[5] == Colon
    ensures r.Returned? ==> ParseUnsigned(r.value[..2], 23) == Some(Hour(time))
    ensures r.Returned? ==> ParseUnsigned(r.value[3..5], 59) == Some(Minute(time))
    ensures r.Returned? ==> ParseUnsigned(r.value[6..], 59) == Some(Second(time))
  {
    var text := Pad2(Hour(time)) + [Colon] + Pad2(Minute(time)) + [Colon] + Pad2(Second(time));
    ClockText(Hour(time), Minute(time), Second(time));
    if |text| <= TimeCap then Returned(text) else Panicked
  }

  /** `HH:MM:SS` of an hour, minute and second in range: eight bytes whose three fields parse
      back to them. */
  lemma ClockText(h: nat, m: nat, s: nat)
    requires h < 24 && m < 60 && s < 60
    ensures var text := Pad2(h) + [Colon] + Pad2(m) + [Colon] + Pad2(s);
      |text| == TimeCap && text[2] == Colon && text[5] == Colon &&
      ParseUnsigned(text[..2], 23) == Some(h) &&
      ParseUnsigned(text[3..5], 59) == Some(m) &&
      ParseUnsigned(text[6..], 59) == Some(s)
  {
    ParsePad2(h, 23);
    ParsePad2(m, 59);
    ParsePad2(s, 59);
    ColonFields(Pad2(h), Pad2(m), Pad2(s));
  }

  lemma ColonFields(a: Bytes, b: Bytes, c: Bytes)
    requires |a| == 2 && |b| == 2 && |c| == 2
    ensures var text := a + [Colon] + b + [Colon] + c;
      |text| == 8 && text[2] == Colon && text[5] == Colon &&
      text[..2] == a && text[3..5] == b && text[6..] == c
  {
    var text := a + [Colon] + b + [Colon] + c;
    assert text[..2] == a;
    assert text[3..5] == b;
    assert text[6..] == c;
  }

  /** The three fields of the formatted time give back the time to the second. */
  lemma FormattedTimeRoundTrip(time: NaiveTime)
    ensures var text := FormatNaiveTimeHhmmss(time).value;
      var h := ParseUnsigned(text[..2], 23).value;
      var m := ParseUnsigned(text[3..5], 59).value;
      var s := ParseUnsigned(text[6..], 59).value;
      (h * 60 + m) * 60 + s == time / 1000
  {
    var t := time / 1000;
    assert Hour(time) == t / 3600;
    assert Minute(time) == t / 60 % 60;
    assert Second(time) == t % 60;
    assert t / 3600 * 60 + t / 60 % 60 == t / 60;
  }
}
