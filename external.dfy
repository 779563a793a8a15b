/** The values the core receives from the `nmea` crate. The crate itself (sentence decoding,
    its internal state) is not part of this model: what its parser reports for a sentence is
    an input to the operations that call it. */
module Nmea {
  import opened Common
  import opened Chrono

  /** `nmea::sentences::FixType`, the receiver's fix-quality indicator. */
  datatype FixType = Invalid | Gps | DGps | Pps | Rtk | FloatRtk | Estimated | Manual | Simulation

  /** What the parser's accessors (`fix_type`, `latitude`, `longitude`, `altitude`, `hdop`,
      `fix_timestamp`) return after a successful `parse`. */
  datatype NmeaState = NmeaState(
    fixType: Option<FixType>,
    latitude: Option<real>,
    longitude: Option<real>,
    altitude: Option<real>,
    hdop: Option<real>,
    fixTimestamp: Option<NaiveTime>)

  /** The outcome of `Nmea::parse` on one sentence. */
  datatype NmeaReport = ParseErr | ParseOk(state: NmeaState)
}

/** `chrono::NaiveTime` at the millisecond resolution of an NMEA fix time. */
module Chrono {

  const MsPerSecond: nat := 1000
  const MsPerDay: nat := 86_400_000

  /** A time of day: milliseconds since midnight. */
  type NaiveTime = t: int | 0 <= t < 86_400_000

  /** `time.hour()`: the whole hours since midnight. */
  function Hour(t: NaiveTime): (h: nat)
    ensures h < 24
    ensures h * 3_600_000 <= t < (h + 1) * 3_600_000
  {
    t / 3_600_000
  }

  /** `time.minute()`: the whole minutes since the start of the hour. */
  function Minute(t: NaiveTime): (m: nat)
    ensures m < 60
    ensures m * 60_000 <= t - Hour(t) * 3_600_000 < (m + 1) * 60_000
  {
    TimeSplit(t);
    t / 60_000 % 60
  }

  /** `time.second()`: the whole seconds since the start of the minute. */
  function Second(t: NaiveTime): (s: nat)
    ensures s < 60
    ensures s * 1000 <= t - (Hour(t) * 60 + Minute(t)) * 60_000 < (s + 1) * 1000
  {
    TimeSplit(t);
    t / 1000 % 60
  }

  /** A time of day is its hours, minutes, seconds and milliseconds, each within its range. */
  lemma TimeSplit(t: NaiveTime)
    ensures t / 60_000 == t / 3_600_000 * 60 + t / 60_000 % 60
    ensures t == t / 60_000 * 60_000 + t / 1000 % 60 * 1000 + t % 1000
  {
    var q, r := t / 1000, t % 1000;
    assert t == 1000 * q + r;
    var u, sec := q / 60, q % 60;
    assert q == 60 * u + sec;
    var h, m := u / 60, u % 60;
    assert u == 60 * h + m;
    assert t == 60_000 * u + 1000 * sec + r;
    assert t / 60_000 == u;
    assert t == 3_600_000 * h + 60_000 * m + 1000 * sec + r;
    assert t / 3_600_000 == h;
  }

  /** `NaiveTime - NaiveTime`: the signed difference, in milliseconds (negative when the later
      argument is earlier in the day, as across midnight). */
  function Since(later: NaiveTime, earlier: NaiveTime): (ms: int)
    ensures -(MsPerDay as int) < ms < MsPerDay
    ensures earlier + ms == later
  {
    later - earlier
  }
}
