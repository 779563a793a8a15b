/** Unit conversions of the GPS path (src/gps/fns.rs). Floating-point values are modelled as
    `real`; the great-circle distance (trigonometry over `f64`) is a parameter of the
    operations that use it. */
module Fns {

  const EarthRadiusM: real := 6371000.0
  const FtPerMeter: real := 3.28084
  const FtInAMile: real := 5280.0

  datatype LatLon = LatLon(latitude: real, longitude: real)

  /** `haversine_distance_ft`: the distance in feet between two positions. */
  type Distance = (LatLon, LatLon) -> real

  /** Speed in miles per hour over a segment of `distanceFt` feet covered in `timeSecs`
      seconds; a zero duration gives speed zero instead of dividing by it. */
  function CalculateSpeed(distanceFt: real, timeSecs: real): (mph: real)
    ensures timeSecs == 0.0 ==> mph == 0.0
    ensures timeSecs != 0.0 ==> mph * timeSecs * 22.0 == distanceFt * 15.0
    ensures distanceFt >= 0.0 && timeSecs > 0.0 ==> mph >= 0.0
  {
    var fpsToMph := 3600.0 / FtInAMile;
    if timeSecs == 0.0 then 0.0
    else
      var speedFps := distanceFt / timeSecs;
      speedFps * fpsToMph
  }

  /** `to_feet`: metres to feet at 3.28084 feet per metre. */
  function ToFeet(meters: real): (feet: real)
    ensures meters == 0.0 ==> feet == 0.0
    ensures meters == 1.0 ==> feet == 3.28084
    ensures meters > 0.0 ==> feet > meters
  {
    FtPerMeter * meters
  }

  /** The feet-per-second to miles-per-hour factor 3600/5280 is 15/22: 22 ft/s is 15 mph. */
  lemma SpeedFactor()
    ensures 3600.0 / FtInAMile == 15.0 / 22.0
    ensures CalculateSpeed(22.0, 1.0) == 15.0
    ensures CalculateSpeed(5280.0, 3600.0) == 1.0
  {
  }

  /** `to_feet` is linear, so it is fixed by the length of one metre. */
  lemma ToFeetLinear(a: real, b: real, k: real)
    ensures ToFeet(a + b) == ToFeet(a) + ToFeet(b)
    ensures ToFeet(k * a) == k * ToFeet(a)
    ensures ToFeet(a) == a * ToFeet(1.0)
  {
  }

  /** Over a fixed duration, speed is proportional to distance: covering more ground in the
      same time never shows a lower speed. */
  lemma SpeedMonotone(d1: real, d2: real, t: real)
    requires d1 <= d2 && t > 0.0
    ensures CalculateSpeed(d1, t) <= CalculateSpeed(d2, t)
  {
    assert d1 / t <= d2 / t;
  }
}
