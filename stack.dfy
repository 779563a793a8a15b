/** The trip aggregator of src/gps/stack.rs: a ring buffer of the last sixteen accepted fixes
    and the running distance, segment and speed figures, behind a three-stage filter (time
    since the previous fix, HDOP, distance moved). */
module Stack {
  import opened Common
  import opened Chrono
  import opened Fns
  import opened Reader

  /** Capacity of the `Deque`. */
  const MaxItems: nat := 16

  /** Fixes with an HDOP at or above this are not counted towards the distance. */
  const HdopCeiling: real := 2.0

  /** A fix the aggregator can use: position, HDOP and time are all present. */
  predicate Complete(c: GpsReaderResults) {
    c.lat.Some? && c.lon.Some? && c.hdop.Some? && c.timestamp.Some?
  }

  /** `ring_buffer_push`: the newest `MaxItems` of the stack followed by `item`. */
  function RingPush(s: seq<GpsReaderResults>, item: GpsReaderResults): (r: seq<GpsReaderResults>)
    requires |s| <= MaxItems
    ensures |r| == if |s| < MaxItems then |s| + 1 else MaxItems
    ensures r == Newest(s + [item], MaxItems)
    ensures r[|r| - 1] == item
  {
    if |s| < MaxItems then s + [item] else s[1..] + [item]
  }

  /** Pushing a complete fix keeps the buffer free of incomplete ones. */
  lemma RingPushComplete(s: seq<GpsReaderResults>, item: GpsReaderResults)
    requires |s| <= MaxItems && Complete(item)
    requires forall i :: 0 <= i < |s| ==> Complete(s[i])
    ensures forall i :: 0 <= i < |RingPush(s, item)| ==> Complete(RingPush(s, item)[i])
  {
    var r := RingPush(s, item);
    forall i | 0 <= i < |r|
      ensures Complete(r[i])
    {
      if |s| < MaxItems {
        assert r[i] == (s + [item])[i];
      } else {
        assert r[i] == (s + [item])[i + 1];
      }
    }
  }

  /** Pushing `items` one after another. */
  function RingPushAll(s: seq<GpsReaderResults>, items: seq<GpsReaderResults>): (r: seq<GpsReaderResults>)
    requires |s| <= MaxItems
    ensures |r| <= MaxItems
    decreases |items|
  {
    if items == [] then s else RingPushAll(RingPush(s, items[0]), items[1..])
  }

  /** The newest `n` of `s` (all of `s` when it is shorter). */
  function Newest(s: seq<GpsReaderResults>, n: nat): (r: seq<GpsReaderResults>)
    ensures |r| == if |s| < n then |s| else n
  {
    if |s| <= n then s else s[|s| - n..]
  }

  /** FIFO eviction: after any run of pushes the buffer holds the newest sixteen of
      everything pushed, oldest first. */
  lemma {:induction false} RingPushAllKeepsNewest(s: seq<GpsReaderResults>, items: seq<GpsReaderResults>)
    requires |s| <= MaxItems
    ensures RingPushAll(s, items) == Newest(s + items, MaxItems)
    decreases |items|
  {
    if items == [] {
      assert s + items == s;
    } else {
      var a := s + [items[0]];
      var s' := RingPush(s, items[0]);
      RingPushAllKeepsNewest(s', items[1..]);
      NewestOfNewest(a, items[1..]);
      MoveFirst(s, items);
    }
  }

  lemma MoveFirst(s: seq<GpsReaderResults>, items: seq<GpsReaderResults>)
    requires items != []
    ensures s + [items[0]] + items[1..] == s + items
  {
    assert items == [items[0]] + items[1..];
  }

  lemma NewestOfNewest(a: seq<GpsReaderResults>, b: seq<GpsReaderResults>)
    requires 1 <= |a| <= MaxItems + 1
    ensures Newest(Newest(a, MaxItems) + b, MaxItems) == Newest(a + b, MaxItems)
  {
    if |a| == MaxItems + 1 {
      var a' := a[1..];
      assert Newest(a, MaxItems) == a';
      var x := a' + b;
      var y := a + b;
      assert |y| == |x| + 1;
      assert forall i :: 0 <= i < |x| ==> x[i] == y[i + 1];
    }
  }

  /** The state of a `GeoStack`. */
  datatype GeoState = GeoState(
    stack: seq<GpsReaderResults>,
    lastSegmentDistance: real,
    totalDistance: real,
    currentSpeedMph: real,
    currentHdop: real,
    minTimeIntervalMs: int,
    minDistanceThreshold: real)

  /** What every reachable state satisfies: the buffer is within capacity and holds only
      complete fixes, and the total and threshold are not negative. */
  predicate Sound(s: GeoState) {
    |s.stack| <= MaxItems &&
    (forall i :: 0 <= i < |s.stack| ==> Complete(s.stack[i])) &&
    s.totalDistance >= 0.0 && s.minDistanceThreshold >= 0.0
  }

  /** The previous fix, when there is one and it has position and time. */
  predicate HasPrevious(s: GeoState) {
    s.stack != [] &&
    var last := s.stack[|s.stack| - 1];
    last.lat.Some? && last.lon.Some? && last.timestamp.Some?
  }

  /** Milliseconds from the previous fix to `coords`. */
  function Elapsed(s: GeoState, coords: GpsReaderResults): int
    requires HasPrevious(s) && Complete(coords)
  {
    Since(coords.timestamp.value, s.stack[|s.stack| - 1].timestamp.value)
  }

  /** The segment from the previous fix to `coords`, in feet. */
  function Segment(s: GeoState, coords: GpsReaderResults, dist: Distance): real
    requires HasPrevious(s) && Complete(coords)
  {
    var last := s.stack[|s.stack| - 1];
    dist(LatLon(last.lat.value, last.lon.value), LatLon(coords.lat.value, coords.lon.value))
  }

  /** The fix arrived sooner than the minimum interval after the previous one. */
  predicate TooSoon(s: GeoState, coords: GpsReaderResults) {
    Complete(coords) && HasPrevious(s) && Elapsed(s, coords) < s.minTimeIntervalMs
  }

  /** The fix passes all three filters and moves the aggregates. */
  predicate Accepted(s: GeoState, coords: GpsReaderResults, dist: Distance) {
    Complete(coords) && HasPrevious(s) && !TooSoon(s, coords) &&
    coords.hdop.value < HdopCeiling && Segment(s, coords, dist) > s.minDistanceThreshold
  }

  /** `add_coords` as a state transition. */
  function NextState(s: GeoState, coords: GpsReaderResults, dist: Distance): (r: GeoState)
    requires |s.stack| <= MaxItems
    ensures |r.stack| <= MaxItems
    ensures !Complete(coords) ==> r == s
    ensures Complete(coords) ==> r.currentHdop == coords.hdop.value
    ensures TooSoon(s, coords) ==> r == s.(currentHdop := coords.hdop.value)
  {
    if !Complete(coords) then s
    else
      var hdop := coords.hdop.value;
      var s1 := s.(currentHdop := hdop);
      if !HasPrevious(s) then s1.(stack := RingPush(s.stack, coords))
      else
        var dt := Elapsed(s, coords);
        if dt < s.minTimeIntervalMs then s1
        else if hdop < HdopCeiling && Segment(s, coords, dist) > s.minDistanceThreshold then
          var d := Segment(s, coords, dist);
          s1.(stack := RingPush(RingPush(s.stack, coords), coords),
              lastSegmentDistance := d,
              totalDistance := s.totalDistance + d,
              currentSpeedMph := CalculateSpeed(d, dt as real / 1000.0))
        else s1.(stack := RingPush(s.stack, coords))
  }

  /** The aggregates move exactly when the fix passes all three filters: then the segment is
      the last segment, is added to the total, and gives the speed over the elapsed time;
      otherwise they stay as they were. The thresholds never change. */
  lemma NextStateAggregates(s: GeoState, coords: GpsReaderResults, dist: Distance)
    requires |s.stack| <= MaxItems
    ensures var r := NextState(s, coords, dist);
      Accepted(s, coords, dist) ==>
        r.lastSegmentDistance == Segment(s, coords, dist) &&
        r.totalDistance == s.totalDistance + Segment(s, coords, dist) &&
        r.currentSpeedMph == CalculateSpeed(Segment(s, coords, dist), Elapsed(s, coords) as real / 1000.0)
    ensures var r := NextState(s, coords, dist);
      !Accepted(s, coords, dist) ==>
        r.lastSegmentDistance == s.lastSegmentDistance && r.totalDistance == s.totalDistance &&
        r.currentSpeedMph == s.currentSpeedMph
    ensures var r := NextState(s, coords, dist);
      r.minTimeIntervalMs == s.minTimeIntervalMs && r.minDistanceThreshold == s.minDistanceThreshold
  {
  }

  /** How often the fix is pushed: twice when it passes all three filters, once when it is
      complete and not too soon (the first fix included), never otherwise. */
  lemma NextStatePushes(s: GeoState, coords: GpsReaderResults, dist: Distance)
    requires |s.stack| <= MaxItems
    ensures var r := NextState(s, coords, dist);
      Accepted(s, coords, dist) ==> r.stack == RingPush(RingPush(s.stack, coords), coords)
    ensures var r := NextState(s, coords, dist);
      Complete(coords) && !TooSoon(s, coords) && !Accepted(s, coords, dist) ==> r.stack == RingPush(s.stack, coords)
    ensures var r := NextState(s, coords, dist);
      !Complete(coords) || TooSoon(s, coords) ==> r.stack == s.stack
  {
  }

  /** Every state `add_coords` reaches from a sound one is sound, and has a total at least
      as large. */
  lemma NextStateSound(s: GeoState, coords: GpsReaderResults, dist: Distance)
    requires Sound(s)
    ensures Sound(NextState(s, coords, dist))
    ensures NextState(s, coords, dist).totalDistance >= s.totalDistance
  {
    var r := NextState(s, coords, dist);
    NextStatePushes(s, coords, dist);
    NextStateAggregates(s, coords, dist);
    if Complete(coords) && !TooSoon(s, coords) {
      RingPushComplete(s.stack, coords);
      if Accepted(s, coords, dist) {
        RingPushComplete(RingPush(s.stack, coords), coords);
      }
    }
  }

  lemma SoundAfter(s: GeoState, coords: GpsReaderResults, dist: Distance)
    requires |s.stack| <= MaxItems
    ensures Sound(s) ==> Sound(NextState(s, coords, dist))
  {
    if Sound(s) {
      NextStateSound(s, coords, dist);
    }
  }

  /** `add_coords` over a run of fixes. */
  function NextStates(s: GeoState, fixes: seq<GpsReaderResults>, dist: Distance): (r: GeoState)
    requires Sound(s)
    ensures Sound(r)
    decreases |fixes|
  {
    if fixes == [] then s
    else
      NextStateSound(s, fixes[0], dist);
      NextStates(NextState(s, fixes[0], dist), fixes[1..], dist)
  }

  /** The total distance never goes down, whatever the fixes and whatever the distance
      function reports. */
  lemma {:induction false} TotalNeverDecreases(s: GeoState, fixes: seq<GpsReaderResults>, dist: Distance)
    requires Sound(s)
    ensures NextStates(s, fixes, dist).totalDistance >= s.totalDistance
    decreases |fixes|
  {
    if fixes != [] {
      NextStateSound(s, fixes[0], dist);
      TotalNeverDecreases(NextState(s, fixes[0], dist), fixes[1..], dist);
    }
  }

  /** The total is the sum of the accepted segments. */
  function AcceptedDistance(s: GeoState, fixes: seq<GpsReaderResults>, dist: Distance): real
    requires Sound(s)
    decreases |fixes|
  {
    if fixes == [] then 0.0
    else
      NextStateSound(s, fixes[0], dist);
      (if Accepted(s, fixes[0], dist) then Segment(s, fixes[0], dist) else 0.0)
      + AcceptedDistance(NextState(s, fixes[0], dist), fixes[1..], dist)
  }

  lemma {:induction false} TotalIsAcceptedDistance(s: GeoState, fixes: seq<GpsReaderResults>, dist: Distance)
    requires Sound(s)
    ensures NextStates(s, fixes, dist).totalDistance == s.totalDistance + AcceptedDistance(s, fixes, dist)
    decreases |fixes|
  {
    if fixes != [] {
      NextStateSound(s, fixes[0], dist);
      NextStateAggregates(s, fixes[0], dist);
      TotalIsAcceptedDistance(NextState(s, fixes[0], dist), fixes[1..], dist);
    }
  }

  class GeoStack {
    var stack: seq<GpsReaderResults>
    var lastSegmentDistance: real
    var totalDistance: real
    var currentSpeedMph: real
    var currentHdop: real
    var minTimeIntervalMs: int
    var minDistanceThreshold: real

    function State(): GeoState
      reads this
    {
      GeoState(stack, lastSegmentDistance, totalDistance, currentSpeedMph, currentHdop,
               minTimeIntervalMs, minDistanceThreshold)
    }

    ghost predicate Valid()
      reads this
    {
      Sound(State())
    }

    /** `GeoStack::new`: empty, zero aggregates, 1000 ms and 1 ft thresholds. */
    constructor ()
      ensures Valid()
      ensures State() == GeoState([], 0.0, 0.0, 0.0, 0.0, 1000, 1.0)
    {
      stack := [];
      lastSegmentDistance := 0.0;
      totalDistance := 0.0;
      currentSpeedMph := 0.0;
      currentHdop := 0.0;
      minTimeIntervalMs := 1000;
      minDistanceThreshold := 1.0;
    }

    method RingBufferPush(item: GpsReaderResults)
      requires |stack| <= MaxItems
      modifies this
      ensures State() == old(State()).(stack := RingPush(old(stack), item))
    {
      if |stack| < MaxItems {
        stack := stack + [item];
      } else {
        stack := stack[1..];
        stack := stack + [item];
      }
    }

    /** `add_coords`; `dist` is the great-circle distance in feet. */
    method AddCoords(coords: GpsReaderResults, dist: Distance)
      requires |stack| <= MaxItems
      modifies this
      ensures old(Valid()) ==> Valid()
      ensures State() == NextState(old(State()), coords, dist)
    {
      ghost var s := State();
      SoundAfter(s, coords, dist);
      if coords.lat.Some? && coords.lon.Some? && coords.hdop.Some? && coords.timestamp.Some? {
        var newLat, newLon, hdop, newTimestamp := coords.lat.value, coords.lon.value, coords.hdop.value, coords.timestamp.value;
        currentHdop := hdop;
        if stack != [] {
          var lastCoord := stack[|stack| - 1];
          if lastCoord.lat.Some? && lastCoord.lon.Some? && lastCoord.timestamp.Some? {
            assert HasPrevious(s);
            var timeDelta := Since(newTimestamp, lastCoord.timestamp.value);
            assert timeDelta == Elapsed(s, coords);
            if timeDelta < minTimeIntervalMs {
              assert State() == NextState(s, coords, dist);
              return;
            }
            if hdop < HdopCeiling {
              var distanceSegmentFt := dist(LatLon(lastCoord.lat.value, lastCoord.lon.value), LatLon(newLat, newLon));
              assert distanceSegmentFt == Segment(s, coords, dist);
              if distanceSegmentFt > minDistanceThreshold {
                RingBufferPush(coords);
                lastSegmentDistance := distanceSegmentFt;
                totalDistance := totalDistance + distanceSegmentFt;
                currentSpeedMph := CalculateSpeed(distanceSegmentFt, timeDelta as real / 1000.0);
              }
            }
          }
        }
        RingBufferPush(coords);
      }
      assert State() == NextState(s, coords, dist);
    }
  }

  /** Consecutive entries of the buffer are at least the minimum interval apart. */
  predicate Spaced(stack: seq<GpsReaderResults>, minInterval: int) {
    forall i :: 0 < i < |stack| ==> Apart(stack[i - 1], stack[i], minInterval)
  }

  /** `later` is timed at least `minInterval` after `earlier`. */
  predicate Apart(earlier: GpsReaderResults, later: GpsReaderResults, minInterval: int) {
    earlier.timestamp.Some? && later.timestamp.Some? &&
    Since(later.timestamp.value, earlier.timestamp.value) >= minInterval
  }

  /** As written, a fix that passes all three filters goes into the buffer twice, so the
      buffer holds two entries zero milliseconds apart, which the time filter exists to
      rule out. */
  lemma AcceptedFixStoredTwice(dist: Distance)
    requires dist(LatLon(0.0, 0.0), LatLon(0.0, 1.0)) == 10.0
    ensures var f0 := GpsReaderResults(Some(0.0), Some(0.0), None, Some(1.0), Some(0));
      var f1 := GpsReaderResults(Some(0.0), Some(1.0), None, Some(1.0), Some(1000));
      var s := GeoState([f0], 0.0, 0.0, 0.0, 1.0, 1000, 1.0);
      var r := NextState(s, f1, dist);
      Spaced(s.stack, 1000) && r.stack == [f0, f1, f1] && !Spaced(r.stack, 1000)
  {
    var f0 := GpsReaderResults(Some(0.0), Some(0.0), None, Some(1.0), Some(0));
    var f1 := GpsReaderResults(Some(0.0), Some(1.0), None, Some(1.0), Some(1000));
    var s := GeoState([f0], 0.0, 0.0, 0.0, 1.0, 1000, 1.0);
    assert HasPrevious(s) && Elapsed(s, f1) == 1000 && Segment(s, f1, dist) == 10.0;
    assert Accepted(s, f1, dist);
    NextStatePushes(s, f1, dist);
    assert RingPush([f0], f1) == [f0, f1];
    assert RingPush([f0, f1], f1) == [f0, f1, f1];
    assert !Apart(f1, f1, 1000);
    var r := NextState(s, f1, dist);
    assert r.stack[1] == f1 && r.stack[2] == f1;
  }

  /** `add_coords` with each accepted fix stored once. */
  function NextStateOnce(s: GeoState, coords: GpsReaderResults, dist: Distance): (r: GeoState)
    requires |s.stack| <= MaxItems
    ensures Accepted(s, coords, dist) ==>
      r == NextState(s, coords, dist).(stack := RingPush(s.stack, coords))
    ensures !Accepted(s, coords, dist) ==> r == NextState(s, coords, dist)
  {
    var r := NextState(s, coords, dist);
    if Accepted(s, coords, dist) then r.(stack := RingPush(s.stack, coords)) else r
  }

  /** Dropping the oldest entries keeps the buffer spaced. */
  lemma SpacedSuffix(stack: seq<GpsReaderResults>, k: nat, minInterval: int)
    requires k <= |stack|
    requires forall i :: 0 <= i < |stack| ==> Complete(stack[i])
    requires Spaced(stack, minInterval)
    ensures forall i :: 0 <= i < |stack[k..]| ==> Complete(stack[k..][i])
    ensures Spaced(stack[k..], minInterval)
  {
    var t := stack[k..];
    forall i | 0 < i < |t|
      ensures Since(t[i].timestamp.value, t[i - 1].timestamp.value) >= minInterval
    {
      assert t[i] == stack[k + i] && t[i - 1] == stack[k + i - 1];
    }
  }

  /** With each accepted fix stored once, the buffer stays spaced by the minimum interval:
      every fix it receives is the first, or comes at least that long after the newest. */
  lemma NextStateOnceKeepsSpacing(s: GeoState, coords: GpsReaderResults, dist: Distance)
    requires Sound(s) && Spaced(s.stack, s.minTimeIntervalMs)
    ensures Sound(NextStateOnce(s, coords, dist))
    ensures Spaced(NextStateOnce(s, coords, dist).stack, s.minTimeIntervalMs)
  {
    var r := NextStateOnce(s, coords, dist);
    if Complete(coords) && !TooSoon(s, coords) {
      assert r.stack == RingPush(s.stack, coords);
      var n := |s.stack|;
      var grown := s.stack + [coords];
      assert forall i :: 0 <= i < |grown| ==> Complete(grown[i]);
      assert Spaced(grown, s.minTimeIntervalMs) by {
        forall i | 0 < i < |grown|
          ensures Since(grown[i].timestamp.value, grown[i - 1].timestamp.value) >= s.minTimeIntervalMs
        {
          if i < n {
            assert grown[i] == s.stack[i] && grown[i - 1] == s.stack[i - 1];
          } else {
            assert HasPrevious(s);
            assert grown[i - 1] == s.stack[n - 1];
          }
        }
      }
      SpacedSuffix(grown, |grown| - |r.stack|, s.minTimeIntervalMs);
    }
  }
}
