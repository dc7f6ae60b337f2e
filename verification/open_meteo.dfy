/** The pure parts of the Open-Meteo client: the request a fetch would make
    (after validating its arguments), the choice of the hour nearest to a
    target time, and the two-rule calima flag of the current datapoint. The
    HTTP exchange itself is not modelled; the fetched hourly series is an
    input. */
module OpenMeteo {
  import opened Wrappers
  import opened Classifier

  /** The supported sites and their (latitude, longitude). */
  const Locations: map<string, (real, real)> := map[
    "santa_cruz" := (28.4636, -16.2518),
    "puerto_de_la_cruz" := (28.4140, -16.5449),
    "adeje" := (28.1227, -16.7260)
  ]

  /** The most past days the history endpoint serves. */
  const MaxPastDays: int := 90

  /** The hourly variables every request asks for. */
  const HourlyVariables: string := "pm10,pm2_5,dust,aerosol_optical_depth"

  /** The query parameters of a request. */
  datatype Request = Request(
    latitude: real,
    longitude: real,
    hourly: string,
    pastDays: int,
    forecastDays: int,
    timezone: string)

  /** The ValueErrors raised before any request is made, and the ones raised
      while picking the current datapoint. */
  datatype ApiError =
    | UnknownLocation   // the name is not a key of `Locations`
    | TooManyDays       // more than `MaxPastDays` past days requested
    | EmptySeries       // `min` of an empty list of distances
    | MissingReading    // a reading list shorter than the time list

  /** The request for `days` past days of history, or the error that stops
      it: an unknown location is reported first, then too many days. */
  function HistoryRequest(location: string, days: int): (r: Result<Request, ApiError>)
    ensures r == Err(UnknownLocation) <==> location !in Locations
    ensures r == Err(TooManyDays) <==> location in Locations && days > MaxPastDays
    ensures r.Ok? ==>
              && location in Locations && days <= MaxPastDays
              && (r.value.latitude, r.value.longitude) == Locations[location]
              && r.value.hourly == HourlyVariables
              && r.value.pastDays == days && r.value.forecastDays == 0
              && r.value.timezone == "UTC"
  {
    if location !in Locations then Err(UnknownLocation)
    else if days > MaxPastDays then Err(TooManyDays)
    else
      var (lat, lon) := Locations[location];
      Ok(Request(lat, lon, HourlyVariables, days, 0, "UTC"))
  }

  /** The request for the recent window: the past 2 days and the next 3. */
  function UpdateRequest(location: string): (r: Result<Request, ApiError>)
    ensures r.Err? <==> location !in Locations
    ensures r.Err? ==> r.error == UnknownLocation
    ensures r.Ok? ==>
              && (r.value.latitude, r.value.longitude) == Locations[location]
              && r.value.hourly == HourlyVariables
              && r.value.pastDays == 2 && r.value.forecastDays == 3
              && r.value.timezone == "UTC"
  {
    if location !in Locations then Err(UnknownLocation)
    else
      var (lat, lon) := Locations[location];
      Ok(Request(lat, lon, HourlyVariables, 2, 3, "UTC"))
  }

  /** The distance between two instants, in seconds. */
  function Distance(t: int, target: int): nat
  {
    if t >= target then t - target else target - t
  }

  /** Position `i` is the nearest to `target`, and the first such. */
  predicate FirstNearest(times: seq<int>, target: int, i: nat)
  {
    && i < |times|
    && (forall k :: 0 <= k < |times| ==> Distance(times[i], target) <= Distance(times[k], target))
    && (forall k :: 0 <= k < i ==> Distance(times[k], target) > Distance(times[i], target))
  }

  /** At most one position is the first nearest. */
  lemma FirstNearestUnique(times: seq<int>, target: int, i: nat, j: nat)
    requires FirstNearest(times, target, i) && FirstNearest(times, target, j)
    ensures i == j
  {
    assert Distance(times[i], target) <= Distance(times[j], target);
    assert Distance(times[j], target) <= Distance(times[i], target);
  }

  /** The index of the time nearest to `target`, as the source computes it:
      the list of distances, its minimum (None for an empty list, where
      `min` raises), then the first index holding that minimum. */
  method NearestIndex(times: seq<int>, target: int) returns (r: Option<nat>)
    ensures r.None? <==> |times| == 0
    ensures r.Some? ==> FirstNearest(times, target, r.value)
  {
    if |times| == 0 {
      return None;
    }
    var diffs := seq(|times|, k requires 0 <= k < |times| => Distance(times[k], target));
    var least := diffs[0];
    for k := 1 to |diffs|
      invariant forall n :: 0 <= n < k ==> least <= diffs[n]
      invariant exists n :: 0 <= n < k && least == diffs[n]
    {
      if diffs[k] < least {
        least := diffs[k];
      }
    }
    var i := 0;
    while diffs[i] != least
      invariant 0 <= i < |diffs|
      invariant forall n :: 0 <= n < i ==> diffs[n] != least
      invariant exists n :: i <= n < |diffs| && least == diffs[n]
      decreases |diffs| - i
    {
      i := i + 1;
    }
    assert forall n :: 0 <= n < |diffs| ==> diffs[n] == Distance(times[n], target);
    return Some(i);
  }

  /** The flag of the current datapoint: very high dust, or the PM10 plus
      aerosol-optical-depth signature. The PM2.5 rule is not applied. */
  function CurrentPointIsCalima(pm10: Option<real>, dust: Option<real>, aod: Option<real>): (r: bool)
    ensures r <==> DustRule(dust) || Pm10AodRule(pm10, aod)
    ensures dust.None? && aod.None? ==> !r
  {
    (dust.Some? && dust.value > 150.0)
    || (pm10.Some? && pm10.value > 50.0 && aod.Some? && aod.value > 0.5)
  }

  /** Whenever the current-point flag is raised, the detector's classifier
      agrees on the same readings, whatever PM2.5 is. */
  lemma CurrentPointImpliesDetector(pm10: Option<real>, pm25: Option<real>,
                                    dust: Option<real>, aod: Option<real>)
    requires CurrentPointIsCalima(pm10, dust, aod)
    ensures IsCalimaFromValues(pm10, pm25, dust, aod)
  {
  }

  /** The two flags differ only through the PM2.5 rule. */
  lemma CurrentPointAgreesWithoutPm25Rule(pm10: Option<real>, pm25: Option<real>,
                                          dust: Option<real>, aod: Option<real>)
    ensures CurrentPointIsCalima(pm10, dust, aod) == IsCalimaFromValues(pm10, pm25, dust, aod)
            || (Pm25Pm10Rule(pm25, pm10) && !CurrentPointIsCalima(pm10, dust, aod))
  {
  }

  /** The converse fails: an hour the detector classifies as calima through
      the PM2.5 rule alone is not flagged at the current point. */
  lemma DetectorDoesNotImplyCurrentPoint()
    ensures IsCalimaFromValues(Some(61.0), Some(36.0), None, None)
    ensures !CurrentPointIsCalima(Some(61.0), None, None)
  {
  }

  /** The hourly series a fetch returns: parallel lists of times (in
      seconds) and optional readings. */
  datatype Hourly = Hourly(
    time: seq<int>,
    pm10: seq<Option<real>>,
    pm25: seq<Option<real>>,
    dust: seq<Option<real>>,
    aod: seq<Option<real>>)

  /** A datapoint picked from a series, with its flag. */
  datatype CurrentPoint = CurrentPoint(
    location: string,
    time: int,
    pm10: Option<real>,
    pm25: Option<real>,
    dust: Option<real>,
    aod: Option<real>,
    isCalima: bool)

  /** The datapoint of `aq` nearest to `now`, flagged by the current-point
      rule. The fetch validates the location first; an empty series and a
      reading list too short to hold the chosen hour are errors. */
  method GetCurrentPoint(location: string, aq: Hourly, now: int) returns (r: Result<CurrentPoint, ApiError>)
    ensures r == Err(UnknownLocation) <==> location !in Locations
    ensures r == Err(EmptySeries) <==> location in Locations && |aq.time| == 0
    ensures (&& location in Locations && |aq.time| > 0
             && |aq.time| <= |aq.pm10| && |aq.time| <= |aq.pm25|
             && |aq.time| <= |aq.dust| && |aq.time| <= |aq.aod|) ==> r.Ok?
    ensures r.Ok? ==>
              exists i: nat ::
                && FirstNearest(aq.time, now, i)
                && i < |aq.pm10| && i < |aq.pm25| && i < |aq.dust| && i < |aq.aod|
                && r.value == CurrentPoint(location, aq.time[i], aq.pm10[i], aq.pm25[i],
                                           aq.dust[i], aq.aod[i],
                                           CurrentPointIsCalima(aq.pm10[i], aq.dust[i], aq.aod[i]))
  {
    var request := UpdateRequest(location);
    if request.Err? {
      return Err(request.error);
    }
    var nearest := NearestIndex(aq.time, now);
    if nearest.None? {
      return Err(EmptySeries);
    }
    var i := nearest.value;
    if i >= |aq.pm10| || i >= |aq.pm25| || i >= |aq.dust| || i >= |aq.aod| {
      return Err(MissingReading);
    }
    var pm10, pm25, dust, aod := aq.pm10[i], aq.pm25[i], aq.dust[i], aq.aod[i];
    var isCalima := (dust.Some? && dust.value > 150.0)
                    || (pm10.Some? && pm10.value > 50.0 && aod.Some? && aod.value > 0.5);
    return Ok(CurrentPoint(location, aq.time[i], pm10, pm25, dust, aod, isCalima));
  }
}
