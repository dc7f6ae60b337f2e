/** The hour-level calima heuristic: a total rule over four optional
    readings, and its application to a stored measurement. */
module Classifier {
  import opened Wrappers
  import opened Model

  /** The reading is present and strictly above `threshold`. An absent
      reading fails every comparison it takes part in. */
  predicate Exceeds(v: Option<real>, threshold: real)
  {
    v.Some? && v.value > threshold
  }

  /** Very high dust. */
  predicate DustRule(dust: Option<real>)
  {
    Exceeds(dust, 150.0)
  }

  /** The PM10 plus aerosol-optical-depth signature. */
  predicate Pm10AodRule(pm10: Option<real>, aod: Option<real>)
  {
    Exceeds(pm10, 50.0) && Exceeds(aod, 0.5)
  }

  /** PM2.5 together with PM10, as in stronger episodes. */
  predicate Pm25Pm10Rule(pm25: Option<real>, pm10: Option<real>)
  {
    Exceeds(pm25, 35.0) && Exceeds(pm10, 60.0)
  }

  /** Classifies one hour, trying the rules in order: calima exactly when
      one of the three rules holds. */
  function IsCalimaFromValues(pm10: Option<real>, pm25: Option<real>,
                              dust: Option<real>, aod: Option<real>): (r: bool)
    ensures r <==> DustRule(dust) || Pm10AodRule(pm10, aod) || Pm25Pm10Rule(pm25, pm10)
  {
    if dust.Some? && dust.value > 150.0 then true
    else if pm10.Some? && pm10.value > 50.0 && aod.Some? && aod.value > 0.5 then true
    else if pm25.Some? && pm25.value > 35.0 && pm10.Some? && pm10.value > 60.0 then true
    else false
  }

  /** Classifies a stored hour from its raw readings alone. */
  function IsHourCalima(m: AirMeasurement): (r: bool)
    ensures r == IsCalimaFromValues(m.data.pm10, m.data.pm25, m.data.dust, m.data.aod)
  {
    var d := m.data;
    IsCalimaFromValues(d.pm10, d.pm25, d.dust, d.aod)
  }

  /** The stored flag, the timestamp, the id and the location play no part:
      two hours with the same four readings classify alike. */
  lemma HourIgnoresStoredFlag(m: AirMeasurement, n: AirMeasurement)
    requires m.data.pm10 == n.data.pm10 && m.data.pm25 == n.data.pm25
    requires m.data.dust == n.data.dust && m.data.aod == n.data.aod
    ensures IsHourCalima(m) == IsHourCalima(n)
  {
  }

  /** With nothing measured, no rule can fire. */
  lemma AllAbsentIsNotCalima()
    ensures !IsCalimaFromValues(None, None, None, None)
  {
  }

  /** The thresholds are strict: each boundary value is not calima, and a
      value above it is. */
  lemma ThresholdBoundaries()
    ensures IsCalimaFromValues(None, None, Some(151.0), None)
    ensures !IsCalimaFromValues(None, None, Some(150.0), None)
    ensures IsCalimaFromValues(Some(51.0), None, None, Some(0.51))
    ensures !IsCalimaFromValues(Some(51.0), None, None, Some(0.5))
    ensures !IsCalimaFromValues(Some(50.0), None, None, Some(0.9))
    ensures IsCalimaFromValues(Some(61.0), Some(36.0), None, None)
    ensures !IsCalimaFromValues(Some(60.0), Some(36.0), None, None)
    ensures !IsCalimaFromValues(Some(61.0), Some(35.0), None, None)
  {
  }

  /** `a` is at least `b` as evidence: `b` is absent, or both are present
      and `a` is not smaller. */
  predicate AtLeast(a: Option<real>, b: Option<real>)
  {
    b.None? || (a.Some? && a.value >= b.value)
  }

  /** More evidence never withdraws a calima verdict: raising readings, or
      supplying missing ones, keeps an hour calima. */
  lemma MonotoneInReadings(pm10: Option<real>, pm25: Option<real>, dust: Option<real>, aod: Option<real>,
                           pm10': Option<real>, pm25': Option<real>, dust': Option<real>, aod': Option<real>)
    requires AtLeast(pm10', pm10) && AtLeast(pm25', pm25) && AtLeast(dust', dust) && AtLeast(aod', aod)
    requires IsCalimaFromValues(pm10, pm25, dust, aod)
    ensures IsCalimaFromValues(pm10', pm25', dust', aod')
  {
  }
}
