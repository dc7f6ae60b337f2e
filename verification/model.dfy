/** The persisted schema: locations, hourly measurements with their embedded
    readings, and calima events; the store holding them as one value; the
    unique indexes and references the database enforces; and the cascade a
    location's deletion triggers. */
module Model {
  import opened Wrappers
  import opened Sorting

  /** Timestamps are whole hours counted from 0001-01-01T00:00 UTC (Python's
      `datetime.min`). The last hour is the one holding `datetime.max`
      (9999-12-31T23:59:59.999999), so every hour is at or before it. */
  const MaxHour: int := 87649415

  type Hour = h: int | 0 <= h <= MaxHour

  /** A measurement site. `createdAt` is a clock reading. */
  datatype AirLocation = AirLocation(name: string, latitude: real, longitude: real, createdAt: int)

  /** One hour of readings. Every reading is optional (a missing value is
      "not measured", not zero); the timestamp is required. */
  datatype AirQualityData = AirQualityData(
    timestamp: Hour,
    pm10: Option<real>,
    pm25: Option<real>,
    dust: Option<real>,
    aod: Option<real>,
    isCalima: bool)

  /** A stored hourly measurement: a document id, the referenced location
      (by its unique name) and the embedded readings. */
  datatype AirMeasurement = AirMeasurement(id: nat, location: string, data: AirQualityData)

  /** A stored calima episode. Start and end are required; the peaks are
      nullable fields of the document. */
  datatype CalimaEvent = CalimaEvent(
    id: nat,
    location: string,
    startTime: Hour,
    endTime: Hour,
    peakPm10: Option<real>,
    peakDust: Option<real>,
    peakAod: Option<real>)

  /** The database as a value. `nextId` is the next document id to hand out. */
  datatype Store = Store(
    locations: seq<AirLocation>,
    measurements: seq<AirMeasurement>,
    events: seq<CalimaEvent>,
    nextId: nat)

  /** The readings of an hour built without an explicit flag: the flag
      takes its default, not calima. */
  function NewReading(timestamp: Hour, pm10: Option<real>, pm25: Option<real>,
                      dust: Option<real>, aod: Option<real>): (r: AirQualityData)
    ensures !r.isCalima
    ensures r.timestamp == timestamp
    ensures r.pm10 == pm10 && r.pm25 == pm25 && r.dust == dust && r.aod == aod
  {
    AirQualityData(timestamp, pm10, pm25, dust, aod, false)
  }

  function LocationName(l: AirLocation): string { l.name }

  function MeasurementId(m: AirMeasurement): nat { m.id }

  function MeasurementTime(m: AirMeasurement): int { m.data.timestamp }

  function EventId(e: CalimaEvent): nat { e.id }

  /** The key of the unique index on (location, data.timestamp). */
  function ReadingKey(m: AirMeasurement): (string, int) { (m.location, m.data.timestamp) }

  /** A location of that name exists. */
  predicate Known(s: Store, name: string)
  {
    exists l :: l in s.locations && l.name == name
  }

  /** Some measurement of `loc` is stamped `t`. */
  predicate HasReadingAt(s: Store, loc: string, t: int)
  {
    exists m :: m in s.measurements && m.location == loc && m.data.timestamp == t
  }

  /** What the database guarantees of every state: unique location names,
      at most one measurement per (location, timestamp), unique measurement
      ids and unique event ids, every reference resolving to a location, and
      ids below `nextId`. */
  predicate Valid(s: Store)
  {
    && DistinctKeys(s.locations, LocationName)
    && DistinctKeys(s.measurements, ReadingKey)
    && DistinctKeys(s.measurements, MeasurementId)
    && DistinctKeys(s.events, EventId)
    && (forall m :: m in s.measurements ==> Known(s, m.location) && m.id < s.nextId)
    && (forall e :: e in s.events ==> Known(s, e.location) && e.id < s.nextId)
  }

  /** Every stored event covers at least three hourly samples: with strictly
      increasing whole-hour stamps, its end is at least two hours after its
      start. */
  predicate EventsSpanThreeHours(s: Store)
  {
    forall e :: e in s.events ==> e.startTime + 2 <= e.endTime
  }

  /** Deleting a location cascades: every measurement and every event that
      references it goes with it, and nothing else is removed. */
  function DeleteLocation(s: Store, name: string): (r: Store)
    ensures !Known(r, name)
    ensures forall l :: l in r.locations <==> l in s.locations && l.name != name
    ensures forall m :: m in r.measurements <==> m in s.measurements && m.location != name
    ensures forall e :: e in r.events <==> e in s.events && e.location != name
    ensures r.nextId == s.nextId
    ensures Valid(s) ==> Valid(r)
    ensures EventsSpanThreeHours(s) ==> EventsSpanThreeHours(r)
  {
    var r := Store(
      Filter(s.locations, (l: AirLocation) => l.name != name),
      Filter(s.measurements, (m: AirMeasurement) => m.location != name),
      Filter(s.events, (e: CalimaEvent) => e.location != name),
      s.nextId);
    assert Valid(s) ==> Valid(r) by {
      if Valid(s) {
        FilterDistinct(s.locations, (l: AirLocation) => l.name != name, LocationName);
        FilterDistinct(s.measurements, (m: AirMeasurement) => m.location != name, ReadingKey);
        FilterDistinct(s.measurements, (m: AirMeasurement) => m.location != name, MeasurementId);
        FilterDistinct(s.events, (e: CalimaEvent) => e.location != name, EventId);
        forall m | m in r.measurements ensures Known(r, m.location) {
          var l :| l in s.locations && l.name == m.location;
          assert l in r.locations;
        }
        forall e | e in r.events ensures Known(r, e.location) {
          var l :| l in s.locations && l.name == e.location;
          assert l in r.locations;
        }
      }
    }
    r
  }
}
