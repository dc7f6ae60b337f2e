/** The command side (writes) and the query side (reads) of the measurement
    repository, as operations on a store value. A write returns the new
    store with what the source returns; a query only reads. Every operation
    that looks a location up by name is a no-op for a name no location
    carries: None, [] or 0. */
module Repository {
  import opened Wrappers
  import opened Sorting
  import opened Model

  /** The store after a write, with the value the write returns. */
  datatype Written<T> = Written(store: Store, value: T)

  /** The exceptions the command side raises. */
  datatype RepoError =
    | NotUnique      // a unique index would be violated (NotUniqueError)
    | NotFound       // no measurement with that id (ValueError "not found")
    | NoValidFields  // an update naming no non-None field (ValueError)

  // ------------------------------------------------------------------
  // Command side
  // ------------------------------------------------------------------

  /** Creates a location stamped with the clock reading of the call. A name
      already in use violates the unique index on names. */
  function AddLocation(s: Store, name: string, lat: real, lon: real, now: int)
    : (r: Result<Written<AirLocation>, RepoError>)
    ensures r.Err? <==> Known(s, name)
    ensures r.Err? ==> r.error == NotUnique
    ensures r.Ok? ==>
              var l := r.value.value;
              && l.name == name && l.latitude == lat && l.longitude == lon
              && l.createdAt == now
              && Known(r.value.store, name)
              && r.value.store.locations == s.locations + [l]
              && r.value.store.measurements == s.measurements
              && r.value.store.events == s.events
    ensures r.Ok? && Valid(s) ==> Valid(r.value.store)
  {
    if Known(s, name) then Err(NotUnique)
    else
      var l := AirLocation(name, lat, lon, now);
      var s' := s.(locations := s.locations + [l]);
      assert Valid(s) ==> Valid(s') by {
        if Valid(s) {
          assert forall l' :: l' in s.locations ==> l' in s'.locations;
          DistinctConcat(s.locations, [l], LocationName);
        }
      }
      Ok(Written(s', l))
  }

  /** The location as the source's schema creates it: the default of
      `created_at` is evaluated once, when the class is defined, so every
      location gets that one instant instead of the clock reading `now` of
      its own creation. */
  function AddLocationAsWritten(s: Store, name: string, lat: real, lon: real,
                                now: int, classDefinedAt: int)
    : (r: Result<Written<AirLocation>, RepoError>)
    ensures r.Err? <==> Known(s, name)
    ensures r.Ok? ==> r.value.value.name == name && r.value.value.createdAt == classDefinedAt
  {
    if Known(s, name) then Err(NotUnique)
    else
      var l := AirLocation(name, lat, lon, classDefinedAt);
      Ok(Written(s.(locations := s.locations + [l]), l))
  }

  /** Two locations created at different instants by the schema as written
      carry the same creation time, which is neither of those instants. */
  lemma CreatedAtFrozen(classDefinedAt: int)
    ensures var s0 := Store([], [], [], 0);
            var r1 := AddLocationAsWritten(s0, "adeje", 28.1227, -16.7260, classDefinedAt + 10, classDefinedAt);
            r1.Ok? &&
            var r2 := AddLocationAsWritten(r1.value.store, "santa_cruz", 28.4636, -16.2518, classDefinedAt + 20, classDefinedAt);
            && r2.Ok?
            && r1.value.value.createdAt == r2.value.value.createdAt
            && r1.value.value.createdAt != classDefinedAt + 10
            && r2.value.value.createdAt != classDefinedAt + 20
  {
    var s0 := Store([], [], [], 0);
    var r1 := AddLocationAsWritten(s0, "adeje", 28.1227, -16.7260, classDefinedAt + 10, classDefinedAt);
    assert !Known(r1.value.store, "santa_cruz") by {
      assert r1.value.store.locations == [r1.value.value];
      assert "adeje" != "santa_cruz";
    }
  }

  /** With the creation time taken at each call, locations created at
      different instants carry different creation times. */
  lemma CreatedAtFollowsClock(s: Store, a: string, b: string, now1: int, now2: int)
    requires !Known(s, a) && !Known(s, b) && a != b
    requires now1 != now2
    ensures var r1 := AddLocation(s, a, 0.0, 0.0, now1);
            r1.Ok? &&
            var r2 := AddLocation(r1.value.store, b, 0.0, 0.0, now2);
            && r2.Ok?
            && r1.value.value.createdAt != r2.value.value.createdAt
  {
    var r1 := AddLocation(s, a, 0.0, 0.0, now1);
    assert !Known(r1.value.store, b) by {
      forall l | l in r1.value.store.locations ensures l.name != b {
        if l !in s.locations {
          assert l == r1.value.value;
        }
      }
    }
  }

  /** Inserts one hourly measurement. An unknown location gives None and
      leaves the store as it was; a second measurement for the same
      (location, timestamp) violates the unique index. Otherwise exactly one
      measurement, referencing the location, is added. */
  function AddMeasurement(s: Store, loc: string, data: AirQualityData)
    : (r: Result<Written<Option<AirMeasurement>>, RepoError>)
    ensures !Known(s, loc) ==> r == Ok(Written(s, None))
    ensures r.Err? <==> Known(s, loc) && HasReadingAt(s, loc, data.timestamp)
    ensures r.Err? ==> r.error == NotUnique
    ensures r.Ok? && r.value.value.Some? ==>
              var m := r.value.value.value;
              && m.location == loc && m.data == data
              && r.value.store.measurements == s.measurements + [m]
              && r.value.store.locations == s.locations
              && r.value.store.events == s.events
    ensures r.Ok? && r.value.value.None? ==> r.value.store == s
    ensures r.Ok? && Valid(s) ==> Valid(r.value.store)
  {
    if !Known(s, loc) then Ok(Written(s, None))
    else if HasReadingAt(s, loc, data.timestamp) then Err(NotUnique)
    else
      var m := AirMeasurement(s.nextId, loc, data);
      var s' := s.(measurements := s.measurements + [m], nextId := s.nextId + 1);
      assert Valid(s) ==> Valid(s') by {
        if Valid(s) {
          DistinctConcat(s.measurements, [m], ReadingKey);
          forall i | 0 <= i < |s.measurements| ensures s.measurements[i].id != m.id {
            assert s.measurements[i] in s.measurements;
          }
          DistinctConcat(s.measurements, [m], MeasurementId);
        }
      }
      Ok(Written(s', Some(m)))
  }

  /** The readings' own timestamps. */
  function DataTime(d: AirQualityData): int { d.timestamp }

  /** The documents a bulk insert builds: one per reading, in order, with
      consecutive fresh ids. */
  function Stamp(loc: string, batch: seq<AirQualityData>, firstId: nat): (docs: seq<AirMeasurement>)
    ensures |docs| == |batch|
    ensures forall k :: 0 <= k < |batch| ==>
              docs[k].location == loc && docs[k].data == batch[k] && docs[k].id == firstId + k
  {
    seq(|batch|, k requires 0 <= k < |batch| => AirMeasurement(firstId + k, loc, batch[k]))
  }

  /** The batch cannot be inserted without breaking the unique index on
      (location, timestamp): it repeats a stored hour or one of its own. */
  predicate BatchConflicts(s: Store, loc: string, batch: seq<AirQualityData>)
  {
    || (exists k :: 0 <= k < |batch| && HasReadingAt(s, loc, batch[k].timestamp))
    || !DistinctKeys(batch, DataTime)
  }

  /** Inserts a batch of readings for one location and returns how many were
      inserted: 0 for an unknown location or an empty batch, otherwise the
      batch's length. A batch that breaks the unique index is rejected and
      counted as 0. */
  function BulkAddMeasurements(s: Store, loc: string, batch: seq<AirQualityData>)
    : (r: Written<nat>)
    ensures !Known(s, loc) || |batch| == 0 ==> r == Written(s, 0)
    ensures r.value == 0 ==> r.store == s
    ensures r.value != 0 ==>
              && r.value == |batch|
              && |r.store.measurements| == |s.measurements| + |batch|
              && r.store.measurements[..|s.measurements|] == s.measurements
              && (forall k :: 0 <= k < |batch| ==>
                    var m := r.store.measurements[|s.measurements| + k];
                    m.location == loc && m.data == batch[k])
              && r.store.locations == s.locations
              && r.store.events == s.events
    ensures Known(s, loc) && |batch| > 0 && !BatchConflicts(s, loc, batch) ==> r.value == |batch|
    ensures Valid(s) ==> Valid(r.store)
  {
    if !Known(s, loc) || |batch| == 0 || BatchConflicts(s, loc, batch) then Written(s, 0)
    else
      var docs := Stamp(loc, batch, s.nextId);
      var s' := s.(measurements := s.measurements + docs, nextId := s.nextId + |batch|);
      assert s'.measurements[..|s.measurements|] == s.measurements;
      assert Valid(s) ==> Valid(s') by {
        if Valid(s) {
          assert DistinctKeys(docs, ReadingKey) by {
            forall i, j | 0 <= i < j < |docs| ensures ReadingKey(docs[i]) != ReadingKey(docs[j]) {
              assert DataTime(batch[i]) != DataTime(batch[j]);
            }
          }
          forall i, j | 0 <= i < |s.measurements| && 0 <= j < |docs|
            ensures ReadingKey(s.measurements[i]) != ReadingKey(docs[j])
          {
            assert s.measurements[i] in s.measurements;
            assert !HasReadingAt(s, loc, batch[j].timestamp);
          }
          DistinctConcat(s.measurements, docs, ReadingKey);
          forall i, j | 0 <= i < |s.measurements| && 0 <= j < |docs|
            ensures MeasurementId(s.measurements[i]) != MeasurementId(docs[j])
          {
            assert s.measurements[i] in s.measurements;
          }
          DistinctConcat(s.measurements, docs, MeasurementId);
          forall m | m in s'.measurements ensures Known(s', m.location) && m.id < s'.nextId {
            if m !in s.measurements {
              var k :| 0 <= k < |docs| && docs[k] == m;
            }
          }
        }
      }
      Written(s', |batch|)
  }

  /** Selects the measurements of one location. */
  function AtLocation(loc: string): AirMeasurement -> bool
  {
    (m: AirMeasurement) => m.location == loc
  }

  /** Selects the measurements of every other location. */
  function ElsewhereThan(loc: string): AirMeasurement -> bool
  {
    (m: AirMeasurement) => m.location != loc
  }

  /** Deletes every measurement of a location and returns how many were
      deleted; 0 for an unknown location. Measurements of other locations,
      locations and events are untouched. */
  function DeleteMeasurementsForLocation(s: Store, loc: string): (r: Written<nat>)
    ensures !Known(s, loc) ==> r == Written(s, 0)
    ensures r.value == |s.measurements| - |r.store.measurements|
    ensures Known(s, loc) ==>
              forall m :: m in r.store.measurements <==> m in s.measurements && m.location != loc
    ensures r.store.locations == s.locations && r.store.events == s.events
    ensures Valid(s) ==> Valid(r.store)
  {
    if !Known(s, loc) then Written(s, 0)
    else
      var kept := Filter(s.measurements, ElsewhereThan(loc));
      var s' := s.(measurements := kept);
      FilterPartition(s.measurements, AtLocation(loc), ElsewhereThan(loc));
      assert Valid(s) ==> Valid(s') by {
        if Valid(s) {
          FilterDistinct(s.measurements, ElsewhereThan(loc), ReadingKey);
          FilterDistinct(s.measurements, ElsewhereThan(loc), MeasurementId);
        }
      }
      Written(s', |Filter(s.measurements, AtLocation(loc))|)
  }

  /** The keyword arguments of an update: None means "not given". */
  datatype FieldUpdate = FieldUpdate(
    pm10: Option<real>,
    pm25: Option<real>,
    dust: Option<real>,
    aod: Option<real>,
    isCalima: Option<bool>)

  /** The update names no field with a non-None value. */
  predicate NoFields(u: FieldUpdate)
  {
    u.pm10.None? && u.pm25.None? && u.dust.None? && u.aod.None? && u.isCalima.None?
  }

  /** A given field takes the given value; an absent one keeps its own. */
  function Pick<V>(given: Option<V>, current: V): V
  {
    if given.Some? then given.value else current
  }

  /** The same for an optional reading: a given value replaces it. */
  function Override<V>(given: Option<V>, current: Option<V>): Option<V>
  {
    if given.Some? then given else current
  }

  /** `after` is `before` with exactly the given fields of `u` replaced: the
      id, the location, the timestamp and every field not given are kept. */
  predicate UpdatedFrom(before: AirMeasurement, after: AirMeasurement, u: FieldUpdate)
  {
    && after.id == before.id
    && after.location == before.location
    && after.data.timestamp == before.data.timestamp
    && (u.pm10.Some? ==> after.data.pm10 == u.pm10) && (u.pm10.None? ==> after.data.pm10 == before.data.pm10)
    && (u.pm25.Some? ==> after.data.pm25 == u.pm25) && (u.pm25.None? ==> after.data.pm25 == before.data.pm25)
    && (u.dust.Some? ==> after.data.dust == u.dust) && (u.dust.None? ==> after.data.dust == before.data.dust)
    && (u.aod.Some? ==> after.data.aod == u.aod) && (u.aod.None? ==> after.data.aod == before.data.aod)
    && (u.isCalima.Some? ==> after.data.isCalima == u.isCalima.value)
    && (u.isCalima.None? ==> after.data.isCalima == before.data.isCalima)
  }

  /** The position of the measurement with document id `id`, if any. */
  function IndexOfId(ms: seq<AirMeasurement>, id: nat): (r: Option<nat>)
    ensures r.None? <==> forall k :: 0 <= k < |ms| ==> ms[k].id != id
    ensures r.Some? ==> r.value < |ms| && ms[r.value].id == id
  {
    if |ms| == 0 then None
    else if ms[0].id == id then Some(0)
    else
      match IndexOfId(ms[1..], id)
      case None => None
      case Some(k) => Some(k + 1)
  }

  /** Changes the given readings (and flag) of one measurement. An unknown id
      is an error, and so is an update that gives no field; the id is looked
      up first. Otherwise only that measurement changes, and only in the
      given fields. */
  function UpdateMeasurement(s: Store, id: nat, u: FieldUpdate)
    : (r: Result<Written<AirMeasurement>, RepoError>)
    ensures r == Err(NotFound) <==> forall m :: m in s.measurements ==> m.id != id
    ensures r == Err(NoValidFields) <==>
              (exists m :: m in s.measurements && m.id == id) && NoFields(u)
    ensures r.Ok? ==>
              var ms, ms' := s.measurements, r.value.store.measurements;
              && |ms'| == |ms|
              && (exists k :: 0 <= k < |ms| && ms[k].id == id && ms'[k] == r.value.value
                                && UpdatedFrom(ms[k], ms'[k], u))
              && (forall k :: 0 <= k < |ms| ==> ms'[k] == ms[k] || ms[k].id == id)
              && r.value.store.locations == s.locations
              && r.value.store.events == s.events
    ensures r.Ok? && Valid(s) ==> Valid(r.value.store)
  {
    match IndexOfId(s.measurements, id)
    case None => Err(NotFound)
    case Some(k) =>
      if NoFields(u) then Err(NoValidFields)
      else
        var m := s.measurements[k];
        var d := m.data;
        var m' := m.(data := d.(pm10 := Override(u.pm10, d.pm10), pm25 := Override(u.pm25, d.pm25),
                                dust := Override(u.dust, d.dust), aod := Override(u.aod, d.aod),
                                isCalima := Pick(u.isCalima, d.isCalima)));
        var s' := s.(measurements := s.measurements[k := m']);
        assert Valid(s) ==> Valid(s') by {
          if Valid(s) {
            ReplaceKeepsValid(s, k, m');
          }
        }
        Ok(Written(s', m'))
  }

  /** Replacing one measurement by one with the same id, location and
      timestamp keeps the store valid: no index key changes. */
  lemma ReplaceKeepsValid(s: Store, k: nat, m': AirMeasurement)
    requires Valid(s) && k < |s.measurements|
    requires m'.id == s.measurements[k].id && ReadingKey(m') == ReadingKey(s.measurements[k])
    ensures Valid(s.(measurements := s.measurements[k := m']))
  {
    var s' := s.(measurements := s.measurements[k := m']);
    forall i, j | 0 <= i < j < |s'.measurements|
      ensures ReadingKey(s'.measurements[i]) != ReadingKey(s'.measurements[j])
      ensures MeasurementId(s'.measurements[i]) != MeasurementId(s'.measurements[j])
    {
      assert ReadingKey(s'.measurements[i]) == ReadingKey(s.measurements[i]);
      assert ReadingKey(s'.measurements[j]) == ReadingKey(s.measurements[j]);
    }
    forall x | x in s'.measurements ensures Known(s', x.location) && x.id < s'.nextId {
      var i :| 0 <= i < |s'.measurements| && s'.measurements[i] == x;
      assert s.measurements[i] in s.measurements;
    }
  }

  /** Stores a calima event. An unknown location gives None and leaves the
      store as it was; otherwise exactly one event, referencing the
      location, is added. */
  function AddCalimaEvent(s: Store, loc: string, start: Hour, end: Hour,
                          peakPm10: Option<real>, peakDust: Option<real>, peakAod: Option<real>)
    : (r: Written<Option<CalimaEvent>>)
    ensures r.value.None? <==> !Known(s, loc)
    ensures r.value.None? ==> r.store == s
    ensures r.value.Some? ==>
              var e := r.value.value;
              && e.location == loc && e.startTime == start && e.endTime == end
              && e.peakPm10 == peakPm10 && e.peakDust == peakDust && e.peakAod == peakAod
              && r.store.events == s.events + [e]
              && r.store.measurements == s.measurements
              && r.store.locations == s.locations
    ensures Valid(s) ==> Valid(r.store)
    ensures EventsSpanThreeHours(s) && start + 2 <= end ==> EventsSpanThreeHours(r.store)
  {
    if !Known(s, loc) then Written(s, None)
    else
      var e := CalimaEvent(s.nextId, loc, start, end, peakPm10, peakDust, peakAod);
      Written(s.(events := s.events + [e], nextId := s.nextId + 1), Some(e))
  }

  // ------------------------------------------------------------------
  // Query side
  // ------------------------------------------------------------------

  /** All measurements of a location in ascending timestamp order; [] for an
      unknown location. In a valid store the order is strict. */
  function GetMeasurements(s: Store, loc: string): (r: seq<AirMeasurement>)
    ensures !Known(s, loc) ==> r == []
    ensures Known(s, loc) ==> forall m :: m in r <==> m in s.measurements && m.location == loc
    ensures SortedBy(r, MeasurementTime)
    ensures Valid(s) ==> StrictlySortedBy(r, MeasurementTime)
  {
    if !Known(s, loc) then []
    else
      var own := Filter(s.measurements, AtLocation(loc));
      var r := Sort(own, MeasurementTime);
      SortSameElements(own, MeasurementTime);
      assert Valid(s) ==> StrictlySortedBy(r, MeasurementTime) by {
        if Valid(s) {
          FilterDistinct(s.measurements, AtLocation(loc), ReadingKey);
          SameLocationTimesDistinct(own, loc);
          SortStrict(own, MeasurementTime);
        }
      }
      r
  }

  /** Measurements of one location with a unique (location, timestamp) index
      have unique timestamps. */
  lemma SameLocationTimesDistinct(ms: seq<AirMeasurement>, loc: string)
    requires DistinctKeys(ms, ReadingKey)
    requires forall m :: m in ms ==> m.location == loc
    ensures DistinctKeys(ms, MeasurementTime)
  {
    forall i, j | 0 <= i < j < |ms| ensures MeasurementTime(ms[i]) != MeasurementTime(ms[j]) {
      assert ms[i] in ms && ms[j] in ms;
      assert ReadingKey(ms[i]) != ReadingKey(ms[j]);
    }
  }

  /** In a valid store the hours of one location, filtered further, have
      distinct timestamps. */
  lemma OwnHoursDistinct(s: Store, loc: string, p: AirMeasurement -> bool)
    requires Valid(s)
    ensures DistinctKeys(Filter(Filter(s.measurements, AtLocation(loc)), p), MeasurementTime)
  {
    var own := Filter(s.measurements, AtLocation(loc));
    FilterDistinct(s.measurements, AtLocation(loc), ReadingKey);
    SameLocationTimesDistinct(own, loc);
    FilterDistinct(own, p, MeasurementTime);
  }

  /** The most recent measurement of a location: None for an unknown
      location or one without measurements. */
  function GetLatest(s: Store, loc: string): (r: Option<AirMeasurement>)
    ensures r.None? <==> !Known(s, loc) || forall m :: m in s.measurements ==> m.location != loc
    ensures r.Some? ==>
              && r.value in s.measurements && r.value.location == loc
              && forall m :: m in s.measurements && m.location == loc ==>
                   m.data.timestamp <= r.value.data.timestamp
  {
    var ms := GetMeasurements(s, loc);
    if |ms| == 0 then None
    else
      LastIsLatest(ms, s.measurements, loc);
      Some(ms[|ms| - 1])
  }

  /** The last of a time-ordered selection of one location's hours is the
      most recent of them. */
  lemma LastIsLatest(ms: seq<AirMeasurement>, all: seq<AirMeasurement>, loc: string)
    requires |ms| > 0 && SortedBy(ms, MeasurementTime)
    requires forall m :: m in ms <==> m in all && m.location == loc
    ensures ms[|ms| - 1] in all && ms[|ms| - 1].location == loc
    ensures forall m :: m in all && m.location == loc ==>
              m.data.timestamp <= ms[|ms| - 1].data.timestamp
  {
    assert ms[|ms| - 1] in ms;
    forall m | m in all && m.location == loc
      ensures m.data.timestamp <= ms[|ms| - 1].data.timestamp
    {
      var k :| 0 <= k < |ms| && ms[k] == m;
      assert k == |ms| - 1 || MeasurementTime(ms[k]) <= MeasurementTime(ms[|ms| - 1]);
    }
  }

  /** Selects the hours in the closed interval [start, end]. */
  function Within(start: int, end: int): AirMeasurement -> bool
  {
    (m: AirMeasurement) => start <= m.data.timestamp <= end
  }

  /** The measurements of a location with start <= timestamp <= end, in
      ascending timestamp order; [] for an unknown location. */
  function GetRange(s: Store, loc: string, start: int, end: int): (r: seq<AirMeasurement>)
    ensures !Known(s, loc) ==> r == []
    ensures Known(s, loc) ==>
              forall m :: m in r <==> m in s.measurements && m.location == loc
                                      && start <= m.data.timestamp <= end
    ensures SortedBy(r, MeasurementTime)
    ensures Valid(s) ==> StrictlySortedBy(r, MeasurementTime)
  {
    if !Known(s, loc) then []
    else
      var own := Filter(s.measurements, AtLocation(loc));
      var hits := Filter(own, Within(start, end));
      var r := Sort(hits, MeasurementTime);
      SortSameElements(hits, MeasurementTime);
      assert Valid(s) ==> StrictlySortedBy(r, MeasurementTime) by {
        if Valid(s) {
          OwnHoursDistinct(s, loc, Within(start, end));
          SortStrict(hits, MeasurementTime);
        }
      }
      r
  }

  /** Selects the measurements whose stored flag is set. */
  function FlaggedCalima(): AirMeasurement -> bool
  {
    (m: AirMeasurement) => m.data.isCalima
  }

  /** The measurements of a location whose STORED calima flag is set, in
      ascending timestamp order; [] for an unknown location. */
  function FindCalimaHours(s: Store, loc: string): (r: seq<AirMeasurement>)
    ensures !Known(s, loc) ==> r == []
    ensures Known(s, loc) ==>
              forall m :: m in r <==> m in s.measurements && m.location == loc && m.data.isCalima
    ensures SortedBy(r, MeasurementTime)
    ensures Valid(s) ==> StrictlySortedBy(r, MeasurementTime)
  {
    if !Known(s, loc) then []
    else
      var own := Filter(s.measurements, AtLocation(loc));
      var hits := Filter(own, FlaggedCalima());
      var r := Sort(hits, MeasurementTime);
      SortSameElements(hits, MeasurementTime);
      assert Valid(s) ==> StrictlySortedBy(r, MeasurementTime) by {
        if Valid(s) {
          OwnHoursDistinct(s, loc, FlaggedCalima());
          SortStrict(hits, MeasurementTime);
        }
      }
      r
  }

  /** Events sort newest first: by descending start. */
  function NewestFirst(e: CalimaEvent): int { -(e.startTime as int) }

  /** Selects the events of one location. */
  function EventAt(loc: string): CalimaEvent -> bool
  {
    (e: CalimaEvent) => e.location == loc
  }

  /** All events of a location, newest start first; [] for an unknown
      location. */
  function GetCalimaEvents(s: Store, loc: string): (r: seq<CalimaEvent>)
    ensures !Known(s, loc) ==> r == []
    ensures Known(s, loc) ==> forall e :: e in r <==> e in s.events && e.location == loc
    ensures forall i, j :: 0 <= i < j < |r| ==> r[i].startTime >= r[j].startTime
  {
    if !Known(s, loc) then []
    else
      var own := Filter(s.events, EventAt(loc));
      var r := Sort(own, NewestFirst);
      SortSameElements(own, NewestFirst);
      assert forall i, j :: 0 <= i < j < |r| ==> NewestFirst(r[i]) <= NewestFirst(r[j]);
      r
  }

  /** Selects events whose peak PM10 is recorded and at least `pm10Min`; a
      null peak never matches the comparison. */
  function PeakPm10AtLeast(pm10Min: real): CalimaEvent -> bool
  {
    (e: CalimaEvent) => e.peakPm10.Some? && e.peakPm10.value >= pm10Min
  }

  /** The events of a location whose peak PM10 is at least `pm10Min`,
      newest start first; [] for an unknown location. */
  function GetEventsOverThreshold(s: Store, loc: string, pm10Min: real): (r: seq<CalimaEvent>)
    ensures !Known(s, loc) ==> r == []
    ensures Known(s, loc) ==>
              forall e :: e in r <==> && e in s.events && e.location == loc
                                      && e.peakPm10.Some? && e.peakPm10.value >= pm10Min
    ensures forall i, j :: 0 <= i < j < |r| ==> r[i].startTime >= r[j].startTime
  {
    if !Known(s, loc) then []
    else
      var own := Filter(s.events, EventAt(loc));
      var hits := Filter(own, PeakPm10AtLeast(pm10Min));
      var r := Sort(hits, NewestFirst);
      SortSameElements(hits, NewestFirst);
      assert forall i, j :: 0 <= i < j < |r| ==> NewestFirst(r[i]) <= NewestFirst(r[j]);
      r
  }

  /** `GetMeasurements` returns each of the location's documents exactly as
      often as it is stored, and nothing else. */
  lemma GetMeasurementsCounts(s: Store, loc: string)
    requires Known(s, loc)
    ensures var r := GetMeasurements(s, loc);
            forall m :: multiset(r)[m] == if m.location == loc then multiset(s.measurements)[m] else 0
  {
    FilterCounts(s.measurements, AtLocation(loc));
  }

  /** `GetRange` returns each of the location's documents inside the
      interval exactly as often as it is stored, and nothing else. */
  lemma GetRangeCounts(s: Store, loc: string, start: int, end: int)
    requires Known(s, loc)
    ensures var r := GetRange(s, loc, start, end);
            forall m :: multiset(r)[m] == if m.location == loc && start <= m.data.timestamp <= end
                                          then multiset(s.measurements)[m] else 0
  {
    var own := Filter(s.measurements, AtLocation(loc));
    FilterCounts(s.measurements, AtLocation(loc));
    FilterCounts(own, Within(start, end));
  }

  /** `FindCalimaHours` returns each of the location's flagged documents
      exactly as often as it is stored, and nothing else. */
  lemma FindCalimaHoursCounts(s: Store, loc: string)
    requires Known(s, loc)
    ensures var r := FindCalimaHours(s, loc);
            forall m :: multiset(r)[m] == if m.location == loc && m.data.isCalima
                                          then multiset(s.measurements)[m] else 0
  {
    var own := Filter(s.measurements, AtLocation(loc));
    FilterCounts(s.measurements, AtLocation(loc));
    FilterCounts(own, FlaggedCalima());
  }

  /** `GetCalimaEvents` returns each of the location's events exactly as
      often as it is stored, and nothing else. */
  lemma GetCalimaEventsCounts(s: Store, loc: string)
    requires Known(s, loc)
    ensures var r := GetCalimaEvents(s, loc);
            forall e :: multiset(r)[e] == if e.location == loc then multiset(s.events)[e] else 0
  {
    FilterCounts(s.events, EventAt(loc));
  }

  /** `GetEventsOverThreshold` returns each of the location's events at or
      over the threshold exactly as often as it is stored, and nothing else. */
  lemma GetEventsOverThresholdCounts(s: Store, loc: string, pm10Min: real)
    requires Known(s, loc)
    ensures var r := GetEventsOverThreshold(s, loc, pm10Min);
            forall e :: multiset(r)[e] == if && e.location == loc
                                             && e.peakPm10.Some? && e.peakPm10.value >= pm10Min
                                          then multiset(s.events)[e] else 0
  {
    var own := Filter(s.events, EventAt(loc));
    FilterCounts(s.events, EventAt(loc));
    FilterCounts(own, PeakPm10AtLeast(pm10Min));
  }

  // ------------------------------------------------------------------
  // Properties relating several operations
  // ------------------------------------------------------------------

  /** The first position of a time-ordered series at or after `t`. */
  function FirstAtOrAfter(xs: seq<AirMeasurement>, t: int): (p: nat)
    ensures p <= |xs|
    ensures forall k :: 0 <= k < p ==> xs[k].data.timestamp < t
    ensures p < |xs| ==> xs[p].data.timestamp >= t
  {
    if |xs| == 0 || xs[0].data.timestamp >= t then 0
    else 1 + FirstAtOrAfter(xs[1..], t)
  }

  /** In a time-ordered series, the tail from the first hour at or after
      `t` holds exactly the hours at or after `t`. */
  lemma SuffixFrom(xs: seq<AirMeasurement>, t: int)
    requires SortedBy(xs, MeasurementTime)
    ensures forall m :: m in xs[FirstAtOrAfter(xs, t)..] <==> m in xs && m.data.timestamp >= t
  {
    var p := FirstAtOrAfter(xs, t);
    var tail := xs[p..];
    forall m | m in tail ensures m.data.timestamp >= t {
      var i :| 0 <= i < |tail| && tail[i] == m;
      assert xs[p + i] == m;
      assert i == 0 || MeasurementTime(xs[p]) <= MeasurementTime(xs[p + i]);
    }
    forall m | m in xs && m.data.timestamp >= t ensures m in tail {
      var k :| 0 <= k < |xs| && xs[k] == m;
      assert p <= k;
      assert tail[k - p] == m;
    }
  }

  /** A tail of a strictly ordered series is strictly ordered. */
  lemma SuffixStrictlySorted(xs: seq<AirMeasurement>, p: nat)
    requires p <= |xs|
    requires StrictlySortedBy(xs, MeasurementTime)
    ensures StrictlySortedBy(xs[p..], MeasurementTime)
  {
    var tail := xs[p..];
    forall i, j | 0 <= i < j < |tail| ensures MeasurementTime(tail[i]) < MeasurementTime(tail[j]) {
      assert tail[i] == xs[p + i] && tail[j] == xs[p + j];
    }
  }

  /** In a valid store, the measurements from `t` on (up to the last
      representable hour) are exactly the tail of the full, time-ordered
      series that starts at the first hour at or after `t`. */
  lemma RangeFromIsSuffix(s: Store, loc: string, t: int)
    requires Valid(s)
    ensures var all := GetMeasurements(s, loc);
            GetRange(s, loc, t, MaxHour) == all[FirstAtOrAfter(all, t)..]
  {
    var all := GetMeasurements(s, loc);
    var tail := all[FirstAtOrAfter(all, t)..];
    var range := GetRange(s, loc, t, MaxHour);
    SuffixFrom(all, t);
    SuffixStrictlySorted(all, FirstAtOrAfter(all, t));
    assert forall m :: m in range <==> m in tail;
    SortedUnique(range, tail, MeasurementTime);
  }

  /** After a successful insert the new measurement is in its location's
      series, the series keeps every earlier measurement, and it grows by
      exactly that one. */
  lemma AddThenGetMeasurements(s: Store, loc: string, data: AirQualityData)
    requires Valid(s)
    requires AddMeasurement(s, loc, data).Ok?
    requires AddMeasurement(s, loc, data).value.value.Some?
    ensures var w := AddMeasurement(s, loc, data).value;
            forall m :: m in GetMeasurements(w.store, loc) <==>
                          m in GetMeasurements(s, loc) || m == w.value.value
  {
  }

  /** Deleting one location's measurements empties its series and leaves
      every other location's series exactly as it was. */
  lemma {:induction false} DeleteKeepsOtherLocations(s: Store, loc: string, other: string)
    ensures GetMeasurements(DeleteMeasurementsForLocation(s, loc).store, loc) == []
    ensures other != loc ==>
              GetMeasurements(DeleteMeasurementsForLocation(s, loc).store, other)
              == GetMeasurements(s, other)
  {
    var s' := DeleteMeasurementsForLocation(s, loc).store;
    if Known(s, loc) {
      assert s'.measurements == Filter(s.measurements, ElsewhereThan(loc));
      forall k | 0 <= k < |s'.measurements| ensures !AtLocation(loc)(s'.measurements[k]) {
        assert s'.measurements[k] in s'.measurements;
      }
      FilterNone(s'.measurements, AtLocation(loc));
      if other != loc {
        FilterFilter(s.measurements, ElsewhereThan(loc), AtLocation(other));
        assert Filter(s'.measurements, AtLocation(other)) == Filter(s.measurements, AtLocation(other));
      }
    }
  }
}
