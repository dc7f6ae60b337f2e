# Calima detection: a Dafny model

This project models the core of a Saharan-dust ("calima") monitoring
service for sites in the Canary Islands. Hourly air-quality readings (PM10,
PM2.5, dust, aerosol optical depth) are stored per location. An hour-level
heuristic classifies each hour as calima or not. A scanner then finds runs
of consecutive calima hours and stores every closed run of at least three
hours as a calima event.

The model has seven files:

- `wrappers.dfy` (`Wrappers`): `Option` for Python's `None`, and `Result` for
  an operation that may raise.
- `sorting.dfy` (`Sorting`): filtering and ordering by a key. These are the
  two steps of every query (`objects(...)` then `order_by`).
- `model.dfy` (`Model`): the persisted schema (`AirLocation`,
  `AirQualityData`, `AirMeasurement`, `CalimaEvent`) and the database as one
  immutable `Store` value. `Valid` states the store invariants: unique names,
  unique (location, timestamp), unique measurement ids, unique event ids, and
  references that resolve.
  `DeleteLocation` is the cascade delete.
- `repository.py` is modelled in `repository.dfy` (`Repository`). The command
  and query sides are pure functions from a store to a new store plus the
  returned value. The operations that look a location up by name
  (`AddMeasurement`, `BulkAddMeasurements`, `DeleteMeasurementsForLocation`,
  `AddCalimaEvent` and the queries) are no-ops for an unknown name and return
  None, [] or 0. `AddLocation` fails on a name already taken, and
  `UpdateMeasurement` looks a measurement up by id. Exceptions become `Err`
  values.
- `classifier.dfy` (`Classifier`): the hour-level rule.
- `detector.dfy` (`Detector`): the episode scanner. `RunsFrom` / `ClosedRuns`
  is a reference segmentation of a series into commits. `ScanAndCommit` is
  the single left-to-right loop of the source, which tracks run start, run
  length and running peaks. It is proved to commit exactly that
  segmentation. `DetectEvents` adds the resume logic: start at the newest
  event's end, inclusive, or at the first hour if the location has no
  event. It is proved equal to the functional `Detect`. The main results
  are soundness and completeness of the commits, open-run exclusion,
  ordering, invariant preservation and idempotence.
- `open_meteo.dfy` (`OpenMeteo`): the pure parts of the API client. These are
  argument validation with the request it would make, the nearest-time index
  (first index on ties), and the two-rule flag of the current datapoint.

Modelling choices:

- Timestamps are whole hours counted from 0001-01-01T00:00 (`Model.Hour`).
  `MaxHour` is the hour holding Python's `datetime.max`, so the detector's
  `get_range(loc, end, datetime.max)` is `GetRange(s, loc, end, MaxHour)`.
- Readings are exact `real`s, wrapped in `Option` where the schema allows
  null.
- Document ids are natural numbers from a counter in the store.
- The clock (`now`) and the fetched API series are parameters.

## Model

| member | source | states |
|---|---|---|
| Sorting.Filter | src/repository/repository.py:252-256 | a query's filter keeps exactly the documents satisfying the condition and never more than there were |
| Sorting.FilterCounts | src/repository/repository.py:252-256 | a filter keeps every passing document exactly as many times as it occurs and drops every other one |
| Sorting.Sort | src/repository/repository.py:235 | `order_by` returns the same documents (same multiset) in ascending key order |
| Sorting.SortedUnique | src/repository/repository.py:235 | a strictly ordered result is determined by its contents: two strictly sorted sequences with the same elements are equal |
| Model.NewReading | src/repository/model.py:94-99 | readings built without a flag are not calima (the default of `is_calima` is false) and keep the given timestamp and optional readings |
| Model.DeleteLocation | src/repository/model.py:24-26 | deleting a location removes it, every measurement and every event referencing it, and nothing else; the store invariants and the three-hour span of events are kept |
| Repository.AddLocation | src/repository/repository.py:60-74 | fails with NotUnique exactly when the name is taken (unique index at model.py:65); otherwise appends one location with the given name, coordinates and creation time, keeping the store valid |
| Repository.AddLocationAsWritten | src/repository/model.py:68 | the schema as written stamps every new location with the instant the class was defined, whatever the clock says at creation |
| Repository.CreatedAtFrozen | src/repository/model.py:68 | two locations created ten seconds apart by the schema as written carry the same creation time, which is neither creation instant |
| Repository.CreatedAtFollowsClock | src/repository/model.py:68 | with the creation time taken per call, locations created at different instants carry different creation times |
| Repository.AddMeasurement | src/repository/repository.py:79-110 | an unknown location gives None and an unchanged store; a second reading for the same (location, timestamp) is rejected with NotUnique; otherwise exactly one measurement referencing the location, with the given readings, is appended; validity is kept |
| Repository.BulkAddMeasurements | src/repository/repository.py:117-138 | 0 and an unchanged store for an unknown location or an empty batch; a batch without conflicts is appended in order for that location and its length is returned; a result of 0 always means nothing changed; validity is kept |
| Repository.DeleteMeasurementsForLocation | src/repository/repository.py:143-154 | returns the number of measurements removed, 0 for an unknown location; exactly the location's measurements go, locations and events stay; validity is kept |
| Repository.DeleteKeepsOtherLocations | src/repository/repository.py:143-154 | after the delete the location's series is empty and every other location's series is exactly as before |
| Repository.UpdateMeasurement | src/repository/repository.py:159-183 | NotFound exactly when no measurement has the id; NoValidFields exactly when the id exists and no field of pm10/pm25/dust/aod/is_calima is given; otherwise the target keeps its id, location and timestamp, exactly the given fields change, and every other measurement is unchanged; validity is kept |
| Repository.AddCalimaEvent | src/repository/repository.py:188-216 | None and an unchanged store exactly for an unknown location; otherwise one event with the given bounds and peaks is appended for that location; validity, unique event ids included, is kept, and so is the three-hour span when the new event spans two hours |
| Repository.GetMeasurements | src/repository/repository.py:229-235 | [] for an unknown location; otherwise exactly the location's measurements, ascending by timestamp, strictly so in a valid store |
| Repository.AddThenGetMeasurements | src/repository/repository.py:97-110 | after an accepted insert the location's series holds exactly the earlier measurements plus the new one |
| Repository.GetLatest | src/repository/repository.py:237-243 | None exactly when the location is unknown or has no measurement; otherwise one of its measurements whose timestamp is at least every other one's |
| Repository.GetRange | src/repository/repository.py:245-257 | [] for an unknown location; otherwise exactly the location's measurements with start <= timestamp <= end (both bounds inclusive), ascending, strictly so in a valid store |
| Repository.RangeFromIsSuffix | src/repository/repository.py:245-257 | in a valid store, the range from t up to the last hour is the tail of the full series from its first hour at or after t |
| Repository.FindCalimaHours | src/repository/repository.py:259-269 | [] for an unknown location; otherwise exactly the location's measurements whose stored flag is set, ascending, strictly so in a valid store |
| Repository.GetCalimaEvents | src/repository/repository.py:313-319 | [] for an unknown location; otherwise exactly the location's events, newest start first |
| Repository.GetEventsOverThreshold | src/repository/repository.py:321-333 | [] for an unknown location; otherwise exactly the location's events with a peak PM10 present and at least the threshold, newest start first |
| Repository.GetMeasurementsCounts | src/repository/repository.py:229-235 | for a known location the result holds each of the location's measurements exactly as many times as the store does, and nothing else |
| Repository.GetRangeCounts | src/repository/repository.py:245-257 | for a known location the result holds each of the location's measurements inside [start, end] exactly as many times as the store does, and nothing else |
| Repository.FindCalimaHoursCounts | src/repository/repository.py:259-269 | for a known location the result holds each of the location's flagged measurements exactly as many times as the store does, and nothing else |
| Repository.GetCalimaEventsCounts | src/repository/repository.py:313-319 | for a known location the result holds each of the location's events exactly as many times as the store does, and nothing else |
| Repository.GetEventsOverThresholdCounts | src/repository/repository.py:321-333 | for a known location the result holds each of the location's events with a peak PM10 at least the threshold exactly as many times as the store does, and nothing else |
| Classifier.IsCalimaFromValues | src/repository/calima_detector.py:51-89 | true exactly when dust > 150, or pm10 > 50 and aod > 0.5, or pm25 > 35 and pm10 > 60, where an absent reading fails every comparison |
| Classifier.IsHourCalima | src/repository/calima_detector.py:94-110 | a stored hour is classified by the rule applied to its four raw readings |
| Classifier.HourIgnoresStoredFlag | src/repository/calima_detector.py:104-110 | two hours with the same four readings classify alike, whatever their stored flag, timestamp, id or location |
| Classifier.AllAbsentIsNotCalima | src/repository/calima_detector.py:75-89 | an hour with no reading at all is not calima |
| Classifier.ThresholdBoundaries | tests/test_calima_detector.py:133-152 | each threshold is strict: dust 150, pm10 50 with aod 0.9, aod 0.5, pm10 60 with pm25 36 and pm25 35 are not calima; the sample values above them are |
| Classifier.MonotoneInReadings | src/repository/calima_detector.py:75-89 | raising readings or supplying missing ones never withdraws a calima verdict |
| Detector.PeakBounds | src/repository/calima_detector.py:169-190 | a running peak starts at 0, counts an absent reading as 0, is at least every hour's reading and is either 0 or one of them |
| Detector.RunsSound | src/repository/calima_detector.py:177-214 | every commit of the segmentation is the commit of a maximal run that a non-calima hour closes, is at least three hours long, and records that run's first and last timestamps and its peaks |
| Detector.RunsComplete | src/repository/calima_detector.py:177-214 | every maximal closed run of at least three hours is committed |
| Detector.ClosedRunsExactly | src/repository/calima_detector.py:177-214 | the commits of a series are exactly the closed runs of at least three hours |
| Detector.ShortRunNotCommitted | src/repository/calima_detector.py:198-199 | a closed run of fewer than three hours (such as two) yields no commit starting at its first hour |
| Detector.RunsOrdered | src/repository/calima_detector.py:193-209 | in a strictly time-ordered series each commit starts no earlier than the scan position, spans at least two hours, and ends before the next commit starts |
| Detector.OpenTailIgnored | src/repository/calima_detector.py:216-221 | appending calima hours after a series changes no commit: an open run is never committed |
| Detector.OpenRunAtEndNotCommitted | src/repository/calima_detector.py:216-221 | a series ending in an open run, of any length, commits only what precedes that run |
| Detector.RunsShift | src/repository/calima_detector.py:151-156 | the segmentation of a tail of the series equals the segmentation of the whole from the matching position |
| Detector.LastCommitResume | src/repository/calima_detector.py:10-13 | from the position of the last commit's end hour, the segmentation is empty: the resumed boundary hour starts no new commit |
| Detector.CloseRun | src/repository/calima_detector.py:192-214 | a non-calima hour closing a run yields the run's commit when it is long enough, and the scan continues after that hour |
| Detector.CommitAll | src/repository/calima_detector.py:199-209 | for an unknown location nothing is stored and [] is returned; for a known one each commit is stored in order with its bounds and peaks, the returned events are those stored, and only the events change; validity and the three-hour span are kept |
| Detector.ScanExtend | src/repository/calima_detector.py:179-190 | a calima hour opens a run (start := this hour, length 0) or extends it, adding one to the length and raising each peak to the hour's reading |
| Detector.ScanSkip | src/repository/calima_detector.py:192-214 | a non-calima hour with no open run moves the scan on and commits nothing |
| Detector.ScanClose | src/repository/calima_detector.py:192-214 | a non-calima hour closes the open run, commits it with end = the previous hour's timestamp when it is at least three hours long, and resets start, length and peaks |
| Detector.ScanEnd | src/repository/calima_detector.py:216-221 | when the series ends, whatever run is still open is dropped: what was committed is the whole segmentation |
| Detector.ScanAndCommit | src/repository/calima_detector.py:164-221 | the loop over the classified hours stores exactly the commits of the reference segmentation and returns the events the store returned |
| Detector.DetectEvents | src/repository/calima_detector.py:138-159 | reads the newest stored event, loads all measurements or those from its end on (inclusive), returns [] for an empty series, and otherwise scans; the result equals the functional detection pass |
| Detector.DetectResult | src/repository/calima_detector.py:115-221 | nothing for an unknown location; otherwise one stored event per commit of the scanned series, in scan order, appended after the earlier events; in a valid store each returned event spans at least two hours and ends before the next one starts |
| Detector.DetectPreservesInvariants | src/repository/model.py:153-156 | detection keeps the store valid and keeps every event at least three hourly samples long |
| Detector.ResumeIsSuffix | src/repository/calima_detector.py:141-156 | the scanned hours are a tail of the location's full series: all of it without events, otherwise from the first hour at or after the newest event's end |
| Detector.StoredEventsBeforeSeries | src/repository/calima_detector.py:141-156 | every stored event of the location starts before every hour the scan resumes at |
| Detector.CommittedStartsAscending | src/repository/calima_detector.py:193-209 | in a valid store, every event a pass returns starts strictly before the last one it returns |
| Detector.NewestAfterDetect | src/repository/calima_detector.py:144-146 | after a pass that committed something, the first event of the newest-first listing ends where the last commit of the pass ends, so the next pass resumes there |
| Detector.ResumeAtLastEnd | src/repository/calima_detector.py:141-156 | after a pass that committed something, the next pass scans the location's series from the first hour at or after the end of the last commit |
| Detector.DetectIdempotent | src/repository/calima_detector.py:10-13 | in a valid store whose events span at least three samples, a second pass with no new measurements commits nothing and changes nothing |
| OpenMeteo.HistoryRequest | src/api/open_meteo_api.py:144-159 | an unknown location is rejected first, then more than 90 days; otherwise the request carries the site's coordinates, the four hourly variables, past_days = days, forecast_days = 0 and UTC |
| OpenMeteo.UpdateRequest | src/api/open_meteo_api.py:200-212 | rejected exactly for an unknown location; otherwise the request covers 2 past days and 3 forecast days at the site's coordinates |
| OpenMeteo.NearestIndex | src/api/open_meteo_api.py:109-121 | None exactly for an empty list (where `min` raises); otherwise an index whose distance to the target is at most every other's, and no earlier index is as near |
| OpenMeteo.FirstNearestUnique | src/api/open_meteo_api.py:120-121 | at most one index is the first nearest, so the tie-break determines the answer |
| OpenMeteo.CurrentPointIsCalima | src/api/open_meteo_api.py:265-268 | the current-point flag is dust > 150 or (pm10 > 50 and aod > 0.5); with dust and aod both absent it is never raised |
| OpenMeteo.CurrentPointImpliesDetector | src/api/open_meteo_api.py:265-268 | whenever the current-point flag is raised, the detector's classifier says calima on the same readings, for any PM2.5 |
| OpenMeteo.CurrentPointAgreesWithoutPm25Rule | src/api/open_meteo_api.py:265-268 | the two flags can differ only when the PM2.5 rule fires and the current-point flag is down |
| OpenMeteo.DetectorDoesNotImplyCurrentPoint | src/api/open_meteo_api.py:265-268 | pm10 61 with pm25 36 is calima for the detector but not flagged at the current point |
| OpenMeteo.GetCurrentPoint | src/api/open_meteo_api.py:235-283 | rejects an unknown location, and an empty series; with reading lists at least as long as the times it succeeds; a success is the first-nearest hour to now with that hour's readings and the two-rule flag |

## Left out

- Repository.BulkAddMeasurements: the model rejects a conflicting batch as a whole and leaves the store unchanged. The database may keep the documents inserted before the duplicate, while the source still returns 0. A partial insert is not modelled.
- Repository.UpdateMeasurement: keyword arguments other than the five valid fields are ignored by the source, so the update record has only those five.
- `get_daily_avg` and `get_daily_max` are left out. They are database aggregation pipelines (`$group` by formatted date, averages over floats), not logic of this code.
- HTTP fetching, JSON decoding and ISO timestamp parsing (`_to_datetime_list`) are left out. The fetched hourly series is an input of `OpenMeteo.GetCurrentPoint`.
- Clocks (`datetime.utcnow()`, the creation-time default) are parameters (`now`).
- Logging, `__repr__`, database connection setup, the demo scripts and the UI are not part of this model.
- Concurrency and scheduling between several writers are not modelled. Each operation is one atomic step on a store value.
- Timestamps are whole hours, with no time zone. Gaps between hours are not interpreted: a run's length counts samples, as in the source.
- The API client's times are whole seconds. The fractional seconds and floating-point rounding of `total_seconds()` are not modelled.
- Readings are exact reals. NaN and infinities are not modelled.
- Detector.DetectEvents: the read and write collaborators are one store. A write fails (returns None) only for an unknown location. The source's tests also use a fake writer that can return None for a known location; that case is not covered.
- Sorting.Sort: among equal keys the order is that of an insertion sort. The database does not specify the order of ties. Measurements of one location never tie in a valid store, but events can share a start time.
- Document ids are natural numbers from a counter, not ObjectIds.

## Findings

| source | as written | input that shows it | evidently intended | confidence | as-written member | corrected member |
|---|---|---|---|---|---|---|
| src/repository/model.py:68 | `created_at` defaults to `datetime.datetime.now(...)` evaluated once, when the class body runs, so every location gets the same instant | create "adeje" at T+10 and "santa_cruz" at T+20 after the class was defined at T: both carry T | each location carries the instant of its own creation (pass the callable, not its value) | not executed | Repository.AddLocationAsWritten, Repository.CreatedAtFrozen | Repository.AddLocation, Repository.CreatedAtFollowsClock |
