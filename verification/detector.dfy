/** Calima event detection over one location's stored hours: the run
    segmentation (as a reference definition), the scan that persists closed
    runs of at least three hours, and the resumption after the newest stored
    event that makes repeated detection add nothing. */
module Detector {
  import opened Wrappers
  import opened Sorting
  import opened Model
  import opened Repository
  import opened Classifier

  /** A run must cover at least this many hourly samples to be persisted. */
  const MinRunLength: int := 3

  /** The reading counted as 0 when absent. */
  function OrZero(v: Option<real>): real
  {
    if v.Some? then v.value else 0.0
  }

  function Max(a: real, b: real): real
  {
    if a >= b then a else b
  }

  /** The readings whose peaks an event records. */
  datatype Field = Pm10 | Dust | Aod

  function Reading(m: AirMeasurement, f: Field): Option<real>
  {
    match f
    case Pm10 => m.data.pm10
    case Dust => m.data.dust
    case Aod => m.data.aod
  }

  /** The running maximum of a field over the hours at positions [i, j),
      starting from 0 and counting absent readings as 0. */
  function Peak(xs: seq<AirMeasurement>, i: nat, j: nat, f: Field): real
    requires i <= j <= |xs|
    decreases j
  {
    if j == i then 0.0
    else Max(Peak(xs, i, j - 1, f), OrZero(Reading(xs[j - 1], f)))
  }

  /** A peak is never below 0, bounds every hour's reading, and is either
      0 or the reading of some hour. */
  lemma {:induction false} PeakBounds(xs: seq<AirMeasurement>, i: nat, j: nat, f: Field)
    requires i <= j <= |xs|
    ensures Peak(xs, i, j, f) >= 0.0
    ensures forall k :: i <= k < j ==> OrZero(Reading(xs[k], f)) <= Peak(xs, i, j, f)
    ensures Peak(xs, i, j, f) == 0.0
            || exists k :: i <= k < j && Peak(xs, i, j, f) == OrZero(Reading(xs[k], f))
    decreases j
  {
    if i < j {
      PeakBounds(xs, i, j - 1, f);
    }
  }

  /** The first position at or after `k` that is not a calima hour, or
      `|xs|` when every hour from `k` on is calima. */
  function RunEnd(xs: seq<AirMeasurement>, k: nat): (j: nat)
    requires k <= |xs|
    ensures k <= j <= |xs|
    ensures forall i :: k <= i < j ==> IsHourCalima(xs[i])
    ensures j < |xs| ==> !IsHourCalima(xs[j])
    decreases |xs| - k
  {
    if k == |xs| || !IsHourCalima(xs[k]) then k else RunEnd(xs, k + 1)
  }

  /** What the scan hands to the store for one run: its first and last
      timestamps and its peaks. */
  datatype Commit = Commit(start: Hour, end: Hour, peakPm10: real, peakDust: real, peakAod: real)

  /** The commit of the run occupying positions [i, j). */
  function RunCommit(xs: seq<AirMeasurement>, i: nat, j: nat): Commit
    requires i < j <= |xs|
  {
    Commit(xs[i].data.timestamp, xs[j - 1].data.timestamp,
           Peak(xs, i, j, Pm10), Peak(xs, i, j, Dust), Peak(xs, i, j, Aod))
  }

  /** Positions [i, j) are a closed run: all calima, not preceded by a
      calima hour, and followed by a non-calima hour. */
  predicate ClosedRun(xs: seq<AirMeasurement>, i: nat, j: nat)
  {
    && i < j < |xs|
    && (i == 0 || !IsHourCalima(xs[i - 1]))
    && (forall k :: i <= k < j ==> IsHourCalima(xs[k]))
    && !IsHourCalima(xs[j])
  }

  /** The segmentation of `xs` from position `k` on: the commits of the
      closed runs of at least `MinRunLength` hours, in scan order. A run
      still open at the end of the series yields nothing. */
  function RunsFrom(xs: seq<AirMeasurement>, k: nat): seq<Commit>
    requires k <= |xs|
    decreases |xs| - k
  {
    if k == |xs| then []
    else if !IsHourCalima(xs[k]) then RunsFrom(xs, k + 1)
    else
      var j := RunEnd(xs, k);
      if j == |xs| then []
      else (if j - k >= MinRunLength then [RunCommit(xs, k, j)] else []) + RunsFrom(xs, j)
  }

  /** The commits of a whole series. */
  function ClosedRuns(xs: seq<AirMeasurement>): seq<Commit>
  {
    RunsFrom(xs, 0)
  }

  // ------------------------------------------------------------------
  // Properties of the segmentation
  // ------------------------------------------------------------------

  /** The run starting at a calima hour `i` ends at the first non-calima
      hour after it. */
  lemma {:induction false} RunEndAt(xs: seq<AirMeasurement>, i: nat, j: nat)
    requires i <= j < |xs|
    requires forall k :: i <= k < j ==> IsHourCalima(xs[k])
    requires !IsHourCalima(xs[j])
    ensures RunEnd(xs, i) == j
    decreases j - i
  {
    if i < j {
      RunEndAt(xs, i + 1, j);
    }
  }

  /** A run reaching the end of the series is open: it ends at `|xs|`. */
  lemma {:induction false} RunEndOpen(xs: seq<AirMeasurement>, k: nat)
    requires k <= |xs|
    requires forall n :: k <= n < |xs| ==> IsHourCalima(xs[n])
    ensures RunEnd(xs, k) == |xs|
    decreases |xs| - k
  {
    if k < |xs| {
      RunEndOpen(xs, k + 1);
    }
  }

  /** A non-calima hour at or after `k` bounds the run from `k`. */
  lemma {:induction false} RunEndBound(xs: seq<AirMeasurement>, k: nat, m: nat)
    requires k <= m < |xs|
    requires !IsHourCalima(xs[m])
    ensures RunEnd(xs, k) <= m
    decreases m - k
  {
    if k < m && IsHourCalima(xs[k]) {
      RunEndBound(xs, k + 1, m);
    }
  }

  /** Every commit comes from a closed run of at least `MinRunLength` hours
      and records that run's bounds and peaks. */
  lemma {:induction false} RunsSound(xs: seq<AirMeasurement>, k: nat)
    requires k <= |xs|
    requires k == 0 || !IsHourCalima(xs[k - 1])
    ensures forall c :: c in RunsFrom(xs, k) ==>
              exists i: nat, j: nat :: k <= i && ClosedRun(xs, i, j) && j - i >= MinRunLength
                             && c == RunCommit(xs, i, j)
    decreases |xs| - k
  {
    if k < |xs| {
      if !IsHourCalima(xs[k]) {
        RunsSound(xs, k + 1);
      } else {
        var j := RunEnd(xs, k);
        if j < |xs| {
          RunsSound(xs, j + 1);
          assert RunsFrom(xs, j) == RunsFrom(xs, j + 1);
          assert ClosedRun(xs, k, j);
        }
      }
    }
  }

  /** Every closed run of at least `MinRunLength` hours yields a commit. */
  lemma {:induction false} RunsComplete(xs: seq<AirMeasurement>, k: nat, i: nat, j: nat)
    requires k <= i
    requires ClosedRun(xs, i, j) && j - i >= MinRunLength
    ensures RunCommit(xs, i, j) in RunsFrom(xs, k)
    decreases |xs| - k
  {
    if k == i {
      RunEndAt(xs, i, j);
    } else if !IsHourCalima(xs[k]) {
      RunsComplete(xs, k + 1, i, j);
    } else {
      var e := RunEnd(xs, k);
      RunEndBound(xs, k, i - 1);
      RunsComplete(xs, e, i, j);
    }
  }

  /** The commits of a series are exactly the closed runs of at least
      `MinRunLength` hours. */
  lemma ClosedRunsExactly(xs: seq<AirMeasurement>)
    ensures forall c :: c in ClosedRuns(xs) <==>
              exists i: nat, j: nat :: ClosedRun(xs, i, j) && j - i >= MinRunLength && c == RunCommit(xs, i, j)
  {
    RunsSound(xs, 0);
    forall i: nat, j: nat | ClosedRun(xs, i, j) && j - i >= MinRunLength
      ensures RunCommit(xs, i, j) in ClosedRuns(xs)
    {
      RunsComplete(xs, 0, i, j);
    }
  }

  /** A strictly time-ordered series gains at least one hour per position. */
  lemma StrictlyIncreasing(xs: seq<AirMeasurement>, i: nat, j: nat)
    requires StrictlySortedBy(xs, MeasurementTime)
    requires i <= j < |xs|
    ensures xs[i].data.timestamp + (j - i) <= xs[j].data.timestamp
    decreases j - i
  {
    if i < j {
      StrictlyIncreasing(xs, i + 1, j);
      assert MeasurementTime(xs[i]) < MeasurementTime(xs[i + 1]);
    }
  }

  /** Each commit starts at or after `t` and spans at least two hours. */
  predicate SpansFrom(cs: seq<Commit>, t: int)
  {
    forall n :: 0 <= n < |cs| ==> t <= cs[n].start && cs[n].start + 2 <= cs[n].end
  }

  /** Each commit ends before the next one starts. */
  predicate InScanOrder(cs: seq<Commit>)
  {
    forall a, b :: 0 <= a < b < |cs| ==> cs[a].end < cs[b].start
  }

  /** A commit ending before every later one keeps the order. */
  lemma ConsOrdered(c: Commit, rest: seq<Commit>, t: int, u: int)
    requires t <= c.start && c.start + 2 <= c.end && c.end < u
    requires SpansFrom(rest, u) && InScanOrder(rest)
    ensures SpansFrom([c] + rest, t) && InScanOrder([c] + rest)
  {
    var cs := [c] + rest;
    forall a, b | 0 <= a < b < |cs| ensures cs[a].end < cs[b].start {
      assert cs[b] == rest[b - 1];
      if a > 0 {
        assert cs[a] == rest[a - 1];
      }
    }
    forall n | 0 <= n < |cs| ensures t <= cs[n].start && cs[n].start + 2 <= cs[n].end {
      if n > 0 {
        assert cs[n] == rest[n - 1];
      }
    }
  }

  /** The bounds a run's commit records: its first and last hour. */
  lemma RunCommitBounds(xs: seq<AirMeasurement>, i: nat, j: nat)
    requires i < j <= |xs|
    ensures RunCommit(xs, i, j).start == xs[i].data.timestamp
    ensures RunCommit(xs, i, j).end == xs[j - 1].data.timestamp
  {
  }

  /** Commits of a strictly time-ordered series are in scan order: each
      spans at least two hours, starts no earlier than the scan position,
      and ends before the next one starts. */
  lemma {:induction false} RunsOrdered(xs: seq<AirMeasurement>, k: nat)
    requires k <= |xs|
    requires StrictlySortedBy(xs, MeasurementTime)
    ensures k < |xs| ==> SpansFrom(RunsFrom(xs, k), xs[k].data.timestamp)
    ensures InScanOrder(RunsFrom(xs, k))
    decreases |xs| - k
  {
    if k < |xs| {
      if !IsHourCalima(xs[k]) {
        RunsOrdered(xs, k + 1);
        if k + 1 < |xs| {
          assert MeasurementTime(xs[k]) < MeasurementTime(xs[k + 1]);
        }
      } else {
        var j := RunEnd(xs, k);
        if j < |xs| {
          RunsOrdered(xs, j);
          RunOrderedAt(xs, k, j);
        }
      }
    }
  }

  /** The step of `RunsOrdered` at a run [k, j) closed by hour j. */
  lemma RunOrderedAt(xs: seq<AirMeasurement>, k: nat, j: nat)
    requires k < j < |xs|
    requires StrictlySortedBy(xs, MeasurementTime)
    requires IsHourCalima(xs[k]) && RunEnd(xs, k) == j
    requires SpansFrom(RunsFrom(xs, j), xs[j].data.timestamp)
    requires InScanOrder(RunsFrom(xs, j))
    ensures SpansFrom(RunsFrom(xs, k), xs[k].data.timestamp)
    ensures InScanOrder(RunsFrom(xs, k))
  {
    var rest := RunsFrom(xs, j);
    var t := xs[k].data.timestamp;
    StrictlyIncreasing(xs, k, j);
    if j - k >= MinRunLength {
      var c := RunCommit(xs, k, j);
      assert RunsFrom(xs, k) == [c] + rest;
      RunCommitBounds(xs, k, j);
      StrictlyIncreasing(xs, k, j - 1);
      StrictlyIncreasing(xs, j - 1, j);
      ConsOrdered(c, rest, t, xs[j].data.timestamp);
    } else {
      assert RunsFrom(xs, k) == rest;
    }
  }

  /** Hours appended after a series that are all calima change nothing:
      the open run at the end is never committed. */
  lemma {:induction false} OpenTailIgnored(xs: seq<AirMeasurement>, ys: seq<AirMeasurement>, k: nat)
    requires k <= |xs|
    requires forall n :: 0 <= n < |ys| ==> IsHourCalima(ys[n])
    ensures RunsFrom(xs + ys, k) == RunsFrom(xs, k)
    decreases |xs| - k
  {
    if k == |xs| {
      AppendOpenRun(xs, ys, k);
    } else if !IsHourCalima(xs[k]) {
      OpenTailIgnored(xs, ys, k + 1);
      assert (xs + ys)[k] == xs[k];
    } else if RunEnd(xs, k) < |xs| {
      OpenTailIgnored(xs, ys, RunEnd(xs, k));
      AppendClosedRun(xs, ys, k);
    } else {
      AppendOpenRun(xs, ys, k);
    }
  }

  /** The step of `OpenTailIgnored` at a run that a non-calima hour of `xs`
      closes. */
  lemma AppendClosedRun(xs: seq<AirMeasurement>, ys: seq<AirMeasurement>, k: nat)
    requires k < |xs| && IsHourCalima(xs[k]) && RunEnd(xs, k) < |xs|
    requires RunsFrom(xs + ys, RunEnd(xs, k)) == RunsFrom(xs, RunEnd(xs, k))
    ensures RunsFrom(xs + ys, k) == RunsFrom(xs, k)
  {
    var zs := xs + ys;
    var j := RunEnd(xs, k);
    assert zs[k] == xs[k];
    forall n | k <= n <= j ensures zs[n] == xs[n] { }
    RunEndAt(zs, k, j);
    RunCommitPrefix(xs, ys, k, j);
  }

  /** With the run from `k` open to the end of `xs`, appending calima hours
      keeps it open: nothing is committed from `k` on. */
  lemma AppendOpenRun(xs: seq<AirMeasurement>, ys: seq<AirMeasurement>, k: nat)
    requires k <= |xs|
    requires k == |xs| || (IsHourCalima(xs[k]) && RunEnd(xs, k) == |xs|)
    requires forall n :: 0 <= n < |ys| ==> IsHourCalima(ys[n])
    ensures RunsFrom(xs + ys, k) == RunsFrom(xs, k)
  {
    var zs := xs + ys;
    forall n | k <= n < |zs| ensures IsHourCalima(zs[n]) {
      if n < |xs| {
        assert zs[n] == xs[n];
      } else {
        assert zs[n] == ys[n - |xs|];
      }
    }
    RunEndOpen(zs, k);
  }

  /** The commit of a run of `xs` is unchanged by appending hours. */
  lemma RunCommitPrefix(xs: seq<AirMeasurement>, ys: seq<AirMeasurement>, i: nat, j: nat)
    requires i < j <= |xs|
    ensures RunCommit(xs + ys, i, j) == RunCommit(xs, i, j)
  {
    assert (xs + ys)[i] == xs[i];
    assert (xs + ys)[j - 1] == xs[j - 1];
    PeakPrefix(xs, ys, i, j, Pm10);
    PeakPrefix(xs, ys, i, j, Dust);
    PeakPrefix(xs, ys, i, j, Aod);
  }

  /** The peak over hours of `xs` is unchanged by appending hours. */
  lemma {:induction false} PeakPrefix(xs: seq<AirMeasurement>, ys: seq<AirMeasurement>,
                                      i: nat, j: nat, f: Field)
    requires i <= j <= |xs|
    ensures Peak(xs + ys, i, j, f) == Peak(xs, i, j, f)
    decreases j
  {
    if i < j {
      PeakPrefix(xs, ys, i, j - 1, f);
      assert (xs + ys)[j - 1] == xs[j - 1];
    }
  }

  /** A series ending in an open run commits only what precedes the run. */
  lemma OpenRunAtEndNotCommitted(xs: seq<AirMeasurement>, ys: seq<AirMeasurement>)
    requires forall n :: 0 <= n < |ys| ==> IsHourCalima(ys[n])
    ensures ClosedRuns(xs + ys) == ClosedRuns(xs)
  {
    OpenTailIgnored(xs, ys, 0);
  }

  /** `ys` holds the hours of `xs` from position `d` on. */
  predicate TailOf(ys: seq<AirMeasurement>, xs: seq<AirMeasurement>, d: nat)
  {
    && d + |ys| == |xs|
    && forall n :: 0 <= n < |ys| ==> ys[n] == xs[d + n]
  }

  /** The run from a position of a tail is the run from the corresponding
      position of the whole. */
  lemma {:induction false} RunEndShift(ys: seq<AirMeasurement>, xs: seq<AirMeasurement>, d: nat, k: nat)
    requires TailOf(ys, xs, d) && k <= |ys|
    ensures RunEnd(ys, k) + d == RunEnd(xs, d + k)
    decreases |ys| - k
  {
    if k < |ys| {
      assert ys[k] == xs[d + k];
      if IsHourCalima(ys[k]) {
        RunEndShift(ys, xs, d, k + 1);
      }
    }
  }

  /** The peak over hours of a tail is the peak over the same hours of the
      whole. */
  lemma {:induction false} PeakShift(ys: seq<AirMeasurement>, xs: seq<AirMeasurement>, d: nat,
                                     i: nat, j: nat, f: Field)
    requires TailOf(ys, xs, d) && i <= j <= |ys|
    ensures Peak(ys, i, j, f) == Peak(xs, d + i, d + j, f)
    decreases j
  {
    if i < j {
      PeakShift(ys, xs, d, i, j - 1, f);
      assert ys[j - 1] == xs[d + j - 1];
    }
  }

  /** The commit of a run of a tail is the commit of the same hours of the
      whole. */
  lemma RunCommitShift(ys: seq<AirMeasurement>, xs: seq<AirMeasurement>, d: nat, i: nat, j: nat)
    requires TailOf(ys, xs, d) && i < j <= |ys|
    ensures RunCommit(ys, i, j) == RunCommit(xs, d + i, d + j)
  {
    assert ys[i] == xs[d + i];
    assert ys[j - 1] == xs[d + j - 1];
    PeakShift(ys, xs, d, i, j, Pm10);
    PeakShift(ys, xs, d, i, j, Dust);
    PeakShift(ys, xs, d, i, j, Aod);
  }

  /** The segmentation of a tail is the segmentation of the whole from the
      corresponding position. */
  lemma {:induction false} RunsShift(ys: seq<AirMeasurement>, xs: seq<AirMeasurement>, d: nat, k: nat)
    requires TailOf(ys, xs, d) && k <= |ys|
    ensures RunsFrom(ys, k) == RunsFrom(xs, d + k)
    decreases |ys| - k
  {
    if k < |ys| {
      assert ys[k] == xs[d + k];
      if !IsHourCalima(ys[k]) {
        RunsShift(ys, xs, d, k + 1);
        ShiftSkip(ys, xs, d, k);
      } else {
        RunEndShift(ys, xs, d, k);
        if RunEnd(ys, k) < |ys| {
          RunsShift(ys, xs, d, RunEnd(ys, k));
        }
        ShiftRun(ys, xs, d, k);
      }
    }
  }

  /** The step of `RunsShift` at a non-calima hour. */
  lemma ShiftSkip(ys: seq<AirMeasurement>, xs: seq<AirMeasurement>, d: nat, k: nat)
    requires TailOf(ys, xs, d) && k < |ys| && !IsHourCalima(ys[k])
    requires RunsFrom(ys, k + 1) == RunsFrom(xs, d + k + 1)
    ensures RunsFrom(ys, k) == RunsFrom(xs, d + k)
  {
    assert ys[k] == xs[d + k];
  }

  /** The step of `RunsShift` at a calima hour: the run and the rest of the
      segmentation after it correspond. */
  lemma ShiftRun(ys: seq<AirMeasurement>, xs: seq<AirMeasurement>, d: nat, k: nat)
    requires TailOf(ys, xs, d) && k < |ys| && IsHourCalima(ys[k])
    requires RunEnd(ys, k) + d == RunEnd(xs, d + k)
    requires RunEnd(ys, k) < |ys| ==> RunsFrom(ys, RunEnd(ys, k)) == RunsFrom(xs, d + RunEnd(ys, k))
    ensures RunsFrom(ys, k) == RunsFrom(xs, d + k)
  {
    assert ys[k] == xs[d + k];
    var j := RunEnd(ys, k);
    if j < |ys| {
      RunCommitShift(ys, xs, d, k, j);
    }
  }

  /** Where the last commit ends, the scan has nothing more to commit: from
      the position of that end hour on, the segmentation is empty. */
  lemma {:induction false} LastCommitResume(xs: seq<AirMeasurement>, k: nat)
    requires k <= |xs|
    requires RunsFrom(xs, k) != []
    ensures exists p :: k <= p < |xs|
                        && xs[p].data.timestamp == RunsFrom(xs, k)[|RunsFrom(xs, k)| - 1].end
                        && RunsFrom(xs, p) == []
    decreases |xs| - k
  {
    assert k < |xs|;
    if !IsHourCalima(xs[k]) {
      LastCommitResume(xs, k + 1);
    } else {
      var j := RunEnd(xs, k);
      var rest := RunsFrom(xs, j);
      if rest == [] {
        assert RunsFrom(xs, k) == [RunCommit(xs, k, j)];
        RunEndAt(xs, j - 1, j);
        assert RunsFrom(xs, j - 1) == [];
      } else {
        LastCommitResume(xs, j);
        var head := if j - k >= MinRunLength then [RunCommit(xs, k, j)] else [];
        assert RunsFrom(xs, k) == head + rest;
      }
    }
  }

  // ------------------------------------------------------------------
  // Persisting and detecting
  // ------------------------------------------------------------------

  /** `e` is the stored form of commit `c` at `loc`. */
  predicate Records(e: CalimaEvent, loc: string, c: Commit)
  {
    && e.location == loc
    && e.startTime == c.start && e.endTime == c.end
    && e.peakPm10 == Some(c.peakPm10) && e.peakDust == Some(c.peakDust) && e.peakAod == Some(c.peakAod)
  }

  /** Hands the commits to the store one after another, collecting the
      events the store returns. */
  function CommitAll(s: Store, loc: string, cs: seq<Commit>): (r: Written<seq<CalimaEvent>>)
    ensures !Known(s, loc) ==> r == Written(s, [])
    ensures Known(s, loc) ==>
              && |r.value| == |cs|
              && (forall n :: 0 <= n < |cs| ==> Records(r.value[n], loc, cs[n]))
              && r.store.events == s.events + r.value
              && r.store.measurements == s.measurements
              && r.store.locations == s.locations
    ensures Valid(s) ==> Valid(r.store)
    ensures EventsSpanThreeHours(s) && (forall n :: 0 <= n < |cs| ==> cs[n].start + 2 <= cs[n].end)
            ==> EventsSpanThreeHours(r.store)
    decreases |cs|
  {
    if |cs| == 0 then Written(s, [])
    else
      var w := CommitAll(s, loc, cs[..|cs| - 1]);
      var c := cs[|cs| - 1];
      var e := AddCalimaEvent(w.store, loc, c.start, c.end,
                              Some(c.peakPm10), Some(c.peakDust), Some(c.peakAod));
      assert Known(w.store, loc) <==> Known(s, loc);
      Written(e.store, w.value + (if e.value.Some? then [e.value.value] else []))
  }

  /** The hours the detector scans: all of the location's hours when it has
      no event yet, otherwise those from the end of the newest event (by
      start) on, up to the last representable hour. */
  function ResumeSeries(s: Store, loc: string): seq<AirMeasurement>
  {
    var stored := GetCalimaEvents(s, loc);
    if |stored| == 0 then GetMeasurements(s, loc)
    else GetRange(s, loc, stored[0].endTime, MaxHour)
  }

  /** One detection pass as a function of the store. */
  function Detect(s: Store, loc: string): Written<seq<CalimaEvent>>
  {
    var series := ResumeSeries(s, loc);
    if |series| == 0 then Written(s, [])
    else CommitAll(s, loc, ClosedRuns(series))
  }

  /** A closed run shorter than `MinRunLength` hours yields no commit: no
      commit of a strictly time-ordered series starts at its first hour. */
  lemma ShortRunNotCommitted(xs: seq<AirMeasurement>, i: nat, j: nat)
    requires StrictlySortedBy(xs, MeasurementTime)
    requires ClosedRun(xs, i, j) && j - i < MinRunLength
    ensures forall c :: c in ClosedRuns(xs) ==> c.start != xs[i].data.timestamp
  {
    RunsSound(xs, 0);
    forall c | c in ClosedRuns(xs) ensures c.start != xs[i].data.timestamp {
      var i': nat, j': nat :| ClosedRun(xs, i', j') && j' - i' >= MinRunLength && c == RunCommit(xs, i', j');
      assert i' != i by {
        RunEndAt(xs, i', j');
        RunEndAt(xs, i, j);
      }
      assert MeasurementTime(xs[i']) != MeasurementTime(xs[i]);
    }
  }

  /** What one detection pass does: for an unknown location nothing; for a
      known one it stores one event per commit of the scanned series, in
      scan order, appending them to the events and touching nothing else;
      in a valid store the events it returns span at least two hours each
      and do not overlap, each ending before the next starts. */
  lemma DetectResult(s: Store, loc: string)
    ensures !Known(s, loc) ==> Detect(s, loc) == Written(s, [])
    ensures var r := Detect(s, loc);
            var cs := ClosedRuns(ResumeSeries(s, loc));
            Known(s, loc) ==>
              && |r.value| == |cs|
              && (forall n :: 0 <= n < |cs| ==> Records(r.value[n], loc, cs[n]))
              && r.store.events == s.events + r.value
              && r.store.measurements == s.measurements
              && r.store.locations == s.locations
    ensures var r := Detect(s, loc);
            Valid(s) ==>
              && (forall n :: 0 <= n < |r.value| ==> r.value[n].startTime + 2 <= r.value[n].endTime)
              && (forall a, b :: 0 <= a < b < |r.value| ==> r.value[a].endTime < r.value[b].startTime)
  {
    DetectShape(s, loc);
    if Valid(s) {
      assert StrictlySortedBy(ResumeSeries(s, loc), MeasurementTime);
      DetectOrdered(s, loc);
    }
  }

  /** The first half of `DetectResult`: one stored event per commit. */
  lemma DetectShape(s: Store, loc: string)
    ensures !Known(s, loc) ==> Detect(s, loc) == Written(s, [])
    ensures var r := Detect(s, loc);
            var cs := ClosedRuns(ResumeSeries(s, loc));
            Known(s, loc) ==>
              && |r.value| == |cs|
              && (forall n :: 0 <= n < |cs| ==> Records(r.value[n], loc, cs[n]))
              && r.store.events == s.events + r.value
              && r.store.measurements == s.measurements
              && r.store.locations == s.locations
  {
    assert Detect(s, loc) == CommitAll(s, loc, ClosedRuns(ResumeSeries(s, loc)))
        || Detect(s, loc) == Written(s, []);
  }

  /** The second half of `DetectResult`: when the scanned hours are
      strictly time-ordered, as in a valid store, the stored events span at
      least two hours and follow one another without overlap. */
  lemma DetectOrdered(s: Store, loc: string)
    requires StrictlySortedBy(ResumeSeries(s, loc), MeasurementTime)
    ensures var r := Detect(s, loc);
            && (forall n :: 0 <= n < |r.value| ==> r.value[n].startTime + 2 <= r.value[n].endTime)
            && (forall a, b :: 0 <= a < b < |r.value| ==> r.value[a].endTime < r.value[b].startTime)
  {
    var series := ResumeSeries(s, loc);
    DetectShape(s, loc);
    if Known(s, loc) {
      RunsOrdered(series, 0);
    }
  }

  /** Detection keeps the store valid and keeps every stored event at least
      three hourly samples long. */
  lemma DetectPreservesInvariants(s: Store, loc: string)
    requires Valid(s)
    ensures Valid(Detect(s, loc).store)
    ensures EventsSpanThreeHours(s) ==> EventsSpanThreeHours(Detect(s, loc).store)
  {
    var series := ResumeSeries(s, loc);
    RunsOrdered(series, 0);
  }

  /** Where the scan resumes within the location's full series. */
  function ResumeIndex(s: Store, loc: string): nat
  {
    var stored := GetCalimaEvents(s, loc);
    if |stored| == 0 then 0
    else FirstAtOrAfter(GetMeasurements(s, loc), stored[0].endTime)
  }

  /** In a valid store the scanned hours are a tail of the location's full
      series: all of it when the location has no event, otherwise from the
      first hour at or after the newest event's end (that hour included). */
  lemma ResumeIsSuffix(s: Store, loc: string)
    requires Valid(s)
    ensures ResumeIndex(s, loc) <= |GetMeasurements(s, loc)|
    ensures ResumeSeries(s, loc) == GetMeasurements(s, loc)[ResumeIndex(s, loc)..]
  {
    var stored := GetCalimaEvents(s, loc);
    if |stored| > 0 {
      RangeFromIsSuffix(s, loc, stored[0].endTime);
    }
  }

  /** In a strictly time-ordered series, the first hour at or after a
      timestamp the series holds is that hour. */
  lemma FirstAtOrAfterExact(xs: seq<AirMeasurement>, k: nat, t: int)
    requires StrictlySortedBy(xs, MeasurementTime)
    requires k < |xs| && xs[k].data.timestamp == t
    ensures FirstAtOrAfter(xs, t) == k
  {
    var p := FirstAtOrAfter(xs, t);
    assert p <= k;
    assert MeasurementTime(xs[p]) >= t;
    assert p < k ==> MeasurementTime(xs[p]) < MeasurementTime(xs[k]);
  }

  /** The location's series is the same in two stores with the same
      locations and measurements. */
  lemma SameSeries(s: Store, s': Store, loc: string)
    requires s'.locations == s.locations && s'.measurements == s.measurements
    ensures GetMeasurements(s', loc) == GetMeasurements(s, loc)
  {
    assert Known(s', loc) <==> Known(s, loc);
  }

  /** Every stored event of the location starts before every hour the
      scan resumes at: the newest (by start) ends no earlier than it starts
      and at or before the first scanned hour, and the others start no later
      than it. */
  lemma StoredEventsBeforeSeries(s: Store, loc: string)
    requires EventsSpanThreeHours(s) && Known(s, loc)
    ensures forall e, m :: e in s.events && e.location == loc && m in ResumeSeries(s, loc)
              ==> e.startTime < m.data.timestamp
  {
    var stored := GetCalimaEvents(s, loc);
    if |stored| > 0 {
      forall e, m | e in s.events && e.location == loc && m in ResumeSeries(s, loc)
        ensures e.startTime < m.data.timestamp
      {
        assert e in stored;
        var i :| 0 <= i < |stored| && stored[i] == e;
        assert stored[0].startTime + 2 <= stored[0].endTime;
      }
    } else {
      assert forall e :: e in s.events && e.location == loc ==> e in stored;
    }
  }

  /** The events a pass stores start in scan order, the last one latest. */
  lemma CommittedStartsAscending(s: Store, loc: string)
    requires Valid(s) && Known(s, loc)
    ensures var evs := Detect(s, loc).value;
            forall n :: 0 <= n < |evs| - 1 ==> evs[n].startTime < evs[|evs| - 1].startTime
  {
    DetectResult(s, loc);
  }

  /** After a pass that committed something, the newest stored event of the
      location is the last one committed. */
  lemma NewestAfterDetect(s: Store, loc: string)
    requires Valid(s) && EventsSpanThreeHours(s) && Known(s, loc)
    requires ClosedRuns(ResumeSeries(s, loc)) != []
    ensures var cs := ClosedRuns(ResumeSeries(s, loc));
            var newest := GetCalimaEvents(Detect(s, loc).store, loc);
            |newest| > 0 && newest[0].endTime == cs[|cs| - 1].end
  {
    CommittedStartsAscending(s, loc);
    NewestIsLastCommitted(s, loc);
  }

  /** The argument of `NewestAfterDetect` from the two facts it needs of a
      valid store: the scanned hours are strictly time-ordered and the
      events a pass stores start in scan order. */
  lemma NewestIsLastCommitted(s: Store, loc: string)
    requires EventsSpanThreeHours(s) && Known(s, loc)
    requires StrictlySortedBy(ResumeSeries(s, loc), MeasurementTime)
    requires ClosedRuns(ResumeSeries(s, loc)) != []
    requires var evs := Detect(s, loc).value;
             forall n :: 0 <= n < |evs| - 1 ==> evs[n].startTime < evs[|evs| - 1].startTime
    ensures var cs := ClosedRuns(ResumeSeries(s, loc));
            var newest := GetCalimaEvents(Detect(s, loc).store, loc);
            |newest| > 0 && newest[0].endTime == cs[|cs| - 1].end
  {
    var series := ResumeSeries(s, loc);
    var cs := ClosedRuns(series);
    var w := Detect(s, loc);
    var evs := w.value;
    DetectShape(s, loc);
    var last := evs[|evs| - 1];
    assert Records(last, loc, cs[|cs| - 1]);
    assert series[0].data.timestamp <= last.startTime by {
      RunsOrdered(series, 0);
    }
    var newest := GetCalimaEvents(w.store, loc);
    assert last in newest by {
      assert Known(w.store, loc);
      assert last in w.store.events;
    }
    var x := newest[0];
    assert x.startTime >= last.startTime by {
      var i :| 0 <= i < |newest| && newest[i] == last;
    }
    assert x !in s.events by {
      StoredEventsBeforeSeries(s, loc);
      assert series[0] in series;
    }
    var n :| 0 <= n < |evs| && evs[n] == x;
    assert n == |evs| - 1;
  }

  /** Detection is idempotent: in a valid store whose events each span at
      least three hourly samples, a second pass with no new measurements
      commits nothing and leaves the store as the first pass left it. */
  lemma DetectIdempotent(s: Store, loc: string)
    requires Valid(s) && EventsSpanThreeHours(s)
    ensures Detect(Detect(s, loc).store, loc) == Written(Detect(s, loc).store, [])
  {
    DetectResult(s, loc);
    if Known(s, loc) && ClosedRuns(ResumeSeries(s, loc)) != [] {
      NothingLeftAfterDetect(s, loc);
      DetectNothing(Detect(s, loc).store, loc);
    } else if Known(s, loc) {
      DetectNothing(s, loc);
    }
  }

  /** A pass over a series with no closed run leaves the store as it is. */
  lemma DetectNothing(s: Store, loc: string)
    requires ClosedRuns(ResumeSeries(s, loc)) == []
    ensures Detect(s, loc) == Written(s, [])
  {
  }

  /** After a pass that committed something, the hours the next pass would
      scan contain no closed run. */
  lemma NothingLeftAfterDetect(s: Store, loc: string)
    requires Valid(s) && EventsSpanThreeHours(s) && Known(s, loc)
    requires ClosedRuns(ResumeSeries(s, loc)) != []
    ensures ClosedRuns(ResumeSeries(Detect(s, loc).store, loc)) == []
  {
    var all := GetMeasurements(s, loc);
    var q := ResumeIndex(s, loc);
    var cs := ClosedRuns(ResumeSeries(s, loc));
    assert q <= |all| && ResumeSeries(s, loc) == all[q..] && StrictlySortedBy(all, MeasurementTime) by {
      ResumeIsSuffix(s, loc);
    }
    var next := all[FirstAtOrAfter(all, cs[|cs| - 1].end)..];
    assert ResumeSeries(Detect(s, loc).store, loc) == next by {
      ResumeAtLastEnd(s, loc);
    }
    TailFromLastEnd(all, q, ResumeSeries(s, loc));
  }

  /** In a strictly time-ordered series, if the tail `series` from `q`
      commits something, the tail from the first hour at or after the end of
      its last commit commits nothing. */
  lemma TailFromLastEnd(all: seq<AirMeasurement>, q: nat, series: seq<AirMeasurement>)
    requires StrictlySortedBy(all, MeasurementTime)
    requires q <= |all| && series == all[q..]
    requires ClosedRuns(series) != []
    ensures var cs := ClosedRuns(series);
            ClosedRuns(all[FirstAtOrAfter(all, cs[|cs| - 1].end)..]) == []
  {
    assert TailOf(series, all, q);
    LastCommitTail(all, q, series);
  }

  /** `TailFromLastEnd` for a tail given position by position. */
  lemma LastCommitTail(all: seq<AirMeasurement>, q: nat, series: seq<AirMeasurement>)
    requires StrictlySortedBy(all, MeasurementTime)
    requires TailOf(series, all, q)
    requires ClosedRuns(series) != []
    ensures var cs := ClosedRuns(series);
            ClosedRuns(all[FirstAtOrAfter(all, cs[|cs| - 1].end)..]) == []
  {
    var cs := ClosedRuns(series);
    LastCommitResume(series, 0);
    var p :| 0 <= p < |series| && series[p].data.timestamp == cs[|cs| - 1].end && RunsFrom(series, p) == [];
    NoRunsFromHour(all, q, series, p);
  }

  /** When the tail `series` of `all` from `q` commits nothing from
      position `p` on, the tail of `all` from the first hour at or after the
      hour at `q + p` commits nothing at all. */
  lemma NoRunsFromHour(all: seq<AirMeasurement>, q: nat, series: seq<AirMeasurement>, p: nat)
    requires StrictlySortedBy(all, MeasurementTime)
    requires TailOf(series, all, q) && p < |series|
    requires RunsFrom(series, p) == []
    ensures ClosedRuns(all[FirstAtOrAfter(all, series[p].data.timestamp)..]) == []
  {
    FirstAtOrAfterExact(all, q + p, series[p].data.timestamp);
    var rest := all[q + p..];
    assert TailOf(rest, series, p);
    RunsShift(rest, series, p, 0);
  }

  /** After a pass that committed something, the next pass resumes at the
      first stored hour at or after the end of the last commit. */
  lemma ResumeAtLastEnd(s: Store, loc: string)
    requires Valid(s) && EventsSpanThreeHours(s) && Known(s, loc)
    requires ClosedRuns(ResumeSeries(s, loc)) != []
    ensures var cs := ClosedRuns(ResumeSeries(s, loc));
            var all := GetMeasurements(s, loc);
            ResumeSeries(Detect(s, loc).store, loc) == all[FirstAtOrAfter(all, cs[|cs| - 1].end)..]
  {
    var cs := ClosedRuns(ResumeSeries(s, loc));
    var s1 := Detect(s, loc).store;
    DetectResult(s, loc);
    DetectPreservesInvariants(s, loc);
    NewestAfterDetect(s, loc);
    SameSeries(s, s1, loc);
    RangeFromIsSuffix(s1, loc, cs[|cs| - 1].end);
  }

  /** A non-calima hour closes the run [first, i): the segmentation from
      the run's start is the run's commit, when long enough, followed by
      the segmentation after the closing hour. */
  lemma CloseRun(xs: seq<AirMeasurement>, first: nat, i: nat)
    requires first < i < |xs|
    requires forall k :: first <= k < i ==> IsHourCalima(xs[k])
    requires !IsHourCalima(xs[i])
    ensures RunsFrom(xs, first)
            == (if i - first >= MinRunLength then [RunCommit(xs, first, i)] else []) + RunsFrom(xs, i + 1)
  {
    RunEndAt(xs, first, i);
    assert RunsFrom(xs, i) == RunsFrom(xs, i + 1);
  }

  /** Committing one more run is one more call to the store. */
  lemma CommitAllSnoc(s: Store, loc: string, done: seq<Commit>, c: Commit)
    ensures var w := CommitAll(s, loc, done);
            var e := AddCalimaEvent(w.store, loc, c.start, c.end,
                                    Some(c.peakPm10), Some(c.peakDust), Some(c.peakAod));
            CommitAll(s, loc, done + [c])
            == Written(e.store, w.value + (if e.value.Some? then [e.value.value] else []))
  {
    assert (done + [c])[..|done|] == done;
  }

  /** The detection pass as the source performs it: read the newest stored
      event, load the hours to scan, and scan them unless there are none. */
  method DetectEvents(s: Store, loc: string) returns (r: Written<seq<CalimaEvent>>)
    ensures r == Detect(s, loc)
  {
    var oldEvents := GetCalimaEvents(s, loc);
    var lastEnd: Option<Hour> := None;
    if |oldEvents| > 0 {
      lastEnd := Some(oldEvents[0].endTime);
    }
    var series: seq<AirMeasurement>;
    if lastEnd.None? {
      series := GetMeasurements(s, loc);
    } else {
      series := GetRange(s, loc, lastEnd.value, MaxHour);
    }
    if |series| == 0 {
      return Written(s, []);
    }
    r := ScanAndCommit(s, loc, series);
  }

  /** The state of the scan before position `i`: the runs closed so far
      are committed, and the open run, if any, occupies [first, i) with its
      start, length and running peaks. */
  predicate ScanInv(s: Store, loc: string, series: seq<AirMeasurement>, i: nat, first: nat,
                    done: seq<Commit>, store: Store, events: seq<CalimaEvent>,
                    currentStart: Option<Hour>, runLen: int,
                    peakPm10: real, peakDust: real, peakAod: real)
  {
    && first <= i <= |series|
    && Written(store, events) == CommitAll(s, loc, done)
    && ClosedRuns(series) == done + RunsFrom(series, first)
    && (currentStart.None? <==> first == i)
    && (currentStart.Some? ==> currentStart.value == series[first].data.timestamp)
    && runLen == i - first
    && (forall k :: first <= k < i ==> IsHourCalima(series[k]))
    && peakPm10 == Peak(series, first, i, Pm10)
    && peakDust == Peak(series, first, i, Dust)
    && peakAod == Peak(series, first, i, Aod)
  }

  /** A calima hour opens or extends the run. */
  lemma ScanExtend(s: Store, loc: string, series: seq<AirMeasurement>, i: nat, first: nat,
                   done: seq<Commit>, store: Store, events: seq<CalimaEvent>,
                   currentStart: Option<Hour>, runLen: int,
                   peakPm10: real, peakDust: real, peakAod: real)
    requires ScanInv(s, loc, series, i, first, done, store, events, currentStart, runLen,
                     peakPm10, peakDust, peakAod)
    requires i < |series| && IsHourCalima(series[i])
    ensures var m := series[i];
            ScanInv(s, loc, series, i + 1, first, done, store, events,
                    if currentStart.None? then Some(m.data.timestamp) else currentStart,
                    (if currentStart.None? then 0 else runLen) + 1,
                    Max(peakPm10, OrZero(m.data.pm10)),
                    Max(peakDust, OrZero(m.data.dust)),
                    Max(peakAod, OrZero(m.data.aod)))
  {
  }

  /** A non-calima hour with no open run moves the scan on. */
  lemma ScanSkip(s: Store, loc: string, series: seq<AirMeasurement>, i: nat,
                 done: seq<Commit>, store: Store, events: seq<CalimaEvent>)
    requires ScanInv(s, loc, series, i, i, done, store, events, None, 0, 0.0, 0.0, 0.0)
    requires i < |series| && !IsHourCalima(series[i])
    ensures ScanInv(s, loc, series, i + 1, i + 1, done, store, events, None, 0, 0.0, 0.0, 0.0)
  {
    assert RunsFrom(series, i) == RunsFrom(series, i + 1);
  }

  /** A non-calima hour closes the open run; a run of at least
      `MinRunLength` hours is handed to the store. */
  lemma ScanClose(s: Store, loc: string, series: seq<AirMeasurement>, i: nat, first: nat,
                  done: seq<Commit>, store: Store, events: seq<CalimaEvent>,
                  start: Hour, runLen: int,
                  peakPm10: real, peakDust: real, peakAod: real)
    requires ScanInv(s, loc, series, i, first, done, store, events, Some(start), runLen,
                     peakPm10, peakDust, peakAod)
    requires i < |series| && !IsHourCalima(series[i])
    ensures 0 < i
    ensures var c := Commit(start, series[i - 1].data.timestamp, peakPm10, peakDust, peakAod);
            var w := AddCalimaEvent(store, loc, c.start, c.end,
                                    Some(c.peakPm10), Some(c.peakDust), Some(c.peakAod));
            if runLen >= MinRunLength then
              ScanInv(s, loc, series, i + 1, i + 1, done + [c], w.store,
                      events + (if w.value.Some? then [w.value.value] else []),
                      None, 0, 0.0, 0.0, 0.0)
            else
              ScanInv(s, loc, series, i + 1, i + 1, done, store, events, None, 0, 0.0, 0.0, 0.0)
  {
    CloseRun(series, first, i);
    var c := Commit(start, series[i - 1].data.timestamp, peakPm10, peakDust, peakAod);
    if runLen >= MinRunLength {
      assert c == RunCommit(series, first, i);
      CommitAllSnoc(s, loc, done, c);
    }
  }

  /** At the end of the series an open run commits nothing. */
  lemma ScanEnd(s: Store, loc: string, series: seq<AirMeasurement>, first: nat,
                done: seq<Commit>, store: Store, events: seq<CalimaEvent>,
                currentStart: Option<Hour>, runLen: int,
                peakPm10: real, peakDust: real, peakAod: real)
    requires ScanInv(s, loc, series, |series|, first, done, store, events, currentStart, runLen,
                     peakPm10, peakDust, peakAod)
    ensures Written(store, events) == CommitAll(s, loc, ClosedRuns(series))
  {
    if first < |series| {
      RunEndOpen(series, first);
    }
    assert done + RunsFrom(series, first) == done;
  }

  /** The scan of a series: a single pass that tracks the open run's start,
      length and peaks, and hands a run to the store when the first
      non-calima hour after it closes it and it is at least `MinRunLength`
      hours long. It commits exactly the segmentation of the series. */
  method ScanAndCommit(s: Store, loc: string, series: seq<AirMeasurement>)
    returns (r: Written<seq<CalimaEvent>>)
    ensures r == CommitAll(s, loc, ClosedRuns(series))
  {
    var store := s;
    var events: seq<CalimaEvent> := [];
    var currentStart: Option<Hour> := None;
    var peakPm10, peakDust, peakAod := 0.0, 0.0, 0.0;
    var runLen := 0;
    ghost var first: nat := 0;
    ghost var done: seq<Commit> := [];
    for i := 0 to |series|
      invariant ScanInv(s, loc, series, i, first, done, store, events, currentStart, runLen,
                        peakPm10, peakDust, peakAod)
    {
      var m := series[i];
      if IsHourCalima(m) {
        ScanExtend(s, loc, series, i, first, done, store, events, currentStart, runLen,
                   peakPm10, peakDust, peakAod);
        if currentStart.None? {
          currentStart := Some(m.data.timestamp);
          runLen := 0;
        }
        runLen := runLen + 1;
        peakPm10 := Max(peakPm10, OrZero(m.data.pm10));
        peakDust := Max(peakDust, OrZero(m.data.dust));
        peakAod := Max(peakAod, OrZero(m.data.aod));
      } else {
        if currentStart.Some? {
          var start := currentStart.value;
          ScanClose(s, loc, series, i, first, done, store, events, start, runLen,
                    peakPm10, peakDust, peakAod);
          var end := series[i - 1].data.timestamp;
          if runLen >= MinRunLength {
            var w := AddCalimaEvent(store, loc, start, end, Some(peakPm10), Some(peakDust), Some(peakAod));
            store := w.store;
            if w.value.Some? {
              events := events + [w.value.value];
            }
            done := done + [Commit(start, end, peakPm10, peakDust, peakAod)];
          }
        } else {
          ScanSkip(s, loc, series, i, done, store, events);
        }
        currentStart := None;
        peakPm10, peakDust, peakAod := 0.0, 0.0, 0.0;
        runLen := 0;
        first := i + 1;
      }
    }
    ScanEnd(s, loc, series, first, done, store, events, currentStart, runLen,
            peakPm10, peakDust, peakAod);
    r := Written(store, events);
  }
}
