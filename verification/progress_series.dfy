/** The progress-series analysis of the progress screen: the series of the
    selected exercise, its latest and previous entries, the improvement flag,
    and the estimated-maximum delta (src/components/ProgressTracker.tsx). */
module ProgressSeries {
  import opened Wrappers
  import opened Strength

  /** `currentData[currentData.length - 1]`: undefined for an empty series. */
  function Latest(series: seq<Entry>): (e: Option<Entry>)
    ensures e.Some? <==> |series| >= 1
    ensures e.Some? ==> e.value == series[|series| - 1]
  {
    if |series| >= 1 then Some(series[|series| - 1]) else None
  }

  /** `currentData[currentData.length - 2]`: undefined for fewer than two entries. */
  function Previous(series: seq<Entry>): (e: Option<Entry>)
    ensures e.Some? <==> |series| >= 2
    ensures e.Some? ==> e.value == series[|series| - 2]
  {
    if |series| >= 2 then Some(series[|series| - 2]) else None
  }

  /** The logged series of the selected exercise, empty when it has no history. */
  function SeriesFor(data: map<string, seq<Entry>>, exercise: string): (series: seq<Entry>)
    ensures exercise !in data ==> series == []
    ensures exercise in data ==> series == data[exercise]
  {
    if exercise in data then data[exercise] else []
  }

  /** The flag of the "Improved" badge: false unless both entries exist, and
      then whether the newer one improves on the older one. */
  predicate HasImproved(latest: Option<Entry>, previous: Option<Entry>)
    ensures latest.None? || previous.None? ==> !HasImproved(latest, previous)
    ensures latest.Some? && previous.Some? ==>
      (HasImproved(latest, previous) <==> Improved(latest.value, previous.value))
  {
    latest.Some? && previous.Some? && Improved(latest.value, previous.value)
  }

  /** The estimated maximum of an entry, 0 when the entry is missing; for a
      real lift it is at least the weight lifted. */
  function MaxOf(e: Option<Entry>): (m: int)
    ensures e.None? ==> m == 0
    ensures e.Some? ==> m == OneRepMax(e.value.weight, e.value.reps)
    ensures e.Some? && e.value.weight >= 0 && e.value.reps >= 0 ==> m >= e.value.weight
  {
    match e
    case Some(x) =>
      var m := OneRepMax(x.weight, x.reps);
      assert x.weight >= 0 && x.reps >= 0 ==> m >= x.weight by {
        if x.weight >= 0 && x.reps >= 0 {
          OneRepMaxAtLeastWeight(x.weight, x.reps);
        }
      }
      m
    case None => 0
  }

  /** What the three stat cards display for a series. */
  datatype Analysis = Analysis(
    latest: Option<Entry>,
    previous: Option<Entry>,
    improved: bool,
    currentMax: int,
    previousMax: int,
    maxImprovement: int)

  /** The three stat cards: the last two entries, whether the last improves
      on the one before, their estimated maxima (0 where an entry is missing)
      and the difference of the maxima. */
  function Analyze(series: seq<Entry>): (a: Analysis)
    ensures a.latest == Latest(series) && a.previous == Previous(series)
    ensures |series| >= 1 ==> a.currentMax == OneRepMax(series[|series| - 1].weight, series[|series| - 1].reps)
    ensures |series| >= 2 ==> a.previousMax == OneRepMax(series[|series| - 2].weight, series[|series| - 2].reps)
    ensures a.improved <==> |series| >= 2 && Improved(series[|series| - 1], series[|series| - 2])
    ensures a.maxImprovement == a.currentMax - a.previousMax
    ensures a.improved ==> |series| >= 2
    ensures |series| <= 1 ==> a.previousMax == 0 && a.maxImprovement == a.currentMax
    ensures series == [] ==> a.currentMax == 0 && a.maxImprovement == 0
  {
    var latest, previous := Latest(series), Previous(series);
    var currentMax, previousMax := MaxOf(latest), MaxOf(previous);
    Analysis(latest, previous, HasImproved(latest, previous), currentMax, previousMax, currentMax - previousMax)
  }

  /** The "+N lbs" line under the estimated maximum. */
  predicate ShowsGain(a: Analysis) {
    a.maxImprovement > 0
  }

  /** Only the last two entries matter: the analysis of a series equals the
      analysis of its last two entries. */
  lemma AnalyzeReadsLastTwo(series: seq<Entry>)
    requires |series| >= 2
    ensures Analyze(series) == Analyze(series[|series| - 2..])
  {
  }

  /** Logging a new entry makes the old latest entry the previous one. */
  lemma AppendShiftsLatest(series: seq<Entry>, e: Entry)
    ensures Analyze(series + [e]).latest == Some(e)
    ensures Analyze(series + [e]).previous == Latest(series)
    ensures Analyze(series + [e]).improved <==> |series| >= 1 && Improved(e, series[|series| - 1])
  {
  }

  /** The seven weekly sessions of each exercise the screen opens with. */
  function History(): map<string, seq<Entry>> {
    map[
      "Bench Press" := [
        Entry("2024-01-01", 135, 8), Entry("2024-01-08", 140, 8), Entry("2024-01-15", 145, 8),
        Entry("2024-01-22", 150, 6), Entry("2024-01-29", 155, 6), Entry("2024-02-05", 160, 5),
        Entry("2024-02-12", 165, 4)],
      "Squat" := [
        Entry("2024-01-01", 185, 8), Entry("2024-01-08", 195, 8), Entry("2024-01-15", 205, 6),
        Entry("2024-01-22", 215, 6), Entry("2024-01-29", 225, 5), Entry("2024-02-05", 235, 5),
        Entry("2024-02-12", 245, 3)],
      "Deadlift" := [
        Entry("2024-01-01", 225, 5), Entry("2024-01-08", 235, 5), Entry("2024-01-15", 245, 5),
        Entry("2024-01-22", 255, 3), Entry("2024-01-29", 265, 3), Entry("2024-02-05", 275, 2),
        Entry("2024-02-12", 285, 1)],
      "Overhead Press" := [
        Entry("2024-01-01", 95, 8), Entry("2024-01-08", 100, 8), Entry("2024-01-15", 105, 6),
        Entry("2024-01-22", 110, 6), Entry("2024-01-29", 115, 5), Entry("2024-02-05", 120, 4),
        Entry("2024-02-12", 125, 3)],
      "Pull-ups" := [
        Entry("2024-01-01", 0, 5), Entry("2024-01-08", 0, 6), Entry("2024-01-15", 0, 8),
        Entry("2024-01-22", 0, 10), Entry("2024-01-29", 0, 12), Entry("2024-02-05", 0, 15),
        Entry("2024-02-12", 10, 8)]
    ]
  }

  /** A new record does not imply a larger estimated maximum: on the bench
      press history the flag is raised with a delta of 0, on the deadlift with
      a delta of -8, and in both cases no "+N lbs" line is shown. */
  lemma ImprovedWithoutGain()
    ensures var a := Analyze(SeriesFor(History(), "Bench Press"));
      a.improved && a.currentMax == 187 && a.previousMax == 187 && !ShowsGain(a)
    ensures var a := Analyze(SeriesFor(History(), "Deadlift"));
      a.improved && a.currentMax == 285 && a.previousMax == 293 && a.maxImprovement == -8 && !ShowsGain(a)
  {
    OneRepMaxExamples();
    var bench := History()["Bench Press"];
    assert SeriesFor(History(), "Bench Press") == bench;
    assert bench[|bench| - 2..] == [Entry("2024-02-05", 160, 5), Entry("2024-02-12", 165, 4)];
    var dead := History()["Deadlift"];
    assert SeriesFor(History(), "Deadlift") == dead;
    assert dead[|dead| - 2..] == [Entry("2024-02-05", 275, 2), Entry("2024-02-12", 285, 1)];
  }

  /** A name without history (the selector is free text to this model) yields
      the empty series and all-zero statistics. */
  lemma UnknownExerciseIsEmpty()
    ensures var a := Analyze(SeriesFor(History(), "Rows"));
      a.latest.None? && a.previous.None? && !a.improved && a.currentMax == 0 && a.maxImprovement == 0
  {
  }

  /** The two-entry scenario 150x6 then 155x6: improved, estimates 180 and 186, delta 6. */
  lemma TwoEntryScenario()
    ensures var a := Analyze([Entry("d1", 150, 6), Entry("d2", 155, 6)]);
      a.improved && a.previousMax == 180 && a.currentMax == 186 && a.maxImprovement == 6 && ShowsGain(a)
  {
    OneRepMaxExamples();
  }
}
