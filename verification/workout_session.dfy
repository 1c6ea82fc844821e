/** The live workout screen as a state machine over the set ledger:
    not started, in progress, completed, and back through "Start New Workout"
    (src/components/WorkoutTracker.tsx). The source keeps two flags,
    `workoutStarted` and `workoutCompleted`; the completed view is checked
    first, so the three reachable flag combinations are the three phases. */
module WorkoutSession {
  import opened Wrappers
  import opened WorkoutLedger
  import Seqs

  datatype Phase = NotStarted | InProgress | Finished

  datatype Session = Session(phase: Phase, exercises: seq<Exercise>)

  /** The user actions of the screen. `Add` carries the id the source draws from the clock. */
  datatype Action =
    | Start
    | Complete
    | StartNew
    | Edit(exId: string, setId: string, field: SetField)
    | Add(exId: string, newId: string)
    | Remove(exId: string, setId: string)

  /** The exercise whose set rows render no weight input. */
  const BodyweightExercise: string := "Push-ups"

  /** Whether the row of set `s` in exercise `e` renders a control that writes `f`:
      a reps input always, a weight input except for push-ups, and a check
      button that writes the negation of the flag it shows. */
  predicate RowOffers(e: Exercise, s: SetEntry, f: SetField) {
    match f
    case Reps(_) => true
    case Weight(_) => e.name != BodyweightExercise
    case Completed(b) => b == !s.completed
  }

  /** Whether the current view renders an enabled control for `a`. For `Add`,
      the clock id is assumed fresh among the sets of the target exercise.
      Each control belongs to one of the three views: start on the pre-start
      view, "Start New Workout" on the summary, everything else in progress. */
  predicate Enabled(s: Session, a: Action)
    ensures Enabled(s, a) ==>
      s.phase == (if a.Start? then NotStarted else if a.StartNew? then Finished else InProgress)
  {
    var exs := s.exercises;
    match a
    case Start => s.phase == NotStarted
    case Complete => s.phase == InProgress && CompletedSets(exs) > 0
    case StartNew => s.phase == Finished
    case Edit(exId, setId, f) =>
      && s.phase == InProgress
      && exists i, j :: 0 <= i < |exs| && 0 <= j < |exs[i].sets|
           && exs[i].id == exId && exs[i].sets[j].id == setId && RowOffers(exs[i], exs[i].sets[j], f)
    case Add(exId, newId) =>
      && s.phase == InProgress
      && (exists i :: 0 <= i < |exs| && exs[i].id == exId)
      && (forall i, j :: 0 <= i < |exs| && 0 <= j < |exs[i].sets| && exs[i].id == exId
            ==> exs[i].sets[j].id != newId)
    case Remove(exId, setId) =>
      && s.phase == InProgress
      && exists i, j :: 0 <= i < |exs| && 0 <= j < |exs[i].sets|
           && exs[i].id == exId && |exs[i].sets| > 1 && exs[i].sets[j].id == setId
  }

  /** One user action; `None` when the view offers no control for it. */
  function Step(s: Session, a: Action): (r: Option<Session>)
    ensures r.Some? <==> Enabled(s, a)
    ensures r.Some? && a.Start? ==> r.value == Session(InProgress, s.exercises)
    ensures r.Some? && a.Complete? ==>
      r.value.phase == Finished && r.value.exercises == s.exercises && CompletedSets(r.value.exercises) > 0
    ensures r.Some? && a.StartNew? ==>
      && r.value.phase == NotStarted
      && r.value.exercises == ResetSets(s.exercises)
      && CompletedSets(r.value.exercises) == 0
      && TotalSets(r.value.exercises) == TotalSets(s.exercises)
    ensures r.Some? && (a.Edit? || a.Add? || a.Remove?) ==>
      r.value.phase == InProgress && |r.value.exercises| == |s.exercises|
    ensures r.Some? && a.Edit? ==> r.value.exercises == UpdateSet(s.exercises, a.exId, a.setId, a.field)
    ensures r.Some? && a.Add? ==> r.value.exercises == AddSet(s.exercises, a.exId, a.newId)
    ensures r.Some? && a.Remove? ==> r.value.exercises == RemoveSet(s.exercises, a.exId, a.setId)
  {
    if !Enabled(s, a) then None
    else
      var exs := s.exercises;
      match a
      case Start => Some(Session(InProgress, exs))
      case Complete => Some(Session(Finished, exs))
      case StartNew =>
        ResetClearsProgress(exs);
        Some(Session(NotStarted, ResetSets(exs)))
      case Edit(exId, setId, f) => Some(Session(InProgress, UpdateSet(exs, exId, setId, f)))
      case Add(exId, newId) => Some(Session(InProgress, AddSet(exs, exId, newId)))
      case Remove(exId, setId) => Some(Session(InProgress, RemoveSet(exs, exId, setId)))
  }

  /** What every reachable session satisfies: well-formed ids, no exercise
      without sets, nothing ticked off before the start, and at least one
      set done on the summary screen. */
  predicate Inv(s: Session) {
    && WellFormed(s.exercises)
    && (forall i :: 0 <= i < |s.exercises| ==> |s.exercises[i].sets| >= 1)
    && (s.phase == NotStarted ==> CompletedSets(s.exercises) == 0)
    && (s.phase == Finished ==> CompletedSets(s.exercises) > 0)
  }

  /** The "Push Day" the screen opens with. */
  function Initial(): Session {
    Session(NotStarted, [
      Exercise("1", "Bench Press", [
        SetEntry("1", 8, 135, false), SetEntry("2", 8, 145, false),
        SetEntry("3", 6, 155, false), SetEntry("4", 4, 165, false)], 4),
      Exercise("2", "Overhead Press", [
        SetEntry("5", 10, 95, false), SetEntry("6", 8, 105, false), SetEntry("7", 6, 115, false)], 3),
      Exercise("3", "Push-ups", [
        SetEntry("8", 15, 0, false), SetEntry("9", 12, 0, false), SetEntry("10", 10, 0, false)], 3)
    ])
  }

  lemma InitialInv()
    ensures Inv(Initial())
  {
    var exs := Initial().exercises;
    assert !exists i, j :: 0 <= i < |exs| && 0 <= j < |exs[i].sets| && exs[i].sets[j].completed;
  }

  /** Every enabled action keeps the invariant; in particular removal, offered
      only on exercises with more than one set, never empties an exercise. */
  lemma StepPreservesInv(s: Session, a: Action)
    requires Inv(s) && Enabled(s, a)
    ensures Inv(Step(s, a).value)
  {
    var exs := s.exercises;
    match a
    case Start =>
    case Complete =>
    case StartNew =>
      ResetClearsProgress(exs);
    case Edit(exId, setId, f) =>
      assert Step(s, a).value == Session(InProgress, UpdateSet(exs, exId, setId, f));
      EditKeepsWellFormed(exs, exId, setId, f);
    case Add(exId, newId) =>
      assert Step(s, a).value == Session(InProgress, AddSet(exs, exId, newId));
      AddKeepsWellFormed(exs, exId, newId);
    case Remove(exId, setId) =>
      assert Step(s, a).value == Session(InProgress, RemoveSet(exs, exId, setId));
      RemoveKeepsInv(exs, exId, setId);
  }

  lemma EditKeepsWellFormed(exs: seq<Exercise>, exId: string, setId: string, f: SetField)
    requires WellFormed(exs)
    ensures var r := UpdateSet(exs, exId, setId, f);
      WellFormed(r) && forall i :: 0 <= i < |exs| ==> |r[i].sets| == |exs[i].sets|
  {
    var r := UpdateSet(exs, exId, setId, f);
    forall i | 0 <= i < |r|
      ensures DistinctSetIds(r[i].sets)
    {
      assert forall j :: 0 <= j < |r[i].sets| ==> r[i].sets[j].id == exs[i].sets[j].id;
    }
  }

  lemma AddKeepsWellFormed(exs: seq<Exercise>, exId: string, newId: string)
    requires WellFormed(exs)
    requires forall i, j :: 0 <= i < |exs| && 0 <= j < |exs[i].sets| && exs[i].id == exId
               ==> exs[i].sets[j].id != newId
    ensures WellFormed(AddSet(exs, exId, newId))
  {
    var r := AddSet(exs, exId, newId);
    forall i | 0 <= i < |r| && exs[i].id == exId
      ensures DistinctSetIds(r[i].sets)
    {
      var old_ := exs[i].sets;
      assert r[i].sets == old_ + [BlankSet(newId)];
    }
  }

  lemma RemoveKeepsInv(exs: seq<Exercise>, exId: string, setId: string)
    requires WellFormed(exs)
    requires exists i, j :: 0 <= i < |exs| && 0 <= j < |exs[i].sets|
               && exs[i].id == exId && |exs[i].sets| > 1 && exs[i].sets[j].id == setId
    ensures var r := RemoveSet(exs, exId, setId);
      && WellFormed(r)
      && forall i :: 0 <= i < |exs| && |exs[i].sets| >= 1 ==> |r[i].sets| >= 1
  {
    var r := RemoveSet(exs, exId, setId);
    var i0, j0 :| 0 <= i0 < |exs| && 0 <= j0 < |exs[i0].sets|
      && exs[i0].id == exId && |exs[i0].sets| > 1 && exs[i0].sets[j0].id == setId;
    forall i | 0 <= i < |exs|
      ensures DistinctSetIds(r[i].sets)
      ensures |exs[i].sets| >= 1 ==> |r[i].sets| >= 1
    {
      if exs[i].id == exId {
        assert i == i0;
        assert r[i].sets == Seqs.Filter(exs[i].sets, OtherThan(setId));
        RemoveUniqueSet(exs[i].sets, j0);
      }
    }
  }

  /** Completing is possible only once at least one set is ticked off, i.e.
      exactly when the progress bar is not empty. */
  lemma CompleteNeedsProgress(s: Session)
    requires s.phase == InProgress
    ensures Enabled(s, Complete) <==> ProgressPercentage(s.exercises) > 0.0
  {
  }

  /** The start button is offered only before the workout starts, and a
      session that starts, completes and starts anew is back at the start
      with every set unticked and the same sets in place. */
  lemma StartOnlyWhenNotStarted(s: Session)
    ensures Step(s, Start).Some? <==> s.phase == NotStarted
    ensures s.phase == InProgress && CompletedSets(s.exercises) > 0 ==>
      var done := Step(s, Complete).value;
      var again := Step(done, StartNew).value;
      again.phase == NotStarted && again.exercises == ResetSets(s.exercises)
  {
  }
}
