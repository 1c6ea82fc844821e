/** The set ledger of the live workout tracker: the exercises of today's
    session, each holding an ordered list of sets, the three edit operations
    the set rows trigger, and the aggregates the progress bar and the summary
    screen display (src/components/WorkoutTracker.tsx). */
module WorkoutLedger {
  import Seqs

  /** One set of an exercise: repetitions, weight in pounds, and whether it is ticked off. */
  datatype SetEntry = SetEntry(id: string, reps: int, weight: int, completed: bool)

  /** An exercise of the session; `targetSets` is a display target and does not bound `sets`. */
  datatype Exercise = Exercise(id: string, name: string, sets: seq<SetEntry>, targetSets: int)

  /** The field a set-row control writes, carrying the value written. */
  datatype SetField = Reps(reps: int) | Weight(weight: int) | Completed(done: bool)

  /** The set with the one field `f` names overwritten and every other field kept. */
  function Assign(s: SetEntry, f: SetField): SetEntry {
    match f
    case Reps(n) => s.(reps := n)
    case Weight(w) => s.(weight := w)
    case Completed(b) => s.(completed := b)
  }

  /** The set an "Add Set" click appends; its id comes from the clock in the source. */
  function BlankSet(id: string): SetEntry {
    SetEntry(id, 0, 0, false)
  }

  /** No two sets of one exercise share an id (the rows are keyed by it). */
  predicate DistinctSetIds(sets: seq<SetEntry>) {
    forall j, k :: 0 <= j < k < |sets| ==> sets[j].id != sets[k].id
  }

  /** Exercise ids are pairwise distinct and so are the set ids inside each exercise. */
  predicate WellFormed(exs: seq<Exercise>) {
    && (forall i, k :: 0 <= i < k < |exs| ==> exs[i].id != exs[k].id)
    && (forall i :: 0 <= i < |exs| ==> DistinctSetIds(exs[i].sets))
  }

  /** The filter predicate of `removeSet`: keep the sets whose id differs from `setId`. */
  function OtherThan(setId: string): SetEntry -> bool {
    (s: SetEntry) => s.id != setId
  }

  /** The filter predicate of the completed-set count. */
  function IsDone(s: SetEntry): bool {
    s.completed
  }

  // ---------------------------------------------------------------------------
  // Edit operations

  /** The inner `sets.map` of `updateSet`: assigns `f` to every set whose id is `setId`. */
  function UpdateInSets(sets: seq<SetEntry>, setId: string, f: SetField): seq<SetEntry> {
    Seqs.Map(sets, (s: SetEntry) => if s.id == setId then Assign(s, f) else s)
  }

  function UpdateExercise(e: Exercise, exId: string, setId: string, f: SetField): Exercise {
    if e.id == exId then e.(sets := UpdateInSets(e.sets, setId, f)) else e
  }

  /** `updateSet(exerciseId, setId, field, value)`: writes the field of the
      matching sets inside the matching exercises and changes nothing else. */
  function UpdateSet(exs: seq<Exercise>, exId: string, setId: string, f: SetField): (r: seq<Exercise>)
    ensures |r| == |exs|
    ensures forall i :: 0 <= i < |exs| ==>
      && r[i].id == exs[i].id && r[i].name == exs[i].name
      && r[i].targetSets == exs[i].targetSets && |r[i].sets| == |exs[i].sets|
    ensures forall i, j :: 0 <= i < |exs| && 0 <= j < |exs[i].sets| ==>
      r[i].sets[j] == (if exs[i].id == exId && exs[i].sets[j].id == setId
                       then Assign(exs[i].sets[j], f) else exs[i].sets[j])
    ensures (forall i, j :: 0 <= i < |exs| && 0 <= j < |exs[i].sets| && exs[i].id == exId
               ==> exs[i].sets[j].id != setId) ==> r == exs
  {
    var r := Seqs.Map(exs, (e: Exercise) => UpdateExercise(e, exId, setId, f));
    assert (forall i, j :: 0 <= i < |exs| && 0 <= j < |exs[i].sets| && exs[i].id == exId
              ==> exs[i].sets[j].id != setId) ==> r == exs by {
      if forall i, j :: 0 <= i < |exs| && 0 <= j < |exs[i].sets| && exs[i].id == exId
           ==> exs[i].sets[j].id != setId {
        assert forall i :: 0 <= i < |exs| ==> r[i].sets == exs[i].sets;
      }
    }
    r
  }

  function AddToExercise(e: Exercise, exId: string, newId: string): Exercise {
    if e.id == exId then e.(sets := e.sets + [BlankSet(newId)]) else e
  }

  /** `addSet(exerciseId)`: appends a blank set with the caller-supplied `newId`
      to every exercise with id `exId`. */
  function AddSet(exs: seq<Exercise>, exId: string, newId: string): (r: seq<Exercise>)
    ensures |r| == |exs|
    ensures forall i :: 0 <= i < |exs| && exs[i].id != exId ==> r[i] == exs[i]
    ensures forall i :: 0 <= i < |exs| && exs[i].id == exId ==>
      && r[i].id == exs[i].id && r[i].name == exs[i].name && r[i].targetSets == exs[i].targetSets
      && |r[i].sets| == |exs[i].sets| + 1
      && r[i].sets[..|exs[i].sets|] == exs[i].sets
      && r[i].sets[|exs[i].sets|] == SetEntry(newId, 0, 0, false)
  {
    var r := Seqs.Map(exs, (e: Exercise) => AddToExercise(e, exId, newId));
    assert forall i :: 0 <= i < |exs| && exs[i].id == exId ==>
      r[i].sets[..|exs[i].sets|] == exs[i].sets;
    r
  }

  function RemoveFromExercise(e: Exercise, exId: string, setId: string): Exercise {
    if e.id == exId then e.(sets := Seqs.Filter(e.sets, OtherThan(setId))) else e
  }

  /** `removeSet(exerciseId, setId)`: inside every exercise with id `exId`
      keeps exactly the sets whose id differs from `setId`, in order. */
  function RemoveSet(exs: seq<Exercise>, exId: string, setId: string): (r: seq<Exercise>)
    ensures |r| == |exs|
    ensures forall i :: 0 <= i < |exs| && exs[i].id != exId ==> r[i] == exs[i]
    ensures forall i :: 0 <= i < |exs| && exs[i].id == exId ==>
      && r[i].id == exs[i].id && r[i].name == exs[i].name && r[i].targetSets == exs[i].targetSets
      && Seqs.IsSubsequence(r[i].sets, exs[i].sets)
      && (forall s :: s in r[i].sets <==> s in exs[i].sets && s.id != setId)
      && (forall s {:trigger multiset(r[i].sets)[s]} :: multiset(r[i].sets)[s] == if s.id != setId then multiset(exs[i].sets)[s] else 0)
    ensures (forall i, j :: 0 <= i < |exs| && 0 <= j < |exs[i].sets| && exs[i].id == exId
               ==> exs[i].sets[j].id != setId) ==> r == exs
  {
    var r := Seqs.Map(exs, (e: Exercise) => RemoveFromExercise(e, exId, setId));
    assert (forall i, j :: 0 <= i < |exs| && 0 <= j < |exs[i].sets| && exs[i].id == exId
              ==> exs[i].sets[j].id != setId) ==> r == exs by {
      if forall i, j :: 0 <= i < |exs| && 0 <= j < |exs[i].sets| && exs[i].id == exId
           ==> exs[i].sets[j].id != setId {
        forall i | 0 <= i < |exs|
          ensures r[i] == exs[i]
        {
          if exs[i].id == exId {
            assert forall j :: 0 <= j < |exs[i].sets| ==> OtherThan(setId)(exs[i].sets[j]);
          }
        }
      }
    }
    r
  }

  /** The "Start New Workout" reset of one set. */
  function Cleared(s: SetEntry): SetEntry {
    s.(completed := false)
  }

  function ClearExercise(e: Exercise): Exercise {
    e.(sets := Seqs.Map(e.sets, Cleared))
  }

  /** The "Start New Workout" reset: clears every completion flag and keeps
      ids, rep counts, weights and order. */
  function ResetSets(exs: seq<Exercise>): (r: seq<Exercise>)
    ensures |r| == |exs|
    ensures forall i :: 0 <= i < |exs| ==>
      && r[i].id == exs[i].id && r[i].name == exs[i].name
      && r[i].targetSets == exs[i].targetSets && |r[i].sets| == |exs[i].sets|
    ensures forall i, j :: 0 <= i < |exs| && 0 <= j < |exs[i].sets| ==>
      && r[i].sets[j].id == exs[i].sets[j].id && r[i].sets[j].reps == exs[i].sets[j].reps
      && r[i].sets[j].weight == exs[i].sets[j].weight && !r[i].sets[j].completed
  {
    Seqs.Map(exs, ClearExercise)
  }

  // ---------------------------------------------------------------------------
  // Aggregates

  /** The number of sets summed over all exercises: at least the set count of
      any one exercise, and zero only when no exercise has a set. */
  function TotalSets(exs: seq<Exercise>): (n: nat)
    ensures forall i :: 0 <= i < |exs| ==> |exs[i].sets| <= n
    ensures n == 0 <==> forall i :: 0 <= i < |exs| ==> exs[i].sets == []
    decreases |exs|
  {
    if exs == [] then 0
    else
      assert forall i :: 1 <= i < |exs| ==> exs[i] == exs[1..][i - 1];
      |exs[0].sets| + TotalSets(exs[1..])
  }

  /** The number of ticked-off sets summed over all exercises; it never
      exceeds the total and is positive exactly when some set is ticked off. */
  function CompletedSets(exs: seq<Exercise>): (n: nat)
    ensures n <= TotalSets(exs)
    ensures (exists i, j :: 0 <= i < |exs| && 0 <= j < |exs[i].sets| && exs[i].sets[j].completed) <==> n > 0
    decreases |exs|
  {
    if exs == [] then 0
    else
      var done := Seqs.Filter(exs[0].sets, IsDone);
      assert |done| > 0 ==> done[0] in done;
      assert forall j :: 0 <= j < |exs[0].sets| && exs[0].sets[j].completed ==> exs[0].sets[j] in done;
      assert forall i, j :: 1 <= i < |exs| && 0 <= j < |exs[i].sets| ==> exs[i].sets[j] == exs[1..][i - 1].sets[j];
      |done| + CompletedSets(exs[1..])
  }

  /** The width of the progress bar: `completed / total * 100`, or 0 for an empty ledger. */
  function ProgressPercentage(exs: seq<Exercise>): (pct: real)
    ensures 0.0 <= pct <= 100.0
    ensures TotalSets(exs) == 0 ==> pct == 0.0
    ensures pct > 0.0 <==> CompletedSets(exs) > 0
  {
    var done, total := CompletedSets(exs), TotalSets(exs);
    Percent(done, total)
  }

  /** `totalSets > 0 ? (completedSets / totalSets) * 100 : 0`, in exact rationals. */
  function Percent(done: nat, total: nat): (p: real)
    requires done <= total
    ensures 0.0 <= p <= 100.0
    ensures total == 0 ==> p == 0.0
    ensures total > 0 ==> p * (total as real) == (done as real) * 100.0
    ensures p > 0.0 <==> done > 0
  {
    if total > 0 then
      var t, d := total as real, done as real;
      var q := d / t;
      assert q * t == d;
      assert (q - 1.0) * t == d - t;
      q * 100.0
    else 0.0
  }

  /** The scenario of three sets with two done next to two sets with none done shows 40%. */
  lemma FortyPercentScenario()
    ensures var exs := [
        Exercise("a", "A", [SetEntry("1", 8, 100, true), SetEntry("2", 8, 100, true), SetEntry("3", 8, 100, false)], 3),
        Exercise("b", "B", [SetEntry("4", 8, 100, false), SetEntry("5", 8, 100, false)], 2)];
      TotalSets(exs) == 5 && CompletedSets(exs) == 2 && ProgressPercentage(exs) == 40.0
  {
    var exs := [
        Exercise("a", "A", [SetEntry("1", 8, 100, true), SetEntry("2", 8, 100, true), SetEntry("3", 8, 100, false)], 3),
        Exercise("b", "B", [SetEntry("4", 8, 100, false), SetEntry("5", 8, 100, false)], 2)];
    assert exs[1..][1..] == [];
    assert Seqs.Filter(exs[0].sets, IsDone) == exs[0].sets[..2];
    assert Seqs.Filter(exs[1].sets, IsDone) == [];
  }

  /** Weight times reps summed over the sets of one exercise; an exercise
      done without weight (push-ups) has volume 0. */
  function SetsVolume(sets: seq<SetEntry>): (v: int)
    ensures (forall j :: 0 <= j < |sets| ==> sets[j].weight == 0) ==> v == 0
    decreases |sets|
  {
    if sets == [] then 0
    else
      assert forall j :: 1 <= j < |sets| ==> sets[j] == sets[1..][j - 1];
      sets[0].weight * sets[0].reps + SetsVolume(sets[1..])
  }

  /** The "Total Volume" figure of the summary screen: the set volumes summed
      over all exercises, 0 for a session without any weighted set. */
  function TotalVolume(exs: seq<Exercise>): (v: int)
    ensures (forall i, j :: 0 <= i < |exs| && 0 <= j < |exs[i].sets| ==> exs[i].sets[j].weight == 0) ==> v == 0
    decreases |exs|
  {
    if exs == [] then 0
    else
      assert forall i :: 1 <= i < |exs| ==> exs[i] == exs[1..][i - 1];
      SetsVolume(exs[0].sets) + TotalVolume(exs[1..])
  }

  /** Every entered rep count and weight is non-negative. */
  predicate NonNegative(exs: seq<Exercise>) {
    forall i, j :: 0 <= i < |exs| && 0 <= j < |exs[i].sets| ==>
      exs[i].sets[j].reps >= 0 && exs[i].sets[j].weight >= 0
  }

  // ---------------------------------------------------------------------------
  // Properties

  /** The volume of a ledger of non-negative entries is non-negative. */
  lemma {:induction false} VolumeNonNegative(exs: seq<Exercise>)
    requires NonNegative(exs)
    ensures TotalVolume(exs) >= 0
    decreases |exs|
  {
    if exs != [] {
      SetsVolumeNonNegative(exs[0].sets);
      assert NonNegative(exs[1..]) by {
        forall i, j | 0 <= i < |exs[1..]| && 0 <= j < |exs[1..][i].sets|
          ensures exs[1..][i].sets[j].reps >= 0 && exs[1..][i].sets[j].weight >= 0
        {
          assert exs[1..][i] == exs[i + 1];
        }
      }
      VolumeNonNegative(exs[1..]);
    }
  }

  lemma {:induction false} SetsVolumeNonNegative(sets: seq<SetEntry>)
    requires forall j :: 0 <= j < |sets| ==> sets[j].reps >= 0 && sets[j].weight >= 0
    ensures SetsVolume(sets) >= 0
    decreases |sets|
  {
    if sets != [] {
      assert sets[0].weight * sets[0].reps >= 0;
      SetsVolumeNonNegative(sets[1..]);
    }
  }

  function HasWeight(s: SetEntry): bool {
    s.weight != 0
  }

  /** Sets lifted at weight 0 (the push-ups) add nothing: the volume equals
      the volume of the weighted sets alone. */
  lemma {:induction false} ZeroWeightAddsNothing(sets: seq<SetEntry>)
    ensures SetsVolume(sets) == SetsVolume(Seqs.Filter(sets, HasWeight))
    decreases |sets|
  {
    if sets != [] {
      ZeroWeightAddsNothing(sets[1..]);
      var rest := Seqs.Filter(sets[1..], HasWeight);
      if HasWeight(sets[0]) {
        assert Seqs.Filter(sets, HasWeight) == [sets[0]] + rest;
        assert ([sets[0]] + rest)[1..] == rest;
      } else {
        assert sets[0].weight * sets[0].reps == 0;
      }
    }
  }

  /** Volume reads weight and reps only, so it is invariant under any change
      of completion flags. */
  lemma {:induction false} VolumeIgnoresCompletion(a: seq<Exercise>, b: seq<Exercise>)
    requires |a| == |b|
    requires forall i :: 0 <= i < |a| ==> |a[i].sets| == |b[i].sets|
    requires forall i, j :: 0 <= i < |a| && 0 <= j < |a[i].sets| ==>
      a[i].sets[j].reps == b[i].sets[j].reps && a[i].sets[j].weight == b[i].sets[j].weight
    ensures TotalVolume(a) == TotalVolume(b)
    decreases |a|
  {
    if a != [] {
      SetsVolumeIgnoresCompletion(a[0].sets, b[0].sets);
      VolumeIgnoresCompletion(a[1..], b[1..]);
    }
  }

  lemma {:induction false} SetsVolumeIgnoresCompletion(a: seq<SetEntry>, b: seq<SetEntry>)
    requires |a| == |b|
    requires forall j :: 0 <= j < |a| ==> a[j].reps == b[j].reps && a[j].weight == b[j].weight
    ensures SetsVolume(a) == SetsVolume(b)
    decreases |a|
  {
    if a != [] {
      SetsVolumeIgnoresCompletion(a[1..], b[1..]);
    }
  }

  /** Two ledgers of the same shape have the same set total. */
  lemma {:induction false} TotalSetsByShape(a: seq<Exercise>, b: seq<Exercise>)
    requires |a| == |b|
    requires forall i :: 0 <= i < |a| ==> |a[i].sets| == |b[i].sets|
    ensures TotalSets(a) == TotalSets(b)
    decreases |a|
  {
    if a != [] {
      TotalSetsByShape(a[1..], b[1..]);
    }
  }

  /** The reset of "Start New Workout" keeps every id, rep count, weight and
      the order, leaves no set completed, and keeps the total and the volume. */
  lemma ResetClearsProgress(exs: seq<Exercise>)
    ensures CompletedSets(ResetSets(exs)) == 0
    ensures TotalSets(ResetSets(exs)) == TotalSets(exs)
    ensures TotalVolume(ResetSets(exs)) == TotalVolume(exs)
    ensures WellFormed(exs) ==> WellFormed(ResetSets(exs))
  {
    var r := ResetSets(exs);
    TotalSetsByShape(r, exs);
    VolumeIgnoresCompletion(r, exs);
  }

  /** Clicking a set's check button twice (each click writes the negation of
      the flag shown) gives back the ledger it started from. */
  lemma ToggleTwiceRestores(exs: seq<Exercise>, i: nat, j: nat)
    requires WellFormed(exs)
    requires i < |exs| && j < |exs[i].sets|
    ensures
      var exId, setId := exs[i].id, exs[i].sets[j].id;
      var once := UpdateSet(exs, exId, setId, Completed(!exs[i].sets[j].completed));
      && once[i].sets[j].completed == !exs[i].sets[j].completed
      && UpdateSet(once, exId, setId, Completed(!once[i].sets[j].completed)) == exs
  {
    var exId, setId := exs[i].id, exs[i].sets[j].id;
    var v := !exs[i].sets[j].completed;
    var once := UpdateSet(exs, exId, setId, Completed(v));
    var twice := UpdateSet(once, exId, setId, Completed(!v));
    forall k | 0 <= k < |exs|
      ensures twice[k] == exs[k]
    {
      forall l | 0 <= l < |exs[k].sets|
        ensures twice[k].sets[l] == exs[k].sets[l]
      {
        if exs[k].id == exId && exs[k].sets[l].id == setId {
          assert k == i;
          assert l == j;
        }
      }
      assert twice[k].sets == exs[k].sets;
    }
  }

  /** Adding a set and then removing it by its (fresh) id gives back the ledger. */
  lemma AddThenRemoveRestores(exs: seq<Exercise>, exId: string, newId: string)
    requires forall i, j :: 0 <= i < |exs| && 0 <= j < |exs[i].sets| && exs[i].id == exId
               ==> exs[i].sets[j].id != newId
    ensures RemoveSet(AddSet(exs, exId, newId), exId, newId) == exs
  {
    var added := AddSet(exs, exId, newId);
    var r := RemoveSet(added, exId, newId);
    forall i | 0 <= i < |exs|
      ensures r[i] == exs[i]
    {
      if exs[i].id == exId {
        var s := exs[i].sets;
        assert added[i].sets == s + [BlankSet(newId)];
        Seqs.FilterSnoc(s, BlankSet(newId), OtherThan(newId));
        assert r[i].sets == Seqs.Filter(s, OtherThan(newId)) + [];
        assert Seqs.Filter(s, OtherThan(newId)) == s;
      }
    }
  }

  /** Filtering out an id that occurs exactly once drops exactly one set and keeps the ids distinct. */
  lemma {:induction false} RemoveUniqueSet(sets: seq<SetEntry>, j: nat)
    requires DistinctSetIds(sets) && j < |sets|
    ensures var r := Seqs.Filter(sets, OtherThan(sets[j].id));
      |r| == |sets| - 1 && DistinctSetIds(r)
    decreases |sets|
  {
    var id := sets[j].id;
    var rest := Seqs.Filter(sets[1..], OtherThan(id));
    if j == 0 {
      assert rest == sets[1..] by {
        assert forall k :: 0 <= k < |sets[1..]| ==> OtherThan(id)(sets[1..][k]);
      }
    } else {
      assert sets[1..][j - 1] == sets[j];
      RemoveUniqueSet(sets[1..], j - 1);
      assert Seqs.Filter(sets, OtherThan(id)) == [sets[0]] + rest;
      assert forall s :: s in rest ==> s.id != sets[0].id by {
        assert forall k :: 0 <= k < |sets[1..]| ==> sets[1..][k].id != sets[0].id;
      }
      PrependDistinct(sets[0], rest);
    }
  }

  /** A set whose id no later set carries can be put in front of a list with distinct ids. */
  lemma PrependDistinct(x: SetEntry, rest: seq<SetEntry>)
    requires DistinctSetIds(rest)
    requires forall s :: s in rest ==> s.id != x.id
    ensures DistinctSetIds([x] + rest)
  {
    var r := [x] + rest;
    forall a, b | 0 <= a < b < |r|
      ensures r[a].id != r[b].id
    {
      if a == 0 {
        assert r[b] == rest[b - 1];
      } else {
        assert r[a] == rest[a - 1] && r[b] == rest[b - 1];
      }
    }
  }


  /** Ticking a set off (or unticking it) in a well-formed ledger moves the
      completed count by exactly one and leaves the total alone. */
  lemma TickMovesCountByOne(exs: seq<Exercise>, i: nat, j: nat, b: bool)
    requires WellFormed(exs)
    requires i < |exs| && j < |exs[i].sets| && exs[i].sets[j].completed != b
    ensures var r := UpdateSet(exs, exs[i].id, exs[i].sets[j].id, Completed(b));
      && CompletedSets(r) == CompletedSets(exs) + (if b then 1 else -1)
      && TotalSets(r) == TotalSets(exs)
  {
    var exId, setId := exs[i].id, exs[i].sets[j].id;
    var r := UpdateSet(exs, exId, setId, Completed(b));
    forall k | 0 <= k < |exs| && k != i
      ensures r[k].sets == exs[k].sets
    {
      assert exs[k].id != exId;
      assert forall l :: 0 <= l < |exs[k].sets| ==> r[k].sets[l] == exs[k].sets[l];
    }
    assert r[i].sets == UpdateInSets(exs[i].sets, setId, Completed(b));
    TickInSets(exs[i].sets, j, b);
    CompletedSetsPointUpdate(r, exs, i);
    TotalSetsByShape(r, exs);
  }

  /** Within one exercise with distinct set ids, writing the flag of set `j`
      moves the number of ticked-off sets by one. */
  lemma {:induction false} TickInSets(sets: seq<SetEntry>, j: nat, b: bool)
    requires DistinctSetIds(sets) && j < |sets| && sets[j].completed != b
    ensures |Seqs.Filter(UpdateInSets(sets, sets[j].id, Completed(b)), IsDone)|
         == |Seqs.Filter(sets, IsDone)| + (if b then 1 else -1)
    decreases |sets|
  {
    var id := sets[j].id;
    var u := UpdateInSets(sets, id, Completed(b));
    var tail := UpdateInSets(sets[1..], id, Completed(b));
    assert u[1..] == tail;
    if j == 0 {
      assert forall k :: 0 <= k < |tail| ==> tail[k] == sets[1..][k];
      assert tail == sets[1..];
    } else {
      assert sets[1..][j - 1] == sets[j];
      TickInSets(sets[1..], j - 1, b);
    }
  }

  /** Ledgers whose exercises hold the same sets have the same completed count. */
  lemma {:induction false} CompletedSetsBySets(a: seq<Exercise>, b: seq<Exercise>)
    requires |a| == |b|
    requires forall k :: 0 <= k < |a| ==> a[k].sets == b[k].sets
    ensures CompletedSets(a) == CompletedSets(b)
    decreases |a|
  {
    if a != [] {
      CompletedSetsBySets(a[1..], b[1..]);
    }
  }

  /** Changing the sets of exercise `i` alone changes the completed count by
      the change in that exercise's count. */
  lemma {:induction false} CompletedSetsPointUpdate(a: seq<Exercise>, b: seq<Exercise>, i: nat)
    requires |a| == |b| && i < |a|
    requires forall k :: 0 <= k < |a| && k != i ==> a[k].sets == b[k].sets
    ensures CompletedSets(a) - |Seqs.Filter(a[i].sets, IsDone)|
         == CompletedSets(b) - |Seqs.Filter(b[i].sets, IsDone)|
    decreases |a|
  {
    if i == 0 {
      CompletedSetsBySets(a[1..], b[1..]);
    } else {
      CompletedSetsPointUpdate(a[1..], b[1..], i - 1);
    }
  }

  /** "Add Set" on an exercise of a well-formed ledger raises the set total by exactly one. */
  lemma AddRaisesTotal(exs: seq<Exercise>, i: nat, newId: string)
    requires WellFormed(exs) && i < |exs|
    ensures TotalSets(AddSet(exs, exs[i].id, newId)) == TotalSets(exs) + 1
  {
    var r := AddSet(exs, exs[i].id, newId);
    assert forall k :: 0 <= k < |exs| && k != i ==> exs[k].id != exs[i].id;
    TotalSetsPointUpdate(r, exs, i);
  }

  /** Removing a set by its id in a well-formed ledger lowers the set total by exactly one. */
  lemma RemoveLowersTotal(exs: seq<Exercise>, i: nat, j: nat)
    requires WellFormed(exs) && i < |exs| && j < |exs[i].sets|
    ensures TotalSets(RemoveSet(exs, exs[i].id, exs[i].sets[j].id)) == TotalSets(exs) - 1
  {
    var exId, setId := exs[i].id, exs[i].sets[j].id;
    var r := RemoveSet(exs, exId, setId);
    assert forall k :: 0 <= k < |exs| && k != i ==> exs[k].id != exId;
    assert r[i].sets == Seqs.Filter(exs[i].sets, OtherThan(setId));
    RemoveUniqueSet(exs[i].sets, j);
    TotalSetsPointUpdate(r, exs, i);
  }

  /** Changing the sets of exercise `i` alone changes the total by the change
      in that exercise's set count. */
  lemma {:induction false} TotalSetsPointUpdate(a: seq<Exercise>, b: seq<Exercise>, i: nat)
    requires |a| == |b| && i < |a|
    requires forall k :: 0 <= k < |a| && k != i ==> |a[k].sets| == |b[k].sets|
    ensures TotalSets(a) - |a[i].sets| == TotalSets(b) - |b[i].sets|
    decreases |a|
  {
    if i == 0 {
      TotalSetsByShape(a[1..], b[1..]);
    } else {
      TotalSetsPointUpdate(a[1..], b[1..], i - 1);
    }
  }
  // ---------------------------------------------------------------------------
  // The volume figure, set by set

  /** Appending a set adds exactly its weight times its reps to the volume. */
  lemma {:induction false} SetsVolumeSnoc(sets: seq<SetEntry>, s: SetEntry)
    ensures SetsVolume(sets + [s]) == SetsVolume(sets) + s.weight * s.reps
    decreases |sets|
  {
    if sets == [] {
      assert sets + [s] == [s];
      assert [s][1..] == [];
    } else {
      assert (sets + [s])[1..] == sets[1..] + [s];
      SetsVolumeSnoc(sets[1..], s);
    }
  }

  /** Changing the weight or reps of set `j` alone changes the volume by the
      change in that set's weight times reps. */
  lemma {:induction false} SetsVolumePointUpdate(a: seq<SetEntry>, b: seq<SetEntry>, j: nat)
    requires |a| == |b| && j < |a|
    requires forall k :: 0 <= k < |a| && k != j ==> a[k].reps == b[k].reps && a[k].weight == b[k].weight
    ensures SetsVolume(a) - a[j].weight * a[j].reps == SetsVolume(b) - b[j].weight * b[j].reps
    decreases |a|
  {
    if j == 0 {
      SetsVolumeIgnoresCompletion(a[1..], b[1..]);
    } else {
      SetsVolumePointUpdate(a[1..], b[1..], j - 1);
    }
  }

  /** Changing the sets of exercise `i` alone changes the total volume by the
      change in that exercise's volume. */
  lemma {:induction false} TotalVolumePointUpdate(a: seq<Exercise>, b: seq<Exercise>, i: nat)
    requires |a| == |b| && i < |a|
    requires forall k :: 0 <= k < |a| && k != i ==> a[k].sets == b[k].sets
    ensures TotalVolume(a) - SetsVolume(a[i].sets) == TotalVolume(b) - SetsVolume(b[i].sets)
    decreases |a|
  {
    if i == 0 {
      VolumeIgnoresCompletion(a[1..], b[1..]);
    } else {
      TotalVolumePointUpdate(a[1..], b[1..], i - 1);
    }
  }

  /** Removing the set with a unique id takes exactly its weight times reps
      off the volume. */
  lemma {:induction false} SetsVolumeRemove(sets: seq<SetEntry>, j: nat)
    requires DistinctSetIds(sets) && j < |sets|
    ensures SetsVolume(Seqs.Filter(sets, OtherThan(sets[j].id)))
         == SetsVolume(sets) - sets[j].weight * sets[j].reps
    decreases |sets|
  {
    var id := sets[j].id;
    var rest := Seqs.Filter(sets[1..], OtherThan(id));
    if j == 0 {
      assert rest == sets[1..] by {
        assert forall k :: 0 <= k < |sets[1..]| ==> OtherThan(id)(sets[1..][k]);
      }
    } else {
      assert sets[1..][j - 1] == sets[j];
      assert DistinctSetIds(sets[1..]) by {
        assert forall k :: 0 <= k < |sets[1..]| ==> sets[1..][k] == sets[k + 1];
      }
      SetsVolumeRemove(sets[1..], j - 1);
      assert Seqs.Filter(sets, OtherThan(id)) == [sets[0]] + rest;
      assert ([sets[0]] + rest)[1..] == rest;
    }
  }

  /** Editing one field of one set of a well-formed ledger moves the "Total
      Volume" figure by exactly the change in that set's weight times reps:
      a weight edit from `w0` to `w` on a set of `n` reps adds `(w - w0) * n`,
      and ticking a set off adds nothing. */
  lemma EditMovesVolume(exs: seq<Exercise>, i: nat, j: nat, f: SetField)
    requires WellFormed(exs) && i < |exs| && j < |exs[i].sets|
    ensures var s := exs[i].sets[j];
      var t := Assign(s, f);
      TotalVolume(UpdateSet(exs, exs[i].id, s.id, f))
        == TotalVolume(exs) - s.weight * s.reps + t.weight * t.reps
  {
    var s := exs[i].sets[j];
    var r := UpdateSet(exs, exs[i].id, s.id, f);
    assert forall k :: 0 <= k < |exs| && k != i ==> exs[k].id != exs[i].id;
    forall k | 0 <= k < |exs| && k != i
      ensures r[k].sets == exs[k].sets
    {
      assert forall m :: 0 <= m < |exs[k].sets| ==> r[k].sets[m] == exs[k].sets[m];
    }
    assert forall m :: 0 <= m < |exs[i].sets| && m != j ==> exs[i].sets[m].id != s.id;
    SetsVolumePointUpdate(r[i].sets, exs[i].sets, j);
    TotalVolumePointUpdate(r, exs, i);
  }

  /** "Add Set" leaves the volume unchanged: the new set has weight 0. */
  lemma AddKeepsVolume(exs: seq<Exercise>, i: nat, newId: string)
    requires WellFormed(exs) && i < |exs|
    ensures TotalVolume(AddSet(exs, exs[i].id, newId)) == TotalVolume(exs)
  {
    var r := AddSet(exs, exs[i].id, newId);
    assert forall k :: 0 <= k < |exs| && k != i ==> exs[k].id != exs[i].id;
    assert r[i].sets == exs[i].sets + [BlankSet(newId)];
    SetsVolumeSnoc(exs[i].sets, BlankSet(newId));
    TotalVolumePointUpdate(r, exs, i);
  }

  /** Removing a set by its id in a well-formed ledger takes exactly that
      set's weight times reps off the volume. */
  lemma RemoveLowersVolume(exs: seq<Exercise>, i: nat, j: nat)
    requires WellFormed(exs) && i < |exs| && j < |exs[i].sets|
    ensures var s := exs[i].sets[j];
      TotalVolume(RemoveSet(exs, exs[i].id, s.id)) == TotalVolume(exs) - s.weight * s.reps
  {
    var exId, setId := exs[i].id, exs[i].sets[j].id;
    var r := RemoveSet(exs, exId, setId);
    assert forall k :: 0 <= k < |exs| && k != i ==> exs[k].id != exId;
    assert r[i].sets == Seqs.Filter(exs[i].sets, OtherThan(setId));
    SetsVolumeRemove(exs[i].sets, j);
    TotalVolumePointUpdate(r, exs, i);
  }
}
