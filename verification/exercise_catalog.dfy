/** The exercise library: the catalog, its search box and two filter
    drop-downs, the add form, and the muscle-group colour table
    (src/components/ExerciseLibrary.tsx). */
module ExerciseCatalog {
  import Seqs

  datatype ExerciseDef = ExerciseDef(id: string, name: string, muscleGroup: string, equipment: string, description: string)

  /** The search term and the two drop-down selections. */
  datatype Query = Query(search: string, muscle: string, equipment: string)

  /** The drop-down value that disables a filter. */
  const Wildcard: string := "All"

  /** `toLowerCase` on one character, for the ASCII letters. */
  function LowerChar(c: char): (d: char)
    ensures 'A' <= c <= 'Z' ==> 'a' <= d <= 'z' && d as int - c as int == 32
    ensures !('A' <= c <= 'Z') ==> d == c
  {
    if 'A' <= c <= 'Z' then (c as int + 32) as char else c
  }

  function Lower(s: string): (r: string)
    ensures |r| == |s|
    ensures forall i :: 0 <= i < |s| ==> r[i] == LowerChar(s[i])
  {
    Seqs.Map(s, LowerChar)
  }

  /** `needle` occurs in `hay` at position `i`. */
  ghost predicate OccursAt(hay: string, needle: string, i: int) {
    0 <= i && i + |needle| <= |hay| && hay[i..i + |needle|] == needle
  }

  /** `String.prototype.includes`: whether `needle` occurs somewhere in `hay`. */
  function Includes(hay: string, needle: string): (b: bool)
    ensures b <==> exists i :: OccursAt(hay, needle, i)
    decreases |hay|
  {
    if |needle| > |hay| then
      assert forall i :: !OccursAt(hay, needle, i);
      false
    else if hay[..|needle|] == needle then
      assert OccursAt(hay, needle, 0);
      true
    else
      var rest := Includes(hay[1..], needle);
      assert forall i :: 1 <= i && OccursAt(hay, needle, i) ==> OccursAt(hay[1..], needle, i - 1);
      assert forall i :: OccursAt(hay[1..], needle, i) ==> OccursAt(hay, needle, i + 1);
      rest
  }

  /** The three conditions of `filteredExercises`. A match needs a search
      term no longer than the name, and the empty query matches everything. */
  predicate Matches(e: ExerciseDef, q: Query)
    ensures Matches(e, q) ==> |q.search| <= |e.name|
    ensures q == Query("", Wildcard, Wildcard) ==> Matches(e, q)
  {
    assert q.search == "" ==> OccursAt(Lower(e.name), Lower(q.search), 0);
    && Includes(Lower(e.name), Lower(q.search))
    && (q.muscle == Wildcard || e.muscleGroup == q.muscle)
    && (q.equipment == Wildcard || e.equipment == q.equipment)
  }

  function MatchesQuery(q: Query): ExerciseDef -> bool {
    (e: ExerciseDef) => Matches(e, q)
  }

  /** `filteredExercises`: the catalog entries that satisfy all three conditions, in catalog order. */
  function Filtered(catalog: seq<ExerciseDef>, q: Query): (r: seq<ExerciseDef>)
    ensures Seqs.IsSubsequence(r, catalog)
    ensures forall e :: e in r <==>
      && e in catalog
      && (exists i :: OccursAt(Lower(e.name), Lower(q.search), i))
      && (q.muscle == Wildcard || e.muscleGroup == q.muscle)
      && (q.equipment == Wildcard || e.equipment == q.equipment)
    ensures forall e {:trigger multiset(r)[e]} :: multiset(r)[e] == if Matches(e, q) then multiset(catalog)[e] else 0
  {
    Seqs.Filter(catalog, MatchesQuery(q))
  }

  /** With an empty search and both drop-downs on "All" the whole catalog is listed. */
  lemma UnfilteredIsCatalog(catalog: seq<ExerciseDef>)
    ensures Filtered(catalog, Query("", Wildcard, Wildcard)) == catalog
  {
    var q := Query("", Wildcard, Wildcard);
    forall i | 0 <= i < |catalog|
      ensures MatchesQuery(q)(catalog[i])
    {
      assert OccursAt(Lower(catalog[i].name), Lower(""), 0);
    }
  }

  /** An occurrence of a longer needle contains an occurrence of its prefix. */
  lemma OccursPrefix(hay: string, a: string, b: string, i: int)
    requires OccursAt(hay, a + b, i)
    ensures OccursAt(hay, a, i)
  {
    assert hay[i..i + |a|] == hay[i..i + |a + b|][..|a|];
    assert (a + b)[..|a|] == a;
  }

  lemma LowerAppend(a: string, b: string)
    ensures Lower(a + b) == Lower(a) + Lower(b)
  {
  }

  /** Narrowing a query shrinks the list: picking a concrete muscle group or
      equipment instead of "All", or typing more characters into the search
      box, selects a subsequence of what the wider query selects. */
  lemma NarrowingShrinks(catalog: seq<ExerciseDef>, wide: Query, narrow: Query, typed: string)
    requires narrow.search == wide.search + typed
    requires wide.muscle == Wildcard || narrow.muscle == wide.muscle
    requires wide.equipment == Wildcard || narrow.equipment == wide.equipment
    ensures Seqs.IsSubsequence(Filtered(catalog, narrow), Filtered(catalog, wide))
  {
    LowerAppend(wide.search, typed);
    forall i | 0 <= i < |catalog| && MatchesQuery(narrow)(catalog[i])
      ensures MatchesQuery(wide)(catalog[i])
    {
      var hay := Lower(catalog[i].name);
      var k :| OccursAt(hay, Lower(narrow.search), k);
      OccursPrefix(hay, Lower(wide.search), Lower(typed), k);
    }
    Seqs.FilterMonotone(catalog, MatchesQuery(narrow), MatchesQuery(wide));
  }

  /** The search ignores the case of ASCII letters on both sides. */
  lemma SearchIgnoresCase(e: ExerciseDef, q: Query)
    ensures Matches(e, q) <==> Matches(e.(name := Lower(e.name)), q.(search := Lower(q.search)))
  {
    LowerIdempotent(e.name);
    LowerIdempotent(q.search);
  }

  lemma LowerIdempotent(s: string)
    ensures Lower(Lower(s)) == Lower(s)
  {
  }

  /** `handleAddExercise`: appends one entry built from the form with the
      caller-supplied `newId` (the clock in the source), keeping the catalog. */
  function AddExercise(catalog: seq<ExerciseDef>, newId: string, name: string, muscleGroup: string,
                       equipment: string, description: string): (r: seq<ExerciseDef>)
    ensures |r| == |catalog| + 1
    ensures r[..|catalog|] == catalog
    ensures r[|catalog|] == ExerciseDef(newId, name, muscleGroup, equipment, description)
  {
    catalog + [ExerciseDef(newId, name, muscleGroup, equipment, description)]
  }

  /** Under any query, the list after adding shows what it showed before,
      followed by the new entry exactly when the new entry matches. */
  lemma AddedExerciseListedIfMatching(catalog: seq<ExerciseDef>, q: Query, newId: string, name: string,
                                      muscleGroup: string, equipment: string, description: string)
    ensures var e := ExerciseDef(newId, name, muscleGroup, equipment, description);
      Filtered(AddExercise(catalog, newId, name, muscleGroup, equipment, description), q)
        == Filtered(catalog, q) + (if Matches(e, q) then [e] else [])
  {
    var e := ExerciseDef(newId, name, muscleGroup, equipment, description);
    assert AddExercise(catalog, newId, name, muscleGroup, equipment, description) == catalog + [e];
    Seqs.FilterSnoc(catalog, e, MatchesQuery(q));
  }

  /** The colour table of `getMuscleGroupColor`: six muscle groups and their badge colours. */
  const ColorTable: seq<(string, string)> := [
    ("Chest", "bg-red-100 text-red-600"), ("Back", "bg-green-100 text-green-600"),
    ("Legs", "bg-blue-100 text-blue-600"), ("Shoulders", "bg-yellow-100 text-yellow-600"),
    ("Arms", "bg-purple-100 text-purple-600"), ("Core", "bg-orange-100 text-orange-600")]

  const FallbackColor: string := "bg-gray-100 text-gray-600"

  /** The value the first entry with `key` holds, or `default` when no entry has it. */
  function Lookup(table: seq<(string, string)>, key: string, default: string): (v: string)
    ensures (forall k :: 0 <= k < |table| ==> table[k].0 != key) ==> v == default
    ensures forall k ::
      (0 <= k < |table| && table[k].0 == key && forall j :: 0 <= j < k ==> table[j].0 != key) ==> v == table[k].1
    decreases |table|
  {
    if table == [] then default
    else if table[0].0 == key then table[0].1
    else
      assert forall k :: 1 <= k < |table| ==> table[k] == table[1..][k - 1];
      Lookup(table[1..], key, default)
  }

  /** A muscle group that has an entry in the colour table. */
  predicate Known(group: string) {
    exists k :: 0 <= k < |ColorTable| && ColorTable[k].0 == group
  }

  /** `getMuscleGroupColor`: the table colour of a known muscle group, gray
      for any other group. */
  function MuscleGroupColor(group: string): (c: string)
    ensures !Known(group) <==> c == FallbackColor
    ensures forall k :: 0 <= k < |ColorTable| && ColorTable[k].0 == group ==> c == ColorTable[k].1
  {
    assert forall j, k :: 0 <= j < k < |ColorTable| ==> ColorTable[j].0 != ColorTable[k].0;
    assert forall k :: 0 <= k < |ColorTable| ==> ColorTable[k].1 != FallbackColor;
    Lookup(ColorTable, group, FallbackColor)
  }

  /** Distinct known groups get distinct colours. */
  lemma ColorsDistinguishGroups(g1: string, g2: string)
    requires Known(g1) && Known(g2) && g1 != g2
    ensures MuscleGroupColor(g1) != MuscleGroupColor(g2)
  {
    var k1 :| 0 <= k1 < |ColorTable| && ColorTable[k1].0 == g1;
    var k2 :| 0 <= k2 < |ColorTable| && ColorTable[k2].0 == g2;
    assert forall j, k :: 0 <= j < k < |ColorTable| ==> ColorTable[j].1 != ColorTable[k].1;
  }
}
