/** The workout-split editor: the list of splits, the create/edit form with
    its day and exercise check boxes, and the submit, edit, delete and reset
    handlers (src/components/SplitManager.tsx). */
module SplitEditor {
  import opened Wrappers
  import Seqs

  /** A named weekly template: the days it is trained on and its exercises. */
  datatype Split = Split(id: string, name: string, days: seq<string>, exercises: seq<string>)

  /** The fields of the form. */
  datatype Form = Form(name: string, days: seq<string>, exercises: seq<string>)

  /** The editor's state: the splits, the form, the split being edited, and whether the modal is open. */
  datatype Editor = Editor(splits: seq<Split>, form: Form, editing: Option<Split>, showForm: bool)

  predicate NoDuplicates<T(==)>(xs: seq<T>) {
    forall j, k :: 0 <= j < k < |xs| ==> xs[j] != xs[k]
  }

  function DifferentFrom<T(==)>(x: T): T -> bool {
    (y: T) => y != x
  }

  /** The check-box toggle of `toggleDay` and `toggleExercise`: a checked item
      is filtered out (every occurrence), an unchecked one is appended. */
  function Toggle<T(==, !new)>(xs: seq<T>, x: T): (r: seq<T>)
    ensures x in r <==> x !in xs
    ensures forall y :: y != x ==> (y in r <==> y in xs)
    ensures x !in xs ==> r == xs + [x]
    ensures x in xs ==> Seqs.IsSubsequence(r, xs) && |r| < |xs|
  {
    if x in xs then
      var r := Seqs.Filter(xs, DifferentFrom(x));
      assert |r| < |xs| by {
        if |r| == |xs| {
          FilterFullLength(xs, DifferentFrom(x));
          assert false;
        }
      }
      r
    else xs + [x]
  }

  /** A filter that drops nothing in length dropped nothing at all. */
  lemma {:induction false} FilterFullLength<T(!new)>(xs: seq<T>, p: T -> bool)
    requires |Seqs.Filter(xs, p)| == |xs|
    ensures forall i :: 0 <= i < |xs| ==> p(xs[i])
    decreases |xs|
  {
    if xs != [] {
      assert p(xs[0]);
      FilterFullLength(xs[1..], p);
      assert forall i :: 1 <= i < |xs| ==> xs[i] == xs[1..][i - 1];
    }
  }

  /** Toggling keeps a duplicate-free list duplicate-free. */
  lemma {:induction false} ToggleKeepsNoDuplicates<T(!new)>(xs: seq<T>, x: T)
    requires NoDuplicates(xs)
    ensures NoDuplicates(Toggle(xs, x))
  {
    if x in xs {
      FilterKeepsNoDuplicates(xs, DifferentFrom(x));
    }
  }

  lemma {:induction false} FilterKeepsNoDuplicates<T(!new)>(xs: seq<T>, p: T -> bool)
    requires NoDuplicates(xs)
    ensures NoDuplicates(Seqs.Filter(xs, p))
    decreases |xs|
  {
    if xs != [] {
      FilterKeepsNoDuplicates(xs[1..], p);
      var rest := Seqs.Filter(xs[1..], p);
      if p(xs[0]) {
        var r := [xs[0]] + rest;
        forall a, b | 0 <= a < b < |r|
          ensures r[a] != r[b]
        {
          if a == 0 {
            assert r[b] in rest;
            assert r[b] in xs[1..];
          }
        }
      }
    }
  }

  /** Toggling the same item twice restores the list exactly when the item was
      unchecked, and restores the checked set in any case. */
  lemma ToggleTwice<T(!new)>(xs: seq<T>, x: T)
    ensures forall y :: y in Toggle(Toggle(xs, x), x) <==> y in xs
    ensures x !in xs ==> Toggle(Toggle(xs, x), x) == xs
  {
    if x !in xs {
      var once := xs + [x];
      assert Toggle(xs, x) == once;
      Seqs.FilterSnoc(xs, x, DifferentFrom(x));
      assert forall i :: 0 <= i < |xs| ==> DifferentFrom(x)(xs[i]);
    }
  }

  /** `toggleDay`: toggles the day and leaves the name and exercises alone. */
  function ToggleDay(f: Form, day: string): (r: Form)
    ensures r.name == f.name && r.exercises == f.exercises
    ensures day in r.days <==> day !in f.days
    ensures forall d :: d != day ==> (d in r.days <==> d in f.days)
  {
    f.(days := Toggle(f.days, day))
  }

  /** `toggleExercise`: toggles the exercise and leaves the name and days alone. */
  function ToggleExercise(f: Form, exercise: string): (r: Form)
    ensures r.name == f.name && r.days == f.days
    ensures exercise in r.exercises <==> exercise !in f.exercises
    ensures forall e :: e != exercise ==> (e in r.exercises <==> e in f.exercises)
  {
    f.(exercises := Toggle(f.exercises, exercise))
  }

  /** No two splits share an id. */
  predicate DistinctIds(splits: seq<Split>) {
    forall j, k :: 0 <= j < k < |splits| ==> splits[j].id != splits[k].id
  }

  /** The split with its name, days and exercises taken from the form; only the id is kept. */
  function Overwrite(s: Split, f: Form): Split {
    Split(s.id, f.name, f.days, f.exercises)
  }

  /** The edit branch of `handleSubmit`: the splits with the edited id get the
      form's fields and keep their id and position; all others are unchanged. */
  function ReplaceFields(splits: seq<Split>, id: string, f: Form): (r: seq<Split>)
    ensures |r| == |splits|
    ensures forall k :: 0 <= k < |splits| && splits[k].id != id ==> r[k] == splits[k]
    ensures forall k :: 0 <= k < |splits| && splits[k].id == id ==>
      r[k] == Split(id, f.name, f.days, f.exercises)
  {
    Seqs.Map(splits, (s: Split) => if s.id == id then Overwrite(s, f) else s)
  }

  /** The create branch of `handleSubmit`: appends one split with the
      caller-supplied `newId` (the clock in the source) and the form's fields. */
  function Create(splits: seq<Split>, newId: string, f: Form): (r: seq<Split>)
    ensures |r| == |splits| + 1
    ensures r[..|splits|] == splits
    ensures r[|splits|] == Split(newId, f.name, f.days, f.exercises)
  {
    splits + [Split(newId, f.name, f.days, f.exercises)]
  }

  const EmptyForm: Form := Form("", [], [])

  /** `resetForm`: clears the form, drops the editing target and closes the modal. */
  function ResetForm(ed: Editor): (r: Editor)
    ensures r.splits == ed.splits
    ensures r.form.name == "" && r.form.days == [] && r.form.exercises == []
    ensures r.editing.None? && !r.showForm
  {
    ed.(form := EmptyForm, editing := None, showForm := false)
  }

  /** `handleSubmit`: edits or creates, then resets the form. */
  function Submit(ed: Editor, newId: string): (r: Editor)
    ensures r.editing.None? && !r.showForm && r.form == EmptyForm
    ensures ed.editing.Some? ==> r.splits == ReplaceFields(ed.splits, ed.editing.value.id, ed.form)
    ensures ed.editing.None? ==> r.splits == Create(ed.splits, newId, ed.form)
  {
    var splits :=
      match ed.editing
      case Some(target) => ReplaceFields(ed.splits, target.id, ed.form)
      case None => Create(ed.splits, newId, ed.form);
    ResetForm(ed.(splits := splits))
  }

  /** `editSplit`: loads the split's fields verbatim and opens the modal on it. */
  function EditSplit(ed: Editor, s: Split): (r: Editor)
    ensures r.splits == ed.splits
    ensures r.form == Form(s.name, s.days, s.exercises)
    ensures r.editing == Some(s) && r.showForm
  {
    ed.(form := Form(s.name, s.days, s.exercises), editing := Some(s), showForm := true)
  }

  function IdIsNot(id: string): Split -> bool {
    (s: Split) => s.id != id
  }

  /** `deleteSplit`: keeps exactly the splits with a different id, in order. */
  function DeleteSplit(splits: seq<Split>, id: string): (r: seq<Split>)
    ensures Seqs.IsSubsequence(r, splits)
    ensures forall s :: s in r <==> s in splits && s.id != id
    ensures forall s {:trigger multiset(r)[s]} :: multiset(r)[s] == if s.id != id then multiset(splits)[s] else 0
    ensures (forall k :: 0 <= k < |splits| ==> splits[k].id != id) ==> r == splits
  {
    Seqs.Filter(splits, IdIsNot(id))
  }

  /** With distinct ids, submitting an edit replaces exactly the split at the
      edited position and keeps the list length and every other split. */
  lemma EditSubmitReplacesOne(ed: Editor, k: nat, newId: string)
    requires DistinctIds(ed.splits) && k < |ed.splits|
    requires ed.editing == Some(ed.splits[k])
    ensures var r := Submit(ed, newId).splits;
      && |r| == |ed.splits|
      && r[k] == Split(ed.splits[k].id, ed.form.name, ed.form.days, ed.form.exercises)
      && forall j :: 0 <= j < |r| && j != k ==> r[j] == ed.splits[j]
  {
  }

  /** Opening a split for edit and submitting it unchanged leaves the splits as they were. */
  lemma EditUnchangedIsIdentity(ed: Editor, k: nat, newId: string)
    requires DistinctIds(ed.splits) && k < |ed.splits|
    ensures Submit(EditSplit(ed, ed.splits[k]), newId).splits == ed.splits
  {
    var r := Submit(EditSplit(ed, ed.splits[k]), newId).splits;
    assert forall j :: 0 <= j < |r| ==> r[j] == ed.splits[j];
  }

  /** Creating a split with a fresh id and deleting that id gives back the list,
      and creating keeps the ids distinct. */
  lemma CreateThenDeleteRestores(splits: seq<Split>, newId: string, f: Form)
    requires forall k :: 0 <= k < |splits| ==> splits[k].id != newId
    ensures DeleteSplit(Create(splits, newId, f), newId) == splits
    ensures DistinctIds(splits) ==> DistinctIds(Create(splits, newId, f))
  {
    var added := Split(newId, f.name, f.days, f.exercises);
    var created := Create(splits, newId, f);
    assert created == splits + [added];
    assert Seqs.Filter(created, IdIsNot(newId)) == splits by {
      Seqs.FilterSnoc(splits, added, IdIsNot(newId));
      assert forall k :: 0 <= k < |splits| ==> IdIsNot(newId)(splits[k]);
      assert Seqs.Filter(splits, IdIsNot(newId)) == splits;
    }
  }
}
