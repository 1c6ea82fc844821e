/** The strength estimator of the progress screen: the Epley-style one-rep
    maximum and the raw weight/reps comparison that flags a new personal
    record (src/components/ProgressTracker.tsx). */
module Strength {

  /** `Math.round(n / 30)`: the integer nearest to `n / 30`, halves rounded up
      (`Math.round(x)` is `floor(x + 0.5)` for every x). */
  function RoundThirtieths(n: int): (r: int)
    ensures 60 * r - 30 <= 2 * n < 60 * r + 30
  {
    (2 * n + 30) / 60
  }

  /** `calculateOneRepMax(weight, reps)`: a single rep is its own maximum;
      otherwise `weight * (1 + reps / 30)` rounded, which over the integers is
      `weight * (30 + reps) / 30` rounded half up. */
  function OneRepMax(weight: int, reps: int): (m: int)
    ensures reps == 1 ==> m == weight
    ensures reps != 1 ==> 60 * m - 30 <= 2 * (weight * (30 + reps)) < 60 * m + 30
  {
    if reps == 1 then weight else RoundThirtieths(weight * (30 + reps))
  }

  /** The estimate never falls below the lifted weight. */
  lemma OneRepMaxAtLeastWeight(weight: int, reps: int)
    requires weight >= 0 && reps >= 0
    ensures OneRepMax(weight, reps) >= weight
  {
    if reps != 1 {
      assert weight * (30 + reps) == 30 * weight + weight * reps;
      assert weight * reps >= 0;
    }
  }

  /** For a fixed rep count a heavier set never gets a smaller estimate. */
  lemma OneRepMaxMonotoneInWeight(w1: int, w2: int, reps: int)
    requires w1 <= w2 && reps >= 0
    ensures OneRepMax(w1, reps) <= OneRepMax(w2, reps)
  {
    if reps != 1 {
      assert w2 * (30 + reps) - w1 * (30 + reps) == (w2 - w1) * (30 + reps);
      assert (w2 - w1) * (30 + reps) >= 0;
    }
  }

  /** For a fixed non-negative weight, more reps never give a smaller estimate. */
  lemma OneRepMaxMonotoneInReps(weight: int, r1: int, r2: int)
    requires weight >= 0 && 0 <= r1 <= r2
    ensures OneRepMax(weight, r1) <= OneRepMax(weight, r2)
  {
    if r1 == 1 {
      OneRepMaxAtLeastWeight(weight, r2);
    } else if r2 == 1 {
      assert r1 == 0;
    } else {
      assert weight * (30 + r2) - weight * (30 + r1) == weight * (r2 - r1);
      assert weight * (r2 - r1) >= 0;
    }
  }

  /** Values the progress screen shows for its mock history. */
  lemma OneRepMaxExamples()
    ensures OneRepMax(245, 3) == 270
    ensures OneRepMax(155, 6) == 186 && OneRepMax(150, 6) == 180
    ensures OneRepMax(160, 5) == 187 && OneRepMax(165, 4) == 187
    ensures OneRepMax(275, 2) == 293 && OneRepMax(285, 1) == 285
  {
  }

  /** One logged session of an exercise. The date is display-only text. */
  datatype Entry = Entry(date: string, weight: int, reps: int)

  /** `hasImproved`: the newer entry lifted more weight, or the same weight
      for more reps; false when either entry is missing. */
  predicate Improved(latest: Entry, previous: Entry)
    ensures Improved(latest, previous) ==> latest.weight >= previous.weight
    ensures Improved(latest, previous) ==> (latest.weight, latest.reps) != (previous.weight, previous.reps)
  {
    latest.weight > previous.weight
    || (latest.weight == previous.weight && latest.reps > previous.reps)
  }

  /** Improvement is a strict order on (weight, reps) pairs: irreflexive,
      asymmetric, transitive, and any two entries with different pairs are
      comparable one way. The date plays no part. */
  lemma ImprovedIsStrictLexOrder(a: Entry, b: Entry, c: Entry)
    ensures !Improved(a, a)
    ensures Improved(a, b) ==> !Improved(b, a)
    ensures Improved(a, b) && Improved(b, c) ==> Improved(a, c)
    ensures (a.weight, a.reps) != (b.weight, b.reps) ==> Improved(a, b) || Improved(b, a)
    ensures Improved(a, b) <==> Improved(a.(date := c.date), b)
  {
  }

  /** A record set at the same weight (more reps) never lowers the estimated
      maximum, unlike a heavier record for fewer reps. */
  lemma SameWeightRecordKeepsEstimate(latest: Entry, previous: Entry)
    requires Improved(latest, previous) && latest.weight == previous.weight
    requires latest.weight >= 0 && previous.reps >= 0
    ensures OneRepMax(latest.weight, latest.reps) >= OneRepMax(previous.weight, previous.reps)
  {
    OneRepMaxMonotoneInReps(latest.weight, previous.reps, latest.reps);
  }
}
