// The `/metrics` reduction: the longest run of consecutive on-diet meals in
// the order the listing returns them (most recent first).
module DietMetrics {
  import opened MealRecords

  /** Meals i..j (exclusive) are all on diet. */
  predicate OnDietRun(ms: seq<Meal>, i: int, j: int)
  {
    0 <= i <= j <= |ms| && forall k :: i <= k < j ==> ms[k].isOnDiet
  }

  /** Length of the run of on-diet meals that ends the sequence. */
  function TrailingRun(ms: seq<Meal>): (n: nat)
    ensures n <= |ms|
  {
    if ms == [] then 0
    else if ms[|ms| - 1].isOnDiet then TrailingRun(ms[..|ms| - 1]) + 1
    else 0
  }

  /** Length of the longest run of consecutive on-diet meals. */
  function LongestRun(ms: seq<Meal>): (n: nat)
    ensures n <= |ms|
  {
    if ms == [] then 0
    else
      var before := LongestRun(ms[..|ms| - 1]);
      var ending := TrailingRun(ms);
      if ending > before then ending else before
  }

  /** The trailing run is a run, and it cannot be extended to the left. */
  lemma {:induction false} TrailingRunIsRun(ms: seq<Meal>)
    ensures OnDietRun(ms, |ms| - TrailingRun(ms), |ms|)
    ensures TrailingRun(ms) < |ms| ==> !ms[|ms| - TrailingRun(ms) - 1].isOnDiet
  {
    if ms != [] && ms[|ms| - 1].isOnDiet {
      var p := ms[..|ms| - 1];
      TrailingRunIsRun(p);
      assert forall k :: 0 <= k < |p| ==> p[k] == ms[k];
    }
  }

  /** Every run that ends the sequence is at most the trailing run. */
  lemma {:induction false} TrailingRunMaximal(ms: seq<Meal>, i: int)
    requires OnDietRun(ms, i, |ms|)
    ensures |ms| - i <= TrailingRun(ms)
  {
    if i < |ms| {
      var p := ms[..|ms| - 1];
      assert OnDietRun(p, i, |p|) by {
        assert forall k :: 0 <= k < |p| ==> p[k] == ms[k];
      }
      TrailingRunMaximal(p, i);
    }
  }

  /** No run of on-diet meals is longer than LongestRun. */
  lemma {:induction false} LongestRunMaximal(ms: seq<Meal>, i: int, j: int)
    requires OnDietRun(ms, i, j)
    ensures j - i <= LongestRun(ms)
  {
    if j == |ms| {
      TrailingRunMaximal(ms, i);
    } else {
      var p := ms[..|ms| - 1];
      assert OnDietRun(p, i, j) by {
        assert forall k :: 0 <= k < |p| ==> p[k] == ms[k];
      }
      LongestRunMaximal(p, i, j);
    }
  }

  /** Some run of on-diet meals is exactly LongestRun long. */
  lemma {:induction false} LongestRunAttained(ms: seq<Meal>) returns (i: nat)
    ensures OnDietRun(ms, i, i + LongestRun(ms))
  {
    if ms == [] {
      i := 0;
    } else {
      var p := ms[..|ms| - 1];
      if TrailingRun(ms) > LongestRun(p) {
        TrailingRunIsRun(ms);
        i := |ms| - TrailingRun(ms);
      } else {
        i := LongestRunAttained(p);
        assert forall k :: 0 <= k < |p| ==> p[k] == ms[k];
      }
    }
  }

  /** LongestRun is the length of the longest on-diet run, in both directions. */
  lemma LongestRunCharacterized(ms: seq<Meal>)
    ensures forall i, j :: OnDietRun(ms, i, j) ==> j - i <= LongestRun(ms)
    ensures exists i, j :: OnDietRun(ms, i, j) && j - i == LongestRun(ms)
  {
    forall i, j | OnDietRun(ms, i, j) ensures j - i <= LongestRun(ms) {
      LongestRunMaximal(ms, i, j);
    }
    var i := LongestRunAttained(ms);
    assert OnDietRun(ms, i, i + LongestRun(ms));
  }

  /** A run of on-diet meals contains at least as many on-diet meals as its length. */
  lemma {:induction false} RunBelowCount(ms: seq<Meal>, i: int, j: int)
    requires OnDietRun(ms, i, j)
    ensures j - i <= CountDiet(ms, true)
  {
    if i < j {
      assert ms == [ms[0]] + ms[1..];
      if i == 0 {
        assert OnDietRun(ms[1..], 0, j - 1) by {
          assert forall k :: 0 <= k < |ms| - 1 ==> ms[1..][k] == ms[k + 1];
        }
        RunBelowCount(ms[1..], 0, j - 1);
      } else {
        assert OnDietRun(ms[1..], i - 1, j - 1) by {
          assert forall k :: 0 <= k < |ms| - 1 ==> ms[1..][k] == ms[k + 1];
        }
        RunBelowCount(ms[1..], i - 1, j - 1);
      }
    }
  }

  /** The best streak never exceeds the number of on-diet meals, and it is
      zero exactly when no meal is on diet (the empty list included). */
  lemma LongestRunBounds(ms: seq<Meal>)
    ensures LongestRun(ms) <= CountDiet(ms, true)
    ensures LongestRun(ms) == 0 <==> CountDiet(ms, true) == 0
  {
    var i := LongestRunAttained(ms);
    RunBelowCount(ms, i, i + LongestRun(ms));
    if CountDiet(ms, true) > 0 {
      var k := CountDietWitness(ms, true);
      LongestRunMaximal(ms, k, k + 1);
    }
  }

  /** The streak depends on the order: the same three meals give 1 read as
      on, off, on and 2 read as on, on, off. */
  lemma StreakIsOrderSensitive(on1: Meal, off: Meal, on2: Meal)
    requires on1.isOnDiet && !off.isOnDiet && on2.isOnDiet
    ensures LongestRun([on1, off, on2]) == 1
    ensures LongestRun([on1, on2, off]) == 2
  {
    var s, t := [on1, off, on2], [on1, on2, off];
    assert s[..2][..1][..0] == [] && t[..2][..1][..0] == [];
    assert TrailingRun(s[..1]) == 1 && TrailingRun(s[..2]) == 0 && TrailingRun(s) == 1;
    assert TrailingRun(t[..1]) == 1 && TrailingRun(t[..2]) == 2 && TrailingRun(t) == 0;
  }

  /** The reduce over the listing: `current` counts the on-diet meals since the
      last off-diet one, `best` keeps the largest value `current` reached. */
  method BestOnDietSequence(meals: seq<Meal>) returns (best: nat)
    ensures best == LongestRun(meals)
    ensures forall i, j :: OnDietRun(meals, i, j) ==> j - i <= best
    ensures exists i, j :: OnDietRun(meals, i, j) && j - i == best
  {
    var current: nat := 0;
    best := 0;
    for n := 0 to |meals|
      invariant current == TrailingRun(meals[..n])
      invariant best == LongestRun(meals[..n])
    {
      assert meals[..n + 1][..n] == meals[..n];
      if meals[n].isOnDiet {
        current := current + 1;
      } else {
        current := 0;
      }
      if current > best {
        best := current;
      }
    }
    assert meals[..|meals|] == meals;
    LongestRunCharacterized(meals);
  }
}
