// The one entity of the meal tracker: a row of the `meals` table, and the
// outcome of a request that may name a meal that does not exist.
module MealRecords {

  /** Row identifier (a UUID string in the application). */
  type Id = string

  /** Identifier of the authenticated user who owns a row. */
  type UserId = string

  /** A row of the `meals` table. `date` is the timestamp in milliseconds,
      as stored by `date.getTime()`. */
  datatype Meal = Meal(
    id: Id,
    name: string,
    description: string,
    isOnDiet: bool,
    date: int,
    userId: UserId)

  /** Outcome of GetById, Update and Delete: the 404 answer becomes NotFound. */
  datatype Result<T> = Ok(value: T) | NotFound

  /** Number of meals in `ms` whose diet flag equals `flag`. */
  function CountDiet(ms: seq<Meal>, flag: bool): (n: nat)
    ensures n <= |ms|
  {
    if ms == [] then 0
    else (if ms[0].isOnDiet == flag then 1 else 0) + CountDiet(ms[1..], flag)
  }

  /** Every meal is either on diet or off diet. */
  lemma {:induction false} CountDietSplits(ms: seq<Meal>)
    ensures CountDiet(ms, true) + CountDiet(ms, false) == |ms|
  {
    if ms != [] {
      CountDietSplits(ms[1..]);
    }
  }

  /** Counting distributes over concatenation. */
  lemma {:induction false} CountDietAppend(a: seq<Meal>, b: seq<Meal>, flag: bool)
    ensures CountDiet(a + b, flag) == CountDiet(a, flag) + CountDiet(b, flag)
  {
    if a == [] {
      assert a + b == b;
    } else {
      assert (a + b)[1..] == a[1..] + b;
      CountDietAppend(a[1..], b, flag);
    }
  }

  /** A positive count of on-diet meals means some meal is on diet. */
  lemma {:induction false} CountDietWitness(ms: seq<Meal>, flag: bool) returns (k: nat)
    requires CountDiet(ms, flag) > 0
    ensures k < |ms| && ms[k].isOnDiet == flag
  {
    if ms[0].isOnDiet == flag {
      k := 0;
    } else {
      var k' := CountDietWitness(ms[1..], flag);
      k := k' + 1;
    }
  }

  /** No meal is on diet when the count is zero. */
  lemma {:induction false} CountDietZero(ms: seq<Meal>, flag: bool)
    requires CountDiet(ms, flag) == 0
    ensures forall k :: 0 <= k < |ms| ==> ms[k].isOnDiet != flag
  {
    if ms != [] {
      CountDietZero(ms[1..], flag);
      assert forall k :: 1 <= k < |ms| ==> ms[k] == ms[1..][k - 1];
    }
  }
}
