# Diet meal tracker: meal table and metrics, in Dafny

A model of the meal routes of a small diet-tracking API. Users record meals
(name, description, timestamp, whether the meal was on their diet). The API
creates, lists, reads, updates and deletes them, and answers a metrics
request with four numbers:

- the number of meals,
- how many were on diet,
- how many were off diet,
- the best on-diet sequence: the longest run of consecutive on-diet meals,
  read most recent first.

Files:

- `records.dfy` (module `MealRecords`): the `Meal` row, the `Result` outcome
  (`Ok` / `NotFound`, standing for the 404 answers) and the diet counts.
- `metrics.dfy` (module `DietMetrics`): the streak reduction. It is a method
  with a loop, proved equal to `LongestRun`. `LongestRun` is in turn proved to
  be the length of the longest run of on-diet meals: no run is longer, and one
  run has exactly that length.
- `store.dfy` (module `MealStore`): the `meals` table as a class `MealTable`
  and the five handlers plus the metrics handler, which use the pure listing
  and count queries. Module `MealScenario` is a client: four meals created
  on, on, off, on with decreasing dates give the metrics 4, 3, 1, 2.

The table holds a map from id to row, plus the ids in insertion order. The
order is there so that the listing is a deterministic function. The source's
`orderBy('date', 'desc')` promises nothing about meals with equal dates. So
the listing's contract states only that dates are non-increasing, that the
listing holds exactly the user's rows, and that no row appears twice. The
model's stable insertion sort keeps equal-dated meals in insertion order, and
the metrics streak is computed over that order. The database may order them
otherwise, so for equal dates the modelled streak is one of the possible
answers, not the only one (see "## Left out").

Lookup, update and delete by id do not check who owns the row, exactly as
in the source. Only the listing and the metrics filter by user.

## Model

| member | source | states |
|---|---|---|
| `MealRecords.CountDiet` | src/routes/mealsRoutes.ts:119-127 | the `is_on_diet` count of a list of meals: never more than the list's length |
| `MealRecords.CountDietSplits` | src/routes/mealsRoutes.ts:119-127 | the on-diet count plus the off-diet count of any list of meals is its length |
| `DietMetrics.TrailingRun` | src/routes/mealsRoutes.ts:135-139 | the value `currentSequence` holds after a prefix, at most the prefix's length; the lemmas below show it is the on-diet run ending the prefix |
| `DietMetrics.LongestRun` | src/routes/mealsRoutes.ts:133-148 | the value `bestOnDietSequence` holds after a prefix, at most the prefix's length; the lemmas below show it is the longest on-diet run |
| `DietMetrics.BestOnDietSequence` | src/routes/mealsRoutes.ts:133-148 | the fold with `current` and `best` returns `LongestRun` of the listing: no on-diet run is longer than the result, and some run is exactly that long |
| `DietMetrics.TrailingRunIsRun` | src/routes/mealsRoutes.ts:135-139 | the value `current` holds after a prefix is an on-diet run that ends the prefix and cannot be extended to the left |
| `DietMetrics.TrailingRunMaximal` | src/routes/mealsRoutes.ts:135-139 | every on-diet run that ends the prefix is at most `current` |
| `DietMetrics.LongestRunMaximal` | src/routes/mealsRoutes.ts:141-143 | no run of consecutive on-diet meals is longer than the best sequence |
| `DietMetrics.LongestRunAttained` | src/routes/mealsRoutes.ts:141-143 | some run of consecutive on-diet meals is exactly as long as the best sequence |
| `DietMetrics.LongestRunCharacterized` | src/routes/mealsRoutes.ts:133-148 | both directions together: the best sequence is the maximum length of the on-diet runs |
| `DietMetrics.RunBelowCount` | src/routes/mealsRoutes.ts:119-122 | a run of on-diet meals is no longer than the number of on-diet meals |
| `DietMetrics.LongestRunBounds` | src/routes/mealsRoutes.ts:133-148 | the best sequence is at most the on-diet count, and it is 0 exactly when no meal is on diet, the empty list included (the initial `{0, 0}`) |
| `DietMetrics.StreakIsOrderSensitive` | src/routes/mealsRoutes.ts:129-148 | the same meals yield a different best sequence in another order, which is why the reduction runs over the date-ordered listing |
| `MealStore.OwnedBy` | src/routes/mealsRoutes.ts:37-38 | the filter keeps exactly the meals whose user id is the requester's, and keeps ids distinct |
| `MealStore.SortByDateDesc` | src/routes/mealsRoutes.ts:39 | `orderBy('date', 'desc')`: a permutation of its input with non-increasing dates |
| `MealStore.SortByDateDescDistinct` | src/routes/mealsRoutes.ts:39 | the ordering puts no row in twice |
| `MealStore.Listing` | src/routes/mealsRoutes.ts:37-39 | the listing query: non-increasing dates, and every meal in it is a row of the table owned by the requester |
| `MealStore.CountWhere` | src/routes/mealsRoutes.ts:119-127 | the count query for one diet flag over the user's rows; it equals the count of that flag in the listing |
| `MealStore.SortByDateDescCount` | src/routes/mealsRoutes.ts:129-131 | ordering changes neither the number of meals nor the on-diet and off-diet counts |
| `MealStore.OwnedByAll` | src/routes/mealsRoutes.ts:37-38 | a list holding only the user's meals passes the user filter unchanged |
| `MealStore.SortSortedIdentity` | src/routes/mealsRoutes.ts:39 | a list with distinct dates, already in descending order, is left as it is by the ordering |
| `MealStore.ListedAsGiven` | src/routes/mealsRoutes.ts:37-39 | the user's own meals, with distinct dates and already most recent first, are their own listing |
| `MealStore.Without` | src/routes/mealsRoutes.ts:110 | removing an id from the row order keeps exactly the other ids, each once |
| `MealStore.ListingExact` | src/routes/mealsRoutes.ts:37-39 | the listing holds exactly the table's rows whose user id is the requester's, with no row twice, in non-increasing date order |
| `MealStore.ListingCounts` | src/routes/mealsRoutes.ts:119-131 | the on-diet and off-diet count queries add up to the length of the listing, and the on-diet query equals the on-diet count of the listing |
| `MealStore.MealTable.GetById` | src/routes/mealsRoutes.ts:52-58 | lookup by id alone, with no owner check: it finds a row exactly when the id is in the table, the row found is the one stored under that id, and it carries that id |
| `MealStore.MealTable.ListByUser` | src/routes/mealsRoutes.ts:37-41 | the user's rows and nothing else, each once, most recent first |
| `MealStore.MealTable.Create` | src/routes/mealsRoutes.ts:21-28 | inserts exactly one row under the fresh id, carrying the given name, description, flag, date and user; a lookup of that id then returns it; the invariant is kept |
| `MealStore.MealTable.Update` | src/routes/mealsRoutes.ts:80-91 | an unknown id gives NotFound and leaves the table as it was; otherwise name, description, flag and date are replaced, while id, owner and every other row stay as they were |
| `MealStore.MealTable.Delete` | src/routes/mealsRoutes.ts:104-110 | an unknown id gives NotFound and leaves the table as it was; otherwise exactly that row is removed, a lookup then gives NotFound, and the other rows stay as they were |
| `MealStore.MealTable.Metrics` | src/routes/mealsRoutes.ts:116-155 | the four numbers: the length of the listing, the two count queries, and the best sequence over the listing; the counts add up to the total, and the best sequence is at most the on-diet count and 0 exactly when it is |
| `MealScenario.FourMeals` | src/routes/mealsRoutes.ts:116-155 | four meals created on, on, off, on with strictly decreasing dates give metrics total 4, on-diet 3, off-diet 1, best sequence 2 |

## Left out

- HTTP routing, status codes and reply bodies are not modelled. The 404 answers become `NotFound`; 201, 204 and 200 become success.
- Request parsing and validation with zod are not modelled. The parsed values are the inputs, and `date` is an integer millisecond timestamp (the value of `date.getTime()`), so an invalid date cannot occur.
- `randomUUID()` is not modelled: nondeterministic and foreign. The caller supplies the id, and `Create` requires that it is not in the table yet.
- Authentication is not modelled. The user id is an input. A missing user (`request.user?.id` undefined) is not modelled.
- The database is not modelled: knex, SQL, the driver's encoding of booleans and of `count()` results, awaiting, and persistence failures. The table is an in-memory map.
- Concurrency between requests is not modelled, nor the gap between the existence check and the update or delete, which run as separate queries. Every handler runs as one atomic step.
- `MealStore.MealTable.ListByUser`: states only that dates do not increase; it says nothing about meals with equal dates, since the database does not fix their order.
- `MealStore.MealTable.Metrics`: for meals that share a date, the streak follows insertion order. The database may return such meals in another order and so give a different streak; the model does not capture that choice.
- `MealStore.SortSortedIdentity`, `MealStore.ListedAsGiven`: stated only for distinct dates, because with equal dates the database order is not fixed.
