// The `meals` table and the five handlers that read and write it, with the
// `/metrics` handler built on the listing and the streak reduction.
module MealStore {
  import opened MealRecords
  import opened DietMetrics

  /** The four numbers the `/metrics` handler answers with. */
  datatype MealMetrics = MealMetrics(
    totalMeals: nat,
    totalMealsOnDiet: nat,
    totalMealsOffDiet: nat,
    bestOnDietSequence: nat)

  predicate Distinct(ids: seq<Id>)
  {
    forall i, j :: 0 <= i < j < |ids| ==> ids[i] != ids[j]
  }

  predicate DistinctIds(ms: seq<Meal>)
  {
    forall i, j :: 0 <= i < j < |ms| ==> ms[i].id != ms[j].id
  }

  /** The table invariant: each row is stored under its own id, and `order`
      lists every stored id once, in insertion order. */
  ghost predicate WellFormed(rows: map<Id, Meal>, order: seq<Id>)
  {
    && (forall id :: id in rows ==> rows[id].id == id)
    && Distinct(order)
    && (forall id :: id in order <==> id in rows)
  }

  /** The rows of the table, in insertion order. */
  function Rows(rows: map<Id, Meal>, order: seq<Id>): seq<Meal>
    requires forall id :: id in order ==> id in rows
  {
    seq(|order|, k requires 0 <= k < |order| => rows[order[k]])
  }

  /** `where({ user_id })`: the meals owned by `user`, in their given order. */
  function OwnedBy(ms: seq<Meal>, user: UserId): (r: seq<Meal>)
    ensures forall m :: m in r <==> m in ms && m.userId == user
    ensures DistinctIds(ms) ==> DistinctIds(r)
  {
    if ms == [] then []
    else if ms[0].userId == user then [ms[0]] + OwnedBy(ms[1..], user)
    else OwnedBy(ms[1..], user)
  }

  predicate SortedByDateDesc(ms: seq<Meal>)
  {
    forall i, j :: 0 <= i < j < |ms| ==> ms[i].date >= ms[j].date
  }

  /** No two meals share a date, and the most recent comes first. */
  predicate StrictlyByDateDesc(ms: seq<Meal>)
  {
    forall i, j :: 0 <= i < j < |ms| ==> ms[i].date > ms[j].date
  }

  /** Places `m` before the first meal that is not later than it. */
  function InsertByDate(m: Meal, ms: seq<Meal>): seq<Meal>
  {
    if ms == [] || m.date >= ms[0].date then [m] + ms
    else [ms[0]] + InsertByDate(m, ms[1..])
  }

  /** `orderBy('date', 'desc')`, here as a stable insertion sort: the same
      meals, most recent first. */
  function SortByDateDesc(ms: seq<Meal>): (r: seq<Meal>)
    ensures SortedByDateDesc(r)
    ensures multiset(r) == multiset(ms)
  {
    if ms == [] then []
    else
      var rest := SortByDateDesc(ms[1..]);
      InsertByDateSorted(ms[0], rest);
      InsertByDatePermutes(ms[0], rest);
      assert ms == [ms[0]] + ms[1..];
      InsertByDate(ms[0], rest)
  }

  /** The listing handler's query: rows of the table owned by the user, most
      recent first. */
  function Listing(rows: map<Id, Meal>, order: seq<Id>, user: UserId): (r: seq<Meal>)
    requires forall id :: id in order ==> id in rows
    ensures SortedByDateDesc(r)
    ensures forall m :: m in r ==> m.userId == user && m in rows.Values
  {
    var owned := OwnedBy(Rows(rows, order), user);
    var sorted := SortByDateDesc(owned);
    assert forall m :: m in sorted ==> m in owned by {
      forall m | m in sorted ensures m in owned {
        assert m in multiset(sorted);
      }
    }
    sorted
  }

  /** The metrics handler's count query: the user's meals with the given flag,
      which is as many as the listing holds. */
  function CountWhere(rows: map<Id, Meal>, order: seq<Id>, user: UserId, flag: bool): (n: nat)
    requires forall id :: id in order ==> id in rows
    ensures n == CountDiet(Listing(rows, order, user), flag)
  {
    var owned := OwnedBy(Rows(rows, order), user);
    SortByDateDescCount(owned, flag);
    CountDiet(owned, flag)
  }

  /** `order` with `id` taken out. */
  function Without(ids: seq<Id>, id: Id): (r: seq<Id>)
    ensures forall x :: x in r <==> x in ids && x != id
    ensures Distinct(ids) ==> Distinct(r)
  {
    if ids == [] then []
    else if ids[0] == id then Without(ids[1..], id)
    else
      assert Distinct(ids) ==> ids[0] !in ids[1..];
      [ids[0]] + Without(ids[1..], id)
  }

  lemma {:induction false} InsertByDatePermutes(m: Meal, ms: seq<Meal>)
    ensures multiset(InsertByDate(m, ms)) == multiset([m] + ms)
  {
    if ms != [] && m.date < ms[0].date {
      InsertByDatePermutes(m, ms[1..]);
      assert ms == [ms[0]] + ms[1..];
    }
  }

  lemma {:induction false} InsertByDateSorted(m: Meal, ms: seq<Meal>)
    requires SortedByDateDesc(ms)
    ensures SortedByDateDesc(InsertByDate(m, ms))
  {
    if ms != [] && m.date < ms[0].date {
      InsertByDateSorted(m, ms[1..]);
      InsertByDatePermutes(m, ms[1..]);
      var tail := InsertByDate(m, ms[1..]);
      forall x | x in tail ensures x.date <= ms[0].date {
        assert x in multiset(tail);
        assert x == m || x in ms[1..];
      }
    }
  }

  lemma {:induction false} InsertByDateDistinct(m: Meal, ms: seq<Meal>)
    requires DistinctIds(ms)
    requires forall x :: x in ms ==> x.id != m.id
    ensures DistinctIds(InsertByDate(m, ms))
  {
    if ms != [] && m.date < ms[0].date {
      InsertByDateDistinct(m, ms[1..]);
      InsertByDatePermutes(m, ms[1..]);
      var tail := InsertByDate(m, ms[1..]);
      forall x | x in tail ensures x.id != ms[0].id {
        assert x in multiset(tail);
        assert x == m || x in ms[1..];
      }
    }
  }

  lemma {:induction false} InsertByDateCount(m: Meal, ms: seq<Meal>, flag: bool)
    ensures CountDiet(InsertByDate(m, ms), flag) == CountDiet([m] + ms, flag)
  {
    if ms != [] && m.date < ms[0].date {
      InsertByDateCount(m, ms[1..], flag);
      assert ([m] + ms)[1..] == ms;
      assert ([m] + ms[1..])[1..] == ms[1..];
    }
  }

  /** The sort puts no meal in twice. */
  lemma {:induction false} SortByDateDescDistinct(ms: seq<Meal>)
    requires DistinctIds(ms)
    ensures DistinctIds(SortByDateDesc(ms))
  {
    if ms != [] {
      var rest := SortByDateDesc(ms[1..]);
      assert DistinctIds(ms[1..]);
      SortByDateDescDistinct(ms[1..]);
      assert ms == [ms[0]] + ms[1..];
      forall x | x in rest ensures x.id != ms[0].id {
        assert x in multiset(rest);
        var k :| 0 <= k < |ms[1..]| && ms[1..][k] == x;
        assert ms[k + 1] == x;
      }
      InsertByDateDistinct(ms[0], rest);
    }
  }

  /** Sorting changes neither the length nor the diet counts. */
  lemma {:induction false} SortByDateDescCount(ms: seq<Meal>, flag: bool)
    ensures |SortByDateDesc(ms)| == |ms|
    ensures CountDiet(SortByDateDesc(ms), flag) == CountDiet(ms, flag)
  {
    if ms != [] {
      SortByDateDescCount(ms[1..], flag);
      InsertByDateCount(ms[0], SortByDateDesc(ms[1..]), flag);
      InsertByDatePermutes(ms[0], SortByDateDesc(ms[1..]));
      assert |multiset(SortByDateDesc(ms))| == |multiset([ms[0]] + SortByDateDesc(ms[1..]))|;
      assert ([ms[0]] + SortByDateDesc(ms[1..]))[1..] == SortByDateDesc(ms[1..]);
    }
  }

  /** Filtering a list that holds only the user's meals keeps all of it. */
  lemma {:induction false} OwnedByAll(ms: seq<Meal>, user: UserId)
    requires forall k :: 0 <= k < |ms| ==> ms[k].userId == user
    ensures OwnedBy(ms, user) == ms
  {
    if ms != [] {
      OwnedByAll(ms[1..], user);
      assert ms == [ms[0]] + ms[1..];
    }
  }

  /** Sorting a list of distinct dates that is already most recent first
      leaves it as it is. (With equal dates the database may choose another
      order.) */
  lemma {:induction false} SortSortedIdentity(ms: seq<Meal>)
    requires StrictlyByDateDesc(ms)
    ensures SortByDateDesc(ms) == ms
  {
    if ms != [] {
      SortSortedIdentity(ms[1..]);
      assert ms == [ms[0]] + ms[1..];
    }
  }

  /** The user's meals, with distinct dates and already most recent first, are their own listing. */
  lemma ListedAsGiven(ms: seq<Meal>, user: UserId)
    requires StrictlyByDateDesc(ms)
    requires forall k :: 0 <= k < |ms| ==> ms[k].userId == user
    ensures SortByDateDesc(OwnedBy(ms, user)) == ms
  {
    OwnedByAll(ms, user);
    SortSortedIdentity(ms);
  }

  /** The listing holds exactly the user's rows, each once, most recent first. */
  lemma ListingExact(rows: map<Id, Meal>, order: seq<Id>, user: UserId)
    requires WellFormed(rows, order)
    ensures SortedByDateDesc(Listing(rows, order, user))
    ensures forall m :: m in Listing(rows, order, user) <==> m in rows.Values && m.userId == user
    ensures DistinctIds(Listing(rows, order, user))
  {
    var all := Rows(rows, order);
    var owned := OwnedBy(all, user);
    assert DistinctIds(all);
    SortByDateDescDistinct(owned);
    forall m ensures m in all <==> m in rows.Values {
      if m in rows.Values {
        var id :| id in rows && rows[id] == m;
        var k :| 0 <= k < |order| && order[k] == id;
        assert all[k] == m;
      }
    }
    forall m ensures m in Listing(rows, order, user) <==> m in owned {
      assert m in Listing(rows, order, user) <==> m in multiset(Listing(rows, order, user));
    }
  }

  /** The on-diet and off-diet counts add up to the length of the listing. */
  lemma ListingCounts(rows: map<Id, Meal>, order: seq<Id>, user: UserId)
    requires WellFormed(rows, order)
    ensures CountWhere(rows, order, user, true) + CountWhere(rows, order, user, false)
            == |Listing(rows, order, user)|
    ensures CountWhere(rows, order, user, true) == CountDiet(Listing(rows, order, user), true)
  {
    var owned := OwnedBy(Rows(rows, order), user);
    SortByDateDescCount(owned, true);
    SortByDateDescCount(owned, false);
    CountDietSplits(owned);
  }

  /** The `meals` table. */
  class MealTable {
    var rows: map<Id, Meal>
    var order: seq<Id>

    ghost predicate Valid()
      reads this
    {
      WellFormed(rows, order)
    }

    constructor ()
      ensures Valid() && rows == map[] && order == []
    {
      rows := map[];
      order := [];
    }

    /** `GET /:mealId`: looks the row up by id alone, whoever owns it. */
    function GetById(id: Id): (r: Result<Meal>)
      reads this
      requires Valid()
      ensures r.Ok? <==> id in rows
      ensures r.Ok? ==> r.value == rows[id] && r.value.id == id
    {
      if id in rows then Ok(rows[id]) else NotFound
    }

    /** `GET /`: the user's meals, most recent first. */
    function ListByUser(user: UserId): (r: seq<Meal>)
      reads this
      requires Valid()
      ensures SortedByDateDesc(r)
      ensures forall m :: m in r <==> m in rows.Values && m.userId == user
      ensures DistinctIds(r)
    {
      ListingExact(rows, order, user);
      Listing(rows, order, user)
    }

    /** `POST /`: inserts a new row under the fresh id the caller supplies. */
    method Create(id: Id, name: string, description: string, isOnDiet: bool, date: int, user: UserId)
      requires Valid()
      requires id !in rows
      modifies this
      ensures Valid()
      ensures rows == old(rows)[id := Meal(id, name, description, isOnDiet, date, user)]
      ensures order == old(order) + [id]
      ensures GetById(id) == Ok(Meal(id, name, description, isOnDiet, date, user))
    {
      rows := rows[id := Meal(id, name, description, isOnDiet, date, user)];
      order := order + [id];
    }

    /** `PUT /:mealId`: NotFound for an unknown id; otherwise replaces name,
        description, diet flag and date, keeping id and owner. */
    method Update(id: Id, name: string, description: string, isOnDiet: bool, date: int)
      returns (r: Result<()>)
      requires Valid()
      modifies this
      ensures Valid()
      ensures order == old(order) && rows.Keys == old(rows).Keys
      ensures id !in old(rows) ==> r == NotFound && rows == old(rows)
      ensures id in old(rows) ==> r == Ok(())
      ensures id in old(rows) ==>
        rows[id] == Meal(id, name, description, isOnDiet, date, old(rows)[id].userId)
      ensures forall k :: k in old(rows) && k != id ==> rows[k] == old(rows)[k]
    {
      if id !in rows {
        return NotFound;
      }
      var meal := rows[id];
      rows := rows[id := meal.(name := name, description := description, isOnDiet := isOnDiet, date := date)];
      r := Ok(());
    }

    /** `DELETE /:mealId`: NotFound for an unknown id; otherwise removes that row. */
    method Delete(id: Id) returns (r: Result<()>)
      requires Valid()
      modifies this
      ensures Valid()
      ensures id !in old(rows) ==> r == NotFound && rows == old(rows) && order == old(order)
      ensures id in old(rows) ==> r == Ok(()) && rows == old(rows) - {id} && order == Without(old(order), id)
      ensures GetById(id) == NotFound
      ensures forall k :: k in old(rows) && k != id ==> k in rows && rows[k] == old(rows)[k]
    {
      if id !in rows {
        return NotFound;
      }
      rows := rows - {id};
      order := Without(order, id);
      r := Ok(());
    }

    /** `GET /metrics`: two count queries, the listing, and the streak reduction over it. */
    method Metrics(user: UserId) returns (m: MealMetrics)
      requires Valid()
      ensures m.totalMeals == |ListByUser(user)|
      ensures m.totalMealsOnDiet == CountWhere(rows, order, user, true)
      ensures m.totalMealsOffDiet == CountWhere(rows, order, user, false)
      ensures m.bestOnDietSequence == LongestRun(ListByUser(user))
      ensures m.totalMealsOnDiet + m.totalMealsOffDiet == m.totalMeals
      ensures m.bestOnDietSequence <= m.totalMealsOnDiet
      ensures m.bestOnDietSequence == 0 <==> m.totalMealsOnDiet == 0
    {
      var onDiet := CountWhere(rows, order, user, true);
      var offDiet := CountWhere(rows, order, user, false);
      var totalMeals := ListByUser(user);
      var best := BestOnDietSequence(totalMeals);
      ListingCounts(rows, order, user);
      LongestRunBounds(totalMeals);
      m := MealMetrics(|totalMeals|, onDiet, offDiet, best);
    }
  }
}

// A client of the table: four meals for one user, created with strictly
// decreasing dates so that the listing returns them in creation order.
module MealScenario {
  import opened MealRecords
  import opened DietMetrics
  import opened MealStore

  /** Meals on, on, off, on: three on diet, one off. */
  lemma FourMealCounts(meals: seq<Meal>)
    requires |meals| == 4
    requires meals[0].isOnDiet && meals[1].isOnDiet && !meals[2].isOnDiet && meals[3].isOnDiet
    ensures CountDiet(meals, true) == 3 && CountDiet(meals, false) == 1
  {
    var t1 := meals[1..];
    var t2 := t1[1..];
    var t3 := t2[1..];
    assert t3[1..] == [];
    assert CountDiet(t3, true) == 1 && CountDiet(t3, false) == 0;
    assert CountDiet(t2, true) == 1 && CountDiet(t2, false) == 1;
    assert CountDiet(t1, true) == 2 && CountDiet(t1, false) == 1;
  }

  /** Meals on, on, off, on, most recent first, give a best streak of 2. */
  lemma FourMealStreak(ms: seq<Meal>)
    requires |ms| == 4
    requires ms[0].isOnDiet && ms[1].isOnDiet && !ms[2].isOnDiet && ms[3].isOnDiet
    ensures LongestRun(ms) == 2
  {
    var p1, p2, p3 := ms[..1], ms[..2], ms[..3];
    assert p1[..0] == [] && p2[..1] == p1 && p3[..2] == p2 && ms[..3] == p3;
    assert TrailingRun(p1) == 1 && LongestRun(p1) == 1;
    assert TrailingRun(p2) == 2 && LongestRun(p2) == 2;
    assert TrailingRun(p3) == 0 && LongestRun(p3) == 2;
    assert TrailingRun(ms) == 1;
  }

  /** Creates the four meals in a new table, breakfast first. */
  method FourMealTable(a: Id, b: Id, c: Id, d: Id, user: UserId) returns (table: MealTable)
    requires a != b && a != c && a != d && b != c && b != d && c != d
    ensures table.Valid()
    ensures Rows(table.rows, table.order) == [
      Meal(a, "breakfast", "", true, 4, user), Meal(b, "lunch", "", true, 3, user),
      Meal(c, "snack", "cake", false, 2, user), Meal(d, "dinner", "", true, 1, user)]
  {
    table := new MealTable();
    table.Create(a, "breakfast", "", true, 4, user);
    table.Create(b, "lunch", "", true, 3, user);
    table.Create(c, "snack", "cake", false, 2, user);
    table.Create(d, "dinner", "", true, 1, user);
  }

  /** The metrics of a table whose rows are the user's meals on, on, off, on,
      with strictly decreasing dates. */
  method FourMealMetrics(table: MealTable, user: UserId) returns (m: MealMetrics)
    requires table.Valid()
    requires |Rows(table.rows, table.order)| == 4
    requires StrictlyByDateDesc(Rows(table.rows, table.order))
    requires forall k :: 0 <= k < 4 ==> Rows(table.rows, table.order)[k].userId == user
    requires Rows(table.rows, table.order)[0].isOnDiet && Rows(table.rows, table.order)[1].isOnDiet
    requires !Rows(table.rows, table.order)[2].isOnDiet && Rows(table.rows, table.order)[3].isOnDiet
    ensures m == MealMetrics(4, 3, 1, 2)
  {
    var meals := Rows(table.rows, table.order);
    ListedAsGiven(meals, user);
    OwnedByAll(meals, user);
    FourMealCounts(meals);
    FourMealStreak(meals);
    m := table.Metrics(user);
  }

  /** Four meals created on, on, off, on, each earlier than the one before. */
  method FourMeals(a: Id, b: Id, c: Id, d: Id, user: UserId) returns (m: MealMetrics)
    requires a != b && a != c && a != d && b != c && b != d && c != d
    ensures m == MealMetrics(4, 3, 1, 2)
  {
    var table := FourMealTable(a, b, c, d, user);
    m := FourMealMetrics(table, user);
  }
}
