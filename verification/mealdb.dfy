/**
 * The MealDB client: request URLs, the `|| []` and `?.[0]` fallbacks on the response's
 * `meals` array, and the random-recipe batch that is de-duplicated by `idMeal` through a
 * JavaScript `Map` and cut to six.
 *
 * The network is not modelled: each request is represented by a `Reply`, either the
 * rejection of `fetch`/`response.json()` or the array field the JSON response carried. The
 * service has no `try`, so a rejected request makes the service call reject as well; a
 * service result of `None` stands for that rejected promise.
 */
module MealDb {
  import opened Options

  const BaseUrl := "https://www.themealdb.com/api/json/v1/1"

  /** `getRandomRecipes` draws this many random meals, each from `/random.php` ... */
  const RandomDraws: nat := 8
  /** ... and keeps at most this many after de-duplication. */
  const RandomLimit: nat := 6

  /** One numbered ingredient slot: `strIngredientN` and `strMeasureN`, each possibly
      `null` or absent. */
  datatype Slot = Slot(ingredient: Option<string>, measure: Option<string>)

  /** A recipe record as MealDB returns it; `slots[i]` holds ingredient slot `i + 1`. */
  datatype Meal = Meal(
    idMeal: string,
    strMeal: string,
    strMealThumb: string,
    strCategory: string,
    strArea: string,
    strInstructions: string,
    strTags: Option<string>,
    strYoutube: Option<string>,
    strSource: Option<string>,
    slots: seq<Slot>)

  datatype Category = Category(
    idCategory: string,
    strCategory: string,
    strCategoryThumb: string,
    strCategoryDescription: string)

  // ---------------------------------------------------------------------------
  // Request URLs: base, endpoint, then the caller's argument with no encoding.

  const SearchPath := "/search.php?s="
  const FilterPath := "/filter.php?c="
  const LookupPath := "/lookup.php?i="
  const CategoriesUrl := BaseUrl + "/categories.php"

  function SearchUrl(query: string): string { BaseUrl + SearchPath + query }
  function CategoryUrl(category: string): string { BaseUrl + FilterPath + category }
  function LookupUrl(id: string): string { BaseUrl + LookupPath + id }

  /** The argument is appended verbatim: stripping the fixed prefix gives it back, so two
      different arguments never share a URL, and the three parameterised endpoints never
      share a URL with one another. */
  lemma UrlsCarryArgumentVerbatim(a: string, b: string)
    ensures SearchUrl(a)[|BaseUrl + SearchPath|..] == a
    ensures CategoryUrl(a)[|BaseUrl + FilterPath|..] == a
    ensures LookupUrl(a)[|BaseUrl + LookupPath|..] == a
    ensures SearchUrl(a) == SearchUrl(b) ==> a == b
    ensures CategoryUrl(a) == CategoryUrl(b) ==> a == b
    ensures LookupUrl(a) == LookupUrl(b) ==> a == b
    ensures SearchUrl(a) != CategoryUrl(b) && SearchUrl(a) != LookupUrl(b) && CategoryUrl(a) != LookupUrl(b)
  {
    var n := |BaseUrl|;
    assert SearchUrl(a)[n + 1] == 's' && CategoryUrl(b)[n + 1] == 'f' && LookupUrl(b)[n + 1] == 'l';
    assert CategoryUrl(a)[n + 1] == 'f';
    if SearchUrl(a) == SearchUrl(b) {
      assert SearchUrl(a)[|BaseUrl + SearchPath|..] == SearchUrl(b)[|BaseUrl + SearchPath|..];
    }
    if CategoryUrl(a) == CategoryUrl(b) {
      assert CategoryUrl(a)[|BaseUrl + FilterPath|..] == CategoryUrl(b)[|BaseUrl + FilterPath|..];
    }
    if LookupUrl(a) == LookupUrl(b) {
      assert LookupUrl(a)[|BaseUrl + LookupPath|..] == LookupUrl(b)[|BaseUrl + LookupPath|..];
    }
  }

  // ---------------------------------------------------------------------------
  // Responses and their fallbacks.

  /** What one request came back with: `Rejected` when `fetch` or `response.json()` rejects
      (the network failed, or the body was not JSON), otherwise the response's `meals` (or
      `categories`) field, `None` when it is `null` or absent. */
  datatype Reply<T> = Rejected | Received(field: Option<seq<T>>)

  /** `data.meals || []` after awaiting the reply: the array when the response carried one,
      the empty array when it did not, and `None` when the awaited promise rejects. */
  function OrEmpty<T>(reply: Reply<T>): Option<seq<T>> {
    match reply
    case Rejected => None
    case Received(None) => Some([])
    case Received(Some(xs)) => Some(xs)
  }

  /** `searchRecipes(query)`, given the reply `fetched` returns for a URL; `None` when the
      call rejects. */
  function SearchRecipes(query: string, fetched: string -> Reply<Meal>): (r: Option<seq<Meal>>)
    ensures r.None? <==> fetched(SearchUrl(query)).Rejected?
    ensures fetched(SearchUrl(query)) == Received(None) ==> r == Some([])
    ensures forall ms | fetched(SearchUrl(query)) == Received(Some(ms)) :: r == Some(ms)
  {
    OrEmpty(fetched(SearchUrl(query)))
  }

  /** `getRecipesByCategory(category)`; `None` when the call rejects. */
  function RecipesByCategory(category: string, fetched: string -> Reply<Meal>): (r: Option<seq<Meal>>)
    ensures r.None? <==> fetched(CategoryUrl(category)).Rejected?
    ensures fetched(CategoryUrl(category)) == Received(None) ==> r == Some([])
    ensures forall ms | fetched(CategoryUrl(category)) == Received(Some(ms)) :: r == Some(ms)
  {
    OrEmpty(fetched(CategoryUrl(category)))
  }

  /** `getCategories()`, given the reply carrying the response's `categories`; `None` when
      the call rejects. */
  function Categories(fetched: string -> Reply<Category>): (r: Option<seq<Category>>)
    ensures r.None? <==> fetched(CategoriesUrl).Rejected?
    ensures fetched(CategoriesUrl) == Received(None) ==> r == Some([])
    ensures forall cs | fetched(CategoriesUrl) == Received(Some(cs)) :: r == Some(cs)
  {
    OrEmpty(fetched(CategoriesUrl))
  }

  /** `getRecipeById(id)`: `data.meals?.[0]`. `None` when the call rejects, `Some(None)` for
      `undefined` (no `meals`, or an empty one), and otherwise the first meal. */
  function RecipeById(id: string, fetched: string -> Reply<Meal>): (r: Option<Option<Meal>>)
    ensures r.None? <==> fetched(LookupUrl(id)).Rejected?
    ensures r == Some(None) <==>
      fetched(LookupUrl(id)) == Received(None) || fetched(LookupUrl(id)) == Received(Some([]))
    ensures forall ms | fetched(LookupUrl(id)) == Received(Some(ms)) && ms != [] :: r == Some(Some(ms[0]))
  {
    match fetched(LookupUrl(id))
    case Rejected => None
    case Received(None) => Some(None)
    case Received(Some(ms)) => if ms == [] then Some(None) else Some(Some(ms[0]))
  }

  // ---------------------------------------------------------------------------
  // De-duplication by `idMeal` through `new Map(recipes.map(r => [r.idMeal, r]))`.

  /** The set of ids in a list of meals. */
  function IdSet(ms: seq<Meal>): set<string> {
    set m | m in ms :: m.idMeal
  }

  /** No two meals share an id. */
  predicate DistinctIds(ms: seq<Meal>) {
    forall i, j | 0 <= i < j < |ms| :: ms[i].idMeal != ms[j].idMeal
  }

  /** The position of the first meal with this id, or `|ms|` if there is none. */
  function FirstIndex(ms: seq<Meal>, id: string): nat {
    if ms == [] then 0
    else if ms[0].idMeal == id then 0
    else 1 + FirstIndex(ms[1..], id)
  }

  /** The last meal with this id. */
  function LastWithId(ms: seq<Meal>, id: string): Option<Meal> {
    if ms == [] then None
    else if ms[|ms| - 1].idMeal == id then Some(ms[|ms| - 1])
    else LastWithId(ms[..|ms| - 1], id)
  }

  /** `map.set(m.idMeal, m)` on a map's entries in insertion order: an existing key keeps its
      position and takes the new value; a new key goes to the end. */
  function Upsert(entries: seq<Meal>, m: Meal): seq<Meal> {
    if entries == [] then [m]
    else if entries[0].idMeal == m.idMeal then [m] + entries[1..]
    else [entries[0]] + Upsert(entries[1..], m)
  }

  /** `Array.from(new Map(batch.map(r => [r.idMeal, r])).values())`. */
  function MapValues(batch: seq<Meal>): seq<Meal> {
    if batch == [] then [] else Upsert(MapValues(batch[..|batch| - 1]), batch[|batch| - 1])
  }

  /** `array.slice(0, n)`. */
  function Take<T>(s: seq<T>, n: nat): (r: seq<T>)
    ensures |r| == if |s| <= n then |s| else n
    ensures r == s[..|r|]
  {
    if |s| <= n then s else s[..n]
  }

  /** Splitting off the first meal splits off its id. */
  lemma IdSetCons(ms: seq<Meal>)
    requires ms != []
    ensures IdSet(ms) == {ms[0].idMeal} + IdSet(ms[1..])
  {
    assert ms == [ms[0]] + ms[1..];
  }

  /** `map.set` adds the key to the map's keys. */
  lemma {:induction false} UpsertIds(entries: seq<Meal>, m: Meal)
    ensures IdSet(Upsert(entries, m)) == IdSet(entries) + {m.idMeal}
    decreases |entries|
  {
    if entries != [] {
      IdSetCons(entries);
      var r := Upsert(entries, m);
      if entries[0].idMeal == m.idMeal {
        IdSetCons(r);
        assert r[1..] == entries[1..];
      } else {
        UpsertIds(entries[1..], m);
        IdSetCons(r);
        assert r[1..] == Upsert(entries[1..], m);
      }
    }
  }

  /** `map.set` with a new key appends an entry. */
  lemma {:induction false} UpsertNew(entries: seq<Meal>, m: Meal)
    requires m.idMeal !in IdSet(entries)
    ensures Upsert(entries, m) == entries + [m]
    decreases |entries|
  {
    if entries != [] {
      IdSetCons(entries);
      UpsertNew(entries[1..], m);
      assert entries + [m] == [entries[0]] + (entries[1..] + [m]);
    }
  }

  /** `map.set` with an existing key overwrites that entry in place. */
  lemma {:induction false} UpsertExisting(entries: seq<Meal>, m: Meal)
    requires DistinctIds(entries) && m.idMeal in IdSet(entries)
    ensures |Upsert(entries, m)| == |entries|
    ensures forall k | 0 <= k < |entries| ::
      Upsert(entries, m)[k] == if entries[k].idMeal == m.idMeal then m else entries[k]
    decreases |entries|
  {
    IdSetCons(entries);
    var r := Upsert(entries, m);
    if entries[0].idMeal == m.idMeal {
      UpsertAtHead(entries, m);
    } else {
      var tail := entries[1..];
      assert DistinctIds(tail);
      UpsertExisting(tail, m);
      var u := Upsert(tail, m);
      assert r == [entries[0]] + u;
      forall k | 1 <= k < |entries|
        ensures r[k] == if entries[k].idMeal == m.idMeal then m else entries[k]
      {
        assert r[k] == u[k - 1] && tail[k - 1] == entries[k];
      }
    }
  }

  /** `map.set` with the key of the first entry replaces that entry alone. */
  lemma UpsertAtHead(entries: seq<Meal>, m: Meal)
    requires DistinctIds(entries) && entries != [] && entries[0].idMeal == m.idMeal
    ensures |Upsert(entries, m)| == |entries|
    ensures forall k | 0 <= k < |entries| ::
      Upsert(entries, m)[k] == if entries[k].idMeal == m.idMeal then m else entries[k]
  {
    var r := Upsert(entries, m);
    assert r == [m] + entries[1..];
    forall k | 1 <= k < |entries|
      ensures r[k] == entries[k] && entries[k].idMeal != m.idMeal
    {
      assert entries[0].idMeal != entries[k].idMeal;
    }
  }

  /** `map.set` keeps the keys distinct. */
  lemma UpsertDistinct(entries: seq<Meal>, m: Meal)
    requires DistinctIds(entries)
    ensures DistinctIds(Upsert(entries, m))
  {
    if m.idMeal in IdSet(entries) {
      UpsertExisting(entries, m);
      var r := Upsert(entries, m);
      forall i, j | 0 <= i < j < |r|
        ensures r[i].idMeal != r[j].idMeal
      {
        if entries[i].idMeal == m.idMeal {
          assert entries[j].idMeal != m.idMeal;
        } else if entries[j].idMeal == m.idMeal {
          assert entries[i].idMeal != m.idMeal;
        }
      }
    } else {
      UpsertNew(entries, m);
      var r := entries + [m];
      forall i, j | 0 <= i < j < |r|
        ensures r[i].idMeal != r[j].idMeal
      {
        if j == |entries| {
          assert entries[i] in entries;
        }
      }
    }
  }

  /** Appending a meal leaves the set of ids grown by its id. */
  lemma IdSetAppend(ms: seq<Meal>, x: Meal)
    ensures IdSet(ms + [x]) == IdSet(ms) + {x.idMeal}
  {
    assert forall m | m in ms + [x] :: m in ms || m == x;
  }

  /** Where an id first appears does not move when a meal is appended; a new id first appears
      at the appended position. */
  lemma {:induction false} FirstIndexAppend(ms: seq<Meal>, x: Meal, id: string)
    ensures id in IdSet(ms) ==> FirstIndex(ms + [x], id) == FirstIndex(ms, id) < |ms|
    ensures id !in IdSet(ms) && x.idMeal == id ==> FirstIndex(ms + [x], id) == |ms|
    decreases |ms|
  {
    if ms != [] {
      assert (ms + [x])[0] == ms[0] && (ms + [x])[1..] == ms[1..] + [x];
      assert IdSet(ms) == {ms[0].idMeal} + IdSet(ms[1..]) by {
        assert ms == [ms[0]] + ms[1..];
      }
      FirstIndexAppend(ms[1..], x, id);
    }
  }

  /** Distinct ids mean as many ids as meals. */
  lemma {:induction false} DistinctIdsCard(ms: seq<Meal>)
    requires DistinctIds(ms)
    ensures |IdSet(ms)| == |ms|
    decreases |ms|
  {
    if ms != [] {
      var init := ms[..|ms| - 1];
      assert ms == init + [ms[|ms| - 1]];
      IdSetAppend(init, ms[|ms| - 1]);
      DistinctIdsCard(init);
      assert ms[|ms| - 1].idMeal !in IdSet(init);
    }
  }

  /** The keys of the `Map` built from a batch are the batch's ids, each once. */
  lemma {:induction false} MapValuesKeys(batch: seq<Meal>)
    ensures DistinctIds(MapValues(batch))
    ensures IdSet(MapValues(batch)) == IdSet(batch)
    decreases |batch|
  {
    if batch != [] {
      var init := batch[..|batch| - 1];
      var x := batch[|batch| - 1];
      assert batch == init + [x];
      MapValuesKeys(init);
      UpsertIds(MapValues(init), x);
      UpsertDistinct(MapValues(init), x);
      IdSetAppend(init, x);
    }
  }

  /** Each entry of the `Map` holds the last meal fetched with its id. */
  lemma {:induction false} MapValuesLast(batch: seq<Meal>)
    ensures forall k | 0 <= k < |MapValues(batch)| ::
      LastWithId(batch, MapValues(batch)[k].idMeal) == Some(MapValues(batch)[k])
    decreases |batch|
  {
    if batch != [] {
      var init := batch[..|batch| - 1];
      var x := batch[|batch| - 1];
      MapValuesKeys(init);
      MapValuesLast(init);
      var prev := MapValues(init);
      var r := Upsert(prev, x);
      if x.idMeal in IdSet(prev) {
        UpsertExisting(prev, x);
      } else {
        UpsertNew(prev, x);
      }
      forall k | 0 <= k < |r|
        ensures LastWithId(batch, r[k].idMeal) == Some(r[k])
      {
        if r[k].idMeal != x.idMeal {
          assert r[k] == prev[k];
        }
      }
    }
  }

  /** The entries of the `Map` follow the order in which their ids first appear. */
  lemma {:induction false} MapValuesOrder(batch: seq<Meal>)
    ensures forall k, l | 0 <= k < l < |MapValues(batch)| ::
      FirstIndex(batch, MapValues(batch)[k].idMeal) < FirstIndex(batch, MapValues(batch)[l].idMeal)
    decreases |batch|
  {
    if batch != [] {
      var init := batch[..|batch| - 1];
      var x := batch[|batch| - 1];
      assert batch == init + [x];
      MapValuesKeys(init);
      MapValuesOrder(init);
      var prev := MapValues(init);
      var r := Upsert(prev, x);
      forall k, l | 0 <= k < l < |r|
        ensures FirstIndex(batch, r[k].idMeal) < FirstIndex(batch, r[l].idMeal)
      {
        if x.idMeal in IdSet(prev) {
          OrderStepExisting(init, x, k, l);
        } else {
          OrderStepNew(init, x, k, l);
        }
      }
    }
  }

  /** The entries of `MapValues(init)` in first-occurrence order of `init`. */
  predicate InFirstOrder(init: seq<Meal>, entries: seq<Meal>) {
    forall k, l | 0 <= k < l < |entries| ::
      FirstIndex(init, entries[k].idMeal) < FirstIndex(init, entries[l].idMeal)
  }

  /** Overwriting an existing key keeps every position, so the order carries over. */
  lemma OrderStepExisting(init: seq<Meal>, x: Meal, k: nat, l: nat)
    requires IdSet(MapValues(init)) == IdSet(init) && InFirstOrder(init, MapValues(init))
    requires x.idMeal in IdSet(MapValues(init))
    requires k < l < |Upsert(MapValues(init), x)|
    ensures var r := Upsert(MapValues(init), x);
      FirstIndex(init + [x], r[k].idMeal) < FirstIndex(init + [x], r[l].idMeal)
  {
    var prev := MapValues(init);
    var r := Upsert(prev, x);
    UpsertExisting(prev, x);
    assert r[k].idMeal == prev[k].idMeal && r[l].idMeal == prev[l].idMeal;
    assert prev[k] in prev && prev[l] in prev;
    FirstIndexAppend(init, x, prev[k].idMeal);
    FirstIndexAppend(init, x, prev[l].idMeal);
  }

  /** A new key goes last, and its first occurrence is the new last position. */
  lemma OrderStepNew(init: seq<Meal>, x: Meal, k: nat, l: nat)
    requires IdSet(MapValues(init)) == IdSet(init) && InFirstOrder(init, MapValues(init))
    requires x.idMeal !in IdSet(MapValues(init))
    requires k < l < |Upsert(MapValues(init), x)|
    ensures var r := Upsert(MapValues(init), x);
      FirstIndex(init + [x], r[k].idMeal) < FirstIndex(init + [x], r[l].idMeal)
  {
    var prev := MapValues(init);
    var r := Upsert(prev, x);
    UpsertNew(prev, x);
    assert r[k] == prev[k] && prev[k] in prev;
    FirstIndexAppend(init, x, prev[k].idMeal);
    if l < |prev| {
      assert r[l] == prev[l] && prev[l] in prev;
      FirstIndexAppend(init, x, prev[l].idMeal);
    } else {
      assert r[l] == x;
      FirstIndexAppend(init, x, x.idMeal);
    }
  }

  /** The values of the `Map` built from a batch: one entry per distinct id, holding the
      last meal fetched with that id, in the order the ids first appear. */
  lemma MapValuesSpec(batch: seq<Meal>)
    ensures DistinctIds(MapValues(batch))
    ensures IdSet(MapValues(batch)) == IdSet(batch)
    ensures |MapValues(batch)| == |IdSet(batch)|
    ensures forall k | 0 <= k < |MapValues(batch)| ::
      LastWithId(batch, MapValues(batch)[k].idMeal) == Some(MapValues(batch)[k])
    ensures forall k, l | 0 <= k < l < |MapValues(batch)| ::
      FirstIndex(batch, MapValues(batch)[k].idMeal) < FirstIndex(batch, MapValues(batch)[l].idMeal)
  {
    MapValuesKeys(batch);
    MapValuesLast(batch);
    MapValuesOrder(batch);
    DistinctIdsCard(MapValues(batch));
  }

  /** The meal `LastWithId` finds is in the list and carries the id asked for. */
  lemma {:induction false} LastWithIdIn(ms: seq<Meal>, id: string)
    ensures LastWithId(ms, id).Some? ==> LastWithId(ms, id).value in ms && LastWithId(ms, id).value.idMeal == id
    decreases |ms|
  {
    if ms != [] && ms[|ms| - 1].idMeal != id {
      LastWithIdIn(ms[..|ms| - 1], id);
    }
  }

  // ---------------------------------------------------------------------------
  // The random batch.

  /** A draw that yields a first meal: the request resolved and its `meals` is a non-empty
      array. */
  predicate Drawn(d: Reply<Meal>) {
    d.Received? && d.field.Some? && d.field.value != []
  }

  /** `data.meals[0]` of every draw, or `None` when the batch rejects: a rejected request
      rejects `Promise.all`, indexing `null` throws, and an `undefined` element throws when
      its `idMeal` is read. */
  function FirstMeals(draws: seq<Reply<Meal>>): (r: Option<seq<Meal>>)
    ensures r.Some? <==> forall i | 0 <= i < |draws| :: Drawn(draws[i])
    ensures r.Some? ==> |r.value| == |draws|
    ensures r.Some? ==> forall i | 0 <= i < |draws| :: r.value[i] == draws[i].field.value[0]
    decreases |draws|
  {
    if draws == [] then Some([])
    else match (draws[0], FirstMeals(draws[1..]))
      case (Received(Some(ms)), Some(rest)) => if ms == [] then None else Some([ms[0]] + rest)
      case _ => None
  }

  /** `Array.from(new Map(batch.map(r => [r.idMeal, r])).values()).slice(0, 6)`, written once
      and used by both `getRandomRecipes` and the latest-recipes route. The six kept are the
      first six distinct ids: any id that first appears before a kept one is kept too. */
  function DedupeAndLimit(batch: seq<Meal>): (r: seq<Meal>)
    ensures |r| <= RandomLimit
    ensures DistinctIds(r)
    ensures forall m | m in r :: m in batch
    ensures |r| == if |IdSet(batch)| <= RandomLimit then |IdSet(batch)| else RandomLimit
    ensures |r| < RandomLimit ==> IdSet(r) == IdSet(batch)
    ensures forall k | 0 <= k < |r| :: LastWithId(batch, r[k].idMeal) == Some(r[k])
    ensures forall k, l | 0 <= k < l < |r| :: FirstIndex(batch, r[k].idMeal) < FirstIndex(batch, r[l].idMeal)
    ensures forall m, k | m in batch && 0 <= k < |r| && FirstIndex(batch, m.idMeal) < FirstIndex(batch, r[k].idMeal) ::
      m.idMeal in IdSet(r)
  {
    var all := MapValues(batch);
    MapValuesSpec(batch);
    forall k | 0 <= k < |all|
      ensures all[k] in batch
    {
      LastWithIdIn(batch, all[k].idMeal);
    }
    var r := Take(all, RandomLimit);
    forall m, k | m in batch && 0 <= k < |r| && FirstIndex(batch, m.idMeal) < FirstIndex(batch, r[k].idMeal)
      ensures m.idMeal in IdSet(r)
    {
      EarlierIdKept(batch, all, r, m, k);
    }
    r
  }

  /** In a prefix of the `Map`'s values, an id that first appears before a kept entry's id
      is itself kept. */
  lemma EarlierIdKept(batch: seq<Meal>, all: seq<Meal>, r: seq<Meal>, m: Meal, k: nat)
    requires IdSet(all) == IdSet(batch)
    requires forall a, b | 0 <= a < b < |all| :: FirstIndex(batch, all[a].idMeal) < FirstIndex(batch, all[b].idMeal)
    requires |r| <= |all| && r == all[..|r|]
    requires m in batch && k < |r| && FirstIndex(batch, m.idMeal) < FirstIndex(batch, r[k].idMeal)
    ensures m.idMeal in IdSet(r)
  {
    assert m.idMeal in IdSet(batch);
    var x :| x in all && x.idMeal == m.idMeal;
    var p :| 0 <= p < |all| && all[p] == x;
    assert r[k] == all[k];
    assert p < k;
    assert r[p] == x;
  }

  /** `getRandomRecipes()`, given the replies to its eight random draws; `None` when the
      promise rejects. Otherwise it is the de-duplicated, capped batch of first meals. */
  function GetRandomRecipes(draws: seq<Reply<Meal>>): (r: Option<seq<Meal>>)
    requires |draws| == RandomDraws
    ensures r.Some? <==> forall i | 0 <= i < |draws| :: Drawn(draws[i])
    ensures r.Some? ==> r.value == DedupeAndLimit(FirstMeals(draws).value)
    ensures r.Some? ==> |r.value| <= RandomLimit && DistinctIds(r.value)
    ensures r.Some? ==> forall m | m in r.value :: exists i | 0 <= i < |draws| :: m == draws[i].field.value[0]
    ensures r.Some? && |IdSet(FirstMeals(draws).value)| >= RandomLimit ==> |r.value| == RandomLimit
  {
    match FirstMeals(draws)
    case None => None
    case Some(batch) =>
      var r := DedupeAndLimit(batch);
      forall m | m in r
        ensures exists i | 0 <= i < |draws| :: m == draws[i].field.value[0]
      {
        var i :| 0 <= i < |batch| && batch[i] == m;
      }
      Some(r)
  }
}
