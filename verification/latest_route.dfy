/**
 * `GET /api/recipes/latest`: draws random meals, de-duplicates and caps them exactly as the
 * meal service does, and projects each to the card shape the home page shows, with fixed
 * cooking time and servings.
 */
module LatestRoute {
  import opened Options
  import opened Http
  import opened MealDb

  const ReadyInMinutes := 30
  const Servings := 4

  datatype LatestRecipe = LatestRecipe(id: string, title: string, image: string,
                                       readyInMinutes: int, servings: int)

  /** The projection of one meal. */
  function Card(m: Meal): (c: LatestRecipe)
    ensures c.id == m.idMeal && c.title == m.strMeal && c.image == m.strMealThumb
    ensures c.readyInMinutes == ReadyInMinutes && c.servings == Servings
  {
    LatestRecipe(m.idMeal, m.strMeal, m.strMealThumb, ReadyInMinutes, Servings)
  }

  function CardJson(c: LatestRecipe): (j: Json)
    ensures Keys(j) == ["id", "title", "image", "readyInMinutes", "servings"]
    ensures Member(j, "id") == Some(JStr(c.id))
    ensures Member(j, "title") == Some(JStr(c.title))
    ensures Member(j, "image") == Some(JStr(c.image))
    ensures Member(j, "readyInMinutes") == Some(JNum(c.readyInMinutes))
    ensures Member(j, "servings") == Some(JNum(c.servings))
  {
    var fs := [("id", JStr(c.id)), ("title", JStr(c.title)), ("image", JStr(c.image)),
               ("readyInMinutes", JNum(c.readyInMinutes)), ("servings", JNum(c.servings))];
    LookupDistinct(fs);
    assert fs[1].0 == "title" && fs[2].0 == "image" && fs[3].0 == "readyInMinutes" && fs[4].0 == "servings";
    JObj(fs)
  }

  /** The cards for the eight draws, or `None` when some draw rejects or has no first meal
      and the handler's `try` fails. */
  function Latest(draws: seq<Reply<Meal>>): (r: Option<seq<LatestRecipe>>)
    requires |draws| == RandomDraws
    ensures r.Some? <==> forall i | 0 <= i < |draws| :: Drawn(draws[i])
    ensures r.Some? ==> r.value == Cards(DedupeAndLimit(FirstMeals(draws).value))
    ensures r.Some? ==> |r.value| <= RandomLimit
    ensures r.Some? ==> forall k, l | 0 <= k < l < |r.value| :: r.value[k].id != r.value[l].id
    ensures r.Some? ==> forall k | 0 <= k < |r.value| ::
      && r.value[k].readyInMinutes == ReadyInMinutes && r.value[k].servings == Servings
      && exists i | 0 <= i < |draws| :: r.value[k] == Card(draws[i].field.value[0])
    ensures r.Some? ==> forall k, l | 0 <= k < l < |r.value| ::
      FirstIndex(FirstMeals(draws).value, r.value[k].id) < FirstIndex(FirstMeals(draws).value, r.value[l].id)
  {
    match GetRandomRecipes(draws)
    case None => None
    case Some(meals) =>
      var cards := Cards(meals);
      forall k | 0 <= k < |cards|
        ensures exists i | 0 <= i < |draws| :: cards[k] == Card(draws[i].field.value[0])
      {
        assert meals[k] in meals;
      }
      Some(cards)
  }

  /** `.map(recipe => ({ ... }))`: one card per meal, in order. */
  function Cards(meals: seq<Meal>): (r: seq<LatestRecipe>)
    ensures |r| == |meals|
    ensures forall k | 0 <= k < |r| :: r[k] == Card(meals[k])
  {
    seq(|meals|, k requires 0 <= k < |meals| => Card(meals[k]))
  }

  /** The handler: the cards as a JSON array with status 200, or the 500 error. */
  function Get(draws: seq<Reply<Meal>>): (r: Response)
    requires |draws| == RandomDraws
    ensures r.cookies == []
    ensures r.status == 500 <==> exists i | 0 <= i < |draws| :: !Drawn(draws[i])
    ensures r.status == 500 ==> r.body == ErrorBody("Failed to fetch recipes")
    ensures r.status == 200 ==> r.body.JArr? && Latest(draws).Some?
    ensures r.status == 200 ==> |r.body.items| == |Latest(draws).value| <= RandomLimit
    ensures r.status == 200 ==> forall k | 0 <= k < |r.body.items| ::
      r.body.items[k] == CardJson(Latest(draws).value[k])
  {
    match Latest(draws)
    case None => Response(500, ErrorBody("Failed to fetch recipes"), [])
    case Some(cards) =>
      Response(200, JArr(seq(|cards|, k requires 0 <= k < |cards| => CardJson(cards[k]))), [])
  }

  /** When the draws bring at least six different meals the page always gets six cards. */
  lemma SixCardsFromSixMeals(draws: seq<Reply<Meal>>)
    requires |draws| == RandomDraws
    requires FirstMeals(draws).Some? && |IdSet(FirstMeals(draws).value)| >= RandomLimit
    ensures Latest(draws).Some? && |Latest(draws).value| == RandomLimit
  {
  }
}
