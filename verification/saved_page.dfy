/**
 * The saved-recipes page's local list and what `removeFavorite` does to it once the server has
 * answered the DELETE request.
 */
module SavedPage {
  import opened MealDb

  datatype FavoriteRecipe = FavoriteRecipe(userId: string, recipeId: string, recipe: Meal,
                                           createdAt: string)

  /** How the DELETE request ended: a response with its status, or a thrown `fetch`. */
  datatype DeleteResult = Responded(status: int) | Thrown

  /** `response.ok`: a status in the 2xx range. */
  predicate Ok(d: DeleteResult) {
    d.Responded? && 200 <= d.status <= 299
  }

  /** How many favourites carry `recipeId`. */
  function Count(saved: seq<FavoriteRecipe>, recipeId: string): nat
    decreases |saved|
  {
    if saved == [] then 0
    else (if saved[0].recipeId == recipeId then 1 else 0) + Count(saved[1..], recipeId)
  }

  /** `prev.filter(fav => fav.recipeId !== recipeId)`. */
  function Without(saved: seq<FavoriteRecipe>, recipeId: string): (r: seq<FavoriteRecipe>)
    ensures |r| == |saved| - Count(saved, recipeId)
    decreases |saved|
  {
    if saved == [] then []
    else (if saved[0].recipeId == recipeId then [] else [saved[0]]) + Without(saved[1..], recipeId)
  }

  /** `removeFavorite(recipe)` given how its request ended: the list loses every entry for
      that recipe after an ok answer, and is left alone otherwise. */
  function RemoveFavorite(saved: seq<FavoriteRecipe>, recipe: Meal, result: DeleteResult)
    : (r: seq<FavoriteRecipe>)
    ensures !Ok(result) ==> r == saved
    ensures Ok(result) ==> forall f | f in r :: f.recipeId != recipe.idMeal
    ensures Ok(result) ==> forall f | f in saved && f.recipeId != recipe.idMeal :: f in r
    ensures Ok(result) ==> |r| == |saved| - Count(saved, recipe.idMeal)
    ensures Ok(result) ==> SubsequenceOf(r, saved)
  {
    if Ok(result) then
      WithoutMembers(saved, recipe.idMeal);
      WithoutIsSubsequence(saved, recipe.idMeal);
      Without(saved, recipe.idMeal)
    else saved
  }

  /** The survivors are exactly the entries for other recipes. */
  lemma {:induction false} WithoutMembers(saved: seq<FavoriteRecipe>, recipeId: string)
    ensures forall f | f in Without(saved, recipeId) :: f in saved && f.recipeId != recipeId
    ensures forall f | f in saved && f.recipeId != recipeId :: f in Without(saved, recipeId)
    decreases |saved|
  {
    if saved != [] {
      WithoutMembers(saved[1..], recipeId);
      assert forall f | f in saved :: f == saved[0] || f in saved[1..];
      assert forall f | f in saved[1..] :: f in saved;
    }
  }

  /** The filter works entry by entry, so it keeps the survivors' relative order: filtering a
      concatenation filters each part. */
  lemma {:induction false} WithoutAppend(a: seq<FavoriteRecipe>, b: seq<FavoriteRecipe>, recipeId: string)
    ensures Without(a + b, recipeId) == Without(a, recipeId) + Without(b, recipeId)
    decreases |a|
  {
    if a == [] {
      assert a + b == b;
    } else {
      assert (a + b)[0] == a[0] && (a + b)[1..] == a[1..] + b;
      WithoutAppend(a[1..], b, recipeId);
      var head := if a[0].recipeId == recipeId then [] else [a[0]];
      assert Without(a + b, recipeId) == head + (Without(a[1..], recipeId) + Without(b, recipeId));
      assert Without(a, recipeId) == head + Without(a[1..], recipeId);
    }
  }

  /** `r` is a subsequence of `s`. */
  predicate SubsequenceOf<T(==)>(r: seq<T>, s: seq<T>)
    decreases |s|
  {
    || r == []
    || (s != [] && ((r[0] == s[0] && SubsequenceOf(r[1..], s[1..])) || SubsequenceOf(r, s[1..])))
  }

  /** What is left is the original list with some entries struck out. */
  lemma {:induction false} WithoutIsSubsequence(saved: seq<FavoriteRecipe>, recipeId: string)
    ensures SubsequenceOf(Without(saved, recipeId), saved)
    decreases |saved|
  {
    if saved != [] {
      WithoutIsSubsequence(saved[1..], recipeId);
      var rest := Without(saved[1..], recipeId);
      if saved[0].recipeId != recipeId {
        assert Without(saved, recipeId) == [saved[0]] + rest;
        assert ([saved[0]] + rest)[0] == saved[0] && ([saved[0]] + rest)[1..] == rest;
      } else {
        assert Without(saved, recipeId) == rest;
      }
    }
  }

  /** Removing the same recipe twice leaves the list as removing it once. */
  lemma {:induction false} WithoutIdempotent(saved: seq<FavoriteRecipe>, recipeId: string)
    ensures Without(Without(saved, recipeId), recipeId) == Without(saved, recipeId)
    decreases |saved|
  {
    if saved != [] {
      WithoutIdempotent(saved[1..], recipeId);
      var rest := Without(saved[1..], recipeId);
      if saved[0].recipeId != recipeId {
        assert Without(saved, recipeId) == [saved[0]] + rest;
        assert ([saved[0]] + rest)[0] == saved[0] && ([saved[0]] + rest)[1..] == rest;
      } else {
        assert Without(saved, recipeId) == rest;
      }
    }
  }

  /** Two ok removals of the same recipe give the list one ok removal gives. */
  lemma RemoveTwice(saved: seq<FavoriteRecipe>, recipe: Meal, first: DeleteResult, second: DeleteResult)
    requires Ok(first)
    ensures RemoveFavorite(RemoveFavorite(saved, recipe, first), recipe, second)
         == RemoveFavorite(saved, recipe, first)
  {
    WithoutIdempotent(saved, recipe.idMeal);
  }
}
