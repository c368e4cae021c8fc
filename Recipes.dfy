/** The two datasets the analyzer is built from: one row per recipe and one
    row per user interaction (review). Both are loaded once and never
    changed; the model takes them as already-parsed sequences of rows. */
module Recipes {
  import opened Wrappers

  /** A row of the recipe table. The serialised list cells are kept as they
      are stored (`ingredientsText`, `stepsText`) because the search and the
      detail view read them in that form; `ingredients` and `nutrition` are
      the same cells as parsed Python literals. */
  datatype Recipe = Recipe(
    id: int,
    name: string,
    minutes: int,
    nSteps: int,
    nIngredients: int,
    description: Option<string>,
    ingredientsText: string,
    ingredients: seq<string>,
    stepsText: string,
    nutrition: seq<real>)

  /** A row of the interaction table; a rating of 0 is an ordinary value
      and is averaged like any other. */
  datatype Review = Review(
    recipeId: int,
    userId: int,
    date: string,
    rating: int,
    review: Option<string>)

  /** The recipe ids are a primary key of the catalog. */
  predicate UniqueIds(catalog: seq<Recipe>)
  {
    forall i, j :: 0 <= i < j < |catalog| ==> catalog[i].id != catalog[j].id
  }

  /** The distinct recipe ids that occur in the reviews. */
  function ReviewedIds(reviews: seq<Review>): set<int>
  {
    if reviews == [] then {}
    else ReviewedIds(reviews[..|reviews| - 1]) + {reviews[|reviews| - 1].recipeId}
  }

  /** A recipe id is reviewed exactly when some review row names it. */
  lemma {:induction false} ReviewedIdsMembers(reviews: seq<Review>, id: int)
    ensures id in ReviewedIds(reviews) <==> exists k :: 0 <= k < |reviews| && reviews[k].recipeId == id
  {
    if reviews != [] {
      var before := reviews[..|reviews| - 1];
      ReviewedIdsMembers(before, id);
      if k :| 0 <= k < |before| && before[k].recipeId == id {
        assert reviews[k] == before[k];
      }
      if k :| 0 <= k < |reviews| && reviews[k].recipeId == id {
        if k < |before| {
          assert before[k] == reviews[k];
        }
      }
    }
  }
}
