/** `RecipeAnalyzer`: an immutable snapshot of the two datasets and the
    review summary computed from them when the analyzer is built. None of
    its attributes is reassigned afterwards, so it is a value here. */
module Analyzer {
  import opened Recipes
  import opened ReviewSummary

  /** The attributes `recipes_df`, `reviews_df` and `review_summary`. */
  datatype RecipeAnalyzer = RecipeAnalyzer(
    recipesDf: seq<Recipe>,
    reviewsDf: seq<Review>,
    reviewSummary: map<int, Stat>)

  /** The summary an analyzer holds is the one its reviews determine: one
      entry per reviewed id, with that id's row count and rating sum. */
  predicate ValidAnalyzer(a: RecipeAnalyzer)
  {
    && a.reviewSummary.Keys == ReviewedIds(a.reviewsDf)
    && forall id :: id in a.reviewSummary ==>
         a.reviewSummary[id].reviewCount == CountFor(a.reviewsDf, id)
         && a.reviewSummary[id].ratingSum == SumFor(a.reviewsDf, id)
  }

  /** `RecipeAnalyzer.__init__`: keeps both datasets as given and
      precomputes the summary of the reviews, which then has one entry per
      reviewed recipe id holding that recipe's row count and rating sum. */
  function NewRecipeAnalyzer(recipes: seq<Recipe>, reviews: seq<Review>): (a: RecipeAnalyzer)
    ensures a.recipesDf == recipes && a.reviewsDf == reviews
    ensures a.reviewSummary.Keys == ReviewedIds(reviews)
    ensures forall id :: id in a.reviewSummary ==>
      a.reviewSummary[id].reviewCount == CountFor(reviews, id) && a.reviewSummary[id].ratingSum == SumFor(reviews, id)
    ensures ValidAnalyzer(a)
  {
    RecipeAnalyzer(recipes, reviews, PrecomputeReviewSummary(reviews))
  }
}
