/** The review summary the analyzer precomputes once: the reviews grouped by
    recipe id, with the mean rating and the number of rows of each group.
    The mean is kept exact, as the pair (sum of ratings, number of ratings). */
module ReviewSummary {
  import opened Recipes

  /** A group produced by a group-by is never empty. */
  type Count = n: nat | n >= 1 witness 1

  /** The summary row of one recipe: `review_count` is `reviewCount`, and
      `average_rating` is `ratingSum / reviewCount`. */
  datatype Stat = Stat(ratingSum: int, reviewCount: Count)

  /** `average_rating`, exactly. */
  function AverageRating(s: Stat): (mean: real)
    ensures mean * s.reviewCount as real == s.ratingSum as real
  {
    s.ratingSum as real / s.reviewCount as real
  }

  /** Reference definition: how many review rows name recipe `id`. */
  function CountFor(reviews: seq<Review>, id: int): (n: nat)
    ensures n <= |reviews|
    ensures n == 0 <==> id !in ReviewedIds(reviews)
  {
    if reviews == [] then 0
    else
      var before := reviews[..|reviews| - 1];
      CountFor(before, id) + if reviews[|reviews| - 1].recipeId == id then 1 else 0
  }

  /** Reference definition: the sum of the ratings of the rows that name `id`. */
  function SumFor(reviews: seq<Review>, id: int): int
  {
    if reviews == [] then 0
    else
      SumFor(reviews[..|reviews| - 1], id)
        + if reviews[|reviews| - 1].recipeId == id then reviews[|reviews| - 1].rating else 0
  }

  /** `precompute_review_summary`: group the review rows by recipe id. The
      summary has exactly one entry per distinct reviewed recipe id, and the
      entry of `id` counts the rows that name `id` and sums their ratings. */
  function PrecomputeReviewSummary(reviews: seq<Review>): (summary: map<int, Stat>)
    ensures summary.Keys == ReviewedIds(reviews)
    ensures forall id :: id in summary ==>
      summary[id].reviewCount == CountFor(reviews, id) && summary[id].ratingSum == SumFor(reviews, id)
  {
    if reviews == [] then map[]
    else
      var before := reviews[..|reviews| - 1];
      var r := reviews[|reviews| - 1];
      var prior := PrecomputeReviewSummary(before);
      var entry :=
        if r.recipeId in prior then Stat(prior[r.recipeId].ratingSum + r.rating, prior[r.recipeId].reviewCount + 1)
        else Stat(r.rating, 1);
      SummaryStep(reviews, prior, entry);
      prior[r.recipeId := entry]
  }

  /** One step of the group-by: adding the last review row to the summary of
      the rows before it. */
  lemma SummaryStep(reviews: seq<Review>, prior: map<int, Stat>, entry: Stat)
    requires reviews != []
    requires prior.Keys == ReviewedIds(reviews[..|reviews| - 1])
    requires forall id :: id in prior ==>
      prior[id].reviewCount == CountFor(reviews[..|reviews| - 1], id) && prior[id].ratingSum == SumFor(reviews[..|reviews| - 1], id)
    requires var r := reviews[|reviews| - 1];
      entry == if r.recipeId in prior then Stat(prior[r.recipeId].ratingSum + r.rating, prior[r.recipeId].reviewCount + 1)
               else Stat(r.rating, 1)
    ensures var summary := prior[reviews[|reviews| - 1].recipeId := entry];
      && summary.Keys == ReviewedIds(reviews)
      && forall id :: id in summary ==>
           summary[id].reviewCount == CountFor(reviews, id) && summary[id].ratingSum == SumFor(reviews, id)
  {
    var before := reviews[..|reviews| - 1];
    var r := reviews[|reviews| - 1];
    var summary := prior[r.recipeId := entry];
    forall id | id in summary
      ensures summary[id].reviewCount == CountFor(reviews, id) && summary[id].ratingSum == SumFor(reviews, id)
    {
      if id == r.recipeId && r.recipeId !in prior {
        assert CountFor(before, id) == 0;
        assert SumFor(before, id) == 0 by { SumForAbsent(before, id); }
      }
    }
  }

  /** No rows, no ratings. */
  lemma {:induction false} SumForAbsent(reviews: seq<Review>, id: int)
    requires id !in ReviewedIds(reviews)
    ensures SumFor(reviews, id) == 0
  {
    if reviews != [] {
      var before := reviews[..|reviews| - 1];
      SumForAbsent(before, id);
    }
  }

  /** The ratings of the rows for `id` lie between `lo` times and `hi` times
      their number when every rating lies in `[lo, hi]`. */
  lemma {:induction false} SumForBounds(reviews: seq<Review>, id: int, lo: int, hi: int)
    requires forall k :: 0 <= k < |reviews| ==> lo <= reviews[k].rating <= hi
    ensures lo * CountFor(reviews, id) <= SumFor(reviews, id) <= hi * CountFor(reviews, id)
  {
    if reviews != [] {
      var before := reviews[..|reviews| - 1];
      assert forall k :: 0 <= k < |before| ==> before[k] == reviews[k];
      SumForBounds(before, id, lo, hi);
      var c := CountFor(before, id);
      var last := reviews[|reviews| - 1];
      assert lo <= last.rating <= hi;
      if last.recipeId == id {
        assert CountFor(reviews, id) == c + 1;
        BoundStep(lo, hi, c, SumFor(before, id), last.rating);
      } else {
        assert CountFor(reviews, id) == c;
      }
    }
  }

  /** One more rating in `[lo, hi]` keeps a sum of `c` such ratings between
      `lo` and `hi` times the count. */
  lemma BoundStep(lo: int, hi: int, c: nat, sum: int, x: int)
    requires lo * c <= sum <= hi * c && lo <= x <= hi
    ensures lo * (c + 1) <= sum + x <= hi * (c + 1)
  {
    assert lo * (c + 1) == lo * c + lo;
    assert hi * (c + 1) == hi * c + hi;
  }

  /** Every mean in the summary lies in the rating scale when every rating
      does (the ratings of this dataset are 0 to 5). */
  lemma AverageInRange(reviews: seq<Review>, id: int, lo: int, hi: int)
    requires forall k :: 0 <= k < |reviews| ==> lo <= reviews[k].rating <= hi
    requires id in PrecomputeReviewSummary(reviews)
    ensures lo as real <= AverageRating(PrecomputeReviewSummary(reviews)[id]) <= hi as real
  {
    var s := PrecomputeReviewSummary(reviews)[id];
    SumForBounds(reviews, id, lo, hi);
    MeanBetween(s.ratingSum, s.reviewCount, lo, hi);
  }

  /** `lo <= sum / n <= hi` follows from `lo * n <= sum <= hi * n`. */
  lemma MeanBetween(sum: int, n: Count, lo: int, hi: int)
    requires lo * n <= sum <= hi * n
    ensures lo as real <= sum as real / n as real <= hi as real
  {
    var m := sum as real / n as real;
    assert m * n as real == sum as real;
    assert (lo as real) * (n as real) <= sum as real <= (hi as real) * (n as real);
    assert (m - lo as real) * (n as real) >= 0.0;
    assert (hi as real - m) * (n as real) >= 0.0;
  }
}
