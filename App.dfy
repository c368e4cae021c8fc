/** The two routes of the web application, reduced to what they decide: how
    the search form's text becomes a list of ingredient terms, which of the
    three search outcomes is produced, and how a failed detail lookup is
    answered. Rendering a template is modelled by the data handed to it. */
module App {
  import opened Wrappers
  import opened PyStr
  import opened Recipes
  import opened IngredientFilter
  import opened Ranking
  import opened RecipeDetail
  import opened Analyzer
  import opened ReviewSummary

  const EmptyQueryMessage: string := "Please enter at least one ingredient."
  const NoMatchesMessage: string := "No matching recipes found."
  const NotFoundStatus: int := 404

  // ---------------------------------------------------------------- query normalisation

  /** A string that neither starts nor ends with whitespace. */
  predicate Trimmed(s: string)
  {
    s == [] || (!IsSpace(s[0]) && !IsSpace(s[|s| - 1]))
  }

  /** A term as the search passes it on: non-empty, trimmed, lower-case. */
  predicate NormalTerm(t: string)
  {
    t != [] && Trimmed(t) && Lower(t) == t
  }

  /** `[p.strip().lower() for p in pieces if p.strip()]`: never more terms
      than pieces. */
  function NormalizePieces(pieces: seq<string>): (terms: seq<string>)
    ensures |terms| <= |pieces|
  {
    if pieces == [] then []
    else
      var p := Strip(pieces[0]);
      var rest := NormalizePieces(pieces[1..]);
      if p == [] then rest else [Lower(p)] + rest
  }

  /** Every term kept is non-empty, trimmed and lower-case. */
  lemma {:induction false} NormalizedTermsNormal(pieces: seq<string>)
    ensures forall k :: 0 <= k < |NormalizePieces(pieces)| ==> NormalTerm(NormalizePieces(pieces)[k])
  {
    if pieces != [] {
      var rest := NormalizePieces(pieces[1..]);
      NormalizedTermsNormal(pieces[1..]);
      if Strip(pieces[0]) != [] {
        var terms := NormalizePieces(pieces);
        assert terms == [Lower(Strip(pieces[0]))] + rest;
        NormalTermOfPiece(pieces[0]);
        forall k | 0 <= k < |terms| ensures NormalTerm(terms[k]) {
          if k > 0 {
            assert terms[k] == rest[k - 1];
          }
        }
      }
    }
  }

  /** The term made of a piece that is not blank is a normal term. */
  lemma NormalTermOfPiece(piece: string)
    requires Strip(piece) != []
    ensures NormalTerm(Lower(Strip(piece)))
  {
    var p := Strip(piece);
    LowerIdempotent(p);
  }

  /** `request.form['ingredients'].split(',')` followed by the comprehension. */
  function Normalize(form: string): (terms: seq<string>)
    ensures |terms| <= |Split(form, ',')|
  {
    NormalizePieces(Split(form, ','))
  }

  /** The terms keep the order of the pieces: normalising two runs of pieces
      gives the terms of the first run followed by those of the second. */
  lemma {:induction false} NormalizeConcat(p1: seq<string>, p2: seq<string>)
    ensures NormalizePieces(p1 + p2) == NormalizePieces(p1) + NormalizePieces(p2)
  {
    if p1 == [] {
      assert p1 + p2 == p2;
    } else {
      assert (p1 + p2)[0] == p1[0];
      assert (p1 + p2)[1..] == p1[1..] + p2;
      NormalizeConcat(p1[1..], p2);
    }
  }

  /** One piece gives no term when it is blank (empty or whitespace only)
      and otherwise exactly one: the piece stripped and lower-cased. */
  lemma NormalizeOne(piece: string)
    ensures NormalizePieces([piece]) == if AllSpace(piece) then [] else [Lower(Strip(piece))]
  {
    StripBlank(piece);
    assert [piece][1..] == [];
  }

  /** Every piece is blank: empty or whitespace only. */
  predicate AllBlank(pieces: seq<string>)
  {
    forall k :: 0 <= k < |pieces| ==> AllSpace(pieces[k])
  }

  /** No term is left exactly when every comma-separated piece is blank. */
  lemma {:induction false} NormalizeEmptyIff(pieces: seq<string>)
    ensures NormalizePieces(pieces) == [] <==> AllBlank(pieces)
  {
    if pieces != [] {
      StripBlank(pieces[0]);
      NormalizeEmptyIff(pieces[1..]);
      assert forall k :: 1 <= k < |pieces| ==> pieces[1..][k - 1] == pieces[k];
    }
  }

  // ---------------------------------------------------------------- search route

  /** What the search route answers: the home page re-rendered with an
      error message, the text "No matching recipes found." with status 404,
      the results page with the ranked rows, or the `KeyError` that the
      filter raises on an empty catalog and the route does not catch. */
  datatype SearchResponse =
    | FormError(message: string)
    | NotFound(body: string, status: int)
    | Results(recipes: seq<RankedRow>)
    | UncaughtKeyError

  /** The decision `search` takes once the terms are known: no terms is a
      form error and the analyzer is not consulted; on an empty catalog the
      per-row mask is empty and untyped, so selecting it yields a frame with
      no `name` column and the filter raises `KeyError`; terms without
      matches in a non-empty catalog give a 404; ranking runs only on a
      non-empty set of matches and yields between one and ten rows. */
  function Answer(a: RecipeAnalyzer, terms: seq<string>): (response: SearchResponse)
    ensures response.FormError? <==> terms == []
    ensures response.FormError? ==> response.message == EmptyQueryMessage
    ensures response.UncaughtKeyError? <==> terms != [] && a.recipesDf == []
    ensures response.NotFound? <==>
      terms != [] && a.recipesDf != [] && FindRecipesByIngredients(a.recipesDf, terms) == []
    ensures response.NotFound? ==> response.body == NoMatchesMessage && response.status == NotFoundStatus
    ensures response.Results? ==>
      && 1 <= |response.recipes| <= TopK
      && response.recipes == CountAndRating(a.reviewSummary, FindRecipesByIngredients(a.recipesDf, terms))
  {
    if terms == [] then FormError(EmptyQueryMessage)
    else if a.recipesDf == [] then UncaughtKeyError
    else
      var matching := FindRecipesByIngredients(a.recipesDf, terms);
      if matching != [] then Results(CountAndRating(a.reviewSummary, matching))
      else NotFound(NoMatchesMessage, NotFoundStatus)
  }

  /** `search`: the answer for the terms of the submitted form. */
  function Search(a: RecipeAnalyzer, form: string): (response: SearchResponse)
    ensures response.FormError? <==> Normalize(form) == []
    ensures response.UncaughtKeyError? <==> Normalize(form) != [] && a.recipesDf == []
    ensures response.NotFound? <==>
      Normalize(form) != [] && a.recipesDf != [] && FindRecipesByIngredients(a.recipesDf, Normalize(form)) == []
    ensures response.Results? ==>
      response.recipes == CountAndRating(a.reviewSummary, FindRecipesByIngredients(a.recipesDf, Normalize(form)))
  {
    Answer(a, Normalize(form))
  }

  /** The form error is given exactly for a form whose comma-separated
      pieces are all blank, the empty form included. */
  lemma FormErrorIff(a: RecipeAnalyzer, form: string)
    ensures Search(a, form).FormError? <==> AllBlank(Split(form, ','))
  {
    NormalizeEmptyIff(Split(form, ','));
  }

  /** `row` shows, under its title-cased name, a catalog recipe whose
      ingredient text contains every term. */
  ghost predicate ShowsMatch(catalog: seq<Recipe>, terms: seq<string>, row: RankedRow)
  {
    exists r :: r in catalog && r.id == row.id && row.name == Title(r.name) && Matches(r, terms)
  }

  /** Every row of an answer shows a matching catalog recipe. */
  lemma AnswerSound(a: RecipeAnalyzer, terms: seq<string>)
    ensures var response := Answer(a, terms);
      response.Results? ==>
        forall k :: 0 <= k < |response.recipes| ==> ShowsMatch(a.recipesDf, terms, response.recipes[k])
  {
    var response := Answer(a, terms);
    if response.Results? {
      var matching := FindRecipesByIngredients(a.recipesDf, terms);
      var top := response.recipes;
      FindSound(a.recipesDf, terms);
      forall k | 0 <= k < |top| ensures ShowsMatch(a.recipesDf, terms, top[k]) {
        var m := matching[top[k].index];
        assert m in matching;
        assert ProjectionOfMatch(a.recipesDf, terms, m);
      }
    }
  }

  /** For an analyzer whose summary is the one its reviews determine, each
      row of an answer shows its recipe's number of review rows and their
      mean rating, or a missing count and 0 when the recipe has no reviews. */
  lemma AnswerCounts(a: RecipeAnalyzer, terms: seq<string>)
    requires ValidAnalyzer(a)
    ensures var response := Answer(a, terms);
      response.Results? ==>
        forall k :: 0 <= k < |response.recipes| ==>
          ShowsReviews(a.reviewsDf, response.recipes[k])
  {
    var response := Answer(a, terms);
    if response.Results? {
      var matching := FindRecipesByIngredients(a.recipesDf, terms);
      var top := response.recipes;
      forall k | 0 <= k < |top| ensures ShowsReviews(a.reviewsDf, top[k]) {
        var i := top[k].index;
        assert top[k] == JoinRow(matching[i], a.reviewSummary, i);
      }
    }
  }

  /** `row` carries the review count and mean of its recipe. */
  predicate ShowsReviews(reviews: seq<Review>, row: RankedRow)
  {
    if row.id in ReviewedIds(reviews) then
      && row.reviewCount == Some(CountFor(reviews, row.id))
      && row.averageRating == SumFor(reviews, row.id) as real / CountFor(reviews, row.id) as real
    else row.reviewCount == None && row.averageRating == 0.0
  }

  /** End to end: every recipe on the results page is a catalog recipe whose
      ingredient text contains every term of the query. */
  lemma SearchSound(a: RecipeAnalyzer, form: string)
    ensures var response := Search(a, form);
      response.Results? ==>
        forall k :: 0 <= k < |response.recipes| ==> ShowsMatch(a.recipesDf, Normalize(form), response.recipes[k])
  {
    AnswerSound(a, Normalize(form));
  }

  /** A form made only of commas and whitespace is rejected before any
      search: `" ,  "` gives the form error. */
  lemma BlankFormRejected(a: RecipeAnalyzer)
    ensures Search(a, " ,  ") == FormError(EmptyQueryMessage)
  {
    var pieces := Split(" ,  ", ',');
    SplitJoin(" ,  ", ',');
    assert pieces == [" ", "  "] by {
      JoinSplit([" ", "  "], ',');
      assert JoinWith([" ", "  "], ',') == " ,  ";
    }
    assert AllBlank(pieces);
    FormErrorIff(a, " ,  ");
  }

  // ---------------------------------------------------------------- recipe route

  /** What the detail route answers: the detail page of the first row, the
      `ValueError`'s message with status 404, or the uncaught `IndexError`
      leaving the view (Flask's error response). */
  datatype RecipeResponse =
    | RecipePage(recipe: RecipeDetails)
    | NotFoundPage(body: string, status: int)
    | UncaughtIndexError

  /** `recipe`: an id missing from the catalog is answered with status 404
      and the message "Recipe ID not found in dataset."; otherwise the page
      shows the first catalog row with that id, as stored. */
  function RecipeRoute(a: RecipeAnalyzer, id: int): (response: RecipeResponse)
    ensures response.NotFoundPage? <==> forall r :: r in a.recipesDf ==> r.id != id
    ensures response.NotFoundPage? ==> response.body == NotFoundMessage && response.status == NotFoundStatus
    ensures response.UncaughtIndexError? <==> RecipeInfo(a.recipesDf, id) == Failure(IndexError)
    ensures response.RecipePage? ==>
      exists i :: FirstWithId(a.recipesDf, id, i) && Describes(response.recipe, a.recipesDf[i])
  {
    match RecipeInfo(a.recipesDf, id)
    case Success(details) =>
      RowsWithIdFirst(a.recipesDf, id);
      RecipePage(details[0])
    case Failure(ValueError(message)) => NotFoundPage(message, NotFoundStatus)
    case Failure(IndexError) => UncaughtIndexError
  }
}
