# Recipe search engine, modelled in Dafny

The modelled system is a small recipe web application. It loads a catalog of recipes and a table of user reviews once. It answers two requests:

- **search**: the user types a comma-separated list of ingredients. The application keeps every recipe whose ingredient text contains every term as a case-insensitive substring. It ranks the matches by number of reviews, then by mean rating, and shows the first ten.
- **recipe detail**: the user asks for one recipe id. The page shows the stored fields and calories, fat and protein taken from the nutrition list.

The core is the class `RecipeAnalyzer` in `recipe_processing.py` and the parts of the two Flask views in `app.py` that normalise the query and classify outcomes. Both are pure computations over an immutable snapshot, so the model is made of datatypes, functions and lemmas:

| module | models |
|---|---|
| `Wrappers` | `Option` and `Result` |
| `PyStr` | the Python string operations the code relies on: `lower`, `title`, `strip`, `split(',')`, `in` |
| `Recipes` | recipe and review rows |
| `ReviewSummary` | `precompute_review_summary`: group-by on `recipe_id` with exact means |
| `IngredientFilter` | `find_recipes_by_ingredients` |
| `Ranking` | `count_and_rating`: left join, fill, stable two-key sort with missing values last, top ten |
| `RecipeDetail` | `recipe_info`, with its `ValueError` and `IndexError` |
| `Analyzer` | `RecipeAnalyzer.__init__` |
| `App` | `search` (lines 30-45) and the error mapping of `recipe` (lines 53-59) |

Where the code and the documented behaviour of the system differ, the model follows the code:

- A recipe without reviews keeps a missing `review_count` after the left join. Only `average_rating` is filled with 0 (recipe_processing.py:67). The model uses `None` for the count. pandas sorts missing values last, so such a recipe still ranks after every reviewed one.
- `recipe_info` parses only the ingredient and nutrition cells (recipe_processing.py:88-91). The steps cell is shown as stored text, and the name is not title-cased.
- `recipe_info` returns every catalog row with the id. The route shows the first one (app.py:56).
- A nutrition list shorter than six entries raises `IndexError` (recipe_processing.py:94-96): an empty list fails at line 94, a list of one entry at line 95, and a list of two to five entries at line 96. The route catches only `ValueError` (app.py:58), so this error leaves the view uncaught. The model calls this outcome `UncaughtIndexError`.
- The filter itself accepts an empty term list and then returns the whole catalog (recipe_processing.py:52). The route never calls it with one (app.py:34-35).
- On an empty catalog, the per-row mask of recipe_processing.py:51-52 is an empty Series without boolean type. Indexing the frame with it selects no columns, so line 53 raises `KeyError`, which the route does not catch (app.py:38). The model calls this outcome `UncaughtKeyError`. This follows from pandas' indexing rules, which are not part of this model.
- Search with no matches in a non-empty catalog answers with the text "No matching recipes found." and status 404 (app.py:45).

Ranking ties: pandas' multi-key sort is a stable lexsort. So rows with equal keys keep the order the merge gave them, which is the catalog order of the matches. `Ranking.Before` is that order. It compares count (missing last), then mean rating, then the merge position. It is a strict total order, so the sorted result is unique (`Ranking.RankedUnique`).

## Model

| member | source | states |
|---|---|---|
| Analyzer.NewRecipeAnalyzer | recipe_processing.py:18-28 | the analyzer keeps both datasets unchanged; its summary has one entry per reviewed recipe id, holding that id's row count and rating sum, so the analyzer satisfies `ValidAnalyzer` |
| ReviewSummary.PrecomputeReviewSummary | recipe_processing.py:30-39 | the summary's keys are exactly the reviewed recipe ids; each entry's count and sum equal the reference counts `CountFor` and `SumFor` of the review rows naming that id |
| ReviewSummary.AverageRating | recipe_processing.py:37-38 | the mean times the review count is the rating sum |
| ReviewSummary.CountFor | recipe_processing.py:37 | the number of rows naming an id is at most the number of reviews, and it is zero exactly when the id was never reviewed |
| ReviewSummary.SummaryStep | recipe_processing.py:37 | folding in one more review row (count + 1 and sum + rating for its recipe, or a new entry with count 1) keeps the summary exact: keys are the reviewed ids, entries the reference count and sum |
| ReviewSummary.SumForBounds | recipe_processing.py:37 | if every rating lies in [lo, hi], the rating sum of an id lies between lo and hi times its count |
| ReviewSummary.AverageInRange | recipe_processing.py:37-38 | the mean rating of a reviewed recipe lies within the range of the ratings |
| Recipes.ReviewedIdsMembers | recipe_processing.py:37 | an id is a reviewed id exactly when some review row names it |
| IngredientFilter.Matches | recipe_processing.py:52 | an empty term list matches every recipe, and a matching term is never longer than the ingredient text |
| IngredientFilter.Project | recipe_processing.py:53-54 | the projected row keeps the id, and its name has the recipe name's length and lower-cases to the same string |
| IngredientFilter.FindRecipesByIngredients | recipe_processing.py:41-54 | the filter never returns more rows than the catalog has |
| IngredientFilter.FindSound | recipe_processing.py:51-54 | every returned row is the title-cased name and id of a catalog recipe whose lower-cased ingredient text contains every lower-cased term |
| IngredientFilter.FindComplete | recipe_processing.py:51-54 | every catalog recipe that contains every term is returned |
| IngredientFilter.FindConcat | recipe_processing.py:51-52 | the results keep catalog order: filtering two consecutive parts of a catalog gives the results of the first part followed by those of the second |
| IngredientFilter.FindOne | recipe_processing.py:51-54 | a single recipe is returned, projected, exactly when it matches |
| IngredientFilter.FindEmptyQuery | recipe_processing.py:52 | with no terms the whole catalog is returned, in order, each recipe projected |
| IngredientFilter.MatchesIff | recipe_processing.py:52 | a recipe matches exactly when each lower-cased term occurs at some position of the lower-cased ingredient text |
| IngredientFilter.MatchesIgnoresQueryCase | recipe_processing.py:52 | lower-casing the terms beforehand changes no match |
| IngredientFilter.EggMatchesEggplant | recipe_processing.py:52 | matching is by substring: the term "egg" matches the ingredient text `['eggplant']` |
| IngredientFilter.FoundNames | recipe_processing.py:53-54 | each returned name is the title-cased name of a catalog recipe with the same id, and it differs from that name only in letter case |
| PyStr.Lower | recipe_processing.py:52 | lower-casing keeps the length, leaves no upper-case letter, keeps whitespace where it was, and each character upper-cases to the same character as the input's does, so only letter case changes |
| PyStr.LowerIdempotent | app.py:31 | lower-casing twice is lower-casing once |
| PyStr.Title | recipe_processing.py:53 | title-casing keeps the length; each cased character that starts a run of cased characters is upper-cased, every other cased character lower-cased, and uncased characters are kept |
| PyStr.TitleAt | recipe_processing.py:53 | title-casing keeps the length; a letter that starts a run of letters is upper-cased, any other letter lower-cased, and other characters are kept |
| PyStr.TitleKeepsLetters | recipe_processing.py:53 | title-casing changes only letter case: both strings lower-case to the same string |
| PyStr.TitleIdempotent | recipe_processing.py:53 | title-casing twice is title-casing once |
| PyStr.TrimStart | app.py:31 | the result is a suffix of the input, everything cut is whitespace, and it does not start with whitespace |
| PyStr.TrimEnd | app.py:31 | the result is a prefix of the input, everything cut is whitespace, and it does not end with whitespace |
| PyStr.Strip | app.py:31 | the result neither starts nor ends with whitespace, and it is a slice of the input with only whitespace cut on either side |
| PyStr.StripBlank | app.py:31 | stripping gives the empty string exactly when the input is whitespace only |
| PyStr.StripIdempotent | app.py:31 | stripping twice is stripping once |
| PyStr.Split | app.py:30 | splitting gives at least one piece, and no piece contains the separator |
| PyStr.SplitJoin | app.py:30 | joining the pieces with the separator rebuilds the input |
| PyStr.JoinSplit | app.py:30 | splitting the join of separator-free pieces gives those pieces back |
| PyStr.Occurs | recipe_processing.py:52 | the empty term occurs in every text, and a term that occurs is no longer than the text |
| PyStr.OccursIff | recipe_processing.py:52 | the recursive substring test holds exactly when the term starts at some position of the text |
| PyStr.OccursIn | recipe_processing.py:52 | a term occurs in any text that surrounds it |
| Ranking.JoinRow | recipe_processing.py:66-67 | the joined row keeps the match's name and id and its merge position; its count is missing exactly when the id has no summary entry; otherwise count and mean are the entry's count and mean; without an entry the mean is 0 |
| Ranking.LeftJoin | recipe_processing.py:66-67 | the merge gives one row per match, in match order, each with that match's id, name and position |
| Ranking.Before | recipe_processing.py:68 | a row goes first exactly when its key (count with missing last, then mean) is ahead, or the keys tie and its merge position is earlier |
| Ranking.Insert | recipe_processing.py:68 | inserting a row into a ranked sequence gives a ranked sequence holding the same rows plus the new one |
| Ranking.SortRows | recipe_processing.py:68 | the sort returns a permutation of its input that is ranked by count, then mean, then merge position |
| Ranking.RankedUnique | recipe_processing.py:68 | two ranked permutations of the same rows are equal, so the sorted order is unique |
| Ranking.CountAndRating | recipe_processing.py:56-70 | the result has min(10, number of matches) rows; it is ranked; each row is the joined row of one match; every match not in the result ranks after the last kept row |
| Ranking.TopOfSorted | recipe_processing.py:66-68 | the first n rows of a ranked permutation of the joined rows are ranked joined rows, and every other joined row ranks after them |
| Ranking.TopKeysNonIncreasing | recipe_processing.py:68 | the keys never increase along the result, and rows with equal keys keep the order of the matches |
| Ranking.TopRowsDistinct | recipe_processing.py:66-68 | no match appears twice in the result |
| Ranking.UnreviewedLast | recipe_processing.py:66-68 | a row lacks a count exactly when its recipe has no reviews; such a row has mean 0, and every row after it lacks a count too |
| Ranking.ReviewedBeforeUnreviewed | recipe_processing.py:66-68 | when a reviewed match is dropped, every kept row has reviews |
| Ranking.CountOutranksRating | recipe_processing.py:66-68 | a match with 20 reviews averaging 3.0 is listed before one with 12 reviews averaging 4.5 |
| RecipeDetail.RowsWithId | recipe_processing.py:82 | the selected rows are exactly the catalog rows with the id |
| RecipeDetail.RowsWithIdConcat | recipe_processing.py:82 | selection keeps catalog order and multiplicity: selecting from two consecutive parts gives the selection from the first followed by that from the second |
| RecipeDetail.RowsWithIdOne | recipe_processing.py:82 | a single row is selected exactly when it has the id |
| RecipeDetail.RowsWithIdFirst | recipe_processing.py:82 | when some row has the id, the first selected row is the first catalog row with the id |
| RecipeDetail.Describe | recipe_processing.py:85-96 | the detail row shows the recipe's stored fields unchanged and calories, fat and protein from nutrition positions 0, 1 and 5 |
| RecipeDetail.RecipeInfo | recipe_processing.py:72-98 | an absent id gives the `ValueError` "Recipe ID not found in dataset."; otherwise a matching row with fewer than six nutrition entries gives `IndexError`; otherwise one detail row per catalog row with the id, showing the stored fields unchanged and calories, fat and protein from nutrition positions 0, 1 and 5 |
| RecipeDetail.InfoOfCatalogRecipe | recipe_processing.py:82-96 | with unique ids and a complete nutrition list, a catalog recipe gets exactly one detail row, and it describes that recipe |
| RecipeDetail.RowsWithIdUnique | recipe_processing.py:82 | with unique ids, selecting a catalog recipe's id yields that recipe alone |
| App.Normalize | app.py:30-31 | the form gives no more terms than it has comma-separated pieces |
| App.NormalizePieces | app.py:31 | there are never more terms than pieces |
| App.NormalizedTermsNormal | app.py:31 | every term kept is non-empty, trimmed and lower-case |
| App.NormalizeConcat | app.py:31 | the terms keep the order of the pieces |
| App.NormalizeOne | app.py:31 | a blank piece gives no term, and any other piece gives exactly its stripped, lower-cased text |
| App.NormalizeEmptyIff | app.py:31-34 | no term is left exactly when every piece is blank |
| App.Answer | app.py:33-45 | no terms gives the form error "Please enter at least one ingredient."; terms over an empty catalog give the uncaught `KeyError` of recipe_processing.py:53; terms without matches in a non-empty catalog give "No matching recipes found." with 404; otherwise the page shows between one and ten rows, the ranking of the matches |
| App.Search | app.py:30-45 | the form error exactly when normalisation leaves no term; the uncaught `KeyError` exactly when terms are left and the catalog is empty; the 404 exactly when terms are left, the catalog is not empty and nothing matches; otherwise the ranking of the matches of the terms |
| App.FormErrorIff | app.py:30-35 | the form error is given exactly when every comma-separated piece of the form is blank |
| App.AnswerCounts | recipe_processing.py:30-67 | for an analyzer whose summary is the one its reviews determine, each result row shows the number of review rows of its recipe and their mean rating, or a missing count and mean 0 when the recipe has no review |
| App.AnswerSound | app.py:38-43 | every row on the results page shows, title-cased, a catalog recipe that contains every term |
| App.SearchSound | app.py:30-43 | every row on the results page shows a catalog recipe that contains every term of the normalised query |
| App.BlankFormRejected | app.py:30-35 | the form `" ,  "` gets the form error |
| App.RecipeRoute | app.py:53-59 | an id absent from the catalog gets "Recipe ID not found in dataset." with 404; a short nutrition list leaves an uncaught `IndexError`; otherwise the page describes the first catalog row with that id |

## Left out

- Flask plumbing: routing, `render_template`, `request.form` access, `app.run`. A rendered page is modelled by the data handed to the template.
- The response cache of `flask_caching` and the whole of `appcache.py`: configuration and a response cache with no logic of its own.
- `recipe_app/recipes/models.py`: Django field declarations with no behaviour.
- CSV loading: the two datasets are given as sequences of rows.
- `ast.literal_eval` of the ingredient and nutrition cells: each recipe carries the parsed lists beside its raw ingredient text. A cell that fails to parse is not modelled. In the program a syntactically broken cell raises `SyntaxError`, which the route does not catch (app.py:58); only a well-formed cell that is not a literal raises the `ValueError` that becomes a 404.
- IngredientFilter.FindRecipesByIngredients: on an empty catalog the function returns no rows, where the program raises `KeyError`; the route model `App.Answer` gives that outcome before the filter is consulted.
- Floating point: the mean is the exact quotient of the rating sum by the count. Ties between float means that differ only by rounding error are not modelled.
- `round(2)` on `average_rating` (recipe_processing.py:69): it runs after the sort and `head`, so it changes no order. The model keeps the unrounded mean.
- The `warnings` filter (recipe_processing.py:5-6).
- PyStr.Lower, PyStr.Title: case mapping covers the ASCII letters only. Python also maps other Unicode letters.
- PyStr.Title: `IsCased` counts only ASCII letters as cased, so a non-ASCII letter ends a word: the model title-cases "crème" as "CrèMe" where Python gives "Crème".
- Missing cells other than `description` and `review`: names, ingredient texts and ids are always present in the model.
- App.Answer: "the analyzer is not called" on the form error is shown only by the answer not depending on the catalog in that case.
