/** `recipe_info`: the detail rows of a recipe id, with the display column
    names, the parsed ingredient and nutrition lists, and calories, fat and
    protein read from nutrition positions 0, 1 and 5. */
module RecipeDetail {
  import opened Wrappers
  import opened Recipes

  /** The two exceptions `recipe_info` can raise: `ValueError` when no
      recipe has the id, `IndexError` when a nutrition list is too short
      for position 5. */
  datatype InfoError = ValueError(message: string) | IndexError

  const NotFoundMessage: string := "Recipe ID not found in dataset."

  /** The nutrition position of each derived column. */
  const CaloriesAt: nat := 0
  const FatAt: nat := 1
  const ProteinAt: nat := 5

  /** One row of the detail frame. The steps cell is shown as stored: only
      the ingredient and nutrition cells are parsed. */
  datatype RecipeDetails = RecipeDetails(
    recipeName: string,
    minutes: int,
    numberOfSteps: int,
    numberOfIngredients: int,
    description: Option<string>,
    ingredients: seq<string>,
    steps: string,
    nutrition: seq<real>,
    calories: real,
    fat: real,
    protein: real)

  /** `recipes_df[recipes_df['id'] == recipe_id]`: the catalog rows with the
      id, in catalog order. */
  function RowsWithId(catalog: seq<Recipe>, id: int): (rows: seq<Recipe>)
    ensures |rows| <= |catalog|
    ensures forall r :: r in rows ==> r in catalog && r.id == id
    ensures forall r :: r in catalog && r.id == id ==> r in rows
  {
    if catalog == [] then []
    else
      var rest := RowsWithId(catalog[1..], id);
      assert catalog == [catalog[0]] + catalog[1..];
      (if catalog[0].id == id then [catalog[0]] else []) + rest
  }

  /** The selection keeps catalog order and multiplicity: selecting from
      two consecutive parts of a catalog gives the rows of the first part
      followed by those of the second. */
  lemma {:induction false} RowsWithIdConcat(c1: seq<Recipe>, c2: seq<Recipe>, id: int)
    ensures RowsWithId(c1 + c2, id) == RowsWithId(c1, id) + RowsWithId(c2, id)
  {
    if c1 == [] {
      assert c1 + c2 == c2;
    } else {
      var head := if c1[0].id == id then [c1[0]] else [];
      assert RowsWithId(c1 + c2, id) == head + RowsWithId(c1[1..] + c2, id) by {
        assert (c1 + c2)[0] == c1[0];
        assert (c1 + c2)[1..] == c1[1..] + c2;
      }
      RowsWithIdConcat(c1[1..], c2, id);
      assert head + (RowsWithId(c1[1..], id) + RowsWithId(c2, id))
          == (head + RowsWithId(c1[1..], id)) + RowsWithId(c2, id);
    }
  }

  /** A catalog of one row selects that row exactly when it has the id. */
  lemma RowsWithIdOne(r: Recipe, id: int)
    ensures RowsWithId([r], id) == if r.id == id then [r] else []
  {
    assert [r][1..] == [];
  }

  /** Position `i` holds the first catalog row with the id. */
  predicate FirstWithId(catalog: seq<Recipe>, id: int, i: int)
  {
    0 <= i < |catalog| && catalog[i].id == id && forall j :: 0 <= j < i ==> catalog[j].id != id
  }

  /** The first selected row is the first catalog row with the id. */
  lemma {:induction false} RowsWithIdFirst(catalog: seq<Recipe>, id: int)
    requires RowsWithId(catalog, id) != []
    ensures exists i :: FirstWithId(catalog, id, i) && catalog[i] == RowsWithId(catalog, id)[0]
  {
    if catalog[0].id == id {
      assert FirstWithId(catalog, id, 0);
    } else {
      RowsWithIdFirst(catalog[1..], id);
      var i :| FirstWithId(catalog[1..], id, i) && catalog[1..][i] == RowsWithId(catalog[1..], id)[0];
      ShiftFirst(catalog, id, i);
    }
  }

  lemma ShiftFirst(catalog: seq<Recipe>, id: int, i: int)
    requires catalog != [] && catalog[0].id != id && FirstWithId(catalog[1..], id, i)
    ensures FirstWithId(catalog, id, i + 1) && catalog[i + 1] == catalog[1..][i]
  {
    forall j | 0 <= j < i + 1 ensures catalog[j].id != id {
      if j > 0 {
        assert catalog[j] == catalog[1..][j - 1];
      }
    }
  }

  /** The detail row of one recipe. */
  function Describe(r: Recipe): (d: RecipeDetails)
    requires |r.nutrition| > ProteinAt
    ensures Describes(d, r)
  {
    RecipeDetails(r.name, r.minutes, r.nSteps, r.nIngredients, r.description, r.ingredients, r.stepsText,
                  r.nutrition, r.nutrition[CaloriesAt], r.nutrition[FatAt], r.nutrition[ProteinAt])
  }

  /** `d` shows the stored fields of `r` unchanged (the name is not
      title-cased here, the lists keep their order and case) and derives
      calories, fat and protein from nutrition positions 0, 1 and 5. */
  ghost predicate Describes(d: RecipeDetails, r: Recipe)
  {
    && d.recipeName == r.name && d.minutes == r.minutes
    && d.numberOfSteps == r.nSteps && d.numberOfIngredients == r.nIngredients
    && d.description == r.description && d.ingredients == r.ingredients
    && d.steps == r.stepsText && d.nutrition == r.nutrition
    && |r.nutrition| >= 6
    && d.calories == r.nutrition[0] && d.fat == r.nutrition[1] && d.protein == r.nutrition[5]
  }

  /** `recipe_info`: an id absent from the catalog raises the `ValueError`
      "Recipe ID not found in dataset."; otherwise a matching row whose
      nutrition list has fewer than six entries raises `IndexError`;
      otherwise the result describes every row with the id, in order. */
  function RecipeInfo(catalog: seq<Recipe>, id: int): (result: Result<seq<RecipeDetails>, InfoError>)
    ensures result.Failure? ==> result.error == ValueError(NotFoundMessage) || result.error == IndexError
    ensures result == Failure(ValueError(NotFoundMessage)) <==> forall r :: r in catalog ==> r.id != id
    ensures result == Failure(IndexError) <==>
      (exists r :: r in catalog && r.id == id) && exists r :: r in catalog && r.id == id && |r.nutrition| < 6
    ensures result.Success? ==>
      && |result.value| == |RowsWithId(catalog, id)| > 0
      && forall k :: 0 <= k < |result.value| ==> Describes(result.value[k], RowsWithId(catalog, id)[k])
  {
    var rows := RowsWithId(catalog, id);
    if rows == [] then
      Failure(ValueError(NotFoundMessage))
    else if exists k :: 0 <= k < |rows| && |rows[k].nutrition| <= ProteinAt then
      Failure(IndexError)
    else
      assert rows[0] in rows;
      Success(seq(|rows|, k requires 0 <= k < |rows| => Describe(rows[k])))
  }

  /** With unique ids there is exactly one detail row for a recipe of the
      catalog, and it describes that recipe. */
  lemma InfoOfCatalogRecipe(catalog: seq<Recipe>, i: nat)
    requires UniqueIds(catalog) && i < |catalog|
    requires |catalog[i].nutrition| >= 6
    ensures RecipeInfo(catalog, catalog[i].id).Success?
    ensures |RecipeInfo(catalog, catalog[i].id).value| == 1
    ensures Describes(RecipeInfo(catalog, catalog[i].id).value[0], catalog[i])
  {
    RowsWithIdUnique(catalog, i);
  }

  lemma {:induction false} RowsWithIdUnique(catalog: seq<Recipe>, i: nat)
    requires UniqueIds(catalog) && i < |catalog|
    ensures RowsWithId(catalog, catalog[i].id) == [catalog[i]]
  {
    var id := catalog[i].id;
    assert UniqueIds(catalog[1..]) by {
      forall a, b | 0 <= a < b < |catalog| - 1 ensures catalog[1..][a].id != catalog[1..][b].id {
        assert catalog[1..][a] == catalog[a + 1] && catalog[1..][b] == catalog[b + 1];
      }
    }
    if i == 0 {
      forall j | 0 <= j < |catalog| - 1 ensures catalog[1..][j].id != id {
        assert catalog[1..][j] == catalog[j + 1];
      }
      RowsWithIdAbsent(catalog[1..], id);
    } else {
      assert catalog[0].id != id;
      assert catalog[1..][i - 1] == catalog[i];
      RowsWithIdUnique(catalog[1..], i - 1);
    }
  }

  lemma {:induction false} RowsWithIdAbsent(catalog: seq<Recipe>, id: int)
    requires forall j :: 0 <= j < |catalog| ==> catalog[j].id != id
    ensures RowsWithId(catalog, id) == []
  {
    if catalog != [] {
      RowsWithIdAbsent(catalog[1..], id);
    }
  }
}
