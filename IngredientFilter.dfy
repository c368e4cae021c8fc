/** `find_recipes_by_ingredients`: keep every catalog recipe whose ingredient
    cell, lower-cased, contains every lower-cased query term as a substring,
    in catalog order, and project it to its title-cased name and its id.
    The test is on the serialised cell text, so "egg" matches "eggplant". */
module IngredientFilter {
  import opened PyStr
  import opened Recipes

  /** A row of the filter's result: the `name` and `id` columns. */
  datatype Match = Match(name: string, id: int)

  /** The test applied to one ingredient cell: `all(t.lower() in cell.lower() for t in terms)`. */
  predicate ContainsAll(ingredientsText: string, terms: seq<string>)
  {
    forall k :: 0 <= k < |terms| ==> Occurs(Lower(terms[k]), Lower(ingredientsText))
  }

  predicate Matches(r: Recipe, terms: seq<string>): (m: bool)
    ensures terms == [] ==> m
    ensures m ==> forall k :: 0 <= k < |terms| ==> |terms[k]| <= |r.ingredientsText|
  {
    ContainsAll(r.ingredientsText, terms)
  }

  /** The projection to `[['name', 'id']]` after `name.str.title()`. */
  function Project(r: Recipe): (m: Match)
    ensures m.id == r.id && |m.name| == |r.name| && Lower(m.name) == Lower(r.name)
  {
    TitleKeepsLetters(r.name);
    Match(Title(r.name), r.id)
  }

  /** `m` is the projection of some recipe of `catalog` that matches `terms`. */
  ghost predicate ProjectionOfMatch(catalog: seq<Recipe>, terms: seq<string>, m: Match)
  {
    exists r :: r in catalog && Matches(r, terms) && m == Project(r)
  }

  /** `find_recipes_by_ingredients`: the matching recipes, projected, in
      catalog order; never more rows than the catalog has. */
  function FindRecipesByIngredients(catalog: seq<Recipe>, terms: seq<string>): (found: seq<Match>)
    ensures |found| <= |catalog|
  {
    if catalog == [] then []
    else (if Matches(catalog[0], terms) then [Project(catalog[0])] else []) + FindRecipesByIngredients(catalog[1..], terms)
  }

  /** Soundness: every row returned is the projection of a catalog recipe
      whose ingredient text contains every query term. */
  lemma {:induction false} FindSound(catalog: seq<Recipe>, terms: seq<string>)
    ensures forall m :: m in FindRecipesByIngredients(catalog, terms) ==> ProjectionOfMatch(catalog, terms, m)
  {
    if catalog != [] {
      FindSound(catalog[1..], terms);
      assert catalog == [catalog[0]] + catalog[1..];
      forall m | m in FindRecipesByIngredients(catalog, terms) ensures ProjectionOfMatch(catalog, terms, m) {
        if m !in FindRecipesByIngredients(catalog[1..], terms) {
          assert m == Project(catalog[0]) && Matches(catalog[0], terms);
          assert catalog[0] in catalog;
        } else {
          assert ProjectionOfMatch(catalog[1..], terms, m);
          var r :| r in catalog[1..] && Matches(r, terms) && m == Project(r);
          assert r in catalog;
        }
      }
    }
  }

  /** Completeness: every catalog recipe that matches is returned. */
  lemma {:induction false} FindComplete(catalog: seq<Recipe>, terms: seq<string>)
    ensures forall i :: 0 <= i < |catalog| && Matches(catalog[i], terms) ==>
      Project(catalog[i]) in FindRecipesByIngredients(catalog, terms)
  {
    if catalog != [] {
      FindComplete(catalog[1..], terms);
      forall i | 0 <= i < |catalog| && Matches(catalog[i], terms)
        ensures Project(catalog[i]) in FindRecipesByIngredients(catalog, terms)
      {
        if i > 0 {
          assert catalog[1..][i - 1] == catalog[i];
        }
      }
    }
  }

  /** The filter keeps catalog order: filtering a catalog made of two parts
      gives the results of the first part followed by those of the second. */
  lemma {:induction false} FindConcat(c1: seq<Recipe>, c2: seq<Recipe>, terms: seq<string>)
    ensures FindRecipesByIngredients(c1 + c2, terms)
         == FindRecipesByIngredients(c1, terms) + FindRecipesByIngredients(c2, terms)
  {
    if c1 == [] {
      assert c1 + c2 == c2;
    } else {
      var head := if Matches(c1[0], terms) then [Project(c1[0])] else [];
      assert FindRecipesByIngredients(c1 + c2, terms) == head + FindRecipesByIngredients(c1[1..] + c2, terms) by {
        assert (c1 + c2)[0] == c1[0];
        assert (c1 + c2)[1..] == c1[1..] + c2;
      }
      FindConcat(c1[1..], c2, terms);
      assert head + (FindRecipesByIngredients(c1[1..], terms) + FindRecipesByIngredients(c2, terms))
          == (head + FindRecipesByIngredients(c1[1..], terms)) + FindRecipesByIngredients(c2, terms);
    }
  }

  /** A catalog of one recipe yields that recipe's projection exactly when it matches. */
  lemma FindOne(r: Recipe, terms: seq<string>)
    ensures FindRecipesByIngredients([r], terms) == if Matches(r, terms) then [Project(r)] else []
  {
    assert [r][1..] == [];
  }

  /** `all` over no terms is true: the empty query returns the whole catalog,
      in order, each recipe projected. */
  lemma {:induction false} FindEmptyQuery(catalog: seq<Recipe>)
    ensures |FindRecipesByIngredients(catalog, [])| == |catalog|
    ensures forall i :: 0 <= i < |catalog| ==> FindRecipesByIngredients(catalog, [])[i] == Project(catalog[i])
  {
    if catalog != [] {
      FindEmptyQuery(catalog[1..]);
    }
  }

  /** A recipe matches exactly when each lower-cased term starts at some
      position of the lower-cased ingredient cell. */
  lemma MatchesIff(r: Recipe, terms: seq<string>)
    ensures Matches(r, terms) <==>
      forall k :: 0 <= k < |terms| ==> IsSubstring(Lower(terms[k]), Lower(r.ingredientsText))
  {
    var text := Lower(r.ingredientsText);
    if Matches(r, terms) {
      forall k | 0 <= k < |terms| ensures IsSubstring(Lower(terms[k]), text) {
        assert Occurs(Lower(terms[k]), text);
        OccursIff(Lower(terms[k]), text);
      }
    } else {
      var k :| 0 <= k < |terms| && !Occurs(Lower(terms[k]), text);
      OccursIff(Lower(terms[k]), text);
    }
  }

  /** The match ignores the case of the query terms. */
  lemma MatchesIgnoresQueryCase(r: Recipe, terms: seq<string>)
    ensures Matches(r, terms) <==> Matches(r, seq(|terms|, k requires 0 <= k < |terms| => Lower(terms[k])))
  {
    var lowered := seq(|terms|, k requires 0 <= k < |terms| => Lower(terms[k]));
    forall k | 0 <= k < |terms| ensures Lower(lowered[k]) == Lower(terms[k]) {
      LowerIdempotent(terms[k]);
    }
    assert ContainsAll(r.ingredientsText, terms) <==> ContainsAll(r.ingredientsText, lowered);
  }

  /** Substring matching, kept as the program does it: the term "egg"
      matches a recipe whose only ingredient is "eggplant". */
  lemma EggMatchesEggplant(r: Recipe)
    requires r.ingredientsText == "['eggplant']"
    ensures Matches(r, ["egg"])
  {
    var text := r.ingredientsText;
    LowerFixed(text);
    LowerFixed("egg");
    assert text == "['" + "egg" + "plant']";
    OccursIn("['", "egg", "plant']");
  }

  /** Each returned name is the catalog name title-cased: it differs from
      the catalog name only in the case of its letters. */
  lemma FoundNames(catalog: seq<Recipe>, terms: seq<string>, k: nat)
    requires k < |FindRecipesByIngredients(catalog, terms)|
    ensures var m := FindRecipesByIngredients(catalog, terms)[k];
      exists r :: r in catalog && m.id == r.id && m.name == Title(r.name) && Lower(m.name) == Lower(r.name)
  {
    var m := FindRecipesByIngredients(catalog, terms)[k];
    assert m in FindRecipesByIngredients(catalog, terms);
    FindSound(catalog, terms);
    assert ProjectionOfMatch(catalog, terms, m);
    var r :| r in catalog && Matches(r, terms) && m == Project(r);
    TitleKeepsLetters(r.name);
  }
}
