/**
 * The read-only recipe server (microservice_a.py): one query picks one of
 * lookup by id, search, browse or the details view, answered from the recipe
 * list the server loaded. Nothing here changes the list.
 */
module Catalog {
  import opened Options
  import opened Text
  import opened Replies
  import opened Recipes

  /** A query; an absent key reads as `""` or `false`, as `request.get` defaults it. */
  datatype Query = Query(
    recipeID: string,
    searchQuery: string,
    browse: bool,
    recipeDetailsID: string)

  /** The JSON the server sends back. */
  datatype Answer =
    | Found(recipe: Recipe)
    | Listing(recipes: seq<Recipe>)
    | Details(name: string, ingredients: seq<string>, instructions: string)
    | Note(reply: Reply)

  const NoValidField :=
    "No valid recipe ID, search query, browse request, or recipe details ID was provided."
  const RecipeMissing := "Could not find specified recipe."
  const NoMatches := "No matching recipes found."
  const DetailsMissing := "Could not find specified recipe details."

  /** `get_recipe_by_id`: the first recipe with the id, or the not-found error. */
  function GetRecipeById(id: string, rs: seq<Recipe>): (a: Answer)
    ensures a.Found? <==> HasId(rs, id)
    ensures a.Found? ==> exists k :: IsFirst(rs, id, k) && a.recipe == rs[k]
    ensures !a.Found? ==> a == Note(Error(RecipeMissing))
  {
    match FindId(rs, id)
    case Some(k) => Found(rs[k])
    case None => Note(Error(RecipeMissing))
  }

  /** The search test on one recipe: the query inside the lowered name or a lowered ingredient. */
  predicate Matches(query: string, r: Recipe) {
    || Contains(Lower(r.name), query)
    || exists i :: 0 <= i < |r.ingredients| && Contains(Lower(r.ingredients[i]), query)
  }

  /** The matching recipes, kept in list order. */
  function Filter(query: string, rs: seq<Recipe>): seq<Recipe>
    decreases |rs|
  {
    if rs == [] then []
    else (if Matches(query, rs[0]) then [rs[0]] else []) + Filter(query, rs[1..])
  }

  /** `a` is `b` with some elements left out and the rest in the same order. */
  predicate IsSubsequence<T(==)>(a: seq<T>, b: seq<T>)
    decreases |b|
  {
    if b == [] then a == []
    else (a != [] && a[0] == b[0] && IsSubsequence(a[1..], b[1..])) || IsSubsequence(a, b[1..])
  }

  /** A recipe is among the hits exactly when it is in the list and matches. */
  lemma {:induction false} FilterMembers(query: string, rs: seq<Recipe>)
    ensures forall r :: r in Filter(query, rs) <==> r in rs && Matches(query, r)
    decreases |rs|
  {
    if rs != [] {
      FilterMembers(query, rs[1..]);
      assert rs == [rs[0]] + rs[1..];
    }
  }

  /** Each matching recipe is a hit as many times as it is in the list; others never. */
  lemma {:induction false} FilterCounts(query: string, rs: seq<Recipe>)
    ensures forall r :: multiset(Filter(query, rs))[r] == if Matches(query, r) then multiset(rs)[r] else 0
    decreases |rs|
  {
    if rs != [] {
      FilterCounts(query, rs[1..]);
      assert rs == [rs[0]] + rs[1..];
      var head := if Matches(query, rs[0]) then [rs[0]] else [];
      assert multiset(Filter(query, rs)) == multiset(head) + multiset(Filter(query, rs[1..]));
      assert multiset(rs) == multiset{rs[0]} + multiset(rs[1..]);
    }
  }

  /** The hits keep the list's order. */
  lemma {:induction false} FilterIsSubsequence(query: string, rs: seq<Recipe>)
    ensures IsSubsequence(Filter(query, rs), rs)
    decreases |rs|
  {
    if rs != [] {
      var rest := Filter(query, rs[1..]);
      FilterIsSubsequence(query, rs[1..]);
      if Matches(query, rs[0]) {
        assert Filter(query, rs) == [rs[0]] + rest;
        assert ([rs[0]] + rest)[1..] == rest;
      } else {
        assert Filter(query, rs) == rest;
      }
    }
  }

  /**
   * `search_recipes` on an already lowered query: the matches in list order,
   * or the no-match message, which is a message and not an error.
   */
  function SearchRecipes(query: string, rs: seq<Recipe>): (a: Answer)
    ensures a.Listing? || a == Note(Message(NoMatches))
    ensures a.Listing? ==> a.recipes != [] && IsSubsequence(a.recipes, rs)
    ensures a.Listing? ==> forall r :: r in a.recipes <==> r in rs && Matches(query, r)
    ensures a.Listing? ==>
              forall r :: multiset(a.recipes)[r] == if Matches(query, r) then multiset(rs)[r] else 0
    ensures a == Note(Message(NoMatches)) <==> forall r :: r in rs ==> !Matches(query, r)
  {
    var hits := Filter(query, rs);
    FilterMembers(query, rs);
    FilterIsSubsequence(query, rs);
    FilterCounts(query, rs);
    if hits != [] then
      assert hits[0] in hits;
      Listing(hits)
    else
      assert forall r :: r in rs ==> !Matches(query, r);
      Note(Message(NoMatches))
  }

  /** `browse_recipes`: the list itself. */
  function BrowseRecipes(rs: seq<Recipe>): (a: Answer)
    ensures a.Listing? && a.recipes == rs
  {
    Listing(rs)
  }

  /**
   * `view_recipe_details`: name, ingredients and instructions of the first
   * recipe with the id (never its id or cooking time), or the not-found error.
   */
  function ViewRecipeDetails(id: string, rs: seq<Recipe>): (a: Answer)
    ensures a.Details? <==> HasId(rs, id)
    ensures a.Details? ==>
              exists k :: IsFirst(rs, id, k) &&
                a == Details(rs[k].name, rs[k].ingredients, rs[k].instructions)
    ensures !a.Details? ==> a == Note(Error(DetailsMissing))
  {
    match FindId(rs, id)
    case Some(k) => Details(rs[k].name, rs[k].ingredients, rs[k].instructions)
    case None => Note(Error(DetailsMissing))
  }

  /** The details view shows the lookup's recipe, projected. */
  lemma DetailsAgreeWithLookup(id: string, rs: seq<Recipe>)
    ensures GetRecipeById(id, rs).Found? ==>
              var r := GetRecipeById(id, rs).recipe;
              ViewRecipeDetails(id, rs) == Details(r.name, r.ingredients, r.instructions)
    ensures !GetRecipeById(id, rs).Found? ==> ViewRecipeDetails(id, rs) == Note(Error(DetailsMissing))
  {
  }

  /**
   * `process_request`: the first non-empty of recipeID, searchQuery (lowered),
   * browse, recipeDetailsID decides the operation; with none of them set the
   * answer is the no-valid-field error, and only then.
   */
  function ProcessRequest(q: Query, rs: seq<Recipe>): (a: Answer)
    ensures a == Note(Error(NoValidField)) <==>
              q.recipeID == "" && q.searchQuery == "" && !q.browse && q.recipeDetailsID == ""
    ensures q.recipeID != "" ==> a == GetRecipeById(q.recipeID, rs)
    ensures q.recipeID == "" && q.searchQuery != "" ==> a == SearchRecipes(Lower(q.searchQuery), rs)
    ensures q.recipeID == "" && q.searchQuery == "" && q.browse ==> a == Listing(rs)
    ensures q.recipeID == "" && q.searchQuery == "" && !q.browse && q.recipeDetailsID != "" ==>
              a == ViewRecipeDetails(q.recipeDetailsID, rs)
  {
    var query := Lower(q.searchQuery);
    if q.recipeID != "" then GetRecipeById(q.recipeID, rs)
    else if query != "" then SearchRecipes(query, rs)
    else if q.browse then BrowseRecipes(rs)
    else if q.recipeDetailsID != "" then ViewRecipeDetails(q.recipeDetailsID, rs)
    else Note(Error(NoValidField))
  }

  /** Searching for a query and for its lowered form gives the same answer. */
  lemma SearchIgnoresQueryCase(q: Query, rs: seq<Recipe>)
    ensures ProcessRequest(q, rs) == ProcessRequest(q.(searchQuery := Lower(q.searchQuery)), rs)
  {
    LowerIdempotent(q.searchQuery);
  }

  /**
   * A search whose term occurs in a recipe's name once both are lowered, so
   * in whatever letter case ("choc" finds "Chocolate"), lists that recipe.
   */
  lemma SearchFindsName(term: string, rs: seq<Recipe>, r: Recipe)
    requires term != "" && r in rs && Contains(Lower(r.name), Lower(term))
    ensures var a := ProcessRequest(Query("", term, false, ""), rs);
            a.Listing? && r in a.recipes
  {
    assert Matches(Lower(term), r);
  }

  /** In particular, a term that occurs in the name exactly as typed lists the recipe. */
  lemma SearchFindsExactName(term: string, rs: seq<Recipe>, r: Recipe)
    requires term != "" && r in rs && Contains(r.name, term)
    ensures var a := ProcessRequest(Query("", term, false, ""), rs);
            a.Listing? && r in a.recipes
  {
    LowerKeepsContains(r.name, term);
    SearchFindsName(term, rs, r);
  }

  /**
   * The server as written answers from the list it loaded at startup: after
   * a create is saved, lookup of the new id on that snapshot still misses it
   * and browse still lists the old recipes only.
   */
  lemma SnapshotMissesCreate(rs: seq<Recipe>, req: Request)
    requires Create(List(rs), req).1.Succeeded()
    ensures HasId(Create(List(rs), req).0.recipes, req.id)
    ensures GetRecipeById(req.id, rs) == Note(Error(RecipeMissing))
    ensures req.id != "" ==> ProcessRequest(Query(req.id, "", false, ""), rs) == Note(Error(RecipeMissing))
    ensures ProcessRequest(Query("", "", true, ""), rs) == Listing(rs)
  {
    assert IsFirst(Create(List(rs), req).0.recipes, req.id, |rs|);
  }

  /**
   * A server that answers from the list as it is saved now, as one that
   * reloads recipes.json for each query does: a recipe created with a fresh
   * id is then found by lookup, and browse lists it last, after every recipe
   * that was there before.
   */
  lemma CreatedRecipeIsVisible(rs: seq<Recipe>, req: Request)
    requires Create(List(rs), req).1.Succeeded()
    ensures GetRecipeById(req.id, Create(List(rs), req).0.recipes) == Found(NewRecipe(req))
    ensures req.id != "" ==>
              ProcessRequest(Query(req.id, "", false, ""), Create(List(rs), req).0.recipes) ==
              Found(NewRecipe(req))
    ensures ProcessRequest(Query("", "", true, ""), Create(List(rs), req).0.recipes) ==
            Listing(rs + [NewRecipe(req)])
  {
    var after := Create(List(rs), req).0.recipes;
    assert after == rs + [NewRecipe(req)];
    assert IsFirst(after, req.id, |rs|);
  }
}
