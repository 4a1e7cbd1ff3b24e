/**
 * Recipe management service (microservice_c.py): `create` and `edit` over the
 * recipe list kept in recipes.json. Each handler is a pure step from the
 * loaded store and the request to the store that is saved and the reply.
 */
module Recipes {
  import opened Options
  import opened Replies

  datatype Recipe = Recipe(
    id: string,
    name: string,
    ingredients: seq<string>,
    instructions: string,
    cookingTime: string)

  /**
   * What `load_recipes` hands a handler: the decoded list, or some JSON value
   * that is not a list (the `{}` it returns for a missing or undecodable file
   * among them).
   */
  datatype Store = NotAList | List(recipes: seq<Recipe>)

  /** A management request; a field the client left out reads as empty. */
  datatype Request = Request(
    action: string,
    id: string,
    name: string,
    ingredients: seq<string>,
    instructions: string,
    cookingTime: string)

  const FormatError := "Invalid recipes.json format: Expected a list."
  const DuplicateId := "Recipe ID already exists."
  const InvalidData := "Invalid data. Name, ingredients, instructions, and cooking time are required."
  const NotFound := "Recipe not found."

  predicate HasId(rs: seq<Recipe>, id: string) {
    exists i :: 0 <= i < |rs| && rs[i].id == id
  }

  /** `k` is the first position of a recipe with this id. */
  predicate IsFirst(rs: seq<Recipe>, id: string, k: int) {
    && 0 <= k < |rs|
    && rs[k].id == id
    && forall j :: 0 <= j < k ==> rs[j].id != id
  }

  predicate DistinctIds(rs: seq<Recipe>) {
    forall i, j :: 0 <= i < j < |rs| ==> rs[i].id != rs[j].id
  }

  /** The ids of a list, in order. */
  function Ids(rs: seq<Recipe>): (ids: seq<string>)
    ensures |ids| == |rs|
    ensures forall i :: 0 <= i < |rs| ==> ids[i] == rs[i].id
  {
    seq(|rs|, i requires 0 <= i < |rs| => rs[i].id)
  }

  /** A store no request can damage further: not a list, or a list with unique ids. */
  predicate WellKeyed(store: Store) {
    store.NotAList? || DistinctIds(store.recipes)
  }

  /** The front-to-back scan both handlers run over the list. */
  function FindId(rs: seq<Recipe>, id: string): (k: Option<nat>)
    ensures k.None? <==> !HasId(rs, id)
    ensures k.Some? ==> IsFirst(rs, id, k.value)
  {
    if rs == [] then None
    else if rs[0].id == id then Some(0)
    else match FindId(rs[1..], id)
      case None =>
        assert forall i :: 1 <= i < |rs| ==> rs[i] == rs[1..][i - 1];
        None
      case Some(k) =>
        assert forall j :: 1 <= j <= k ==> rs[j] == rs[1..][j - 1];
        Some(k + 1)
  }

  /** Python truthiness of the four non-key fields. */
  predicate FieldsGiven(req: Request) {
    req.name != "" && req.ingredients != [] && req.instructions != "" && req.cookingTime != ""
  }

  function NewRecipe(req: Request): Recipe {
    Recipe(req.id, req.name, req.ingredients, req.instructions, req.cookingTime)
  }

  /**
   * `create_recipe`. The id collision is checked before the fields, so a
   * duplicate id wins over missing fields; the id itself is never checked.
   */
  function Create(store: Store, req: Request): (out: (Store, Reply))
    ensures store.NotAList? ==> out == (store, Error(FormatError))
    ensures store.List? && HasId(store.recipes, req.id) ==> out == (store, Error(DuplicateId))
    ensures store.List? && !HasId(store.recipes, req.id) && !FieldsGiven(req) ==>
              out == (store, Error(InvalidData))
    ensures out.1.Succeeded() <==> store.List? && !HasId(store.recipes, req.id) && FieldsGiven(req)
    ensures out.1.Succeeded() ==>
              && out.1 == Message("Recipe '" + req.id + "' created successfully.")
              && out.0.List?
              && |out.0.recipes| == |store.recipes| + 1
              && out.0.recipes[..|store.recipes|] == store.recipes
              && out.0.recipes[|store.recipes|] ==
                 Recipe(req.id, req.name, req.ingredients, req.instructions, req.cookingTime)
  {
    match store
    case NotAList => (store, Error(FormatError))
    case List(rs) =>
      if FindId(rs, req.id).Some? then (store, Error(DuplicateId))
      else if !FieldsGiven(req) then (store, Error(InvalidData))
      else (List(rs + [NewRecipe(req)]), Message("Recipe '" + req.id + "' created successfully."))
  }

  /**
   * `edit_recipe`. Fields are validated only once the id is found; the first
   * recipe with the id gets the four non-key fields of the request.
   */
  function Edit(store: Store, req: Request): (out: (Store, Reply))
    ensures store.NotAList? ==> out == (store, Error(FormatError))
    ensures store.List? && !HasId(store.recipes, req.id) ==> out == (store, Error(NotFound))
    ensures store.List? && HasId(store.recipes, req.id) && !FieldsGiven(req) ==>
              out == (store, Error(InvalidData))
    ensures out.1.Succeeded() <==> store.List? && HasId(store.recipes, req.id) && FieldsGiven(req)
    ensures out.1.Succeeded() ==>
              && out.1 == Message("Recipe '" + req.id + "' updated successfully.")
              && out.0.List?
              && |out.0.recipes| == |store.recipes|
              && forall k :: IsFirst(store.recipes, req.id, k) ==>
                   && out.0.recipes[k] ==
                      Recipe(req.id, req.name, req.ingredients, req.instructions, req.cookingTime)
                   && forall j :: 0 <= j < |store.recipes| && j != k ==>
                        out.0.recipes[j] == store.recipes[j]
  {
    match store
    case NotAList => (store, Error(FormatError))
    case List(rs) =>
      match FindId(rs, req.id)
      case None => (store, Error(NotFound))
      case Some(k) =>
        if !FieldsGiven(req) then (store, Error(InvalidData))
        else
          var edited := rs[k].(
            name := req.name,
            ingredients := req.ingredients,
            instructions := req.instructions,
            cookingTime := req.cookingTime);
          (List(rs[k := edited]), Message("Recipe '" + req.id + "' updated successfully."))
  }

  /**
   * The action dispatch of the service loop. Whatever the request, a failed
   * step saves nothing, a list is never lost, no recipe is removed or
   * reordered, and unique ids stay unique.
   */
  function Handle(store: Store, req: Request): (out: (Store, Reply))
    ensures req.action == "create" ==> out == Create(store, req)
    ensures req.action == "edit" ==> out == Edit(store, req)
    ensures req.action != "create" && req.action != "edit" ==>
              out == (store, Error(InvalidAction))
    ensures !out.1.Succeeded() ==> out.0 == store
    ensures out.0.List? <==> store.List?
    ensures store.List? ==> Ids(store.recipes) <= Ids(out.0.recipes)
    ensures WellKeyed(store) ==> WellKeyed(out.0)
  {
    if req.action == "create" then
      var out := Create(store, req);
      assert store.List? && out.1.Succeeded() ==>
        Ids(out.0.recipes) == Ids(store.recipes) + [req.id];
      out
    else if req.action == "edit" then
      var out := Edit(store, req);
      assert store.List? && out.1.Succeeded() ==> Ids(out.0.recipes) == Ids(store.recipes) by {
        if store.List? && out.1.Succeeded() {
          var k := FindId(store.recipes, req.id).value;
          assert IsFirst(store.recipes, req.id, k);
        }
      }
      out
    else
      (store, Error(InvalidAction))
  }

  /** The store after the service has answered each request in turn. */
  function Run(store: Store, reqs: seq<Request>): Store
    decreases |reqs|
  {
    if reqs == [] then store else Run(Handle(store, reqs[0]).0, reqs[1..])
  }

  /**
   * Over any sequence of requests, a list stays a list and recipes are only
   * ever added at the end (none is removed or reordered), even in a file
   * that already holds duplicate ids.
   */
  lemma {:induction false} RunKeepsRecipes(store: Store, reqs: seq<Request>)
    requires store.List?
    ensures Run(store, reqs).List?
    ensures Ids(store.recipes) <= Ids(Run(store, reqs).recipes)
    decreases |reqs|
  {
    if reqs != [] {
      var next := Handle(store, reqs[0]).0;
      RunKeepsRecipes(next, reqs[1..]);
      assert Ids(next.recipes) <= Ids(Run(store, reqs).recipes);
      PrefixTrans(Ids(store.recipes), Ids(next.recipes), Ids(Run(store, reqs).recipes));
    }
  }

  lemma PrefixTrans(a: seq<string>, b: seq<string>, c: seq<string>)
    requires a <= b && b <= c
    ensures a <= c
  {
    assert c[..|a|] == b[..|a|];
  }

  /** Over any sequence of requests, ids that were unique stay unique. */
  lemma {:induction false} RunKeepsIdsDistinct(store: Store, reqs: seq<Request>)
    requires store.List? && DistinctIds(store.recipes)
    ensures Run(store, reqs).List? && DistinctIds(Run(store, reqs).recipes)
    decreases |reqs|
  {
    if reqs != [] {
      RunKeepsIdsDistinct(Handle(store, reqs[0]).0, reqs[1..]);
    }
  }

  /** How many recipes of the list carry this id. */
  function CountId(rs: seq<Recipe>, id: string): nat
    decreases |rs|
  {
    if rs == [] then 0
    else CountId(rs[..|rs| - 1], id) + (if rs[|rs| - 1].id == id then 1 else 0)
  }

  lemma {:induction false} CountAbsent(rs: seq<Recipe>, id: string)
    requires !HasId(rs, id)
    ensures CountId(rs, id) == 0
    decreases |rs|
  {
    if rs != [] {
      assert !HasId(rs[..|rs| - 1], id) by {
        assert forall i :: 0 <= i < |rs| - 1 ==> rs[..|rs| - 1][i] == rs[i];
      }
      CountAbsent(rs[..|rs| - 1], id);
    }
  }

  /**
   * Creating the same fresh id twice: the second create reports a duplicate
   * and the list holds exactly one recipe with that id.
   */
  lemma CreateTwiceKeepsOne(rs: seq<Recipe>, first: Request, second: Request)
    requires !HasId(rs, first.id) && FieldsGiven(first)
    requires second.id == first.id
    ensures Create(Create(List(rs), first).0, second).1 == Error(DuplicateId)
    ensures Create(Create(List(rs), first).0, second).0.List?
    ensures CountId(Create(Create(List(rs), first).0, second).0.recipes, first.id) == 1
  {
    var after := Create(List(rs), first).0.recipes;
    assert after == rs + [NewRecipe(first)];
    assert after[..|after| - 1] == rs;
    assert after[|rs|].id == first.id;
    CountAbsent(rs, first.id);
  }

  /** An edit right after a create of the same id succeeds and keeps the position. */
  lemma CreateThenEdit(rs: seq<Recipe>, create: Request, edit: Request)
    requires !HasId(rs, create.id) && FieldsGiven(create)
    requires edit.id == create.id && FieldsGiven(edit)
    ensures Edit(Create(List(rs), create).0, edit).1.Succeeded()
    ensures Edit(Create(List(rs), create).0, edit).0 == List(rs + [NewRecipe(edit)])
  {
    var after := rs + [NewRecipe(create)];
    assert IsFirst(after, create.id, |rs|);
    var out := Edit(List(after), edit).0.recipes;
    assert out == rs + [NewRecipe(edit)] by {
      assert |out| == |after|;
      forall j | 0 <= j < |out| ensures out[j] == (rs + [NewRecipe(edit)])[j] {
        if j < |rs| {
          assert out[j] == after[j];
        }
      }
    }
  }

  /** The recipes file as `load_recipes` finds it. */
  datatype RecipesFile = Missing | Undecodable | JsonList(recipes: seq<Recipe>) | JsonOther

  /**
   * `load_recipes` as written: a missing file, like an undecodable one, comes
   * back as `{}`, which both handlers then refuse as not a list.
   */
  function LoadAsWritten(file: RecipesFile): (store: Store)
    ensures store.List? <==> file.JsonList?
    ensures file.JsonList? ==> store.recipes == file.recipes
  {
    match file
    case JsonList(rs) => List(rs)
    case _ => NotAList
  }

  /**
   * As written, a service started without recipes.json can never store a
   * recipe: every request fails and the store stays "not a list".
   */
  lemma MissingFileRefusesCreate(req: Request)
    requires req.action == "create" && FieldsGiven(req)
    ensures Handle(LoadAsWritten(Missing), req) == (NotAList, Error(FormatError))
  {
  }

  /** `load_recipes` as its message says it behaves: a missing file starts an empty list. */
  function Load(file: RecipesFile): (store: Store)
    ensures store.List? <==> file.JsonList? || file.Missing?
    ensures file.Missing? ==> store.recipes == []
    ensures file.JsonList? ==> store.recipes == file.recipes
  {
    match file
    case Missing => List([])
    case JsonList(rs) => List(rs)
    case _ => NotAList
  }

  /** One service step from the file on disk: load, then handle. */
  function HandleFile(file: RecipesFile, req: Request): (out: (Store, Reply))
    ensures file.Missing? && req.action == "create" && FieldsGiven(req) ==>
              out == (List([NewRecipe(req)]), Message("Recipe '" + req.id + "' created successfully."))
    ensures file.Missing? && req.action == "edit" ==> out == (List([]), Error(NotFound))
  {
    Handle(Load(file), req)
  }
}
