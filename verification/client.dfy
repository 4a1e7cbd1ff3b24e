/**
 * The client (clientAll.py) without its menus and sockets: the input check
 * `validate_non_empty` and the mapping from a menu choice and the typed lines
 * to the one request it sends, or to none when the input is refused.
 */
module Client {
  import opened Options
  import opened Text
  import Auth
  import Recipes
  import Interactions
  import Catalog
  import Replies

  /** An argument of `validate_non_empty`: a stripped line, or the pieces of a split line. */
  datatype Field = Line(text: string) | Items(items: seq<string>)

  /** A field the client accepts: a non-empty line, or a list with a non-empty piece. */
  predicate Filled(f: Field) {
    match f
    case Line(s) => s != ""
    case Items(xs) => exists i :: 0 <= i < |xs| && xs[i] != ""
  }

  /** Python's `any(xs)` on a list of strings. */
  function AnyTruthy(xs: seq<string>): (b: bool)
    ensures b <==> exists i :: 0 <= i < |xs| && xs[i] != ""
    decreases |xs|
  {
    if xs == [] then false
    else if xs[0] != "" then true
    else
      var b := AnyTruthy(xs[1..]);
      assert forall i :: 1 <= i < |xs| ==> xs[i] == xs[1..][i - 1];
      b
  }

  /** Python's `not value` for a field. */
  predicate Falsy(f: Field) {
    match f
    case Line(s) => s == ""
    case Items(xs) => xs == []
  }

  /**
   * `validate_non_empty`: false at the first argument that is empty, or that
   * is a list none of whose pieces is non-empty, such as `[""]`.
   */
  function ValidateNonEmpty(args: seq<Field>): (ok: bool)
    ensures ok <==> forall i :: 0 <= i < |args| ==> Filled(args[i])
    decreases |args|
  {
    if args == [] then true
    else if Falsy(args[0]) || (args[0].Items? && !AnyTruthy(args[0].items)) then false
    else
      var ok := ValidateNonEmpty(args[1..]);
      assert forall i :: 1 <= i < |args| ==> args[i] == args[1..][i - 1];
      ok
  }

  /** Two lines pass exactly when both are non-empty. */
  lemma ValidateTwoLines(a: string, b: string)
    ensures ValidateNonEmpty([Line(a), Line(b)]) <==> a != "" && b != ""
  {
    var args := [Line(a), Line(b)];
    assert args[0] == Line(a) && args[1] == Line(b);
  }

  /** The five recipe fields pass exactly when each line is non-empty and some piece is. */
  lemma ValidateRecipeFields(id: string, name: string, pieces: seq<string>, instructions: string, cookingTime: string)
    ensures ValidateNonEmpty([Line(id), Line(name), Items(pieces), Line(instructions), Line(cookingTime)]) <==>
              id != "" && name != "" && Filled(Items(pieces)) && instructions != "" && cookingTime != ""
  {
    var args := [Line(id), Line(name), Items(pieces), Line(instructions), Line(cookingTime)];
    assert args[0] == Line(id) && args[1] == Line(name) && args[2] == Items(pieces);
    assert args[3] == Line(instructions) && args[4] == Line(cookingTime);
  }

  /*
   * The builders below take each line as `input().strip()` returns it; the
   * main menu `RequestFor` does the stripping.
   */

  /** Register (1) or login (2) with a non-empty username and password. */
  function AuthRequestFor(choice: string, username: string, password: string): (r: Option<Auth.Request>)
    ensures r.Some? <==> choice in {"1", "2"} && username != "" && password != ""
    ensures r.Some? ==>
              r.value == Auth.Request(if choice == "1" then "register" else "login", username, password)
  {
    if choice != "1" && choice != "2" then None
    else
      ValidateTwoLines(username, password);
      if !ValidateNonEmpty([Line(username), Line(password)]) then None
      else Some(Auth.Request(if choice == "1" then "register" else "login", username, password))
  }

  /**
   * Create (1) or edit (2): the ingredients line is split on commas (pieces
   * are not stripped), and the request is built only when all five fields
   * pass `validate_non_empty`.
   */
  function ManageRequestFor(
    choice: string, id: string, name: string, ingredients: string,
    instructions: string, cookingTime: string): (r: Option<Recipes.Request>)
    ensures r.Some? <==>
              && choice in {"1", "2"}
              && id != "" && name != ""
              && Filled(Items(Split(ingredients, ',')))
              && instructions != "" && cookingTime != ""
    ensures r.Some? ==>
              && r.value.action == (if choice == "1" then "create" else "edit")
              && r.value.id == id
              && r.value.name == name
              && r.value.ingredients == Split(ingredients, ',')
              && Join(r.value.ingredients, ',') == ingredients
              && r.value.instructions == instructions
              && r.value.cookingTime == cookingTime
  {
    if choice != "1" && choice != "2" then None
    else
      var pieces := Split(ingredients, ',');
      ValidateRecipeFields(id, name, pieces, instructions, cookingTime);
      if !ValidateNonEmpty([Line(id), Line(name), Items(pieces), Line(instructions), Line(cookingTime)]) then None
      else Some(Recipes.Request(if choice == "1" then "create" else "edit", id, name, pieces, instructions, cookingTime))
  }

  /**
   * Rate (1) with a rating line that parsed as an integer from 1 to 5; the id
   * is not checked. Tag (2) with a non-empty id and tag. `rating` is `None`
   * when `int()` refused the line.
   */
  function InteractRequestFor(choice: string, id: string, rating: Option<int>, tag: string): (r: Option<Interactions.Request>)
    ensures r.Some? <==>
              || (choice == "1" && rating.Some? && 1 <= rating.value <= 5)
              || (choice == "2" && id != "" && tag != "")
    ensures r.Some? && choice == "1" ==>
              r.value.action == "rate" && r.value.id == id && r.value.rating == rating.value
    ensures r.Some? && choice == "2" ==>
              r.value.action == "tag" && r.value.id == id && r.value.tag == tag
  {
    if choice == "1" then
      match rating
      case None => None
      case Some(n) =>
        if n < 1 || n > 5 then None
        else Some(Interactions.Request("rate", id, n, ""))
    else if choice == "2" then
      ValidateTwoLines(id, tag);
      if !ValidateNonEmpty([Line(id), Line(tag)]) then None
      else Some(Interactions.Request("tag", id, 0, tag))
    else
      None
  }

  /**
   * Lookup (1), search (2), browse (3) or details (4) on the read-only server;
   * only the field of the chosen operation is sent, the search term lowered.
   * These lines are sent even when empty.
   */
  function QueryFor(choice: string, id: string, term: string): (r: Option<Catalog.Query>)
    ensures r.Some? <==> choice in {"1", "2", "3", "4"}
    ensures choice == "1" ==> r == Some(Catalog.Query(id, "", false, ""))
    ensures choice == "2" ==> r == Some(Catalog.Query("", Lower(term), false, ""))
    ensures choice == "3" ==> r == Some(Catalog.Query("", "", true, ""))
    ensures choice == "4" ==> r == Some(Catalog.Query("", "", false, id))
  {
    if choice == "1" then Some(Catalog.Query(id, "", false, ""))
    else if choice == "2" then Some(Catalog.Query("", Lower(term), false, ""))
    else if choice == "3" then Some(Catalog.Query("", "", true, ""))
    else if choice == "4" then Some(Catalog.Query("", "", false, id))
    else None
  }

  /** Everything the user may type after the main menu choice, as typed. */
  datatype Form = Form(
    subChoice: string,
    username: string,
    password: string,
    id: string,
    name: string,
    ingredients: string,
    instructions: string,
    cookingTime: string,
    rating: Option<int>,
    tag: string,
    term: string)

  /** The request the client sends, tagged with the service it goes to. */
  datatype Outgoing =
    | ToAuth(auth: Auth.Request)
    | ToManagement(manage: Recipes.Request)
    | ToInteraction(interact: Interactions.Request)
    | ToCatalog(query: Catalog.Query)

  /**
   * The main menu: the stripped choice alone picks the service (1
   * authentication, 2 management, 3 interaction, 4 the read-only server);
   * help, exit and anything else send nothing. Every typed line is stripped
   * before it reaches a builder.
   */
  function RequestFor(choice: string, form: Form): (r: Option<Outgoing>)
    ensures r.Some? ==> Strip(choice) in {"1", "2", "3", "4"}
    ensures r.Some? ==> (r.value.ToAuth? <==> Strip(choice) == "1")
    ensures r.Some? ==> (r.value.ToManagement? <==> Strip(choice) == "2")
    ensures r.Some? ==> (r.value.ToInteraction? <==> Strip(choice) == "3")
    ensures r.Some? ==> (r.value.ToCatalog? <==> Strip(choice) == "4")
    ensures Strip(choice) == "1" ==>
              var built := AuthRequestFor(Strip(form.subChoice), Strip(form.username), Strip(form.password));
              (r.Some? <==> built.Some?) && (r.Some? ==> built == Some(r.value.auth))
    ensures Strip(choice) == "2" ==>
              var built := ManageRequestFor(Strip(form.subChoice), Strip(form.id), Strip(form.name),
                                            Strip(form.ingredients), Strip(form.instructions), Strip(form.cookingTime));
              (r.Some? <==> built.Some?) && (r.Some? ==> built == Some(r.value.manage))
    ensures Strip(choice) == "3" ==>
              var built := InteractRequestFor(Strip(form.subChoice), Strip(form.id), form.rating, Strip(form.tag));
              (r.Some? <==> built.Some?) && (r.Some? ==> built == Some(r.value.interact))
    ensures Strip(choice) == "4" ==>
              var built := QueryFor(Strip(form.subChoice), Strip(form.id), Strip(form.term));
              (r.Some? <==> built.Some?) && (r.Some? ==> built == Some(r.value.query))
    ensures Strip(choice) == "4" ==> (r.Some? <==> Strip(form.subChoice) in {"1", "2", "3", "4"})
  {
    var c := Strip(choice);
    var sub := Strip(form.subChoice);
    if c == "1" then
      match AuthRequestFor(sub, Strip(form.username), Strip(form.password))
      case Some(req) => Some(ToAuth(req))
      case None => None
    else if c == "2" then
      match ManageRequestFor(sub, Strip(form.id), Strip(form.name), Strip(form.ingredients),
                             Strip(form.instructions), Strip(form.cookingTime))
      case Some(req) => Some(ToManagement(req))
      case None => None
    else if c == "3" then
      match InteractRequestFor(sub, Strip(form.id), form.rating, Strip(form.tag))
      case Some(req) => Some(ToInteraction(req))
      case None => None
    else if c == "4" then
      match QueryFor(sub, Strip(form.id), Strip(form.term))
      case Some(q) => Some(ToCatalog(q))
      case None => None
    else
      None
  }

  /**
   * The login menu sends the username and password as typed less the
   * whitespace around them: " bob " goes out as "bob", "  pw " as "pw", and
   * a username of whitespace only sends nothing.
   */
  lemma ClientStripsCredentials(
    form: Form, before: string, user: string, after: string,
    pwBefore: string, password: string, pwAfter: string)
    requires form.subChoice == "2"
    requires AllSpace(before) && AllSpace(after) && Trimmed(user)
    requires form.username == before + user + after
    requires AllSpace(pwBefore) && AllSpace(pwAfter) && Trimmed(password) && password != ""
    requires form.password == pwBefore + password + pwAfter
    ensures user != "" ==> RequestFor("1", form) == Some(ToAuth(Auth.Request("login", user, password)))
    ensures user == "" ==> RequestFor("1", form).None?
  {
    StripTrimmed("1");
    StripTrimmed("2");
    StripPadded(pwBefore, password, pwAfter);
    StripPadded(before, user, after);
    var built := AuthRequestFor("2", user, password);
    assert user != "" ==> built == Some(Auth.Request("login", user, password));
    assert user == "" ==> built.None?;
  }

  /** " bob " with password "pw" logs in as "bob". */
  lemma ClientSendsBob(form: Form)
    requires form.subChoice == "2" && form.username == " bob " && form.password == "pw"
    ensures RequestFor("1", form) == Some(ToAuth(Auth.Request("login", "bob", "pw")))
  {
    assert " bob " == " " + "bob" + " ";
    assert "pw" == [] + "pw" + [];
    ClientStripsCredentials(form, " ", "bob", " ", [], "pw", []);
  }

  /** A blank ingredients line is refused: it splits into the single piece "". */
  lemma BlankIngredientsRefused(choice: string, id: string, name: string, line: string,
                                instructions: string, cookingTime: string)
    requires AllSpace(line)
    ensures ManageRequestFor(choice, id, name, Strip(line), instructions, cookingTime).None?
  {
    SplitEmpty(',');
  }

  /**
   * The client is stricter than the management service: a create request it
   * sends for an id not yet in the list is always stored.
   */
  lemma ClientCreateIsStored(id: string, name: string, ingredients: string,
                             instructions: string, cookingTime: string, rs: seq<Recipes.Recipe>)
    requires ManageRequestFor("1", id, name, ingredients, instructions, cookingTime).Some?
    requires !Recipes.HasId(rs, id)
    ensures var req := ManageRequestFor("1", id, name, ingredients, instructions, cookingTime).value;
            Recipes.Handle(Recipes.List(rs), req).1.Succeeded()
  {
    var req := ManageRequestFor("1", id, name, ingredients, instructions, cookingTime).value;
    assert Filled(Items(req.ingredients));
  }

  /** Every rating the client sends lies between 1 and 5. */
  lemma ClientRatingsInRange(choice: string, id: string, rating: Option<int>, tag: string)
    requires InteractRequestFor(choice, id, rating, tag).Some?
    requires InteractRequestFor(choice, id, rating, tag).value.action == "rate"
    ensures 1 <= InteractRequestFor(choice, id, rating, tag).value.rating <= 5
  {
  }

  /**
   * While the stored ratings of an id lie between 1 and 5, the average the
   * interaction service reports for a rate request the client built does too.
   */
  lemma ClientRatesKeepAverageInRange(
    store: Interactions.Store, choice: string, id: string, rating: Option<int>, tag: string)
    requires InteractRequestFor(choice, id, rating, tag).Some?
    requires InteractRequestFor(choice, id, rating, tag).value.action == "rate"
    requires id in store ==>
               forall i :: 0 <= i < |store[id].ratings| ==> 1 <= store[id].ratings[i] <= 5
    ensures Interactions.Handle(store, InteractRequestFor(choice, id, rating, tag).value).1.Rated?
    ensures var avg := Interactions.Handle(store, InteractRequestFor(choice, id, rating, tag).value).1.average;
            1.0 <= avg <= 5.0
  {
    var req := InteractRequestFor(choice, id, rating, tag).value;
    ClientRatingsInRange(choice, id, rating, tag);
    Interactions.RatedAverageInRange(store, req.id, req.rating);
  }

  /** Every tag request the client sends names a non-empty id and a non-empty tag. */
  lemma ClientTagsNonEmpty(choice: string, id: string, rating: Option<int>, tag: string)
    requires InteractRequestFor(choice, id, rating, tag).Some?
    requires InteractRequestFor(choice, id, rating, tag).value.action == "tag"
    ensures InteractRequestFor(choice, id, rating, tag).value.id != ""
    ensures InteractRequestFor(choice, id, rating, tag).value.tag != ""
  {
  }

  /**
   * A search term typed in the client reaches `search_recipes` lowered: the
   * server's second lowering changes nothing.
   */
  lemma ClientSearchIsLowered(id: string, term: string, rs: seq<Recipes.Recipe>)
    requires term != ""
    ensures QueryFor("2", id, term).Some?
    ensures Catalog.ProcessRequest(QueryFor("2", id, term).value, rs) ==
            Catalog.SearchRecipes(Lower(term), rs)
  {
    LowerIdempotent(term);
  }

  /** A lookup or details request with a blank id line reaches the server and gets the no-valid-field error. */
  lemma BlankLookupRefused(choice: string, line: string, term: string, rs: seq<Recipes.Recipe>)
    requires choice in {"1", "4"}
    requires AllSpace(line)
    ensures QueryFor(choice, Strip(line), term).Some?
    ensures Catalog.ProcessRequest(QueryFor(choice, Strip(line), term).value, rs) ==
            Catalog.Note(Replies.Error(Catalog.NoValidField))
  {
  }
}
