# Recipe catalog services, modelled in Dafny

The recipe catalog application is four small request/reply services and one
terminal client:

- **authentication** (`microservice_b.py`): `register` and `login` over a map
  from username to password hash;
- **recipe management** (`microservice_c.py`): `create` and `edit` over the
  recipe list;
- **recipe interaction** (`microservice_d.py`): `rate` and `tag` over a map
  from recipe id to its ratings and tags;
- **the read-only recipe server** (`microservice_a.py`): lookup by id,
  case-insensitive search, browse and a details view;
- **the client** (`clientAll.py`): checks what the user typed and builds the
  one request it sends.

Each handler is a pure function. It takes the store it would load and the
request, and it returns the store it would save together with the reply. A
handler that saves nothing returns the store it was given. The client is a
pure function from the menu choice and the typed lines to the request it
would send, or to no request.

Files (one module each, plus two small shared ones):

| file | module | models |
|---|---|---|
| `common.dfy` | `Options`, `Replies` | `Option`; the `{"Message"}` / `{"Error"}` / rating replies |
| `text.dfy` | `Text` | `strip`, `lower`, `split(',')`, and the substring test `in`, on ASCII |
| `recipes.dfy` | `Recipes` | `microservice_c.py` |
| `catalog.dfy` | `Catalog` | `microservice_a.py` |
| `interactions.dfy` | `Interactions` | `microservice_d.py` |
| `auth.dfy` | `Auth` | `microservice_b.py` |
| `client.dfy` | `Client` | `validate_non_empty` and request construction in `clientAll.py` |

Modelling choices:

- The password digest is a parameter `hash: string -> string`. Nothing is
  assumed of it except that it is a function. Where a lemma needs two
  passwords to hash differently, that is a `requires`.
- The average rating is the exact rational `Sum(ratings) / |ratings|`. It is
  not a float.
- The management store is `NotAList | List(recipes)`. `load_recipes` returns
  `{}` for a missing or undecodable file, and that `{}` is one of the
  `NotAList` cases. The interaction and user stores are maps, and a missing
  file is the empty map.
- A request field the client did not send reads as `""`, `[]` or `false`.
  Where a service tests the field with `not value` or reads it with
  `request.get(key, default)`, an absent field behaves the same way. Five
  fields are read with a bare `.get` and neither tested nor defaulted: `id`
  (microservice_c.py:39, 77; microservice_d.py:21, 32), `password`
  (microservice_b.py:23, 34), `rating` (microservice_d.py:22), `tag`
  (microservice_d.py:33) and `username` (microservice_b.py:22, 33). An absent
  one reads as `None`, not as `""`; see "## Left out".
- A rating line that Python's `int()` refuses is passed to the client model
  as `None`.

Behaviour of the code that the model keeps:

- `create` checks for a duplicate id before it validates the fields. A
  duplicate id therefore wins over missing fields.
- The services check only that `ingredients` is a non-empty list, so `[""]`
  is accepted. Only the client requires a non-empty piece.
- The interaction service checks neither the rating range nor whether a tag
  is empty. Those checks exist only in the client, and the client does not
  check the id of a rate request.
- Neither the interaction service nor the management service checks that an
  id is non-empty.

## Model

| member | source | states |
|---|---|---|
| `Text.Strip` | clientAll.py:117-118 | The stripped line is a slice of the input that neither starts nor ends with whitespace. Everything cut away on either side is whitespace. It is empty exactly when the line is all whitespace. |
| `Text.Split` | clientAll.py:136 | Splitting on `,` yields at least one piece. No piece contains a comma, and joining the pieces with commas gives the line back. |
| `Text.SplitJoin` | clientAll.py:136 | Splitting is the inverse of joining comma-free pieces. |
| `Text.ContainsIffOccurs` | microservice_a.py:41 | The left-to-right substring scan finds the needle exactly when it occurs at some index of the haystack. |
| `Text.LowerKeepsContains` | microservice_a.py:41 | Lower-casing both strings keeps every occurrence. |
| `Text.Lower` | microservice_a.py:15 | `str.lower()`: same length, and each character lowered on its own, ASCII capitals to small letters and everything else kept. |
| `Text.Contains` | microservice_a.py:41 | Python's `needle in hay`: true exactly when the needle occurs at some index of the haystack (via `Text.ContainsIffOccurs`). |
| `Text.StripPadded` | clientAll.py:117-118 | Stripping a line that neither starts nor ends with whitespace, with any whitespace added around it, gives back that line. |
| `Text.StripIdempotent` | clientAll.py:117-118 | Stripping a stripped line changes nothing. |
| `Text.LowerIdempotent` | clientAll.py:192 | Lower-casing an already lowered string changes nothing, so the server's second `lower()` has no effect on the client's query. |
| `Recipes.FindId` | microservice_c.py:76-79 | The scan gives no index exactly when no recipe has the id. Otherwise it gives the position of the first recipe with that id. |
| `Recipes.Create` | microservice_c.py:27-63 | A store that is not a list gets the format error. A present id gets the duplicate error, even when the fields are invalid. A fresh id with an empty name, ingredients, instructions or cooking time gets the invalid-data error. Every error leaves the store unchanged. It succeeds exactly otherwise: one recipe with the given fields is appended at the end, and every earlier entry is kept. |
| `Recipes.Edit` | microservice_c.py:65-99 | A store that is not a list gets the format error. An absent id gets not-found. A present id with an empty field gets the invalid-data error. Every error leaves the store unchanged. On success the length is kept, and the first recipe with the id gets the four given fields and keeps its id. Every other position is unchanged. |
| `Recipes.Handle` | microservice_c.py:114-120 | A `create` request gets exactly `create_recipe`'s store and reply, and an `edit` request gets `edit_recipe`'s. An action other than `create` or `edit` gets "Invalid action specified." and leaves the store unchanged. No request loses the list, removes or reorders a recipe, or breaks the uniqueness of ids. |
| `Recipes.RunKeepsRecipes` | microservice_c.py:39-58 | Over any sequence of requests on a list, the list stays a list and the ids already stored stay a prefix of the stored ids, even in a file that already holds duplicate ids. |
| `Recipes.RunKeepsIdsDistinct` | microservice_c.py:39-43 | Over any sequence of requests, ids that were unique stay unique. |
| `Recipes.CreateTwiceKeepsOne` | microservice_c.py:39-43 | After a successful create of an id, a second create of that id reports a duplicate, and exactly one recipe carries the id. |
| `Recipes.CreateThenEdit` | microservice_c.py:78-96 | Editing a just-created recipe succeeds and replaces it in place at the end of the list. |
| `Recipes.LoadAsWritten` | microservice_c.py:6-16 | As written, only a file that decodes to a list gives a list. A missing file gives `{}`, which is not a list. |
| `Recipes.MissingFileRefusesCreate` | microservice_c.py:11-13 | As written, a create with valid fields on a service without recipes.json fails with the format error and stores nothing. |
| `Recipes.Load` | microservice_c.py:11-13 | Corrected load: a missing file starts an empty list. Every other file loads as before. |
| `Recipes.HandleFile` | microservice_c.py:27-63 | With the corrected load, the first valid create on a missing file stores exactly that recipe, and an edit there gets not-found. |
| `Catalog.GetRecipeById` | microservice_a.py:30-35 | A recipe is found exactly when some recipe has the id, and it is the first one. Otherwise the answer is "Could not find specified recipe.". |
| `Catalog.FilterMembers` | microservice_a.py:39-42 | A recipe is among the hits exactly when it is in the list and the query occurs in its lowered name or in one of its lowered ingredients. |
| `Catalog.FilterCounts` | microservice_a.py:39-42 | Each matching recipe is a hit as many times as it occurs in the list, and a recipe that does not match is never a hit. |
| `Catalog.FilterIsSubsequence` | microservice_a.py:39-42 | The hits are a subsequence of the list, in list order. |
| `Catalog.SearchRecipes` | microservice_a.py:37-46 | The answer is a non-empty, order-preserving listing of exactly the matching recipes, each as often as it occurs in the list. When nothing matches it is the message "No matching recipes found.", not an error, and that message comes exactly when nothing matches. |
| `Catalog.BrowseRecipes` | microservice_a.py:48-50 | Browse answers with the loaded list itself, in stored order. |
| `Catalog.ViewRecipeDetails` | microservice_a.py:52-61 | The answer is the name, ingredients and instructions of the first recipe with the id, without its id or cooking time. With no such recipe it is "Could not find specified recipe details.". |
| `Catalog.DetailsAgreeWithLookup` | microservice_a.py:30-61 | The details view is the projection of what lookup by id returns, and it fails exactly when lookup fails. |
| `Catalog.ProcessRequest` | microservice_a.py:12-28 | The first of a non-empty recipeID, a non-empty (lowered) searchQuery, browse, and a non-empty recipeDetailsID picks the single operation. The no-valid-field error comes exactly when none of them is set. |
| `Catalog.SearchIgnoresQueryCase` | microservice_a.py:15 | Any query and the same query with its search term lowered get the same answer. |
| `Catalog.SearchFindsName` | microservice_a.py:37-44 | A recipe whose lowered name contains the lowered term is in the search listing, so the match ignores letter case ("choc" finds "Chocolate"). |
| `Catalog.SearchFindsExactName` | microservice_a.py:37-44 | A recipe whose name contains the term exactly as typed is in the search listing. |
| `Catalog.SnapshotMissesCreate` | microservice_a.py:64-76 | The server as written answers from the list it loaded at startup. After a successful create is saved, lookup of the new id on that list still gets "Could not find specified recipe.", and browse still lists only the old recipes. |
| `Catalog.CreatedRecipeIsVisible` | microservice_a.py:30-50 | On a server that answers from the list as it is saved now, after a successful create, lookup by the new id finds the new recipe, and browse lists it after all earlier recipes. A lookup with an empty id is not a lookup, so that clause needs a non-empty id. |
| `Interactions.Average` | microservice_d.py:26 | The average times the number of ratings is their sum. |
| `Interactions.Rate` | microservice_d.py:19-28 | An id without a record gets `{ratings: [rating], tags: []}`. Otherwise the rating is appended at the end of its ratings and its tags are kept. Every other record is unchanged. The reply carries the average of all the id's ratings, of which there is at least one. |
| `Interactions.Tag` | microservice_d.py:30-38 | The tag is appended at the end of the id's tags, duplicates and empty tags included, and the record is created if absent. Its ratings and every other record are unchanged. |
| `Interactions.Handle` | microservice_d.py:49-55 | A `rate` request gets exactly `rate_recipe`'s store and reply, and a `tag` request gets `tag_recipe`'s. An action other than `rate` or `tag` gets "Invalid action specified." and leaves the store unchanged. No request removes a record or removes or reorders a rating or tag. |
| `Interactions.RunExtends` | microservice_d.py:19-38 | Over any sequence of requests, every record survives, and its old ratings and tags stay prefixes of the new ones. |
| `Interactions.SumBounds` | microservice_d.py:26 | Ratings from 1 to 5 sum to between one and five times their count. |
| `Interactions.AverageInRange` | microservice_d.py:26 | The average of ratings from 1 to 5 lies between 1 and 5. |
| `Interactions.RatedAverageInRange` | microservice_d.py:19-28 | While the stored ratings and the new one lie between 1 and 5, the reported average does too. |
| `Interactions.RateFourFiveThree` | microservice_d.py:25-26 | Rating a fresh id 4, then 5, then 3 stores `[4, 5, 3]` and reports the average 4 on the third call. |
| `Auth.Register` | microservice_b.py:20-29 | A taken name gets "User already exists." and the users are unchanged, that user's hash included. A fresh name is mapped to the hash of its password, and every other entry is kept. |
| `Auth.Login` | microservice_b.py:31-38 | Login succeeds exactly when the name is registered with the hash of this password. An unknown name gets the same "Invalid credentials." as a wrong password. |
| `Auth.Handle` | microservice_b.py:49-55 | A `register` request gets exactly `register_user`'s users and reply. A `login` request gets `login_user`'s reply and leaves the users unchanged. An action other than `register` or `login` gets "Invalid action specified.". No request drops a user or changes a stored hash. |
| `Auth.RunKeepsHashes` | microservice_b.py:24-27 | Over any sequence of requests, a registered user stays registered with the same hash. |
| `Auth.RegisterThenLogin` | microservice_b.py:26-37 | Registering a fresh name and then logging in with the same password succeeds. |
| `Auth.WrongPasswordRefused` | microservice_b.py:36-38 | After registering, a password with a different hash gets "Invalid credentials.". |
| `Auth.SecondRegistrationKeepsHash` | microservice_b.py:24-25 | A second registration of a name is refused. The first hash stays, and the first password still logs in. |
| `Client.AnyTruthy` | clientAll.py:71 | `any(xs)` holds exactly when some piece is non-empty. |
| `Client.ValidateNonEmpty` | clientAll.py:68-73 | Validation passes exactly when every line argument is non-empty and every list argument has a non-empty piece. So `[""]` and `[]` fail, and so does any empty string. |
| `Client.BlankIngredientsRefused` | clientAll.py:136-139 | A blank ingredients line strips to `""`, splits into `[""]`, and no management request is built. |
| `Client.AuthRequestFor` | clientAll.py:115-123 | On stripped lines, a request is built exactly for choice 1 or 2 with a non-empty username and password. Choice 1 gives `register` and choice 2 gives `login`, carrying both lines. |
| `Client.ManageRequestFor` | clientAll.py:132-150 | On stripped lines, a request is built exactly for choice 1 or 2 when id, name, instructions and cooking time are non-empty and the comma-split ingredients have a non-empty piece. Choice 1 gives `create` and choice 2 gives `edit`, carrying those fields. The pieces re-join with commas to the typed ingredients line. |
| `Client.InteractRequestFor` | clientAll.py:159-176 | A rate request is built exactly for a rating from 1 to 5, whatever the id. A tag request is built exactly for a non-empty id and tag. Any other choice builds nothing. |
| `Client.QueryFor` | clientAll.py:187-198 | Choices 1 to 4 send only the lookup id, the lowered search term, `browse: true`, or the details id. Every other field is left out, which the server reads as `""` or `false`. Empty lines are sent as they are. |
| `Client.RequestFor` | clientAll.py:111-198 | The stripped main-menu choice alone picks the service: 1 authentication, 2 management, 3 interaction, 4 the read-only server. Anything else sends nothing. For each service, a request is sent exactly when that menu's builder, given the stripped sub-choice and stripped lines, builds one, and the request sent is the one it builds. |
| `Client.ClientStripsCredentials` | clientAll.py:115-123 | A login sends the username and the password each without the whitespace typed around it. A username of whitespace only sends nothing. |
| `Client.ClientSendsBob` | clientAll.py:117-123 | The username " bob " with password "pw" is sent as the login of "bob". |
| `Client.ClientCreateIsStored` | clientAll.py:139-150 | On a store that loaded as a list, a create request the client builds for an id not yet stored passes the service's checks and is stored. |
| `Client.ClientRatingsInRange` | clientAll.py:163-169 | Every rating the client sends lies between 1 and 5. |
| `Client.ClientRatesKeepAverageInRange` | clientAll.py:163-169 | While an id's stored ratings lie between 1 and 5, the interaction service answers a client-built rate request with an average between 1 and 5. |
| `Client.ClientTagsNonEmpty` | clientAll.py:173-176 | Every tag request the client sends has a non-empty id and a non-empty tag. |
| `Client.ClientSearchIsLowered` | clientAll.py:192-193 | A non-empty search term reaches `search_recipes` lowered, so the server's second lowering changes nothing. |
| `Client.BlankLookupRefused` | clientAll.py:189-190 | A lookup or details request with a blank id is still sent, and the server answers with the no-valid-field error. |

## Findings

| source | as written | input that shows it | evidently intended | confidence | as-written member | corrected member |
|---|---|---|---|---|---|---|
| microservice_a.py:64-76 | The read-only server reads recipes.json once, at startup, and answers every query from that list. Recipes created or edited later are invisible to lookup, search, browse and details until the server restarts. | start the server, then `create` a recipe with a fresh id, then look that id up | answer from the saved list, so that browse lists recipes in the order they were created | medium, not executed | `Catalog.SnapshotMissesCreate` | `Catalog.CreatedRecipeIsVisible` |
| microservice_c.py:11-13 | `load_recipes` returns `{}` when recipes.json does not exist. Both handlers then refuse `{}` as not a list, and nothing is ever saved. The service can therefore never create the file. | no recipes.json, then a `create` with every field filled | start from an empty list, as the accompanying "Creating a new file." message says | medium, not executed | `Recipes.MissingFileRefusesCreate` | `Recipes.HandleFile` |

`Recipes.LoadAsWritten` and `Recipes.Load` are the two loaders. Every handler
in the model takes the store after loading, so the correction affects only the
missing-file case.

## Left out

- ZeroMQ sockets, `bind`/`connect`, `send_json`/`recv_json`, and
  `make_request`'s conversion of a transport failure into an error reply are
  transport.
- Reading and writing the JSON files is I/O. The store a handler loads and the
  store it saves are its input and output.
- The catch-all exception handler of the management loop
  (microservice_c.py:124-126) covers runtime faults, not logic.
- Requests whose field types do not match are not modelled. These are a
  missing or `null` id, a missing password, a missing rating (the
  interaction service crashes summing `None`), and non-list ingredients. A
  missing password crashes the authentication service on `None.encode()` in
  `login` and when registering a fresh name. Registering a taken name answers
  "User already exists." before any hashing (microservice_b.py:24-26).
- A `tag` request without a `tag` field appends `None` to the tags. The file
  then saves it as `null` and the reply reads "Tag 'None' …"
  (microservice_d.py:33-38). The model's request always carries a string tag,
  and the client always sends one.
- A `register` request without a `username` field stores the hash under the
  JSON key `"null"` and answers "User 'None' registered successfully."
  (microservice_b.py:22-29). The model's request always carries a string
  username, and the client always sends one.
- Recipes in the file that lack a key, or that carry extra keys, are not
  modelled. Neither are interaction or user files that decode to something
  other than an object.
- The read-only server loads recipes.json once at startup and never reloads
  it. Its model takes the list it answers from as a parameter. Passed the
  startup snapshot, that is the code as written; passed the list as saved
  now, it is the corrected server (see "## Findings"). When that file is missing, `get_recipes` raises
  at startup and the server never answers (microservice_a.py:7-10, 64); that
  is not modelled. A file that decodes to something other than a list is not
  modelled either. Browse would return it unchanged (microservice_a.py:48-50),
  and what the other operations do with it depends on its shape.
- SHA-256 is the parameter `hash`, so its internals are not modelled.
- `Interactions.Average`: the reply's average is exact, not a Python float.
- `Text.Strip`, `Text.Lower`, `Text.LowerIdempotent`, `Text.LowerKeepsContains`,
  `Catalog.SearchFindsExactName`: `str.strip()` and `str.lower()` are
  modelled on ASCII only. Unicode whitespace and Unicode case mapping are not
  modelled. Under Unicode the last two can fail: `"ΑΣ".lower()` is `"ας"`
  but `"Σ".lower()` is `"σ"`, so a name holding the term need not hold it
  once both are lowered.
- The client's `int()` parsing of the rating line is not modelled. The model
  receives its outcome as an `Option<int>`.
- Menus, prompts, `display_help`, the exit confirmation, the main loops, and
  the stale or unbound `response` printed after an invalid interaction choice
  (clientAll.py:177-179) or an invalid search sub-choice (clientAll.py:199-201)
  are user interface.
