/**
 * User authentication service (microservice_b.py): `register` and `login`
 * over users.json, a map from username to password hash. The digest is a
 * parameter `hash`, so nothing is assumed of it beyond being a function.
 */
module Auth {
  import opened Options
  import opened Replies

  /** users.json: username to hash; a missing file loads as the empty map. */
  type Users = map<string, string>

  datatype Request = Request(action: string, username: string, password: string)

  const UserExists := "User already exists."
  const BadCredentials := "Invalid credentials."

  /** `users.get(name)`. */
  function Lookup(users: Users, name: string): Option<string> {
    if name in users then Some(users[name]) else None
  }

  /**
   * `register_user`: a taken name is refused and its hash kept; a fresh name
   * is mapped to the hash of its password and no other entry changes.
   */
  function Register(users: Users, username: string, password: string, hash: string -> string): (out: (Users, Reply))
    ensures username in users ==> out == (users, Error(UserExists))
    ensures username !in users ==>
              && out.1 == Message("User '" + username + "' registered successfully.")
              && out.0.Keys == users.Keys + {username}
              && out.0[username] == hash(password)
    ensures forall u :: u in users ==> u in out.0 && out.0[u] == users[u]
  {
    if username in users then (users, Error(UserExists))
    else
      (users[username := hash(password)], Message("User '" + username + "' registered successfully."))
  }

  /**
   * `login_user`: succeeds exactly when the name is registered with the hash
   * of this password; an unknown name gets the same error as a wrong password.
   */
  function Login(users: Users, username: string, password: string, hash: string -> string): (r: Reply)
    ensures r.Succeeded() <==> username in users && users[username] == hash(password)
    ensures r.Succeeded() ==> r == Message("User '" + username + "' logged in successfully.")
    ensures !r.Succeeded() ==> r == Error(BadCredentials)
  {
    if Lookup(users, username) == Some(hash(password)) then
      Message("User '" + username + "' logged in successfully.")
    else
      Error(BadCredentials)
  }

  /**
   * The action dispatch of the service loop. `login` and unknown actions
   * leave the users untouched; no request ever drops a user or changes a
   * stored hash.
   */
  function Handle(users: Users, req: Request, hash: string -> string): (out: (Users, Reply))
    ensures req.action == "register" ==> out == Register(users, req.username, req.password, hash)
    ensures req.action == "login" ==> out == (users, Login(users, req.username, req.password, hash))
    ensures req.action != "register" && req.action != "login" ==> out == (users, Error(InvalidAction))
    ensures !out.1.Succeeded() ==> out.0 == users
    ensures forall u :: u in users ==> u in out.0 && out.0[u] == users[u]
  {
    if req.action == "register" then Register(users, req.username, req.password, hash)
    else if req.action == "login" then (users, Login(users, req.username, req.password, hash))
    else (users, Error(InvalidAction))
  }

  /** The users after the service has answered each request in turn. */
  function Run(users: Users, reqs: seq<Request>, hash: string -> string): Users
    decreases |reqs|
  {
    if reqs == [] then users else Run(Handle(users, reqs[0], hash).0, reqs[1..], hash)
  }

  /** Once registered, a user keeps the same hash whatever requests follow. */
  lemma {:induction false} RunKeepsHashes(users: Users, reqs: seq<Request>, hash: string -> string)
    ensures forall u :: u in users ==> u in Run(users, reqs, hash) && Run(users, reqs, hash)[u] == users[u]
    decreases |reqs|
  {
    if reqs != [] {
      RunKeepsHashes(Handle(users, reqs[0], hash).0, reqs[1..], hash);
    }
  }

  /** Registering a fresh name and then logging in with the same password succeeds. */
  lemma RegisterThenLogin(users: Users, username: string, password: string, hash: string -> string)
    requires username !in users
    ensures var registered := Handle(users, Request("register", username, password), hash);
            && registered.1.Succeeded()
            && Handle(registered.0, Request("login", username, password), hash).1 ==
               Message("User '" + username + "' logged in successfully.")
  {
  }

  /** After registering, a password with a different hash is refused. */
  lemma WrongPasswordRefused(users: Users, username: string, password: string, other: string, hash: string -> string)
    requires username !in users
    requires hash(other) != hash(password)
    ensures Login(Register(users, username, password, hash).0, username, other, hash) == Error(BadCredentials)
  {
  }

  /** A second registration of a name is refused and the first password still logs in. */
  lemma SecondRegistrationKeepsHash(users: Users, username: string, first: string, second: string, hash: string -> string)
    requires username !in users
    ensures var once := Register(users, username, first, hash).0;
            && Register(once, username, second, hash) == (once, Error(UserExists))
            && once[username] == hash(first)
            && Login(once, username, first, hash).Succeeded()
  {
  }
}
