/** The decision logic of the signup and login handlers. The user store is
    a map from email to user; password hashing and hash comparison are
    functions supplied by the caller, so only the order of the checks, the
    status codes, what is stored and what is returned are modelled. */
module Auth {
  import opened Wrappers

  /** A stored user; `password` holds the password hash. */
  datatype User = User(id: string, email: string, name: Option<string>, password: string)

  /** A user as sent back to the client: every field but the password. */
  datatype PublicUser = PublicUser(id: string, email: string, name: Option<string>)

  datatype Body = UserBody(user: PublicUser) | ErrorBody(error: string)

  datatype Response = Response(status: nat, body: Body)

  /** Users keyed by their (unique) email. */
  type Store = map<string, User>

  /** Every user is filed under its own email. */
  predicate ConsistentStore(store: Store)
  {
    forall e :: e in store ==> store[e].email == e
  }

  const MissingFields: string := "Email and password are required."
  const EmailTaken: string := "User with this email already exists."
  const UnknownUser: string := "User not found."
  const BadCredentials: string := "Invalid credentials."

  /** `!field` for a request-body field that is a string when present: true
      when it is missing or empty. */
  predicate Falsy(field: Option<string>)
  {
    field.None? || field.value == ""
  }

  /** `const { password: _, ...userWithoutPassword } = user` */
  function WithoutPassword(u: User): PublicUser
  {
    PublicUser(u.id, u.email, u.name)
  }

  /** POST /api/signup. `hash` stands for bcrypt.hash(_, 10) and `newId` for
      the identifier the store assigns to a created user. Returns the
      response and the store afterwards. */
  function Signup(store: Store, email: Option<string>, name: Option<string>, password: Option<string>,
                  hash: string -> string, newId: string): (r: (Response, Store))
    ensures Falsy(email) || Falsy(password) ==> r == (Response(400, ErrorBody(MissingFields)), store)
    ensures !Falsy(email) && !Falsy(password) && email.value in store ==>
              r == (Response(409, ErrorBody(EmailTaken)), store)
    ensures r.0.status == 201 <==> !Falsy(email) && !Falsy(password) && email.value !in store
    ensures r.0.status == 201 ==>
              var u := User(newId, email.value, name, hash(password.value));
              r.1 == store[email.value := u] && r.0.body == UserBody(WithoutPassword(u))
    ensures r.1 != store ==> r.0.status == 201
  {
    if Falsy(email) || Falsy(password) then (Response(400, ErrorBody(MissingFields)), store)
    else if email.value in store then (Response(409, ErrorBody(EmailTaken)), store)
    else
      var user := User(newId, email.value, name, hash(password.value));
      (Response(201, UserBody(WithoutPassword(user))), store[email.value := user])
  }

  /** POST /api/login. `compare` stands for bcrypt.compare(password, hash). */
  function Login(store: Store, email: Option<string>, password: Option<string>,
                 compare: (string, string) -> bool): (r: Response)
    ensures Falsy(email) || Falsy(password) ==> r == Response(400, ErrorBody(MissingFields))
    ensures !Falsy(email) && !Falsy(password) && email.value !in store ==>
              r == Response(404, ErrorBody(UnknownUser))
    ensures !Falsy(email) && !Falsy(password) && email.value in store &&
            !compare(password.value, store[email.value].password) ==>
              r == Response(401, ErrorBody(BadCredentials))
    ensures r.status == 200 <==>
              !Falsy(email) && !Falsy(password) && email.value in store &&
              compare(password.value, store[email.value].password)
    ensures r.status == 200 ==> r.body == UserBody(WithoutPassword(store[email.value]))
  {
    if Falsy(email) || Falsy(password) then Response(400, ErrorBody(MissingFields))
    else if email.value !in store then Response(404, ErrorBody(UnknownUser))
    else
      var user := store[email.value];
      if !compare(password.value, user.password) then Response(401, ErrorBody(BadCredentials))
      else Response(200, UserBody(WithoutPassword(user)))
  }

  // ---------------------------------------------------------------------

  /** Signing up and then logging in with the same credentials returns the
      user that signup returned, provided the comparison accepts a password
      against its own hash; signing up again with that email is refused. */
  lemma SignupThenLogin(store: Store, email: Option<string>, name: Option<string>, password: Option<string>,
                        hash: string -> string, compare: (string, string) -> bool, newId: string, otherId: string)
    requires forall p :: compare(p, hash(p))
    ensures var (resp, store') := Signup(store, email, name, password, hash, newId);
            resp.status == 201 ==>
              Login(store', email, password, compare) == Response(200, resp.body) &&
              Signup(store', email, name, password, hash, otherId).0.status == 409
  {
  }

  /** Signup files the new user under its own email. */
  lemma SignupKeepsStoreConsistent(store: Store, email: Option<string>, name: Option<string>,
                                   password: Option<string>, hash: string -> string, newId: string)
    requires ConsistentStore(store)
    ensures ConsistentStore(Signup(store, email, name, password, hash, newId).1)
  {
  }

  /** A response carries a user only after a successful login, and then it
      is the user filed under the given email, without its password. */
  lemma LoginReturnsStoredUser(store: Store, email: Option<string>, password: Option<string>,
                               compare: (string, string) -> bool)
    requires ConsistentStore(store)
    ensures var r := Login(store, email, password, compare);
            r.body.UserBody? ==>
              email.Some? && email.value in store &&
              r.body.user.id == store[email.value].id &&
              r.body.user.email == email.value
  {
  }
}
