/** The user-registration handler (`POST /api/users`): it checks the lengths
    of the submitted username and password, and either rejects the request
    with a fixed 400 error or saves a new user holding a hash of the
    password. The store of users is a sequence that a save appends to; the
    password hasher is a parameter, since it is a foreign library. */
module Users {
  import opened Options

  /** The request body. Every field may be missing. */
  datatype SignupBody = SignupBody(username: Option<string>, name: Option<string>, password: Option<string>)

  /** A saved user: username, display name and password hash. There is no
      field for the plaintext password. */
  datatype User = User(username: string, name: Option<string>, passwordHash: string)

  /** The reply: the fixed validation error, or the user that was saved. */
  datatype Response =
    | BadRequest(status: int, error: string)
    | Saved(user: User)

  /** The reply together with the store after the request. */
  datatype Outcome = Outcome(response: Response, store: seq<User>)

  const MinLength: nat := 3
  const BadRequestStatus: int := 400
  const ShortCredentials: string := "username and password must be at least three characters"

  /** `value ? value : ''`: a missing or empty field counts as `""`. */
  function OrEmpty(value: Option<string>): string {
    match value
    case Some(v) => v
    case None => ""
  }

  /** A field passes when its coerced length is not below the minimum. */
  predicate LongEnough(value: Option<string>) {
    !(|OrEmpty(value)| < MinLength)
  }

  /** Handles one registration request against `store`, hashing with
      `hash`. The request is accepted exactly when both the username and
      the password pass the length check. A rejected request gets the fixed
      400 error and leaves the store as it was; an accepted one appends a
      single user, built from the submitted username and name and the hash
      of the submitted password. */
  function Register(body: SignupBody, store: seq<User>, hash: string -> string): (out: Outcome)
    ensures out.response.Saved? <==> LongEnough(body.username) && LongEnough(body.password)
    ensures out.response.BadRequest? ==>
      && out.response.status == BadRequestStatus
      && out.response.error == ShortCredentials
      && out.store == store
    ensures out.response.Saved? ==>
      && body.username.Some? && body.password.Some?
      && out.response.user.username == body.username.value
      && out.response.user.name == body.name
      && out.response.user.passwordHash == hash(body.password.value)
      && out.store == store + [out.response.user]
  {
    if |OrEmpty(body.username)| < MinLength || |OrEmpty(body.password)| < MinLength then
      Outcome(BadRequest(BadRequestStatus, ShortCredentials), store)
    else
      var user := User(body.username.value, body.name, hash(body.password.value));
      Outcome(Saved(user), store + [user])
  }

  /** A missing username or password is read as `""` and rejected, with
      the fixed error and no change to the store. */
  lemma MissingFieldRejected(body: SignupBody, store: seq<User>, hash: string -> string)
    requires body.username.None? || body.password.None?
    ensures Register(body, store, hash) == Outcome(BadRequest(400, ShortCredentials), store)
  {
  }

  /** A username or a password shorter than three characters is enough on
      its own to reject the request; the other field does not matter. */
  lemma ShortFieldRejected(body: SignupBody, store: seq<User>, hash: string -> string)
    requires (body.username.Some? && |body.username.value| < 3)
          || (body.password.Some? && |body.password.value| < 3)
    ensures Register(body, store, hash).response == BadRequest(400, ShortCredentials)
    ensures Register(body, store, hash).store == store
  {
  }

  /** The bound is inclusive: a username and a password of exactly three
      characters are accepted and a user is saved. */
  lemma ThreeCharactersAccepted(username: string, name: Option<string>, password: string,
                                store: seq<User>, hash: string -> string)
    requires |username| == 3 && |password| == 3
    ensures Register(SignupBody(Some(username), name, Some(password)), store, hash).response
            == Saved(User(username, name, hash(password)))
  {
  }

  /** Every request leaves the users already stored in place and adds at
      most one, and adds one exactly when the reply is a saved user. */
  lemma RegisterOnlyAppends(body: SignupBody, store: seq<User>, hash: string -> string)
    ensures var out := Register(body, store, hash);
      && |store| <= |out.store| <= |store| + 1
      && out.store[..|store|] == store
      && (|out.store| == |store| + 1 <==> out.response.Saved?)
  {
    var out := Register(body, store, hash);
    if out.response.Saved? {
      assert out.store[..|store|] == store;
    }
  }

  /** The saved user depends on the password only through its hash: two
      accepted requests that differ only in passwords with equal hashes save
      the same user, so the plaintext cannot be recovered from the record. */
  lemma SavedUserKeepsOnlyHash(username: Option<string>, name: Option<string>,
                               p1: string, p2: string, store: seq<User>, hash: string -> string)
    requires |p1| >= 3 && |p2| >= 3 && hash(p1) == hash(p2)
    ensures Register(SignupBody(username, name, Some(p1)), store, hash)
         == Register(SignupBody(username, name, Some(p2)), store, hash)
  {
  }
}
