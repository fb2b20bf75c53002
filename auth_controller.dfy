/**
 * Registration and login. Neither endpoint checks a role: anyone may
 * register, with any of the three roles. Checking the presented password is
 * the security layer's work; `login` only receives its verdict, the
 * authenticated user or nothing.
 */
module AuthController {
  import opened Common
  import opened UserRole
  import opened Entity
  import opened Storage
  import opened Views
  import opened UserInput

  const REGISTERED_MESSAGE: string := "User registered successfully"
  const INVALID_CREDENTIALS_MESSAGE: string := "Invalid credentials."

  /**
   * `register`: a missing field or an invalid role is a 400 and creates no
   * user; otherwise exactly one user is stored, with the digest of the
   * password, and the answer is 201 with only a message. The unique email
   * index rejects a second user with an email already stored.
   */
  method Register(db: Database, body: Body, hash: Hasher) returns (r: Response)
    requires db.Valid()
    modifies db`users, db`nextUserId
    ensures db.Valid() && db.articles == old(db.articles)
    ensures db.nextArticleId == old(db.nextArticleId) && db.clock == old(db.clock)
    ensures r.status == CREATED <==> db.nextUserId == old(db.nextUserId) + 1
    ensures r.status != CREATED ==> db.users == old(db.users) && db.nextUserId == old(db.nextUserId)
    ensures
      match ParseNewUser(body, hash)
      case MissingFields =>
        r == Response(BAD_REQUEST, Message(MISSING_FIELDS_MESSAGE))
      case InvalidRole =>
        r == Response(BAD_REQUEST, Message(INVALID_ROLE_MESSAGE))
      case NewUser(u) =>
        if EmailTaken(old(db.users), u.email) then
          r == Response(SERVER_ERROR, ErrorPage)
        else
          var id := old(db.nextUserId);
          && id !in old(db.users)
          && db.users == old(db.users)[id := u]
          && r == Response(CREATED, Message(REGISTERED_MESSAGE))
  {
    match ParseNewUser(body, hash)
    case MissingFields =>
      r := Response(BAD_REQUEST, Message(MISSING_FIELDS_MESSAGE));
    case InvalidRole =>
      r := Response(BAD_REQUEST, Message(INVALID_ROLE_MESSAGE));
    case NewUser(u) =>
      var id := db.InsertUser(u);
      r := if id.None? then Response(SERVER_ERROR, ErrorPage) else Response(CREATED, Message(REGISTERED_MESSAGE));
  }

  /**
   * `login`: 401 with "Invalid credentials." when authentication produced
   * no user; otherwise the user's email, name and role string, which parses
   * back to the user's role, and never a password.
   */
  function Login(user: Option<UserRow>): (r: Response)
    ensures r.status == UNAUTHORIZED <==> user.None?
    ensures user.None? ==> r.payload == Message(INVALID_CREDENTIALS_MESSAGE)
    ensures user.Some? ==>
      && r.status == OK && r.payload.ProfileJson?
      && r.payload.profile.email == user.value.email
      && r.payload.profile.name == user.value.name
      && From(r.payload.profile.role) == Some(user.value.role)
  {
    match user
    case None => Response(UNAUTHORIZED, Message(INVALID_CREDENTIALS_MESSAGE))
    case Some(u) =>
      FromValue(u.role);
      Response(OK, ProfileJson(Profile(u.email, u.name, Value(u.role))))
  }

  /**
   * Registration accepts each of the three roles, ROLE_ADMIN included, from
   * an unauthenticated caller: a complete body naming a role by its backing
   * string parses to a user with exactly that role.
   */
  lemma RegisterAcceptsEveryRole(body: Body, hash: Hasher, role: Role)
    requires HasAllFields(body) && body[ROLE] == Value(role)
    ensures ParseNewUser(body, hash) == NewUser(UserRow(body[EMAIL], hash(body[PASSWORD]), body[NAME], role))
  {
    FromValue(role);
  }
}
