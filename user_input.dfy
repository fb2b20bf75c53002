/**
 * The validation that user creation and registration perform identically on
 * a request body: all four fields set, then the role string parsed, then a
 * new user record with the password replaced by the hasher's digest.
 */
module UserInput {
  import opened Common
  import opened UserRole
  import opened Entity

  const EMAIL: string := "email"
  const PASSWORD: string := "password"
  const NAME: string := "name"
  const ROLE: string := "role"
  const INVALID_ROLE_MESSAGE: string := "Invalid role"

  /** The password hasher, an opaque function of the plaintext. */
  type Hasher = string -> string

  /** All four fields, email, password, name and role, are present and not null. */
  predicate HasAllFields(body: Body)
  {
    Isset(body, EMAIL) && Isset(body, PASSWORD) && Isset(body, NAME) && Isset(body, ROLE)
  }

  datatype Parsed = MissingFields | InvalidRole | NewUser(user: UserRow)

  /** The two 400 answers, or the user record to store. */
  function ParseNewUser(body: Body, hash: Hasher): (p: Parsed)
    ensures p == MissingFields <==> !HasAllFields(body)
    ensures p == InvalidRole <==> HasAllFields(body) && !IsBackingValue(body[ROLE])
    ensures p.NewUser? ==>
      && p.user.email == body[EMAIL] && p.user.name == body[NAME]
      && p.user.password == hash(body[PASSWORD])
      && Value(p.user.role) == body[ROLE]
  {
    if !HasAllFields(body) then MissingFields
    else
      match From(body[ROLE])
      case None => InvalidRole
      case Some(role) => NewUser(UserRow(body[EMAIL], hash(body[PASSWORD]), body[NAME], role))
  }
}
