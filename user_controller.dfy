/**
 * The user administration endpoints. A class attribute demands ROLE_ADMIN
 * before any action runs, so a caller without it never reads or changes the
 * users table. Changes reach the table only at the single flush near the end
 * of each handler; a handler that answers earlier commits nothing.
 */
module UserController {
  import opened Common
  import opened UserRole
  import opened Entity
  import opened Storage
  import opened Security
  import opened Views
  import opened UserInput

  const NOT_FOUND_MESSAGE: string := "User not found"

  /** An invalid role in `body`: set, but not one of the backing strings. */
  predicate HasInvalidRole(body: Body)
  {
    Isset(body, ROLE) && !IsBackingValue(body[ROLE])
  }

  /** The shapes of the users stored under `ids`, in that order. */
  function ViewsOf(users: map<nat, UserRow>, ids: seq<nat>): (views: seq<UserView>)
    requires forall i :: 0 <= i < |ids| ==> ids[i] in users
    ensures |views| == |ids|
    ensures forall i :: 0 <= i < |ids| ==> views[i].id == ids[i] && views[i] == UserViewOf(ids[i], users[ids[i]])
    ensures forall id :: id in ids ==> exists i :: 0 <= i < |views| && views[i].id == id
  {
    var views := seq(|ids|, i requires 0 <= i < |ids| => UserViewOf(ids[i], users[ids[i]]));
    forall id | id in ids
      ensures exists i :: 0 <= i < |views| && views[i].id == id
    {
      var i :| 0 <= i < |ids| && ids[i] == id;
      assert views[i].id == id;
    }
    views
  }

  /** `list`: one entry per stored user, in ascending id order. */
  function List(c: Caller, users: map<nat, UserRow>, nextId: nat): (r: Response)
    requires IdsBelow(users, nextId)
    ensures !IsGranted(c, Admin) ==> r == Deny(c)
    ensures IsGranted(c, Admin) ==> r.status == OK && r.payload.UserListJson?
    ensures IsGranted(c, Admin) ==> |r.payload.users| == |users|
    ensures IsGranted(c, Admin) ==>
      var views := r.payload.users;
      && (forall i :: 0 <= i < |views| ==>
            views[i].id in users && views[i] == UserViewOf(views[i].id, users[views[i].id]))
      && (forall i, j :: 0 <= i < j < |views| ==> views[i].id < views[j].id)
      && (forall id :: id in users ==> exists i :: 0 <= i < |views| && views[i].id == id)
  {
    if !IsGranted(c, Admin) then Deny(c)
    else
      var ids := KeysBelow(users, nextId);
      var views := ViewsOf(users, ids);
      ScanCoversTable(users, nextId);
      Response(OK, UserListJson(views))
  }

  /** `show`: for an administrator, 404 exactly when no user has the id. */
  function Show(c: Caller, users: map<nat, UserRow>, id: nat): (r: Response)
    ensures !IsGranted(c, Admin) ==> r == Deny(c)
    ensures IsGranted(c, Admin) ==> (r.status == NOT_FOUND <==> id !in users)
    ensures IsGranted(c, Admin) && id !in users ==> r.payload == Message(NOT_FOUND_MESSAGE)
    ensures IsGranted(c, Admin) && id in users ==> r == Response(OK, UserJson(UserViewOf(id, users[id])))
  {
    if !IsGranted(c, Admin) then Deny(c)
    else if id !in users then Response(NOT_FOUND, Message(NOT_FOUND_MESSAGE))
    else Response(OK, UserJson(UserViewOf(id, users[id])))
  }

  /**
   * `create`: a missing field or an invalid role is a 400 and stores
   * nothing; otherwise one user is stored under the next generated id, with
   * the body's email, name and role and the digest of its password, unless
   * the unique email index rejects it.
   */
  method Create(db: Database, c: Caller, body: Body, hash: Hasher) returns (r: Response)
    requires db.Valid()
    modifies db`users, db`nextUserId
    ensures db.Valid() && db.articles == old(db.articles)
    ensures db.nextArticleId == old(db.nextArticleId) && db.clock == old(db.clock)
    ensures r.status == CREATED <==> db.nextUserId == old(db.nextUserId) + 1
    ensures r.status != CREATED ==> db.users == old(db.users) && db.nextUserId == old(db.nextUserId)
    ensures !IsGranted(c, Admin) ==> r == Deny(c)
    ensures IsGranted(c, Admin) ==>
      match ParseNewUser(body, hash)
      case MissingFields =>
        r == Response(BAD_REQUEST, Message(MISSING_FIELDS_MESSAGE))
      case InvalidRole =>
        r == Response(BAD_REQUEST, Message(INVALID_ROLE_MESSAGE))
      case NewUser(u) =>
        if EmailTaken(old(db.users), u.email) then
          r == Response(SERVER_ERROR, ErrorPage)
        else
          var id := old(db.nextUserId);
          && id !in old(db.users)
          && db.users == old(db.users)[id := u]
          && r == Response(CREATED, UserJson(UserViewOf(id, u)))
  {
    if !IsGranted(c, Admin) {
      return Deny(c);
    }
    match ParseNewUser(body, hash)
    case MissingFields =>
      r := Response(BAD_REQUEST, Message(MISSING_FIELDS_MESSAGE));
    case InvalidRole =>
      r := Response(BAD_REQUEST, Message(INVALID_ROLE_MESSAGE));
    case NewUser(u) =>
      var id := db.InsertUser(u);
      match id
      case None =>
        r := Response(SERVER_ERROR, ErrorPage);
      case Some(newId) =>
        r := Response(CREATED, UserJson(UserViewOf(newId, u)));
  }

  /**
   * `update`: only the fields the body sets change, the password being
   * re-hashed only when one is supplied. An invalid role is a 400 that
   * commits nothing, not even an email or name set earlier in the same
   * request; the unique email index can reject the flush too.
   */
  method Update(db: Database, c: Caller, id: nat, body: Body, hash: Hasher) returns (r: Response)
    requires db.Valid()
    modifies db`users
    ensures db.Valid() && db.articles == old(db.articles) && db.clock == old(db.clock)
    ensures db.nextUserId == old(db.nextUserId) && db.nextArticleId == old(db.nextArticleId)
    ensures !IsGranted(c, Admin) ==> r == Deny(c) && db.users == old(db.users)
    ensures IsGranted(c, Admin) && id !in old(db.users) ==>
      r == Response(NOT_FOUND, Message(NOT_FOUND_MESSAGE)) && db.users == old(db.users)
    ensures IsGranted(c, Admin) && id in old(db.users) && HasInvalidRole(body) ==>
      r == Response(BAD_REQUEST, Message(INVALID_ROLE_MESSAGE)) && db.users == old(db.users)
    ensures IsGranted(c, Admin) && id in old(db.users) && !HasInvalidRole(body) ==>
      var email := if Isset(body, EMAIL) then body[EMAIL] else old(db.users)[id].email;
      (r.status == SERVER_ERROR <==> EmailTaken(old(db.users) - {id}, email)) &&
      (r.status == SERVER_ERROR ==> r == Response(SERVER_ERROR, ErrorPage) && db.users == old(db.users)) &&
      (r.status != SERVER_ERROR ==>
        && id in db.users
        && db.users == old(db.users)[id := db.users[id]]
        && r == Response(OK, UserJson(UserViewOf(id, db.users[id])))
        && var was, u := old(db.users)[id], db.users[id];
        && u.email == (if Isset(body, EMAIL) then body[EMAIL] else was.email)
        && u.name == (if Isset(body, NAME) then body[NAME] else was.name)
        && (if Isset(body, ROLE) then Value(u.role) == body[ROLE] else u.role == was.role)
        && u.password == (if Isset(body, PASSWORD) then hash(body[PASSWORD]) else was.password))
  {
    if !IsGranted(c, Admin) {
      return Deny(c);
    }
    if id !in db.users {
      return Response(NOT_FOUND, Message(NOT_FOUND_MESSAGE));
    }
    var u := db.users[id];
    if Isset(body, EMAIL) {
      u := u.(email := body[EMAIL]);
    }
    if Isset(body, NAME) {
      u := u.(name := body[NAME]);
    }
    if Isset(body, ROLE) {
      match From(body[ROLE])
      case None =>
        return Response(BAD_REQUEST, Message(INVALID_ROLE_MESSAGE));
      case Some(role) =>
        u := u.(role := role);
    }
    if Isset(body, PASSWORD) {
      u := u.(password := hash(body[PASSWORD]));
    }
    var ok := db.UpdateUser(id, u);
    if !ok {
      return Response(SERVER_ERROR, ErrorPage);
    }
    r := Response(OK, UserJson(UserViewOf(id, u)));
  }

  /**
   * `delete`: removes exactly user `id` and answers 204 with a null body,
   * unless the foreign key from articles keeps a user who authors one.
   */
  method Delete(db: Database, c: Caller, id: nat) returns (r: Response)
    requires db.Valid()
    modifies db`users
    ensures db.Valid() && db.articles == old(db.articles) && db.clock == old(db.clock)
    ensures db.nextUserId == old(db.nextUserId) && db.nextArticleId == old(db.nextArticleId)
    ensures !IsGranted(c, Admin) ==> r == Deny(c) && db.users == old(db.users)
    ensures IsGranted(c, Admin) && id !in old(db.users) ==>
      r == Response(NOT_FOUND, Message(NOT_FOUND_MESSAGE)) && db.users == old(db.users)
    ensures IsGranted(c, Admin) && id in old(db.users) ==>
      if IsAuthor(db.articles, id) then
        r == Response(SERVER_ERROR, ErrorPage) && db.users == old(db.users)
      else
        r == Response(NO_CONTENT, Null) && db.users == old(db.users) - {id}
  {
    if !IsGranted(c, Admin) {
      return Deny(c);
    }
    if id !in db.users {
      return Response(NOT_FOUND, Message(NOT_FOUND_MESSAGE));
    }
    var ok := db.DeleteUser(id);
    if !ok {
      return Response(SERVER_ERROR, ErrorPage);
    }
    r := Response(NO_CONTENT, Null);
  }
}
