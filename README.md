# Role-based CMS backend: request decisions

This project models the request-decision logic of a small content-management
backend. It serves users and articles over REST, with three roles: admin,
author and reader. The model covers the following:

- **Article endpoints** (module `ArticleController`). `list` and `show` are open
  to everyone. `create`, `update` and `delete` carry a ROLE_AUTHOR attribute
  that is checked before the handler runs. Inside the handler, `create` checks
  the body's fields. `update` and `delete` first check that the article exists
  (404), then check "administrator, or the article's author" (403). Only then
  does the handler touch the articles table. `update` writes only the fields
  the body sets.
- **User administration** (module `UserController`). A class attribute
  demands ROLE_ADMIN for every action. The module covers create, update and
  delete with a single flush at the end. A request answered before that flush
  commits nothing; this includes an invalid role found after the email and
  name were already set.
- **Registration and login** (module `AuthController`). Registration checks
  the body, parses the role, then stores a user with a hashed password.
  Login maps the security layer's verdict to 401 or to a profile.
- **The article entity** (class `Entity.Article`). Each setter assigns one
  field in place and returns the object. The PrePersist and PreUpdate
  callbacks give the timestamp lifecycle.
- **The role enum** (module `UserRole`). This is the three cases and their
  backing strings. `From` is the partial parser and `Value` the printer.

The model has no real database or security layer. Persistence is an in-memory
store (class `Storage.Database`) holding one map from generated ids to rows per
table. Ids come from AUTOINCREMENT counters that start at 1. The users table
has the unique email index, and the articles table has the author foreign key.
`Database.Valid()` is the store invariant. It holds that ids lie below the
counters, emails are unique, every article's author exists, and
`createdAt <= updatedAt <=` the latest clock reading. Every handler keeps it.

The following are inputs to the model:

- **The caller** (`Security.Caller`). It is either anonymous or a user id with
  the set of roles the framework grants. `IsGranted` is therefore an
  uninterpreted predicate.
- **The password hasher.** It is an opaque function `string -> string`.
- **The clock.** It is a `now: nat` argument that is never below the previous
  reading.

Two more points about the model:

- The role hierarchy is not part of the code. Facts that need an
  administrator to pass the ROLE_AUTHOR attribute take
  `Security.AdminInheritsAuthor` as an explicit hypothesis.
- Lines 79-81 of `src/Controller/ArticleController.php` hold an inline role
  check. Once the attribute at line 67 has passed, that check cannot fire:
  `ArticleController.CheckCreate` ensures it is never the check that stops a
  request.

The code departs from the policy one might read into the roles' names, and
the model follows the code:

- **Admins and the ROLE_AUTHOR attribute.** A policy in which an
  administrator may do anything to an article does not hold as such. In the
  code, an administrator
  must first pass the ROLE_AUTHOR attribute, which holds only under the
  hierarchy assumption. `ArticleController.AdminManagesAnyArticle` states
  both sides.
- **Order of checks in `create`.** The body's fields are not validated
  before authorisation. The code checks the ROLE_AUTHOR attribute first, so
  a refused caller gets 403 whatever the body holds.
- **Login.** Login issues no token. The code answers with the user's profile
  only.
- **Reading articles.** Reads are open to everyone: the code has no check on
  `list` or `show`, so the model has none either.

## Model

| member | source | states |
|---|---|---|
| UserRole.Value | src/Enum/UserRole.php:9-11 | every role prints as one of the three backing strings |
| UserRole.From | src/Enum/UserRole.php:7-12 | parsing succeeds exactly on the three backing strings, and then prints back to the same string; every other string fails |
| UserRole.FromValue | src/Enum/UserRole.php:7-12 | `from(r.value) == r` for every role |
| UserRole.ValueInjective | src/Enum/UserRole.php:9-11 | distinct roles have distinct backing strings |
| UserRole.ThreeRoles | src/Enum/UserRole.php:9-11 | there are exactly three roles and three distinct backing strings |
| Entity.Article.constructor | src/Entity/Article.php:15-18 | a new article's id is null until storage assigns one |
| Entity.Article.Load | src/Entity/Article.php:15-34 | a loaded entity carries its stored id and exactly the stored row |
| Entity.Article.SetTitle | src/Entity/Article.php:46-50 | only the title may change (field frame); `getTitle` then returns the new title; the result is the same object |
| Entity.Article.SetContent | src/Entity/Article.php:57-61 | only the content may change; `getContent` returns the new content; the result is the same object |
| Entity.Article.SetAuthor | src/Entity/Article.php:68-72 | only the author may change; `getAuthor` returns the new author; the result is the same object |
| Entity.Article.SetCreatedAtValue | src/Entity/Article.php:84-89 | PrePersist sets `createdAt` from one clock reading and `updatedAt` from a second, later or equal one, so `updatedAt >= createdAt` |
| Entity.Article.SetUpdatedAtValue | src/Entity/Article.php:91-95 | PreUpdate moves only `updatedAt`; `createdAt` is unchanged; with a non-decreasing clock the timestamps stay ordered |
| Storage.KeysBelow | src/Controller/ArticleController.php:28 | the rows a full table scan returns: ascending ids, each stored, every stored id present |
| Storage.KeysBelowCount | src/Controller/ArticleController.php:28-39 | the scan holds exactly as many ids as the table has rows (induction on the bound) |
| Storage.ScanCoversTable | src/Controller/UserController.php:30-36 | for a table whose ids lie below the counter, the scan has one entry per row |
| Storage.Database.constructor | migrations/Version20240320000000.php:19-38 | a fresh store has empty tables, both id counters at 1 (so the first row of each table gets id 1) and the clock at 0, and satisfies the store invariant |
| Storage.Database.InsertUser | migrations/Version20240320000000.php:26 | a new user gets the next id unless its email is already stored, in which case neither the table nor the id counter changes; a successful insert advances the counter by exactly one, so no id is ever reused; the store invariant, including unique emails, is kept |
| Storage.Database.UpdateUser | migrations/Version20240320000000.php:26 | a changed user row is written unless another user has its email |
| Storage.Database.DeleteUser | migrations/Version20240320000000.php:35 | a user is removed unless an article still references it |
| Storage.Database.InsertArticle | migrations/Version20240320000000.php:28-36 | a new article gets the next id, the counter advances by exactly one, and no other row changes |
| Storage.Database.UpdateArticle | migrations/Version20240320000000.php:28-36 | only the given article's row changes |
| Storage.Database.DeleteArticle | migrations/Version20240320000000.php:28-36 | exactly the given article is removed |
| Storage.Database.Tick | src/Entity/Article.php:87-88 | the clock reading never goes backwards |
| Security.Deny | src/Controller/ArticleController.php:67 | an attribute denial answers 401 to an anonymous caller and 403 to a signed-in one |
| Views.UserViewOf | src/Controller/UserController.php:50-55 | the user shape carries id, email and name, and a role string that parses back to the user's role |
| Views.ArticleViewOf | src/Controller/ArticleController.php:29-39 | the article shape carries the id, title, content, author id, the author's current name and both timestamps (the same shape at lines 53-63, 91-101 and 132-142) |
| Views.ArticleViewShowsAuthorName | src/Controller/ArticleController.php:33-36 | two article shapes of one row agree exactly when the authors' names agree: the author's email, digest and role never appear |
| Views.ViewsHidePassword | src/Controller/UserController.php:31-36 | no user shape depends on the stored password |
| ArticleController.List | src/Controller/ArticleController.php:25-41 | status 200; exactly one entry per stored article (as many entries as rows, every id present), in ascending id order, each the shape of that article |
| ArticleController.Show | src/Controller/ArticleController.php:44-63 | 404 exactly when no article has the id; otherwise 200 with that article's shape |
| ArticleController.CheckCreate | src/Controller/ArticleController.php:66-81 | the ROLE_AUTHOR attribute stops a request whatever the body; missing title or content is next; the inline check at lines 79-81 never fires |
| ArticleController.CheckOwned | src/Controller/ArticleController.php:104-119 | attribute first, then 404 before any ownership check, then 403 exactly for a caller who is neither admin nor the author |
| ArticleController.Refusal | src/Controller/ArticleController.php:110-118 | the status and message for each check that stops a request |
| ArticleController.Create | src/Controller/ArticleController.php:66-101 | a refused request leaves both tables, both id counters and the clock unchanged; otherwise one article is added under the next id, the article counter advances by one and the clock takes the second reading, with the body's title and content, the caller as author, `createdAt` at the first clock reading and `updatedAt` at the second; 201 with its shape; the users table and its counter are untouched |
| ArticleController.Update | src/Controller/ArticleController.php:104-142 | both id counters never move; a refused request also leaves both tables and the clock unchanged; otherwise the clock takes `now` and only that article changes, only in the fields the body sets, with id, author and createdAt kept; updatedAt moves to `now` exactly when a field changed; 200 with its shape |
| ArticleController.Delete | src/Controller/ArticleController.php:145-165 | both id counters and the clock never move, so a deleted id is never handed out again; a refused request leaves both tables unchanged; otherwise exactly that article is removed, all others are kept, and the answer is 204 with a null body |
| ArticleController.ExistenceBeforeOwnership | src/Controller/ArticleController.php:108-119 | a non-owning author gets 404 for a missing id and 403 for another author's article, so the two cases can be told apart |
| ArticleController.ReaderCannotCreate | tests/Controller/ArticleControllerTest.php:58-73 | a signed-in caller without ROLE_AUTHOR gets 403 on create, whatever the body |
| ArticleController.AdminManagesAnyArticle | src/Controller/ArticleController.php:158-160 | under the hierarchy assumption an admin passes every check on an existing article; without ROLE_AUTHOR the attribute refuses an admin with 403 |
| UserInput.ParseNewUser | src/Controller/UserController.php:61-79 | missing field gives 400, then an invalid role gives 400; otherwise the record has the body's email and name, the digest of the password, and the role the string names |
| UserController.List | src/Controller/UserController.php:27-39 | non-admins are denied; otherwise one entry per stored user, in ascending id order, each the user's shape |
| UserController.Show | src/Controller/UserController.php:41-56 | non-admins are denied; for admins, 404 exactly when no user has the id, else that user's shape |
| UserController.Create | src/Controller/UserController.php:58-90 | the user counter advances by one exactly when the answer is 201, and any other answer leaves the users table and counter unchanged; the articles table, its counter and the clock never move; non-admins are denied; missing fields or an invalid role give 400; otherwise one user with the body's email, name and role and the hashed password is stored, with 201, unless the email is taken (500) |
| UserController.Update | src/Controller/UserController.php:92-131 | both id counters, the clock and the articles table never move; non-admins are denied; a missing id gives 404; an invalid role gives 400 and commits nothing; otherwise 500, with nothing committed, exactly when another user already has the resulting email; else 200 and only the fields the body sets change, the password being re-hashed only when supplied |
| UserController.Delete | src/Controller/UserController.php:133-146 | both id counters, the clock and the articles table never move, so a deleted user's id is never reused; non-admins are denied; a missing id gives 404; otherwise exactly that user is removed with 204, unless they author an article |
| AuthController.Register | src/Controller/AuthController.php:25-52 | no authentication needed; the user counter advances by one exactly when the answer is 201, and any other answer leaves the users table and counter unchanged; the articles table, its counter and the clock never move; missing fields or an invalid role give 400; otherwise exactly one user with the hashed password is stored and the answer is 201 with only a message; a duplicate email adds no second user |
| AuthController.Login | src/Controller/AuthController.php:54-70 | no authenticated user gives 401 with "Invalid credentials."; otherwise 200 with email, name and a role string that parses back to the role, and no password |
| AuthController.RegisterAcceptsEveryRole | src/Controller/AuthController.php:34-38 | every role, ROLE_ADMIN included, is accepted by registration |

## Left out

- Persistence internals: the ORM's identity map, lazy loading of the author,
  `find`, `findAll`, `persist`, `flush` and `remove`. These are modelled as
  operations on maps. A full scan returns rows in ascending id order, which is
  AUTOINCREMENT order.
- Constraint enforcement: the unique email index and the author foreign key
  are taken to be enforced as the migration declares them. The migration is
  SQLite DDL, and SQLite enforces a `FOREIGN KEY` only on a connection with
  `PRAGMA foreign_keys = ON`, which nothing in the code sets; the 500 that
  `UserController.Delete` gives for deleting an author holds only under that
  setting. Without it the user would be removed and the article would keep a
  dangling author. A violation is
  answered with a generic 500 and nothing is stored. The framework renders
  that error page itself, so its body is not modelled.
- Doctrine writes only changed entities: PreUpdate runs during flush only
  when the title or content actually changed. This is why `update` moves
  `updatedAt` only then.
- The security layer: the firewall, resolution of the current user, the role
  hierarchy and the password check behind login. The caller's granted roles
  and identity are inputs. The current user is assumed to be a stored user
  (`Security.CurrentUserStored`).
- Token issuance for `/auth/login`: the handler returns no token, although
  tests/Controller/ArticleControllerTest.php reads one at line 55 and calls `/articles` rather than
  `/api/articles`. Routing and URL matching are not modelled.
- A credential store, token validation and a central table of
  role-by-action decisions: none of them exists in the code, so none is
  modelled; each handler's checks are modelled where they stand.
- Password hashing: the hasher is an opaque deterministic function of the
  plaintext. Its random salt and its user argument are not modelled.
- UserController.Create: states that the stored password is the hasher's
  output. That this output differs from the plaintext is a property of the
  hasher, which is opaque, so it is not stated.
- AuthController.Register: states that the stored password is the hasher's
  output, not that it differs from the plaintext, for the same reason.
- JSON decoding: a body is a map of string fields that are present and not
  null, which is what `isset` sees. A body that does not decode counts as
  having no fields. A field of another JSON type would be a type error under
  strict types; this is not modelled.
- Timestamp formatting: ISO 8601 rendering with `format('c')` is not
  modelled. Timestamps are clock readings as naturals.
- Uninitialised properties: PHP leaves an article's typed properties unset
  until a setter or PrePersist assigns them, and reading one throws. The
  model gives them default values. Every handler assigns them before it
  reads them.
- src/Entity/User.php is not part of this model. A user is a value record,
  and its setters are record updates on a local copy that is written back
  at flush.
- Getters: `getId`, `getTitle`, `getContent`, `getAuthor`, `getCreatedAt` and
  `getUpdatedAt` are plain reads of the fields. The setter and callback
  contracts state what the getters return.
- Concurrency: requests are modelled one at a time.
- Negative ids: the routes take a PHP `int $id`, and a negative id finds
  nothing and answers 404. Handlers here take `id: nat`, so such a request
  cannot be expressed; its answer is the same as for any absent id.
