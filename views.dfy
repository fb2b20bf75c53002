/**
 * Response shapes. A response is a status code and a JSON payload; none of
 * the user shapes has a password field, so no response can carry one.
 */
module Views {
  import opened Common
  import opened UserRole
  import opened Entity

  datatype ArticleView = ArticleView(
    id: nat,
    title: string,
    content: string,
    authorId: nat,
    authorName: string,
    createdAt: nat,
    updatedAt: nat)

  datatype UserView = UserView(id: nat, email: string, name: string, role: string)

  /** The profile `login` answers with: no id and no password. */
  datatype Profile = Profile(email: string, name: string, role: string)

  datatype Payload =
    | Message(text: string)
    | ArticleJson(article: ArticleView)
    | ArticleListJson(articles: seq<ArticleView>)
    | UserJson(user: UserView)
    | UserListJson(users: seq<UserView>)
    | ProfileJson(profile: Profile)
    | Null
      /** The framework's own error page, rendered outside the controllers. */
    | ErrorPage

  datatype Response = Response(status: nat, payload: Payload)

  /** The article shape: its fields plus the author's id and current name. */
  function ArticleViewOf(id: nat, row: ArticleRow, author: UserRow): (v: ArticleView)
    ensures v.id == id && v.title == row.title && v.content == row.content
    ensures v.authorId == row.author && v.authorName == author.name
    ensures v.createdAt == row.createdAt && v.updatedAt == row.updatedAt
  {
    ArticleView(id, row.title, row.content, row.author, author.name, row.createdAt, row.updatedAt)
  }

  /** The user shape: the role as its backing string, never the password. */
  function UserViewOf(id: nat, u: UserRow): (v: UserView)
    ensures v.id == id && v.email == u.email && v.name == u.name
    ensures From(v.role) == Some(u.role)
  {
    FromValue(u.role);
    UserView(id, u.email, u.name, Value(u.role))
  }

  /** No user shape depends on the stored password. */
  lemma ViewsHidePassword(id: nat, u: UserRow, digest: string)
    ensures UserViewOf(id, u.(password := digest)) == UserViewOf(id, u)
  {
  }

  /**
   * The article shape depends on its author only through the author's
   * current name: never the email, the digest or the role.
   */
  lemma ArticleViewShowsAuthorName(id: nat, row: ArticleRow, a: UserRow, b: UserRow)
    ensures ArticleViewOf(id, row, a) == ArticleViewOf(id, row, b) <==> a.name == b.name
  {
  }
}
