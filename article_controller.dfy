/**
 * The article endpoints. Reading is open to everyone; creating, updating and
 * deleting carry a method attribute demanding ROLE_AUTHOR, checked before the
 * handler runs. Inside, `create` checks the body's fields, while `update` and
 * `delete` check existence and then "administrator or owner"; only a request
 * that passes every check touches the articles table.
 */
module ArticleController {
  import opened Common
  import opened UserRole
  import opened Entity
  import opened Storage
  import opened Security
  import opened Views

  const TITLE: string := "title"
  const CONTENT: string := "content"
  const NOT_FOUND_MESSAGE: string := "Article not found"
  const ACCESS_DENIED_MESSAGE: string := "Access denied"

  /** Both the title and the content are present and not null. */
  predicate HasTitleAndContent(body: Body)
  {
    Isset(body, TITLE) && Isset(body, CONTENT)
  }

  /** The check that stops a request, or `Proceed` when none does. */
  datatype Check = AttributeDenied | NotFound | MissingFields | InlineDenied | NotOwner | Proceed

  /** The article shape of the row stored under `id`, with its author's name. */
  function ViewOf(articles: map<nat, ArticleRow>, users: map<nat, UserRow>, id: nat): ArticleView
    requires id in articles && AuthorsExist(articles, users)
  {
    ArticleViewOf(id, articles[id], users[articles[id].author])
  }

  function Lookup(articles: map<nat, ArticleRow>, id: nat): Option<ArticleRow>
  {
    if id in articles then Some(articles[id]) else None
  }

  /** The shapes of the articles stored under `ids`, in that order. */
  function ViewsOf(articles: map<nat, ArticleRow>, users: map<nat, UserRow>, ids: seq<nat>): (views: seq<ArticleView>)
    requires AuthorsExist(articles, users)
    requires forall i :: 0 <= i < |ids| ==> ids[i] in articles
    ensures |views| == |ids|
    ensures forall i :: 0 <= i < |ids| ==> views[i].id == ids[i] && views[i] == ViewOf(articles, users, ids[i])
    ensures forall id :: id in ids ==> exists i :: 0 <= i < |views| && views[i].id == id
  {
    var views := seq(|ids|, i requires 0 <= i < |ids| => ViewOf(articles, users, ids[i]));
    forall id | id in ids
      ensures exists i :: 0 <= i < |views| && views[i].id == id
    {
      var i :| 0 <= i < |ids| && ids[i] == id;
      assert views[i].id == id;
    }
    views
  }

  /**
   * `list`: one entry per stored article, in the table's scan order
   * (ascending id), each the shape of that article.
   */
  function List(articles: map<nat, ArticleRow>, users: map<nat, UserRow>, nextId: nat): (r: Response)
    requires AuthorsExist(articles, users) && IdsBelow(articles, nextId)
    ensures r.status == OK && r.payload.ArticleListJson?
    ensures |r.payload.articles| == |articles|
    ensures var views := r.payload.articles;
      && (forall i :: 0 <= i < |views| ==>
            views[i].id in articles && views[i] == ViewOf(articles, users, views[i].id))
      && (forall i, j :: 0 <= i < j < |views| ==> views[i].id < views[j].id)
      && (forall id :: id in articles ==> exists i :: 0 <= i < |views| && views[i].id == id)
  {
    var ids := KeysBelow(articles, nextId);
    var views := ViewsOf(articles, users, ids);
    ScanCoversTable(articles, nextId);
    Response(OK, ArticleListJson(views))
  }

  /** `show`: 404 exactly when no article has the id, else its shape. */
  function Show(articles: map<nat, ArticleRow>, users: map<nat, UserRow>, id: nat): (r: Response)
    requires AuthorsExist(articles, users)
    ensures r.status == NOT_FOUND <==> id !in articles
    ensures id !in articles ==> r.payload == Message(NOT_FOUND_MESSAGE)
    ensures id in articles ==> r == Response(OK, ArticleJson(ViewOf(articles, users, id)))
  {
    if id !in articles then Response(NOT_FOUND, Message(NOT_FOUND_MESSAGE))
    else Response(OK, ArticleJson(ViewOf(articles, users, id)))
  }

  /**
   * The checks of `create`, in the handler's order: the ROLE_AUTHOR attribute
   * (before the body is read), the required fields, then the inline role
   * check, which can never fire once the attribute has passed.
   */
  function CheckCreate(c: Caller, body: Body): (k: Check)
    ensures k == AttributeDenied <==> !IsGranted(c, Author)
    ensures k == MissingFields <==> IsGranted(c, Author) && !HasTitleAndContent(body)
    ensures k != InlineDenied
    ensures k == Proceed <==> IsGranted(c, Author) && HasTitleAndContent(body)
  {
    if !IsGranted(c, Author) then AttributeDenied
    else if !HasTitleAndContent(body) then MissingFields
    else if !IsGranted(c, Author) && !IsGranted(c, Admin) then InlineDenied
    else Proceed
  }

  /**
   * The checks of `update` and `delete`, in the handlers' order: the
   * ROLE_AUTHOR attribute, existence, then "administrator, or the article's
   * author holding ROLE_AUTHOR".
   */
  function CheckOwned(c: Caller, found: Option<ArticleRow>): (k: Check)
    ensures k == AttributeDenied <==> !IsGranted(c, Author)
    ensures k == NotFound <==> IsGranted(c, Author) && found.None?
    ensures k == NotOwner <==>
      IsGranted(c, Author) && found.Some? && !IsGranted(c, Admin) && found.value.author != c.id
    ensures k == Proceed <==>
      IsGranted(c, Author) && found.Some? && (IsGranted(c, Admin) || found.value.author == c.id)
  {
    if !IsGranted(c, Author) then AttributeDenied
    else if found.None? then NotFound
    else if !IsGranted(c, Admin) && (found.value.author != c.id || !IsGranted(c, Author)) then NotOwner
    else Proceed
  }

  /** The response of a request some check stopped. */
  function Refusal(c: Caller, k: Check): (r: Response)
    requires k != Proceed
    ensures k == AttributeDenied ==> r == Deny(c)
    ensures k == NotFound ==> r == Response(NOT_FOUND, Message(NOT_FOUND_MESSAGE))
    ensures k == MissingFields ==> r == Response(BAD_REQUEST, Message(MISSING_FIELDS_MESSAGE))
    ensures k == InlineDenied || k == NotOwner ==> r == Response(FORBIDDEN, Message(ACCESS_DENIED_MESSAGE))
  {
    match k
    case AttributeDenied => Deny(c)
    case NotFound => Response(NOT_FOUND, Message(NOT_FOUND_MESSAGE))
    case MissingFields => Response(BAD_REQUEST, Message(MISSING_FIELDS_MESSAGE))
    case _ => Response(FORBIDDEN, Message(ACCESS_DENIED_MESSAGE))
  }

  /**
   * `create`: a refused request leaves the table as it was; otherwise
   * exactly one article is added, under the next generated id, with the
   * body's title and content, the current user as author, `createdAt` at the
   * first clock reading and `updatedAt` at the second.
   */
  method Create(db: Database, c: Caller, body: Body, created: nat, updated: nat) returns (r: Response)
    requires db.Valid() && CurrentUserStored(c, db.users) && db.clock <= created <= updated
    modifies db`articles, db`nextArticleId, db`clock
    ensures db.Valid()
    ensures db.users == old(db.users) && db.nextUserId == old(db.nextUserId)
    ensures CheckCreate(c, body) != Proceed ==>
      && db.articles == old(db.articles) && r == Refusal(c, CheckCreate(c, body))
      && db.nextArticleId == old(db.nextArticleId) && db.clock == old(db.clock)
    ensures CheckCreate(c, body) == Proceed ==>
      var id := old(db.nextArticleId);
      && id !in old(db.articles)
      && db.nextArticleId == id + 1 && db.clock == updated
      && db.articles == old(db.articles)[id := ArticleRow(body[TITLE], body[CONTENT], c.id, created, updated)]
      && r == Response(CREATED, ArticleJson(ViewOf(db.articles, db.users, id)))
  {
    var k := CheckCreate(c, body);
    if k != Proceed {
      return Refusal(c, k);
    }
    var article := new Article();
    var _ := article.SetTitle(body[TITLE]);
    var _ := article.SetContent(body[CONTENT]);
    var _ := article.SetAuthor(c.id);
    // persist runs the PrePersist callback, flush writes the row
    db.Tick(updated);
    article.SetCreatedAtValue(created, updated);
    var id := db.InsertArticle(article.Row());
    article.id := Some(id);
    r := Response(CREATED, ArticleJson(ViewOf(db.articles, db.users, id)));
  }

  /**
   * `update`: a refused request leaves the table as it was; otherwise only
   * article `id` changes, and in it only the fields the body sets. Its id,
   * author and creation time are kept, and the update time moves to the
   * current clock reading exactly when the title or content changed (the
   * PreUpdate callback runs only for a row flush actually writes).
   */
  method Update(db: Database, c: Caller, id: nat, body: Body, now: nat) returns (r: Response)
    requires db.Valid() && CurrentUserStored(c, db.users) && db.clock <= now
    modifies db`articles, db`clock
    ensures db.Valid()
    ensures db.users == old(db.users)
    ensures db.nextUserId == old(db.nextUserId) && db.nextArticleId == old(db.nextArticleId)
    ensures CheckOwned(c, Lookup(old(db.articles), id)) != Proceed ==>
      && db.articles == old(db.articles) && r == Refusal(c, CheckOwned(c, Lookup(old(db.articles), id)))
      && db.clock == old(db.clock)
    ensures CheckOwned(c, Lookup(old(db.articles), id)) == Proceed ==>
      && id in old(db.articles) && id in db.articles && db.clock == now
      && db.articles == old(db.articles)[id := db.articles[id]]
      && r == Response(OK, ArticleJson(ViewOf(db.articles, db.users, id)))
      && var was, after := old(db.articles)[id], db.articles[id];
      && after.title == (if Isset(body, TITLE) then body[TITLE] else was.title)
      && after.content == (if Isset(body, CONTENT) then body[CONTENT] else was.content)
      && after.author == was.author
      && after.createdAt == was.createdAt
      && after.updatedAt == (if after.title == was.title && after.content == was.content then was.updatedAt else now)
  {
    var k := CheckOwned(c, Lookup(db.articles, id));
    if k != Proceed {
      return Refusal(c, k);
    }
    var before := db.articles[id];
    var article := new Article.Load(id, before);
    if Isset(body, TITLE) {
      var _ := article.SetTitle(body[TITLE]);
    }
    if Isset(body, CONTENT) {
      var _ := article.SetContent(body[CONTENT]);
    }
    // flush: PreUpdate runs for a changed row only
    db.Tick(now);
    if article.Row() != before {
      article.SetUpdatedAtValue(now);
    }
    db.UpdateArticle(id, article.Row());
    r := Response(OK, ArticleJson(ViewOf(db.articles, db.users, id)));
  }

  /**
   * `delete`: a refused request leaves the table as it was; otherwise
   * exactly article `id` is removed and the answer is 204 with a null body.
   */
  method Delete(db: Database, c: Caller, id: nat) returns (r: Response)
    requires db.Valid() && CurrentUserStored(c, db.users)
    modifies db`articles
    ensures db.Valid()
    ensures db.users == old(db.users) && db.clock == old(db.clock)
    ensures db.nextUserId == old(db.nextUserId) && db.nextArticleId == old(db.nextArticleId)
    ensures CheckOwned(c, Lookup(old(db.articles), id)) != Proceed ==>
      db.articles == old(db.articles) && r == Refusal(c, CheckOwned(c, Lookup(old(db.articles), id)))
    ensures CheckOwned(c, Lookup(old(db.articles), id)) == Proceed ==>
      && id in old(db.articles)
      && db.articles == old(db.articles) - {id}
      && r == Response(NO_CONTENT, Null)
  {
    var k := CheckOwned(c, Lookup(db.articles, id));
    if k != Proceed {
      return Refusal(c, k);
    }
    db.DeleteArticle(id);
    r := Response(NO_CONTENT, Null);
  }

  /**
   * Existence is checked before permission: an author who owns neither
   * article tells a missing id (404) from another author's article (403).
   */
  lemma ExistenceBeforeOwnership(c: Caller, other: ArticleRow)
    requires IsGranted(c, Author) && !IsGranted(c, Admin) && other.author != c.id
    ensures Refusal(c, CheckOwned(c, None)).status == NOT_FOUND
    ensures Refusal(c, CheckOwned(c, Some(other))).status == FORBIDDEN
  {
  }

  /**
   * A signed-in caller whose roles do not include ROLE_AUTHOR, such as a
   * reader, is forbidden to create an article whatever the body says.
   */
  lemma ReaderCannotCreate(c: Caller, body: Body)
    requires c.Authenticated? && Author !in c.grants
    ensures Refusal(c, CheckCreate(c, body)) == Response(FORBIDDEN, ErrorPage)
  {
  }

  /**
   * An administrator may update or delete any article, provided the role
   * hierarchy lets ROLE_ADMIN pass the ROLE_AUTHOR attribute; without that
   * hierarchy the attribute refuses an administrator who lacks ROLE_AUTHOR.
   */
  lemma AdminManagesAnyArticle(c: Caller, row: ArticleRow)
    requires IsGranted(c, Admin)
    ensures AdminInheritsAuthor(c) ==> CheckOwned(c, Some(row)) == Proceed
    ensures !IsGranted(c, Author) ==> Refusal(c, CheckOwned(c, Some(row))) == Response(FORBIDDEN, ErrorPage)
  {
  }
}
