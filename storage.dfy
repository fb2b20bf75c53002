/**
 * The relational store as in-memory tables: each table maps generated ids to
 * rows, ids come from an AUTOINCREMENT counter that starts at 1, the users
 * table carries a unique index on `email` and the articles table a foreign key
 * from `author` to the users table. A constraint violation at flush rejects the
 * whole write.
 */
module Storage {
  import opened Common
  import opened Entity

  /** The unique index on `users.email`: no two users share an email. */
  ghost predicate UniqueEmails(users: map<nat, UserRow>)
  {
    forall i, j :: i in users && j in users && users[i].email == users[j].email ==> i == j
  }

  predicate EmailTaken(users: map<nat, UserRow>, email: string)
  {
    exists i :: i in users && users[i].email == email
  }

  /** The foreign key `articles.author_id -> users.id`. */
  ghost predicate AuthorsExist(articles: map<nat, ArticleRow>, users: map<nat, UserRow>)
  {
    forall id :: id in articles ==> articles[id].author in users
  }

  /** True when the user stored under `userId` authors some article. */
  predicate IsAuthor(articles: map<nat, ArticleRow>, userId: nat)
  {
    exists id :: id in articles && articles[id].author == userId
  }

  /** Every id stored in `m` lies in the range `1 .. nextId - 1`. */
  ghost predicate IdsBelow<V>(m: map<nat, V>, nextId: nat)
  {
    forall id :: id in m ==> 0 < id < nextId
  }

  ghost predicate Ascending(ids: seq<nat>)
  {
    forall i, j :: 0 <= i < j < |ids| ==> ids[i] < ids[j]
  }

  /**
   * The ids stored in `m` below `bound`, in ascending order: the order in
   * which a full scan of an AUTOINCREMENT table returns its rows.
   */
  function KeysBelow<V>(m: map<nat, V>, bound: nat): (ids: seq<nat>)
    ensures Ascending(ids)
    ensures forall i :: 0 <= i < |ids| ==> ids[i] in m && ids[i] < bound
    ensures forall k :: k in m && k < bound ==> k in ids
    decreases bound
  {
    if bound == 0 then []
    else
      var lower := KeysBelow(m, bound - 1);
      if bound - 1 in m then lower + [bound - 1] else lower
  }

  /** The ids stored in `m` below `bound`, as a set. */
  ghost function RowsBelow<V>(m: map<nat, V>, bound: nat): set<nat>
  {
    set k | k in m && k < bound
  }

  /** Raising the bound by one adds the id `bound - 1` when it is stored. */
  lemma RowsBelowStep<V>(m: map<nat, V>, bound: nat)
    requires 0 < bound
    ensures |RowsBelow(m, bound)| == |RowsBelow(m, bound - 1)| + (if bound - 1 in m then 1 else 0)
  {
    var lower := RowsBelow(m, bound - 1);
    if bound - 1 in m {
      assert RowsBelow(m, bound) == lower + {bound - 1};
    } else {
      assert RowsBelow(m, bound) == lower;
    }
  }

  /** The scan holds as many ids as the table has rows below `bound`. */
  lemma {:induction false} KeysBelowCount<V>(m: map<nat, V>, bound: nat)
    ensures |KeysBelow(m, bound)| == |RowsBelow(m, bound)|
    decreases bound
  {
    if bound == 0 {
      assert RowsBelow(m, bound) == {};
    } else {
      KeysBelowCount(m, bound - 1);
      RowsBelowStep(m, bound);
    }
  }

  /** A table whose ids all lie below `nextId` is scanned whole. */
  lemma ScanCoversTable<V>(m: map<nat, V>, nextId: nat)
    requires IdsBelow(m, nextId)
    ensures |KeysBelow(m, nextId)| == |m|
  {
    KeysBelowCount(m, nextId);
    assert RowsBelow(m, nextId) == m.Keys;
  }

  class Database {
    var users: map<nat, UserRow>
    var articles: map<nat, ArticleRow>
    var nextUserId: nat
    var nextArticleId: nat
    /** The latest clock reading any request has used. */
    ghost var clock: nat

    ghost predicate Valid()
      reads this
    {
      && 0 < nextUserId && 0 < nextArticleId
      && IdsBelow(users, nextUserId)
      && IdsBelow(articles, nextArticleId)
      && UniqueEmails(users)
      && AuthorsExist(articles, users)
      && (forall id :: id in articles ==>
            articles[id].createdAt <= articles[id].updatedAt <= clock)
    }

    /** Empty tables; both counters start at 1. */
    constructor ()
      ensures Valid() && users == map[] && articles == map[]
      ensures nextUserId == 1 && nextArticleId == 1 && clock == 0
    {
      users, articles := map[], map[];
      nextUserId, nextArticleId := 1, 1;
      clock := 0;
    }

    /** Persist and flush a new user; the unique email index may reject it. */
    method InsertUser(row: UserRow) returns (id: Option<nat>)
      requires Valid()
      modifies this`users, this`nextUserId
      ensures Valid()
      ensures id.None? <==> EmailTaken(old(users), row.email)
      ensures id.None? ==> users == old(users) && nextUserId == old(nextUserId)
      ensures id.Some? ==>
        && id.value == old(nextUserId) && id.value !in old(users)
        && users == old(users)[id.value := row]
        && nextUserId == old(nextUserId) + 1
    {
      if EmailTaken(users, row.email) {
        return None;
      }
      id := Some(nextUserId);
      users := users[nextUserId := row];
      nextUserId := nextUserId + 1;
    }

    /**
     * Flush the changed row of user `id`; the unique email index rejects an
     * email that another user already has.
     */
    method UpdateUser(id: nat, row: UserRow) returns (ok: bool)
      requires Valid() && id in users
      modifies this`users
      ensures Valid()
      ensures ok <==> !EmailTaken(old(users) - {id}, row.email)
      ensures users == if ok then old(users)[id := row] else old(users)
    {
      ok := !EmailTaken(users - {id}, row.email);
      if ok {
        assert forall j :: j in users && j != id ==> j in users - {id};
        users := users[id := row];
      }
    }

    /** Remove and flush user `id`; the foreign key keeps an author. */
    method DeleteUser(id: nat) returns (ok: bool)
      requires Valid() && id in users
      modifies this`users
      ensures Valid()
      ensures ok <==> !IsAuthor(articles, id)
      ensures users == if ok then old(users) - {id} else old(users)
    {
      ok := !IsAuthor(articles, id);
      if ok {
        users := users - {id};
      }
    }

    /** Persist and flush a new article written by a stored user. */
    method InsertArticle(row: ArticleRow) returns (id: nat)
      requires Valid()
      requires row.author in users && row.createdAt <= row.updatedAt <= clock
      modifies this`articles, this`nextArticleId
      ensures Valid()
      ensures id == old(nextArticleId) && id !in old(articles)
      ensures articles == old(articles)[id := row]
      ensures nextArticleId == old(nextArticleId) + 1
    {
      id := nextArticleId;
      articles := articles[id := row];
      nextArticleId := nextArticleId + 1;
    }

    /** Flush the changed row of article `id`. */
    method UpdateArticle(id: nat, row: ArticleRow)
      requires Valid() && id in articles
      requires row.author in users && row.createdAt <= row.updatedAt <= clock
      modifies this`articles
      ensures Valid()
      ensures articles == old(articles)[id := row]
    {
      articles := articles[id := row];
    }

    /** Remove and flush article `id`. */
    method DeleteArticle(id: nat)
      requires Valid() && id in articles
      modifies this`articles
      ensures Valid()
      ensures articles == old(articles) - {id}
    {
      articles := articles - {id};
    }

    /** Record a clock reading that is not earlier than any before it. */
    method Tick(now: nat)
      requires Valid() && clock <= now
      modifies this`clock
      ensures Valid() && clock == now
    {
      clock := now;
    }
  }
}
