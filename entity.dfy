/**
 * The two persisted entities. An article is an object whose setters and
 * lifecycle callbacks assign its fields in place; what the articles table
 * holds for it is an `ArticleRow`. A user is kept as a value record.
 * Timestamps are readings of a clock that never goes backwards, as naturals.
 */
module Entity {
  import opened Common
  import opened UserRole

  /** One row of the articles table; `author` is the id of a stored user. */
  datatype ArticleRow = ArticleRow(
    title: string,
    content: string,
    author: nat,
    createdAt: nat,
    updatedAt: nat)

  /** One row of the users table; `password` holds the hasher's digest. */
  datatype UserRow = UserRow(
    email: string,
    password: string,
    name: string,
    role: Role)

  class Article {
    /** Null until storage assigns the generated id on persist. */
    var id: Option<nat>
    var title: string
    var content: string
    var author: nat
    var createdAt: nat
    var updatedAt: nat

    /** A fresh entity, not yet persisted. */
    constructor ()
      ensures id == None
    {
      id := None;
    }

    /** A managed entity loaded from the row stored under `storedId`. */
    constructor Load(storedId: nat, row: ArticleRow)
      ensures id == Some(storedId) && Row() == row
    {
      id := Some(storedId);
      title, content, author := row.title, row.content, row.author;
      createdAt, updatedAt := row.createdAt, row.updatedAt;
    }

    /** The state the articles table stores for this entity. */
    function Row(): ArticleRow
      reads this
    {
      ArticleRow(title, content, author, createdAt, updatedAt)
    }

    function GetId(): Option<nat>
      reads this
    {
      id
    }

    function GetTitle(): string
      reads this
    {
      title
    }

    function GetContent(): string
      reads this
    {
      content
    }

    function GetAuthor(): nat
      reads this
    {
      author
    }

    function GetCreatedAt(): nat
      reads this
    {
      createdAt
    }

    function GetUpdatedAt(): nat
      reads this
    {
      updatedAt
    }

    /** Timestamps are ordered: the last update is never before creation. */
    predicate Timestamped()
      reads this
    {
      createdAt <= updatedAt
    }

    /** Touches only the title; returns the entity itself for chaining. */
    method SetTitle(newTitle: string) returns (self: Article)
      modifies this`title
      ensures self == this && GetTitle() == newTitle
    {
      title := newTitle;
      self := this;
    }

    /** Touches only the content; returns the entity itself for chaining. */
    method SetContent(newContent: string) returns (self: Article)
      modifies this`content
      ensures self == this && GetContent() == newContent
    {
      content := newContent;
      self := this;
    }

    /** Touches only the author; returns the entity itself for chaining. */
    method SetAuthor(newAuthor: nat) returns (self: Article)
      modifies this`author
      ensures self == this && GetAuthor() == newAuthor
    {
      author := newAuthor;
      self := this;
    }

    /**
     * PrePersist: `createdAt` takes one clock reading and `updatedAt` a
     * second, later or equal one.
     */
    method SetCreatedAtValue(created: nat, updated: nat)
      requires created <= updated
      modifies this`createdAt, this`updatedAt
      ensures GetCreatedAt() == created && GetUpdatedAt() == updated
      ensures Timestamped()
    {
      createdAt := created;
      updatedAt := updated;
    }

    /**
     * PreUpdate: only `updatedAt` moves, to the current clock reading; with
     * a clock that has not gone backwards the timestamps stay ordered.
     */
    method SetUpdatedAtValue(now: nat)
      modifies this`updatedAt
      ensures GetUpdatedAt() == now && GetCreatedAt() == old(GetCreatedAt())
      ensures old(Timestamped()) && old(updatedAt) <= now ==> Timestamped()
    {
      updatedAt := now;
    }
  }
}
