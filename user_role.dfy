/**
 * The closed, string-backed role enumeration: `.value` prints a role as its
 * backing string and `from` parses a backing string back, failing on every
 * other string.
 */
module UserRole {
  import opened Common

  datatype Role = Admin | Author | Reader

  const ADMIN_VALUE: string := "ROLE_ADMIN"
  const AUTHOR_VALUE: string := "ROLE_AUTHOR"
  const READER_VALUE: string := "ROLE_READER"

  /** The three backing strings, and no others. */
  predicate IsBackingValue(s: string)
  {
    s == ADMIN_VALUE || s == AUTHOR_VALUE || s == READER_VALUE
  }

  /** The backing string of a role. */
  function Value(r: Role): (s: string)
    ensures IsBackingValue(s)
  {
    match r
    case Admin => ADMIN_VALUE
    case Author => AUTHOR_VALUE
    case Reader => READER_VALUE
  }

  /**
   * The role a backing string names; `None` stands for the error raised on
   * a string that backs no case.
   */
  function From(s: string): (r: Option<Role>)
    ensures r.Some? <==> IsBackingValue(s)
    ensures r.Some? ==> Value(r.value) == s
  {
    if s == ADMIN_VALUE then Some(Admin)
    else if s == AUTHOR_VALUE then Some(Author)
    else if s == READER_VALUE then Some(Reader)
    else None
  }

  /** Parsing what a role prints gives that role back. */
  lemma FromValue(r: Role)
    ensures From(Value(r)) == Some(r)
  {
  }

  /** The backing strings are pairwise distinct, so `.value` loses nothing. */
  lemma ValueInjective(r1: Role, r2: Role)
    ensures Value(r1) == Value(r2) ==> r1 == r2
  {
  }

  /** Exactly three cases: every role is one of them. */
  lemma ThreeRoles(r: Role)
    ensures r == Admin || r == Author || r == Reader
    ensures |{ADMIN_VALUE, AUTHOR_VALUE, READER_VALUE}| == 3
  {
  }
}
