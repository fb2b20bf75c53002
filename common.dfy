/**
 * Shared vocabulary of the controllers: optional values, the decoded request
 * body and the HTTP status codes the controllers answer with.
 */
module Common {

  datatype Option<+T> = None | Some(value: T)

  /**
   * A decoded JSON request body, reduced to the fields that are present and
   * not null: a field counts as set only when its key is present and bound to
   * a non-null value, so a missing key and a key bound to null, so the two are the same here. A body that does
   * not decode to an object has no fields at all.
   */
  type Body = map<string, string>

  predicate Isset(body: Body, key: string)
  {
    key in body
  }

  const OK: nat := 200
  const CREATED: nat := 201
  const NO_CONTENT: nat := 204
  const BAD_REQUEST: nat := 400
  const UNAUTHORIZED: nat := 401
  const FORBIDDEN: nat := 403
  const NOT_FOUND: nat := 404
  /** The 400 answer to a body that lacks a required field. */
  const MISSING_FIELDS_MESSAGE: string := "Missing required fields"

  /** A storage constraint violation surfaces as a generic server error. */
  const SERVER_ERROR: nat := 500
}
