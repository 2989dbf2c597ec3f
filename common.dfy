/**
 * Shared value types of the poem store, the capture session and the request layer:
 * optional values, results that carry a Python exception kind, and JSON values.
 */
module Common {

  datatype Option<+T> = None | Some(value: T)

  /** The exception kinds the repository raises on its modelled paths. */
  datatype Error =
    | ValueError(message: string)
    | RuntimeError(message: string)
    | TypeError(message: string)

  datatype Result<+T> = Ok(value: T) | Err(error: Error)

  /**
   * A value inside a decoded JSON body. Only strings matter to the code; numbers and
   * booleans (`JScalar`) are hashable like `null`, while lists and objects (`JContainer`)
   * are not, which decides what a set-membership test on them does.
   */
  datatype JsonValue = JNull | JString(s: string) | JScalar | JContainer

  /** The value of `d.get(key, default)` on a dictionary of optional strings. */
  function GetOr(v: Option<string>, default: string): string
  {
    match v
    case Some(s) => s
    case None => default
  }

  /** `str(d.get("user_id"))`: a missing user id becomes the text "None". */
  function UserKey(userId: Option<string>): (k: string)
    ensures userId.None? ==> k == "None"
    ensures userId.Some? ==> k == userId.value
  {
    GetOr(userId, "None")
  }

  /** One stored poem: the `title`, `poem`, `request_id`, `upload_at` and `poem_url` fields. */
  datatype PoemInfo = PoemInfo(title: string, poem: string, requestId: string, uploadAt: string, poemUrl: string)

  /** `{"author": ..., "poems": {...}}`: an author's display name and poems by title slug. */
  datatype AuthorEntry = AuthorEntry(author: string, poems: map<string, PoemInfo>)

  /** A user's poems: author slug to entry. */
  type Authors = map<string, AuthorEntry>
}
