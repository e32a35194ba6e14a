/** Values shared by every part of the model: optional values (SQL NULL,
    a missing JSON field, JavaScript null) and the failure replies the
    routes send back. */
module Base {

  /** An optional value; `None` stands for SQL NULL, a JSON field that is
      absent or null, and JavaScript `null`/`undefined`. */
  datatype Option<+T> = None | Some(value: T) {
    function GetOr(default: T): T {
      match this
      case Some(v) => v
      case None => default
    }
  }

  /** The HTTP status a failing route answers with. */
  datatype Status = BadRequest | NotFound | ServerError

  /** Why a route failed; each case is one error branch of a route. */
  datatype Reason =
    | EmptyEnglish
    | TranslationMissing
    | EmptyQuery
    | EmptyTagName
    | TagExists
    | EmptyLanguage
    | EnglishProtected
    | EmptyDatabaseName
    | BadDatabaseName
    | DatabaseExists
    | DatabaseMissing
    | UnsupportedLanguage
    | LanguageInactive
    | StorageError   // an sqlite3 exception turned into a 500 reply

  /** The reply of a route: a success body or a status with its reason. */
  datatype Reply<+T> = Ok(body: T) | Fail(status: Status, reason: Reason)

  /** Python's truthiness of an optional string: neither None nor "". */
  predicate Truthy(o: Option<string>) {
    o.Some? && o.value != ""
  }
}
