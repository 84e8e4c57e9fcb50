/**
 * The values the two browser agents exchange with the note store: the JSON
 * blob stored in a note's `content`, the body of a GET on /api/notes/<id>,
 * the outcome of a fetch, and the body of a save.
 *
 * JSON encoding is not modelled: `content` is kept as the string the server
 * returns and `parsed` is the outcome of `JSON.parse` on it (None when it
 * throws). Times are integer milliseconds.
 */
module SyncTypes {
  import opened Wrappers

  /** The blob the front end stores: `{text, language, formatOptions?, timestamp}`. An absent language is "". */
  datatype Blob = Blob(text: string, language: string, formatOptions: Option<map<string, bool>>, timestamp: int)

  /** A note's `content` as JSON gives it: `null` (the attribute holds None) or a string. */
  datatype Content = Null | Str(s: string) {
    /** JavaScript truthiness: null and the empty string are falsy. */
    predicate Truthy() {
      Str? && s != ""
    }
  }

  /** The fields of a GET /api/notes/<id> body the agents read. */
  datatype NotesData = NotesData(
    content: Content,
    parsed: Option<Blob>,
    className: Option<string>,
    lastUpdated: Option<int>)

  /**
   * A fetch as the agents see it: the request could not be made or its body
   * not be read, the server answered with an error status and a JSON error
   * body, or it answered 2xx with a notes body.
   */
  datatype FetchResult = NetworkError | HttpError(status: nat) | Fetched(data: NotesData)

  /** POST /api/notes/<classId> with `{content: JSON.stringify(blob)}`; `viewEdit` adds `?view=true&edit=true`. */
  datatype SaveRequest = SaveRequest(classId: string, blob: Blob, viewEdit: bool)
}
