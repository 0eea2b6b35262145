/** The stored snippet document and the schema rules a save enforces
    (server/src/apps/snippets/snippet.model.js). */
module SnippetModel {
  import opened JsValues
  import opened JsStrings

  /** The string form of a user's id, as `req.user.id` gives it. */
  type UserId = string

  const PLAIN := "Plain"
  const CODE := "Code"
  const RICH_TEXT := "Rich Text"
  /** The flavor enum. */
  const FLAVORS: set<string> := {PLAIN, CODE, RICH_TEXT}

  const PUBLIC := "public"
  const UNLISTED := "unlisted"
  const PRIVATE := "private"
  /** The exposure enum. */
  const EXPOSURES: set<string> := {PUBLIC, UNLISTED, PRIVATE}

  /** The value a new document gets when its exposure is undefined. */
  const DEFAULT_EXPOSURE := PUBLIC
  /** The stored password hash of a snippet without a password. */
  const NO_PASSWORD := ""

  /** A snippet document as it is about to be saved or as it is stored.
      A required string path that is missing (undefined or null) is held
      as "", which the schema's `required` rejects exactly as it rejects a
      missing value. `language` is None when the path is unset. `password`
      holds the hash, NO_PASSWORD for none. Timestamps are not modelled. */
  datatype Snippet = Snippet(
    name: string,
    content: string,
    flavor: string,
    language: Option<string>,
    exposure: string,
    password: string,
    author: UserId,
    uniqueId: string)

  /** A required string path passes validation. */
  predicate Present(v: string) {
    v != ""
  }

  /** The document passes the schema's validators, and the paths declared
      `trim` hold trimmed values (their setter trims on every assignment).
      So re-assigning a valid document's name or language through the
      setter stores the same value. */
  predicate Valid(s: Snippet)
    ensures Valid(s) ==> Trim(s.name) == s.name
    ensures Valid(s) && s.language.Some? ==> Trim(s.language.value) == s.language.value
  {
    && Present(s.name) && IsTrimmed(s.name)
    && Present(s.content)
    && s.flavor in FLAVORS
    && (s.flavor == CODE ==> s.language.Some? && Present(s.language.value))
    && (s.language.Some? ==> IsTrimmed(s.language.value))
    && s.exposure in EXPOSURES
    && Present(s.author)
    && Present(s.uniqueId)
  }

  /** The snippet collection, keyed by `uniqueId` (the path has a unique index). */
  type Db = map<string, Snippet>

  /** Every stored document is valid and filed under its own `uniqueId`. */
  predicate DbInvariant(db: Db) {
    forall id :: id in db ==> db[id].uniqueId == id && Valid(db[id])
  }

  /** The schema's per-path rules, restated one by one for a valid document. */
  lemma ValidMeansSchema(s: Snippet)
    requires Valid(s)
    ensures s.flavor == PLAIN || s.flavor == CODE || s.flavor == RICH_TEXT
    ensures s.exposure == PUBLIC || s.exposure == UNLISTED || s.exposure == PRIVATE
    ensures s.flavor == CODE ==> s.language.Some? && s.language.value != ""
    ensures s.name != "" && Trim(s.name) == s.name
    ensures s.content != "" && s.author != "" && s.uniqueId != ""
  {
    TrimOfTrimmed(s.name);
  }

  /** The schema does not forbid a language on a non-Code snippet: any
      trimmed value, even "", may be stored there. */
  lemma LanguageAllowedOffCode(s: Snippet, l: string)
    requires Valid(s) && s.flavor != CODE && IsTrimmed(l)
    ensures Valid(s.(language := Some(l)))
    ensures Valid(s.(language := None))
  {
  }

  /** In a well-formed collection no two snippets share a `uniqueId`. */
  lemma UniqueIds(db: Db, a: string, b: string)
    requires DbInvariant(db)
    requires a in db && b in db && a != b
    ensures db[a].uniqueId != db[b].uniqueId
  {
  }
}
