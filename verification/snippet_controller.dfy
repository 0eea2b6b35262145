/** The snippet request handlers (server/src/apps/snippets/snippet.controller.js):
    the read-access decision of `getSnippet` and the guards, field merge and
    password-hash rules of `createSnippet`, `updateSnippet` and `deleteSnippet`.
    Each handler is a function from the collection and the request to the
    collection afterwards and the response it sends. */
module SnippetController {
  import opened JsValues
  import opened JsStrings
  import opened PasswordHash
  import opened SnippetModel

  // ===========================================================================
  // getSnippet
  // ===========================================================================

  /** The responses of `getSnippet`. `isAuthor` is None when no user is
      attached to the request: the handler then sends `isAuthor: undefined`,
      which the JSON body omits. */
  datatype ReadOutcome =
    | NotFound
    | Granted(snippet: Snippet, isAuthor: Option<bool>)
    | PasswordRequired
    | InvalidPassword
    | PrivateDenied
  {
    /** The HTTP status of the response. */
    function Status(): int {
      match this
      case NotFound => 404
      case Granted(_, _) => 200
      case PasswordRequired => 401
      case InvalidPassword => 401
      case PrivateDenied => 403
    }

    /** The response carries `requiresPassword: true`. */
    predicate RequiresPassword() {
      PasswordRequired?
    }
  }

  /** The requester is the snippet's author. */
  predicate IsAuthor(s: Snippet, requester: Option<UserId>) {
    requester == Some(s.author)
  }

  /** `isAuthor` as the handler computes it: `req.user && req.user.id === author`. */
  function AuthorFlag(s: Snippet, requester: Option<UserId>): (f: Option<bool>)
    ensures f.None? <==> requester.None?
    ensures f == Some(true) <==> IsAuthor(s, requester)
  {
    match requester
    case None => None
    case Some(u) => Some(u == s.author)
  }

  /** An unlisted snippet whose stored hash is set. */
  predicate Locked(s: Snippet) {
    s.exposure == UNLISTED && s.password != NO_PASSWORD
  }

  /** The read policy, stated case by case: the author may always read; any
      requester may read a public snippet, an unlisted one without a
      password, an unlisted one with a supplied password that verifies, and
      (because no branch stops it) one whose exposure is none of the three. */
  predicate MayRead(s: Snippet, requester: Option<UserId>, password: Field, h: Hasher)
    ensures IsAuthor(s, requester) ==> MayRead(s, requester, password, h)
    ensures s.exposure == PRIVATE && !IsAuthor(s, requester) ==> !MayRead(s, requester, password, h)
    ensures Locked(s) && !IsAuthor(s, requester) && !password.Truthy() ==> !MayRead(s, requester, password, h)
  {
    || IsAuthor(s, requester)
    || s.exposure == PUBLIC
    || (s.exposure == UNLISTED && s.password == NO_PASSWORD)
    || (s.exposure == UNLISTED && password.Truthy() && h.verify(password.s, s.password))
    || s.exposure !in EXPOSURES
  }

  /** The access decision of `getSnippet` once the snippet is found, over
      its exposure and stored hash, the requester and the supplied password. */
  function Access(s: Snippet, requester: Option<UserId>, password: Field, h: Hasher): (r: ReadOutcome)
    ensures r != NotFound
    ensures r.Granted? <==> MayRead(s, requester, password, h)
    ensures r.Granted? ==> r.snippet == s && r.isAuthor == AuthorFlag(s, requester)
  {
    var isAuthor := IsAuthor(s, requester);
    if s.exposure == PRIVATE && !isAuthor then PrivateDenied
    else if Locked(s) && !isAuthor then
      if !password.Truthy() then PasswordRequired
      else if !h.verify(password.s, s.password) then InvalidPassword
      else Granted(s, AuthorFlag(s, requester))
    else Granted(s, AuthorFlag(s, requester))
  }

  /** `getSnippet`: find the snippet by `uniqueId`, then decide access.
      `requester` is None on the public-view route and the authenticated
      user's id on the view route. */
  function GetSnippet(db: Db, id: string, requester: Option<UserId>, password: Field, h: Hasher): (r: ReadOutcome)
    ensures r.NotFound? <==> id !in db
    ensures r.Granted? ==> r.snippet == db[id]
  {
    if id !in db then NotFound else Access(db[id], requester, password, h)
  }

  /** A missing snippet is reported before the requester or password is looked at. */
  lemma ReadMissing(db: Db, id: string, requester: Option<UserId>, password: Field, h: Hasher)
    requires id !in db
    ensures GetSnippet(db, id, requester, password, h) == NotFound
    ensures GetSnippet(db, id, requester, password, h).Status() == 404
  {
  }

  /** The author reads the snippet whatever its exposure, stored hash or the
      supplied password. */
  lemma AuthorOverride(s: Snippet, requester: Option<UserId>, password: Field, h: Hasher)
    requires IsAuthor(s, requester)
    ensures Access(s, requester, password, h) == Granted(s, Some(true))
  {
  }

  /** A private snippet is refused with 403 to everyone but its author,
      anonymous requesters included. */
  lemma PrivateDeniesOthers(s: Snippet, requester: Option<UserId>, password: Field, h: Hasher)
    requires s.exposure == PRIVATE && !IsAuthor(s, requester)
    ensures Access(s, requester, password, h) == PrivateDenied
    ensures Access(s, requester, password, h).Status() == 403
  {
  }

  /** The three outcomes for a non-author reading an unlisted snippet that
      has a password. */
  lemma LockedOutcomes(s: Snippet, requester: Option<UserId>, password: Field, h: Hasher)
    requires Locked(s) && !IsAuthor(s, requester)
    ensures !password.Truthy() ==>
      Access(s, requester, password, h).RequiresPassword() && Access(s, requester, password, h).Status() == 401
    ensures password.Truthy() && !h.verify(password.s, s.password) ==>
      Access(s, requester, password, h) == InvalidPassword && Access(s, requester, password, h).Status() == 401
    ensures password.Truthy() && h.verify(password.s, s.password) ==>
      Access(s, requester, password, h) == Granted(s, AuthorFlag(s, requester))
  {
  }

  /** A whitespace-only password is not treated as absent: it is handed to
      the comparison. */
  lemma WhitespacePasswordIsCompared(s: Snippet, requester: Option<UserId>, w: string, h: Hasher)
    requires Locked(s) && !IsAuthor(s, requester)
    requires w != "" && AllWhitespace(w)
    ensures Access(s, requester, Str(w), h) ==
      (if h.verify(w, s.password) then Granted(s, AuthorFlag(s, requester)) else InvalidPassword)
  {
  }

  /** The password a snippet was protected with opens it. */
  lemma CorrectPasswordOpens(s: Snippet, requester: Option<UserId>, p: string, h: Hasher)
    requires Sound(h)
    requires s.exposure == UNLISTED && s.password == h.hash(p) && p != ""
    ensures Access(s, requester, Str(p), h).Granted?
  {
  }

  /** Public snippets, and unlisted ones without a password, are returned
      unchanged to anyone; a non-author is never told `isAuthor: true`. */
  lemma OpenAccess(s: Snippet, requester: Option<UserId>, password: Field, h: Hasher)
    requires s.exposure == PUBLIC || (s.exposure == UNLISTED && s.password == NO_PASSWORD)
    ensures Access(s, requester, password, h) == Granted(s, AuthorFlag(s, requester))
    ensures !IsAuthor(s, requester) ==> Access(s, requester, password, h).isAuthor != Some(true)
  {
  }

  /** An exposure outside the enum is not refused by the handler; only the
      schema keeps such a document out of the collection. */
  lemma UnknownExposureFallsThrough(s: Snippet, requester: Option<UserId>, password: Field, h: Hasher)
    requires s.exposure !in EXPOSURES
    ensures Access(s, requester, password, h).Granted?
  {
  }

  /** A stored snippet never has an exposure outside the enum. */
  lemma StoredExposureKnown(db: Db, id: string)
    requires DbInvariant(db) && id in db
    ensures db[id].exposure in EXPOSURES
  {
  }

  // ===========================================================================
  // Write handlers
  // ===========================================================================

  /** The fields of a create or update request body. */
  datatype Body = Body(name: Field, content: Field, flavor: Field, exposure: Field, password: Field, language: Field)

  /** The responses of the write handlers. */
  datatype WriteOutcome =
    | Created(snippet: Snippet)
    | Updated(snippet: Snippet)
    | Deleted
    | WriteNotFound
    | Forbidden
    | ServerError
  {
    function Status(): int {
      match this
      case Created(_) => 201
      case Updated(_) => 200
      case Deleted => 200
      case WriteNotFound => 404
      case Forbidden => 403
      case ServerError => 500
    }
  }

  /** The string a required path receives from a body field; "" when the
      field is undefined or null, which `required` rejects. */
  function Given(f: Field): (v: string)
    ensures f.Str? ==> v == f.s
    ensures !f.Str? ==> !Present(v)
  {
    if f.Str? then f.s else ""
  }

  /** Filing a valid document under its own id keeps the collection well formed. */
  lemma StoreKeepsInvariant(db: Db, doc: Snippet)
    requires Valid(doc)
    ensures DbInvariant(db) ==> DbInvariant(db[doc.uniqueId := doc])
  {
  }

  // ---------------------------------------------------------------------------
  // createSnippet
  // ---------------------------------------------------------------------------

  /** The hash `createSnippet` stores for the supplied password. */
  function CreateHash(password: Field, h: Hasher): (d: string)
    ensures password.Str? && !AllWhitespace(password.s) ==> d == h.hash(password.s)
    ensures !password.Str? || AllWhitespace(password.s) ==> d == NO_PASSWORD
  {
    if password.Truthy() && Trim(password.s) != "" then h.hash(password.s) else NO_PASSWORD
  }

  /** The language `createSnippet` sets: only for a Code snippet with a
      truthy language, trimmed by the path's setter. */
  function CreateLanguage(flavor: Field, language: Field): Option<string> {
    if flavor == Str(CODE) && language.Truthy() then Some(Trim(language.s)) else None
  }

  /** The document `createSnippet` builds before saving it. */
  function NewDocument(body: Body, author: UserId, uniqueId: string, h: Hasher): (d: Snippet)
    ensures d.author == author && d.uniqueId == uniqueId
    ensures IsTrimmed(d.name) && (d.language.Some? ==> IsTrimmed(d.language.value))
    ensures d.language.Some? ==> d.flavor == CODE
    ensures body.exposure.Undefined? ==> d.exposure == PUBLIC
    ensures body.exposure.Null? ==> !Present(d.exposure)
    ensures Sound(h) ==> (d.password == NO_PASSWORD <==> !body.password.Str? || AllWhitespace(body.password.s))
  {
    Snippet(
      name := Trim(Given(body.name)),
      content := Given(body.content),
      flavor := Given(body.flavor),
      language := CreateLanguage(body.flavor, body.language),
      exposure := if body.exposure.Undefined? then DEFAULT_EXPOSURE else Given(body.exposure),
      password := CreateHash(body.password, h),
      author := author,
      uniqueId := uniqueId)
  }

  /** `createSnippet` by the authenticated `author`, with `uniqueId` the
      freshly generated id. Saving fails (500) when the document breaks the
      schema or the id is already taken. */
  function CreateSnippet(db: Db, author: UserId, body: Body, uniqueId: string, h: Hasher): (r: (Db, WriteOutcome))
    ensures r.1.Created? || r.1 == ServerError
    ensures r.1 == ServerError ==> r.0 == db
    ensures r.1.Created? <==> Valid(NewDocument(body, author, uniqueId, h)) && uniqueId !in db
    ensures r.1.Created? ==> r.1.snippet == NewDocument(body, author, uniqueId, h)
    ensures r.1.Created? ==>
      && uniqueId !in db
      && r.0 == db[uniqueId := r.1.snippet]
      && Valid(r.1.snippet)
      && r.1.snippet.author == author
      && r.1.snippet.uniqueId == uniqueId
  {
    var doc := NewDocument(body, author, uniqueId, h);
    if !Valid(doc) || uniqueId in db then (db, ServerError)
    else (db[uniqueId := doc], Created(doc))
  }

  /** A create keeps the collection well formed. */
  lemma CreateKeepsInvariant(db: Db, author: UserId, body: Body, uniqueId: string, h: Hasher)
    requires DbInvariant(db)
    ensures DbInvariant(CreateSnippet(db, author, body, uniqueId, h).0)
  {
    var r := CreateSnippet(db, author, body, uniqueId, h);
    if r.1.Created? {
      StoreKeepsInvariant(db, r.1.snippet);
    }
  }

  /** The stored hash is empty exactly when the password is absent or
      blank, and otherwise the hash of the password as sent; the exposure
      plays no part. */
  lemma CreatePasswordRule(db: Db, author: UserId, body: Body, uniqueId: string, h: Hasher, e: Field)
    requires Sound(h)
    ensures var r := CreateSnippet(db, author, body, uniqueId, h);
      r.1.Created? ==>
        && (r.1.snippet.password == NO_PASSWORD <==> !body.password.Str? || AllWhitespace(body.password.s))
        && (body.password.Str? && !AllWhitespace(body.password.s) ==> r.1.snippet.password == h.hash(body.password.s))
    ensures NewDocument(body.(exposure := e), author, uniqueId, h).password
         == NewDocument(body, author, uniqueId, h).password
  {
  }

  /** A language is kept only for a Code snippet with a truthy language. */
  lemma CreateLanguageRule(db: Db, author: UserId, body: Body, uniqueId: string, h: Hasher)
    ensures var r := CreateSnippet(db, author, body, uniqueId, h);
      r.1.Created? ==>
        && (r.1.snippet.language.Some? <==> body.flavor == Str(CODE) && body.language.Truthy())
        && (r.1.snippet.language.Some? ==> r.1.snippet.language.value == Trim(body.language.s))
  {
  }

  /** A Code snippet whose language is missing or blank is not saved. */
  lemma CreateCodeNeedsLanguage(db: Db, author: UserId, body: Body, uniqueId: string, h: Hasher)
    requires body.flavor == Str(CODE)
    requires !body.language.Str? || AllWhitespace(body.language.s)
    ensures CreateSnippet(db, author, body, uniqueId, h) == (db, ServerError)
  {
  }

  /** An undefined exposure defaults to public. */
  lemma CreateExposureDefault(db: Db, author: UserId, body: Body, uniqueId: string, h: Hasher)
    requires body.exposure == Undefined
    ensures var r := CreateSnippet(db, author, body, uniqueId, h);
      r.1.Created? ==> r.1.snippet.exposure == PUBLIC
  {
    assert NewDocument(body, author, uniqueId, h).exposure == PUBLIC;
  }

  /** A null exposure is not defaulted: the document fails validation. */
  lemma CreateNullExposureFails(db: Db, author: UserId, body: Body, uniqueId: string, h: Hasher)
    requires body.exposure == Null
    ensures CreateSnippet(db, author, body, uniqueId, h) == (db, ServerError)
  {
    var doc := NewDocument(body, author, uniqueId, h);
    assert !Valid(doc) by {
      assert doc.exposure == "";
    }
  }

  /** A well-formed body with a fresh id is saved, its fields as sent
      (the name trimmed). */
  lemma CreateSucceeds(db: Db, author: UserId, body: Body, uniqueId: string, h: Hasher)
    requires Sound(h)
    requires body.name.Str? && !AllWhitespace(body.name.s)
    requires body.content.Str? && body.content.s != ""
    requires body.flavor.Str? && body.flavor.s in FLAVORS
    requires body.flavor.s == CODE ==> body.language.Str? && !AllWhitespace(body.language.s)
    requires body.exposure.Undefined? || (body.exposure.Str? && body.exposure.s in EXPOSURES)
    requires author != "" && uniqueId != "" && uniqueId !in db
    ensures var r := CreateSnippet(db, author, body, uniqueId, h);
      && r.1.Created?
      && r.1.Status() == 201
      && r.1.snippet == NewDocument(body, author, uniqueId, h)
      && r.0 == db[uniqueId := r.1.snippet]
      && r.1.snippet.name == Trim(body.name.s)
      && r.1.snippet.content == body.content.s
      && r.1.snippet.flavor == body.flavor.s
      && r.1.snippet.exposure == (if body.exposure.Undefined? then PUBLIC else body.exposure.s)
      && r.1.snippet.author == author
      && r.1.snippet.uniqueId == uniqueId
  {
    var doc := NewDocument(body, author, uniqueId, h);
    assert doc.name == Trim(body.name.s) != "";
    assert doc.content == body.content.s && doc.flavor == body.flavor.s;
    assert doc.exposure in EXPOSURES;
    if body.flavor.s == CODE {
      assert doc.language == Some(Trim(body.language.s));
      assert Trim(body.language.s) != "";
    }
    assert Valid(doc);
  }

  // ---------------------------------------------------------------------------
  // updateSnippet
  // ---------------------------------------------------------------------------

  /** The hash `updateSnippet` stores: kept when the password is undefined,
      cleared when it is blank, otherwise the hash of the password as sent.
      None when computing it throws (`null.trim()`). */
  function UpdateHash(stored: string, password: Field, h: Hasher): (r: Option<string>)
    ensures r.None? <==> password == Null
    ensures password == Undefined ==> r == Some(stored)
    ensures password.Str? && AllWhitespace(password.s) ==> r == Some(NO_PASSWORD)
    ensures password.Str? && !AllWhitespace(password.s) ==> r == Some(h.hash(password.s))
  {
    match password
    case Undefined => Some(stored)
    case Null => None
    case Str(p) => if Trim(p) == "" then Some(NO_PASSWORD) else Some(h.hash(p))
  }

  /** `value || old` */
  function Or(value: Field, stored: string): string {
    if value.Truthy() then value.s else stored
  }

  /** The language after `updateSnippet`: set for a Code flavor with a
      truthy language, unset for any other truthy flavor, else left alone. */
  function UpdateLanguage(stored: Option<string>, flavor: Field, language: Field): (r: Option<string>)
    ensures !flavor.Truthy() ==> r == stored
    ensures flavor.Truthy() && flavor != Str(CODE) ==> r == None
    ensures r.Some? && r != stored ==> flavor == Str(CODE) && language.Truthy() && IsTrimmed(r.value)
    ensures flavor == Str(CODE) && language.Str? && !AllWhitespace(language.s) ==> r.Some? && Present(r.value)
  {
    if flavor == Str(CODE) && language.Truthy() then Some(Trim(language.s))
    else if flavor.Truthy() && flavor != Str(CODE) then None
    else stored
  }

  /** The document `updateSnippet` saves, `hash` being the new stored hash. */
  function Merge(s: Snippet, body: Body, hash: string): (m: Snippet)
    ensures m.author == s.author && m.uniqueId == s.uniqueId && m.password == hash
    ensures IsTrimmed(m.name)
    ensures m.content == s.content || body.content == Str(m.content)
    ensures m.flavor == s.flavor || body.flavor == Str(m.flavor)
    ensures m.exposure == s.exposure || body.exposure == Str(m.exposure)
    ensures Present(s.content) ==> Present(m.content)
    ensures Present(s.flavor) ==> Present(m.flavor)
    ensures Present(s.exposure) ==> Present(m.exposure)
  {
    s.(
      name := Trim(Or(body.name, s.name)),
      content := Or(body.content, s.content),
      flavor := Or(body.flavor, s.flavor),
      exposure := Or(body.exposure, s.exposure),
      password := hash,
      language := UpdateLanguage(s.language, body.flavor, body.language))
  }

  /** `updateSnippet` of snippet `id` by the authenticated `user`. */
  function UpdateSnippet(db: Db, id: string, user: UserId, body: Body, h: Hasher): (r: (Db, WriteOutcome))
    ensures r.1.Updated? || r.1 == WriteNotFound || r.1 == Forbidden || r.1 == ServerError
    ensures r.1 == WriteNotFound <==> id !in db
    ensures r.1 == Forbidden <==> id in db && db[id].author != user
    ensures !r.1.Updated? ==> r.0 == db
    ensures r.1.Updated? ==>
      && id in db
      && db[id].author == user
      && r.0 == db[id := r.1.snippet]
      && Valid(r.1.snippet)
      && r.1.snippet.author == db[id].author
      && r.1.snippet.uniqueId == db[id].uniqueId
    ensures id in db && db[id].author == user ==>
      (r.1.Updated? <==>
        body.password != Null && Valid(Merge(db[id], body, UpdateHash(db[id].password, body.password, h).value)))
    ensures r.1.Updated? ==> r.1.snippet == Merge(db[id], body, UpdateHash(db[id].password, body.password, h).value)
  {
    if id !in db then (db, WriteNotFound)
    else
      var s := db[id];
      if s.author != user then (db, Forbidden)
      else match UpdateHash(s.password, body.password, h)
        case None => (db, ServerError)
        case Some(hash) =>
          var s' := Merge(s, body, hash);
          if Valid(s') then (db[id := s'], Updated(s')) else (db, ServerError)
  }

  /** An update keeps the collection well formed. */
  lemma UpdateKeepsInvariant(db: Db, id: string, user: UserId, body: Body, h: Hasher)
    requires DbInvariant(db)
    ensures DbInvariant(UpdateSnippet(db, id, user, body, h).0)
  {
    var r := UpdateSnippet(db, id, user, body, h);
    if r.1.Updated? {
      StoreKeepsInvariant(db, r.1.snippet);
    }
  }

  /** The stored-hash lifecycle on update: an undefined password keeps the
      hash, a blank one clears it, any other string rehashes it, and a null
      one makes the handler fail. The exposure sent is not an input of the
      hash computation: with the hasher a function of the password alone,
      two updates that differ only in exposure compute the same hash. */
  lemma UpdatePasswordRule(db: Db, id: string, user: UserId, body: Body, h: Hasher, e: Field)
    ensures var r := UpdateSnippet(db, id, user, body, h);
      r.1.Updated? ==>
        && (body.password == Undefined ==> r.1.snippet.password == db[id].password)
        && (body.password.Str? && AllWhitespace(body.password.s) ==> r.1.snippet.password == NO_PASSWORD)
        && (body.password.Str? && !AllWhitespace(body.password.s) ==> r.1.snippet.password == h.hash(body.password.s))
    ensures id in db && db[id].author == user && body.password == Null ==>
      UpdateSnippet(db, id, user, body, h) == (db, ServerError)
    ensures var r := UpdateSnippet(db, id, user, body, h);
      var r' := UpdateSnippet(db, id, user, body.(exposure := e), h);
      r.1.Updated? && r'.1.Updated? ==> r'.1.snippet.password == r.1.snippet.password
  {
  }

  /** Making a password-protected unlisted snippet public without sending a
      password keeps its hash. */
  lemma ExposureChangeKeepsHash(db: Db, id: string, user: UserId, body: Body, h: Hasher)
    requires DbInvariant(db) && id in db && db[id].author == user
    requires Locked(db[id])
    requires body == Body(Undefined, Undefined, Undefined, Str(PUBLIC), Undefined, Undefined)
    ensures var r := UpdateSnippet(db, id, user, body, h);
      && r.1.Updated?
      && r.1.snippet.exposure == PUBLIC
      && r.1.snippet.password == db[id].password != NO_PASSWORD
  {
    var s := db[id];
    assert Valid(s);
    TrimOfTrimmed(s.name);
    assert UpdateHash(s.password, body.password, h) == Some(s.password);
    var m := Merge(s, body, s.password);
    assert m == s.(exposure := PUBLIC);
    assert Valid(m);
  }

  /** The merge: name, content, flavor and exposure take the value sent when
      it is truthy and keep the stored one otherwise. */
  lemma UpdateMergeRule(db: Db, id: string, user: UserId, body: Body, h: Hasher)
    requires DbInvariant(db)
    ensures var r := UpdateSnippet(db, id, user, body, h);
      r.1.Updated? ==>
        && r.1.snippet.name == (if body.name.Truthy() then Trim(body.name.s) else db[id].name)
        && r.1.snippet.content == (if body.content.Truthy() then body.content.s else db[id].content)
        && r.1.snippet.flavor == (if body.flavor.Truthy() then body.flavor.s else db[id].flavor)
        && r.1.snippet.exposure == (if body.exposure.Truthy() then body.exposure.s else db[id].exposure)
  {
    if id in db {
      TrimOfTrimmed(db[id].name);
    }
  }

  /** The language on update: set for Code with a truthy language, cleared
      by any other truthy flavor, otherwise unchanged. */
  lemma UpdateLanguageRule(db: Db, id: string, user: UserId, body: Body, h: Hasher)
    ensures var r := UpdateSnippet(db, id, user, body, h);
      r.1.Updated? ==>
        && (body.flavor == Str(CODE) && body.language.Truthy() ==> r.1.snippet.language == Some(Trim(body.language.s)))
        && (body.flavor.Truthy() && body.flavor != Str(CODE) ==> r.1.snippet.language == None)
        && (!body.flavor.Truthy() ==> r.1.snippet.language == db[id].language)
        && (body.flavor == Str(CODE) && !body.language.Truthy() ==> r.1.snippet.language == db[id].language)
  {
  }

  /** Switching a snippet without a language to Code without sending one
      fails validation, and nothing is stored. */
  lemma UpdateToCodeNeedsLanguage(db: Db, id: string, user: UserId, body: Body, h: Hasher)
    requires id in db && db[id].author == user && db[id].language == None
    requires body.flavor == Str(CODE) && !body.language.Truthy()
    ensures UpdateSnippet(db, id, user, body, h) == (db, ServerError)
  {
  }

  // ---------------------------------------------------------------------------
  // deleteSnippet
  // ---------------------------------------------------------------------------

  /** `deleteSnippet` of snippet `id` by the authenticated `user`. */
  function DeleteSnippet(db: Db, id: string, user: UserId): (r: (Db, WriteOutcome))
    ensures r.1 == Deleted || r.1 == WriteNotFound || r.1 == Forbidden
    ensures r.1 == Deleted <==> id in db && db[id].author == user
    ensures r.1 == Deleted ==> r.0.Keys == db.Keys - {id} && id !in r.0
    ensures forall k :: k in r.0 ==> k in db && r.0[k] == db[k]
    ensures r.1 != Deleted ==> r.0 == db
  {
    if id !in db then (db, WriteNotFound)
    else if db[id].author != user then (db, Forbidden)
    else (db - {id}, Deleted)
  }

  /** A delete keeps the collection well formed. */
  lemma DeleteKeepsInvariant(db: Db, id: string, user: UserId)
    requires DbInvariant(db)
    ensures DbInvariant(DeleteSnippet(db, id, user).0)
  {
  }

  // ---------------------------------------------------------------------------
  // Guards shared by the write handlers
  // ---------------------------------------------------------------------------

  /** A missing snippet is reported (404) before the author check or the
      body is looked at, by read, update and delete alike. */
  lemma NotFoundFirst(db: Db, id: string, user: UserId, body: Body, h: Hasher, requester: Option<UserId>, password: Field)
    requires id !in db
    ensures GetSnippet(db, id, requester, password, h) == NotFound
    ensures UpdateSnippet(db, id, user, body, h) == (db, WriteNotFound)
    ensures DeleteSnippet(db, id, user) == (db, WriteNotFound)
    ensures WriteNotFound.Status() == 404
  {
  }

  /** Update and delete by anyone but the author answer 403 and change nothing. */
  lemma OnlyAuthorWrites(db: Db, id: string, user: UserId, body: Body, h: Hasher)
    requires id in db && db[id].author != user
    ensures UpdateSnippet(db, id, user, body, h) == (db, Forbidden)
    ensures DeleteSnippet(db, id, user) == (db, Forbidden)
    ensures Forbidden.Status() == 403
  {
  }

  /** An update touches at most the snippet it names. */
  lemma UpdateIsLocal(db: Db, id: string, user: UserId, body: Body, h: Hasher, k: string)
    requires k != id
    ensures var r := UpdateSnippet(db, id, user, body, h);
      (k in r.0 <==> k in db) && (k in db ==> r.0[k] == db[k])
  {
  }

  /** A delete touches at most the snippet it names. */
  lemma DeleteIsLocal(db: Db, id: string, user: UserId, k: string)
    requires k != id
    ensures var r := DeleteSnippet(db, id, user);
      (k in r.0 <==> k in db) && (k in db ==> r.0[k] == db[k])
  {
  }

  /** A create touches at most the snippet under the new id. */
  lemma CreateIsLocal(db: Db, author: UserId, body: Body, uniqueId: string, h: Hasher, k: string)
    requires k != uniqueId
    ensures var r := CreateSnippet(db, author, body, uniqueId, h);
      (k in r.0 <==> k in db) && (k in db ==> r.0[k] == db[k])
  {
  }
}
