/** The snippet routes (server/src/apps/snippets/snippet.routes.js): which
    handler runs behind `requireAuth`, and which requester identity
    `getSnippet` sees on each of its two routes. */
module SnippetRoutes {
  import opened JsValues
  import opened PasswordHash
  import opened SnippetModel
  import opened SnippetController
  import opened RequireAuth

  /** What an authenticated request carries into `requireAuth`: its
      Authorization header, plus the token verifier and user lookup it is
      checked with. */
  datatype Credentials = Credentials(header: Option<string>, verify: string -> TokenCheck, findUser: UserId -> UserLookup)

  function Check(c: Credentials): AuthResult {
    Authenticate(c.header, c.verify, c.findUser)
  }

  /** The response of a route behind `requireAuth`: the middleware's refusal,
      or the handler's own response. */
  datatype Guarded<T> = Refused(status: int, message: string, code: Option<string>) | Handled(outcome: T)

  /** POST /:id/public-view — no middleware, so no user is attached. */
  function PublicView(db: Db, id: string, password: Field, h: Hasher): (r: ReadOutcome)
    ensures r.Granted? ==> r.isAuthor == None
    ensures r.NotFound? <==> id !in db
  {
    GetSnippet(db, id, None, password, h)
  }

  /** POST /:id/view — `requireAuth`, then `getSnippet` with the user it attached. */
  function View(db: Db, id: string, c: Credentials, password: Field, h: Hasher): (r: Guarded<ReadOutcome>)
    ensures r.Refused? <==> Check(c).Reject?
    ensures r.Handled? ==> r.outcome.Granted? ==> r.outcome.isAuthor.Some?
  {
    match Check(c)
    case Reject(status, message, code) => Refused(status, message, code)
    case Next(user) => Handled(GetSnippet(db, id, Some(user.id), password, h))
  }

  /** POST / — `requireAuth`, then `createSnippet` by the attached user. */
  function Create(db: Db, c: Credentials, body: Body, uniqueId: string, h: Hasher): (r: (Db, Guarded<WriteOutcome>))
    ensures r.1.Refused? <==> Check(c).Reject?
    ensures r.1.Refused? ==> r.0 == db
    ensures r.1.Handled? && r.1.outcome.Created? ==> r.1.outcome.snippet.author == Check(c).user.id
  {
    match Check(c)
    case Reject(status, message, code) => (db, Refused(status, message, code))
    case Next(user) =>
      var (db', out) := CreateSnippet(db, user.id, body, uniqueId, h);
      (db', Handled(out))
  }

  /** PUT /:id — `requireAuth`, then `updateSnippet` by the attached user. */
  function Update(db: Db, id: string, c: Credentials, body: Body, h: Hasher): (r: (Db, Guarded<WriteOutcome>))
    ensures r.1.Refused? <==> Check(c).Reject?
    ensures r.0 != db ==> id in db && id in r.0 && r.1 == Handled(Updated(r.0[id])) && db[id].author == Check(c).user.id
  {
    match Check(c)
    case Reject(status, message, code) => (db, Refused(status, message, code))
    case Next(user) =>
      var (db', out) := UpdateSnippet(db, id, user.id, body, h);
      (db', Handled(out))
  }

  /** DELETE /:id — `requireAuth`, then `deleteSnippet` by the attached user. */
  function Delete(db: Db, id: string, c: Credentials): (r: (Db, Guarded<WriteOutcome>))
    ensures r.1.Refused? <==> Check(c).Reject?
    ensures r.0 != db ==> id in db && r.1 == Handled(Deleted) && r.0 == db - {id} && db[id].author == Check(c).user.id
  {
    match Check(c)
    case Reject(status, message, code) => (db, Refused(status, message, code))
    case Next(user) =>
      var (db', out) := DeleteSnippet(db, id, user.id);
      (db', Handled(out))
  }

  /** On the view route the author, identified by token, reads their own
      snippet whatever its exposure; on the public-view route the same
      private snippet is refused. */
  lemma AuthorViewsOwnPrivate(db: Db, id: string, c: Credentials, password: Field, h: Hasher)
    requires id in db && db[id].exposure == PRIVATE
    requires Check(c).Next? && Check(c).user.id == db[id].author
    ensures View(db, id, c, password, h) == Handled(Granted(db[id], Some(true)))
    ensures PublicView(db, id, password, h) == PrivateDenied
  {
  }

  /** Without a valid bearer token no write route changes the collection. */
  lemma RefusedWritesChangeNothing(db: Db, id: string, c: Credentials, body: Body, uniqueId: string, h: Hasher)
    requires Check(c).Reject?
    ensures Create(db, c, body, uniqueId, h).0 == db
    ensures Update(db, id, c, body, h).0 == db
    ensures Delete(db, id, c).0 == db
  {
  }
}
