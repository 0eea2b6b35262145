/** The `requireAuth` middleware (server/src/middlewares/requireAuth.js): an
    ordered check of the Authorization header, the token verifier's verdict
    and the user lookup. The verifier (`verifyToken` of
    server/src/config/jwt.config.js) and the user lookup are parameters. */
module RequireAuth {
  import opened JsValues
  import opened JsStrings
  import opened SnippetModel

  /** A user document; only its id matters here. */
  datatype User = User(id: UserId)

  /** The three results of `verifyToken`: the decoded payload, `{ expired: true }`
      for an expired token, or `null` for any other failure. */
  datatype TokenCheck = Decoded(id: UserId) | Expired | Invalid

  /** The result of looking the payload's user up: found, `null`, or a throw. */
  datatype UserLookup = Found(user: User) | NoUser | LookupFault

  /** What the middleware does: respond with an error, or call `next()`
      with `req.user` set. Exactly one of the two happens. */
  datatype AuthResult =
    | Reject(status: int, message: string, code: Option<string>)
    | Next(user: User)

  const BEARER := "Bearer "
  const NO_TOKEN_MESSAGE := "Access denied. No token provided."
  const EXPIRED_MESSAGE := "Access denied. Token expired."
  const EXPIRED_CODE := "TOKEN_EXPIRED"
  const INVALID_MESSAGE := "Access denied. Invalid token."
  const NO_USER_MESSAGE := "User not found."
  const FAULT_MESSAGE := "Error verifying authentication."

  /** The header is present and starts with "Bearer ". */
  predicate HasBearer(header: Option<string>) {
    header.Some? && StartsWith(header.value, BEARER)
  }

  /** `authHeader.split(" ")[1]`: the text after "Bearer " up to the next
      space or the end. */
  function BearerToken(header: string): (t: string)
    requires StartsWith(header, BEARER)
    ensures ' ' !in t
    ensures StartsWith(header[|BEARER|..], t)
    ensures |BEARER| + |t| == |header| || header[|BEARER| + |t|] == ' '
  {
    assert header == "Bearer" + [' '] + header[7..];
    SplitAfterWord("Bearer", ' ', header[7..]);
    SplitHead(header[7..], ' ');
    Split(header, ' ')[1]
  }

  /** The token is the text after "Bearer " up to the next space or the end. */
  lemma BearerTokenIsSecondField(t: string, rest: string)
    requires ' ' !in t
    requires rest == [] || rest[0] == ' '
    ensures BearerToken(BEARER + t + rest) == t
  {
    var header := BEARER + t + rest;
    assert header == "Bearer" + [' '] + (t + rest);
    SplitAfterWord("Bearer", ' ', t + rest);
    assert Split(header, ' ')[1] == Split(t + rest, ' ')[0];
    FirstPiece(t, ' ', rest);
  }

  /** `requireAuth`, given the request's Authorization header (None when it
      is absent), the token verifier and the user lookup. */
  function Authenticate(header: Option<string>, verify: string -> TokenCheck, findUser: UserId -> UserLookup): (r: AuthResult)
    ensures r.Next? <==>
      && HasBearer(header)
      && verify(BearerToken(header.value)).Decoded?
      && findUser(verify(BearerToken(header.value)).id).Found?
    ensures r.Next? ==> r.user == findUser(verify(BearerToken(header.value)).id).user
    ensures r.Reject? ==> (r.status == 500 <==> r.message == FAULT_MESSAGE) && (r.status == 401 || r.status == 500)
  {
    if header.None? || !StartsWith(header.value, BEARER) then
      Reject(401, NO_TOKEN_MESSAGE, None)
    else
      match verify(BearerToken(header.value))
      case Expired => Reject(401, EXPIRED_MESSAGE, Some(EXPIRED_CODE))
      case Invalid => Reject(401, INVALID_MESSAGE, None)
      case Decoded(id) =>
        match findUser(id)
        case NoUser => Reject(401, NO_USER_MESSAGE, None)
        case LookupFault => Reject(500, FAULT_MESSAGE, None)
        case Found(user) => Next(user)
  }

  /** A missing header, or one without the Bearer prefix, is refused with 401
      before the verifier or the lookup is consulted: any verifier and
      lookup give the same answer. */
  lemma MissingBearerRejected(header: Option<string>,
                              verify: string -> TokenCheck, findUser: UserId -> UserLookup,
                              verify': string -> TokenCheck, findUser': UserId -> UserLookup)
    requires !HasBearer(header)
    ensures Authenticate(header, verify, findUser) == Reject(401, NO_TOKEN_MESSAGE, None)
    ensures Authenticate(header, verify, findUser) == Authenticate(header, verify', findUser')
  {
  }

  /** An expired token is answered with 401 and code TOKEN_EXPIRED, and a
      token the verifier rejects otherwise with 401 "Invalid token"; the
      lookup is not consulted. */
  lemma TokenFailures(header: Option<string>, verify: string -> TokenCheck,
                      findUser: UserId -> UserLookup, findUser': UserId -> UserLookup)
    requires HasBearer(header)
    ensures verify(BearerToken(header.value)) == Expired ==>
      Authenticate(header, verify, findUser) == Reject(401, EXPIRED_MESSAGE, Some(EXPIRED_CODE))
    ensures verify(BearerToken(header.value)) == Invalid ==>
      Authenticate(header, verify, findUser) == Reject(401, INVALID_MESSAGE, None)
    ensures !verify(BearerToken(header.value)).Decoded? ==>
      Authenticate(header, verify, findUser) == Authenticate(header, verify, findUser')
  {
  }

  /** For a valid token, a user that is not found gives 401 and a failed
      lookup gives 500. */
  lemma LookupFailures(header: Option<string>, verify: string -> TokenCheck, findUser: UserId -> UserLookup)
    requires HasBearer(header) && verify(BearerToken(header.value)).Decoded?
    ensures var u := findUser(verify(BearerToken(header.value)).id);
      && (u == NoUser ==> Authenticate(header, verify, findUser) == Reject(401, NO_USER_MESSAGE, None))
      && (u == LookupFault ==> Authenticate(header, verify, findUser) == Reject(500, FAULT_MESSAGE, None))
  {
  }

  /** A well-formed header carrying a token for an existing user passes, with
      that user attached. */
  lemma ValidTokenPasses(t: string, verify: string -> TokenCheck, findUser: UserId -> UserLookup, user: User)
    requires ' ' !in t
    requires verify(t).Decoded? && findUser(verify(t).id) == Found(user)
    ensures Authenticate(Some(BEARER + t), verify, findUser) == Next(user)
  {
    assert BEARER + t == BEARER + t + [];
    BearerTokenIsSecondField(t, []);
  }
}
