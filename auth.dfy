/** The authentication middleware: the bearer token of the Authorization header, its
    verification, and the role gate placed in front of handlers. JWT verification is not
    modelled: `verify(token)` is whatever jsonwebtoken answers with the configured secret,
    the claims of a valid token or nothing. */
module Auth {
  import opened Collections
  import opened Text

  /** The claims an access token carries (signed at login). */
  datatype Claims = Claims(userId: int, email: string, userType: string)

  /** What a middleware does with a request: hand it to the next handler, or answer it. */
  datatype Outcome = Next | Respond(status: int)

  /** The parts of a request the middleware reads and writes. */
  class Request {
    var authorization: Option<string>
    var user: Option<Claims>

    constructor (authorization: Option<string>)
      ensures this.authorization == authorization && user.None?
    {
      this.authorization := authorization;
      user := None;
    }
  }

  /** `authHeader && authHeader.split(" ")[1]`, kept only when truthy: the second
      space-separated piece of a present header, when there is one and it is not empty. */
  function BearerToken(header: Option<string>): (token: Option<string>)
    ensures token.Some? ==> token.value != "" && ' ' !in token.value
    ensures header.None? || header.value == "" ==> token.None?
  {
    if header.None? then None
    else
      var parts := Split(header.value, ' ');
      if |parts| < 2 || parts[1] == "" then None else Some(parts[1])
  }

  /** The scheme word is never looked at: any first word, `Bearer` or not, yields the word
      after it, and anything after a further space is ignored. */
  lemma {:induction false} TokenIsSecondWord(scheme: string, token: string, tail: string)
    requires ' ' !in scheme && ' ' !in token && token != ""
    ensures BearerToken(Some(scheme + " " + token)) == Some(token)
    ensures BearerToken(Some(scheme + " " + token + " " + tail)) == Some(token)
  {
    SplitAfterWord(scheme, token, ' ');
    SplitNoSeparator(token, ' ');
    assert scheme + " " + token == scheme + [' '] + token;
    SplitAfterWord(scheme, token + [' '] + tail, ' ');
    SplitAfterWord(token, tail, ' ');
    assert scheme + " " + token + " " + tail == scheme + [' '] + (token + [' '] + tail);
  }

  /** A header of one word, such as `Bearer` alone, carries no token. */
  lemma OneWordHasNoToken(word: string)
    requires ' ' !in word
    ensures BearerToken(Some(word)).None?
  {
    SplitNoSeparator(word, ' ');
  }

  /** The decision of `authenticateToken`: no token is 401, a token that does not verify is
      403, otherwise the request goes on with the token's claims. */
  function Authentication(header: Option<string>, verify: string -> Option<Claims>): (r: Result<Claims>)
    ensures r.Ok? <==> BearerToken(header).Some? && verify(BearerToken(header).value).Some?
    ensures r.Ok? ==> r.value == verify(BearerToken(header).value).value
    ensures r.Err? ==> (r.status == 401 <==> BearerToken(header).None?)
    ensures r.Err? ==> r.status in {401, 403}
  {
    match BearerToken(header)
    case None => Err(401)
    case Some(token) =>
      match verify(token)
      case None => Err(403)
      case Some(claims) => Ok(claims)
  }

  /** `authenticateToken`: on success the claims become `req.user` and the request goes
      on; otherwise it is answered and `req.user` is left alone. */
  method AuthenticateToken(req: Request, verify: string -> Option<Claims>) returns (outcome: Outcome)
    modifies req`user
    ensures var r := Authentication(req.authorization, verify);
      && (r.Ok? ==> outcome == Next && req.user == Some(r.value))
      && (r.Err? ==> outcome == Respond(r.status) && req.user == old(req.user))
  {
    var r := Authentication(req.authorization, verify);
    if r.Err? {
      return Respond(r.status);
    }
    req.user := Some(r.value);
    outcome := Next;
  }

  /** `authorizeRole(allowedRoles)`: no `req.user` is 401; the request goes on exactly when
      the user's type is one of the allowed roles, and is 403 otherwise. */
  function AuthorizeRole(allowedRoles: seq<string>, user: Option<Claims>): (outcome: Outcome)
    ensures outcome == Next <==> user.Some? && user.value.userType in allowedRoles
    ensures outcome == Respond(401) <==> user.None?
    ensures outcome != Next ==> outcome.status in {401, 403}
  {
    if user.None? then Respond(401)
    else if user.value.userType in allowedRoles then Next
    else Respond(403)
  }

  /** Widening the role list never turns a request away that it let through. */
  lemma MoreRolesAdmitMore(allowed: seq<string>, wider: seq<string>, user: Option<Claims>)
    requires forall role :: role in allowed ==> role in wider
    ensures AuthorizeRole(allowed, user) == Next ==> AuthorizeRole(wider, user) == Next
  {
  }

  /** The two middlewares in a row: once `authenticateToken` has set `req.user`, the role
      gate never answers 401, and it admits the request exactly when the verified token's
      user type is allowed. */
  lemma AuthorizeAfterAuthenticate(header: Option<string>, verify: string -> Option<Claims>,
                                   allowedRoles: seq<string>)
    requires Authentication(header, verify).Ok?
    ensures var user := Some(Authentication(header, verify).value);
      && AuthorizeRole(allowedRoles, user) != Respond(401)
      && (AuthorizeRole(allowedRoles, user) == Next <==>
            verify(BearerToken(header).value).value.userType in allowedRoles)
  {
  }
}
