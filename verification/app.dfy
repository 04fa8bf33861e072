/** The API's request gate: the `AUTH_TYPE` choice of authentication class
    and the `before_request` hook that runs before every route. */
module App {

  import opened Wrappers
  import opened Requests
  import opened Models
  import ApiAuth
  import BasicAuth
  import SessionAuth
  import Base64
  import Utf8
  import Strings

  /** The authentication classes: `Auth`, `BasicAuth`, `SessionAuth` */
  datatype AuthKind = Base | Basic | Session

  /** The class `AUTH_TYPE` selects; None (no authentication) for any other
      value or when it is unset. */
  function SelectAuth(authType: Option<string>): (r: Option<AuthKind>)
    ensures r == Some(Base) <==> authType == Some("auth")
    ensures r == Some(Basic) <==> authType == Some("basic_auth")
    ensures r == Some(Session) <==> authType == Some("session_auth")
  {
    match authType
    case None => None
    case Some(t) =>
      if t == "auth" then Some(Base)
      else if t == "basic_auth" then Some(Basic)
      else if t == "session_auth" then Some(Session)
      else None
  }

  /** The paths `before_request` lets through unauthenticated */
  const ExcludedPaths: seq<string> :=
    ["/api/v1/status/", "/api/v1/unauthorized/", "/api/v1/forbidden/", "/api/v1/auth_session/login/"]

  /** What the process reads from outside: the `AUTH_TYPE` and
      `SESSION_NAME` environment variables, the user directory and the
      session table. */
  datatype Env<!U> = Env(
    authType: Option<string>,
    sessionName: Option<string>,
    model: UserModel<U>,
    sessions: SessionMap)

  type SessionMap = SessionAuth.SessionMap

  /** `auth.current_user(request)` for the selected class; the base class
      knows no user. */
  function CurrentUser<U>(kind: AuthKind, env: Env<U>, request: Request): (r: Option<U>)
    requires kind == Basic ==> BasicAuth.Decodable(Some(request))
    ensures kind == Base ==> r.None?
  {
    match kind
    case Base => None
    case Basic => BasicAuth.CurrentUser(env.model, Some(request))
    case Session => SessionAuth.CurrentUser(env.model, env.sessions, Some(request), env.sessionName)
  }

  /** Does the request carry a non-empty `Authorization` header or session
      cookie? */
  predicate HasCredentials<U>(env: Env<U>, request: Request) {
    || Truthy(ApiAuth.AuthorizationHeader(Some(request)))
    || Truthy(ApiAuth.SessionCookie(Some(request), env.sessionName))
  }

  /** The outcome of `before_request`: the route runs, with or without
      `request.current_user` set, or the request is aborted. */
  datatype Decision<U> = Proceed | ProceedAs(user: U) | Abort(status: int)

  /** A request `before_request` can judge: Flask paths are never empty, and
      a gated request under basic authentication must not carry a non-ASCII
      token, on which `b64decode` raises. */
  predicate Judgeable<U>(env: Env<U>, request: Request) {
    && |request.path| > 0
    && (&& SelectAuth(env.authType) == Some(Basic)
        && ApiAuth.RequireAuth(Some(request.path), Some(ExcludedPaths))
        ==> BasicAuth.Decodable(Some(request)))
  }

  /** `before_request()`: no class selected or an exempt path proceeds;
      a gated request without credentials is aborted with 401, one whose
      credentials name no user with 403; otherwise it proceeds as that user. */
  function BeforeRequest<U>(env: Env<U>, request: Request): (r: Decision<U>)
    requires Judgeable(env, request)
    ensures r.Proceed? <==>
              SelectAuth(env.authType).None? || !ApiAuth.RequireAuth(Some(request.path), Some(ExcludedPaths))
    ensures r == Abort(401) <==>
              && SelectAuth(env.authType).Some?
              && ApiAuth.RequireAuth(Some(request.path), Some(ExcludedPaths))
              && !HasCredentials(env, request)
    ensures r.Abort? ==> r.status == 401 || r.status == 403
    ensures r.ProceedAs? ==>
              HasCredentials(env, request)
              && CurrentUser(SelectAuth(env.authType).value, env, request) == Some(r.user)
    ensures && SelectAuth(env.authType).Some?
            && ApiAuth.RequireAuth(Some(request.path), Some(ExcludedPaths))
            && HasCredentials(env, request)
            ==> match CurrentUser(SelectAuth(env.authType).value, env, request)
                case Some(u) => r == ProceedAs(u)
                case None => r == Abort(403)
  {
    match SelectAuth(env.authType)
    case None => Proceed
    case Some(kind) =>
      if !ApiAuth.RequireAuth(Some(request.path), Some(ExcludedPaths)) then Proceed
      else if !HasCredentials(env, request) then Abort(401)
      else
        match CurrentUser(kind, env, request)
        case None => Abort(403)
        case Some(u) => ProceedAs(u)
  }

  /** The JSON `error` text of the registered error handlers */
  function ErrorBody(status: int): Option<string> {
    if status == 401 then Some("Unauthorized")
    else if status == 403 then Some("Forbidden")
    else if status == 404 then Some("Not found")
    else None
  }

  /** Every abort `before_request` raises has a handler. */
  lemma AbortsHandled<U>(env: Env<U>, request: Request)
    requires Judgeable(env, request)
    ensures var r := BeforeRequest(env, request);
            r.Abort? ==> ErrorBody(r.status).Some?
  {
  }

  /** A path without its last character */
  function Bare(path: string): string
    requires |path| > 0
  {
    path[..|path| - 1]
  }

  /** Every excluded path ends in a single '/'. */
  lemma ExcludedPathShape(i: int)
    requires 0 <= i < |ExcludedPaths|
    ensures var path := ExcludedPaths[i];
            |path| > 1 && path[|path| - 1] == '/' && path[|path| - 2] != '/'
  {
    if i == 0 {} else if i == 1 {} else if i == 2 {} else {}
  }

  /** A request on a path that needs no authentication proceeds. */
  lemma ExemptProceeds<U>(env: Env<U>, request: Request)
    requires |request.path| > 0 && !ApiAuth.RequireAuth(Some(request.path), Some(ExcludedPaths))
    ensures Judgeable(env, request) && BeforeRequest(env, request) == Proceed
  {
  }

  /** Each excluded path proceeds under every class, with or without its
      trailing '/'. */
  lemma ExcludedPathsProceed<U>(env: Env<U>, i: int, authorization: Option<string>, cookies: map<string, string>)
    requires 0 <= i < |ExcludedPaths|
    ensures && !ApiAuth.RequireAuth(Some(ExcludedPaths[i]), Some(ExcludedPaths))
            && BeforeRequest(env, Request(ExcludedPaths[i], authorization, cookies)) == Proceed
    ensures && !ApiAuth.RequireAuth(Some(Bare(ExcludedPaths[i])), Some(ExcludedPaths))
            && BeforeRequest(env, Request(Bare(ExcludedPaths[i]), authorization, cookies)) == Proceed
  {
    ExcludedPathShape(i);
    ApiAuth.ListedPathExempt(ExcludedPaths, i);
    ExemptProceeds(env, Request(ExcludedPaths[i], authorization, cookies));
    ExemptProceeds(env, Request(Bare(ExcludedPaths[i]), authorization, cookies));
  }

  /** Under the base class no gated request ever proceeds: it is aborted
      with 401 without credentials and with 403 with them. */
  lemma BaseClassRejectsGated<U>(env: Env<U>, request: Request)
    requires Judgeable(env, request) && env.authType == Some("auth")
    requires ApiAuth.RequireAuth(Some(request.path), Some(ExcludedPaths))
    ensures BeforeRequest(env, request) == (if HasCredentials(env, request) then Abort(403) else Abort(401))
  {
  }

  /** Under basic authentication, a request carrying `Basic
      base64(email:password)` on a gated path proceeds as the user the
      credential lookup finds, and is aborted with 403 when it finds none. */
  lemma BasicLoginProceeds<U>(env: Env<U>, request: Request, email: string, password: string)
    requires env.authType == Some("basic_auth")
    requires |request.path| > 0 && ApiAuth.RequireAuth(Some(request.path), Some(ExcludedPaths))
    requires |email| > 0 && ':' !in email && !Strings.IsSpace(email[0])
    requires |password| > 0 && '\n' !in password && !Strings.IsSpace(password[|password| - 1])
    requires request.authorization
             == Some(BasicAuth.Prefix + Base64.Encode(Utf8.Encode(email + ":" + password)))
    ensures Judgeable(env, request)
    ensures var user := BasicAuth.UserObjectFromCredentials(env.model, Some(email), Some(password));
            BeforeRequest(env, request) == (if user.Some? then ProceedAs(user.value) else Abort(403))
  {
    BasicAuth.BasicHeaderResolves(env.model, request, email, password);
    assert SelectAuth(env.authType) == Some(Basic);
    assert |request.authorization.value| > 0;
    assert HasCredentials(env, request);
  }

  /** Under session authentication, the cookie of a session created for a
      user ID proceeds, on a gated path, as the user that ID names. */
  lemma SessionLoginProceeds<U>(env: Env<U>, path: string, name: string, userId: string, newId: string, user: U)
    requires env.authType == Some("session_auth") && env.sessionName == Some(name)
    requires |path| > 0 && ApiAuth.RequireAuth(Some(path), Some(ExcludedPaths))
    requires |newId| > 0 && env.model.get(Some(userId)) == Some(user)
    ensures var after := env.(sessions := SessionAuth.CreateSession(env.sessions, Some(userId), newId).1);
            BeforeRequest(after, SessionAuth.CookieRequest(path, name, newId)) == ProceedAs(user)
  {
    var after := env.(sessions := SessionAuth.CreateSession(env.sessions, Some(userId), newId).1);
    var request := SessionAuth.CookieRequest(path, name, newId);
    assert HasCredentials(after, request);
  }

  /** Under basic authentication a session cookie alone gets past the 401
      test, since either credential satisfies it, but is then refused with
      403. */
  lemma CookieUnderBasicForbidden<U>(env: Env<U>, path: string, name: string, sid: string)
    requires env.authType == Some("basic_auth") && env.sessionName == Some(name)
    requires |path| > 0 && ApiAuth.RequireAuth(Some(path), Some(ExcludedPaths)) && |sid| > 0
    ensures BeforeRequest(env, SessionAuth.CookieRequest(path, name, sid)) == Abort(403)
  {
    var request := SessionAuth.CookieRequest(path, name, sid);
    assert HasCredentials(env, request);
  }
}
