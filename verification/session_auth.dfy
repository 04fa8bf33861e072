/** `SessionAuth`: server-side sessions kept in one process-wide table from
    session ID to user ID, read back through a cookie. */
module SessionAuth {

  import opened Wrappers
  import opened Requests
  import opened Models
  import ApiAuth

  /** `SessionAuth.user_id_by_session_id`, shared by every instance */
  type SessionMap = map<string, string>

  /** `create_session(user_id)`: None, and no change, without a user ID;
      otherwise the new session ID `newId` (a `uuid4()` string in the
      source), now bound to the user ID, with every other binding kept. */
  function CreateSession(sessions: SessionMap, userId: Option<string>, newId: string): (r: (Option<string>, SessionMap))
    ensures userId.None? ==> r == (None, sessions)
    ensures userId.Some? ==>
              && r.0 == Some(newId)
              && r.1.Keys == sessions.Keys + {newId}
              && r.1[newId] == userId.value
              && (forall s :: s in sessions && s != newId ==> r.1[s] == sessions[s])
  {
    match userId
    case None => (None, sessions)
    case Some(u) => (Some(newId), sessions[newId := u])
  }

  /** `user_id_for_session_id(session_id)`: the user ID bound to the session
      ID, None for None or an unknown ID. */
  function UserIdForSessionId(sessions: SessionMap, sessionId: Option<string>): (r: Option<string>)
    ensures r.Some? <==> sessionId.Some? && sessionId.value in sessions
    ensures r.Some? ==> r.value == sessions[sessionId.value]
  {
    match sessionId
    case None => None
    case Some(s) => if s in sessions then Some(sessions[s]) else None
  }

  /** `current_user(request)`: None without a session cookie, otherwise
      `User.get` of whatever user ID the cookie's session resolves to
      (possibly None). */
  function CurrentUser<U>(model: UserModel<U>, sessions: SessionMap, request: Option<Request>, sessionName: Option<string>): (r: Option<U>)
    ensures ApiAuth.SessionCookie(request, sessionName).None? ==> r.None?
    ensures ApiAuth.SessionCookie(request, sessionName).Some? ==>
              r == model.get(UserIdForSessionId(sessions, ApiAuth.SessionCookie(request, sessionName)))
  {
    match ApiAuth.SessionCookie(request, sessionName)
    case None => None
    case Some(sid) => model.get(UserIdForSessionId(sessions, Some(sid)))
  }

  /** `destroy_session(request)`: true, with the cookie's session removed,
      exactly when there is a request carrying a session cookie whose
      session is bound to a non-empty user ID; false, with the table
      unchanged, otherwise. */
  function DestroySession(sessions: SessionMap, request: Option<Request>, sessionName: Option<string>): (r: (bool, SessionMap))
    ensures !r.0 ==> r.1 == sessions
    ensures r.0 <==>
              var cookie := ApiAuth.SessionCookie(request, sessionName);
              cookie.Some? && cookie.value in sessions && sessions[cookie.value] != ""
    ensures r.0 ==>
              var sid := ApiAuth.SessionCookie(request, sessionName).value;
              r.1.Keys == sessions.Keys - {sid}
              && forall s :: s in r.1 ==> r.1[s] == sessions[s]
  {
    if request.None? then (false, sessions)
    else
      match ApiAuth.SessionCookie(request, sessionName)
      case None => (false, sessions)
      case Some(sid) =>
        var userId := UserIdForSessionId(sessions, Some(sid));
        if userId.None? || userId.value == "" then (false, sessions)
        else (true, sessions - {sid})
  }

  /** The request a client sends back after login: the session cookie only. */
  function CookieRequest(path: string, name: string, sid: string): Request {
    Request(path, None, map[name := sid])
  }

  /** Login then lookup: the cookie carrying a new session ID resolves to
      the user it was created for. */
  lemma CreateThenResolve<U>(model: UserModel<U>, sessions: SessionMap, userId: string, newId: string, path: string, name: string)
    ensures var (sid, after) := CreateSession(sessions, Some(userId), newId);
            sid == Some(newId)
            && CurrentUser(model, after, Some(CookieRequest(path, name, newId)), Some(name)) == model.get(Some(userId))
  {
  }

  /** A newId session ID takes over no existing session: every earlier
      session still resolves to the same user. */
  lemma CreateKeepsOthers(sessions: SessionMap, userId: string, newId: string, other: string)
    requires newId !in sessions && other != newId
    ensures UserIdForSessionId(CreateSession(sessions, Some(userId), newId).1, Some(other))
            == UserIdForSessionId(sessions, Some(other))
  {
  }

  /** Logout then lookup: once destroyed, the cookie no longer resolves to
      a user ID, and a second logout with it fails. */
  lemma DestroyThenResolve<U>(model: UserModel<U>, sessions: SessionMap, request: Request, name: string)
    requires DestroySession(sessions, Some(request), Some(name)).0
    ensures var after := DestroySession(sessions, Some(request), Some(name)).1;
            && CurrentUser(model, after, Some(request), Some(name)) == model.get(None)
            && !DestroySession(after, Some(request), Some(name)).0
  {
  }

  /** Because the source tests the user ID for truthiness, a session bound
      to the empty user ID can never be destroyed. */
  lemma EmptyUserIdNeverDestroyed(sessions: SessionMap, newId: string, request: Option<Request>, sessionName: Option<string>)
    requires ApiAuth.SessionCookie(request, sessionName) == Some(newId)
    ensures var after := CreateSession(sessions, Some(""), newId).1;
            DestroySession(after, request, sessionName) == (false, after)
  {
  }
}
