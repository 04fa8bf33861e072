/** The base `Auth` class of the session-authentication API: which paths
    need authentication, and where the credentials of a request are. */
module ApiAuth {

  import opened Wrappers
  import opened Strings
  import opened Requests

  /** A path without a trailing '/' is compared as if it had one. */
  function Normalize(path: string): (r: string)
    requires |path| > 0
    ensures EndsWith(r, '/')
    ensures r == path || r == path + "/"
    ensures EndsWith(path, '/') <==> r == path
  {
    if path[|path| - 1] != '/' then path + "/" else path
  }

  /** An entry ending in '*' without that '*' */
  function WildcardPrefix(entry: string): string
    requires EndsWith(entry, '*')
  {
    entry[..|entry| - 1]
  }

  /** The first loop of `require_auth`: does some entry ending in '*' have,
      without its '*', a prefix of the normalised path? */
  function AnyWildcardMatch(entries: seq<string>, normalized: string): (r: bool)
    ensures r <==> exists i :: 0 <= i < |entries| && EndsWith(entries[i], '*')
                              && StartsWith(normalized, WildcardPrefix(entries[i]))
  {
    if |entries| == 0 then false
    else
      (EndsWith(entries[0], '*') && StartsWith(normalized, WildcardPrefix(entries[0])))
      || AnyWildcardMatch(entries[1..], normalized)
  }

  /** `require_auth(path, excluded_paths)`. None and an empty list require
      authentication; otherwise the path is normalised and is exempt when a
      wildcard entry is a prefix of it or when it is itself an entry.
      Indexing `path[-1]` raises for an empty path, hence the precondition. */
  function RequireAuth(path: Option<string>, excluded: Option<seq<string>>): (r: bool)
    requires path.Some? && excluded.Some? && |excluded.value| > 0 ==> |path.value| > 0
    ensures path.None? || excluded.None? || |excluded.value| == 0 ==> r
  {
    if path.None? || excluded.None? || |excluded.value| == 0 then true
    else
      var p := Normalize(path.value);
      if AnyWildcardMatch(excluded.value, p) then false
      else if p in excluded.value then false
      else true
  }

  /** What one entry exempts: the normalised paths it is a wildcard prefix
      of, or the one it equals. */
  predicate Exempts(entry: string, normalized: string) {
    || (EndsWith(entry, '*') && StartsWith(normalized, WildcardPrefix(entry)))
    || entry == normalized
  }

  /** `require_auth` holds exactly when no entry exempts the normalised path. */
  lemma RequireAuthExactly(path: string, excluded: seq<string>)
    requires |path| > 0 && |excluded| > 0
    ensures RequireAuth(Some(path), Some(excluded)) <==>
              forall i :: 0 <= i < |excluded| ==> !Exempts(excluded[i], Normalize(path))
  {
  }

  /** `p` and `p + "/"` are treated alike when `p` has no trailing '/'. */
  lemma TrailingSlashIrrelevant(path: string, excluded: Option<seq<string>>)
    requires |path| > 0 && !EndsWith(path, '/')
    ensures RequireAuth(Some(path), excluded) == RequireAuth(Some(path + "/"), excluded)
  {
    var q := path + "/";
    assert q[|q| - 1] == '/';
    assert Normalize(q) == Normalize(path);
  }

  /** A listed entry ending in '/' is exempt, and so is that entry without
      its '/'. */
  lemma ListedPathExempt(excluded: seq<string>, i: int)
    requires 0 <= i < |excluded| && |excluded[i]| > 1 && EndsWith(excluded[i], '/')
    requires excluded[i][|excluded[i]| - 2] != '/'
    ensures !RequireAuth(Some(excluded[i]), Some(excluded))
    ensures !RequireAuth(Some(excluded[i][..|excluded[i]| - 1]), Some(excluded))
  {
    var entry := excluded[i];
    var bare := entry[..|entry| - 1];
    assert Exempts(excluded[i], Normalize(entry));
    RequireAuthExactly(entry, excluded);
    assert bare + "/" == entry;
    TrailingSlashIrrelevant(bare, Some(excluded));
  }

  /** An entry that ends in neither '/' nor '*' exempts nothing: a
      normalised path always ends in '/'. */
  lemma BareEntryExemptsNothing(entry: string, path: string)
    requires |path| > 0 && !EndsWith(entry, '/') && !EndsWith(entry, '*')
    ensures RequireAuth(Some(path), Some([entry]))
  {
    assert !Exempts(entry, Normalize(path));
  }

  /** `authorization_header(request)`: None without a request, otherwise the
      request's `Authorization` header, if any */
  function AuthorizationHeader(request: Option<Request>): (r: Option<string>)
    ensures request.None? ==> r.None?
    ensures request.Some? ==> r == request.value.authorization
  {
    match request
    case None => None
    case Some(req) => req.authorization
  }

  /** `session_cookie(request)`: None without a request or when the cookie
      name `SESSION_NAME` is unset, otherwise the cookie of that name, if any */
  function SessionCookie(request: Option<Request>, sessionName: Option<string>): (r: Option<string>)
    ensures r.Some? <==> request.Some? && sessionName.Some? && sessionName.value in request.value.cookies
    ensures r.Some? ==> r.value == request.value.cookies[sessionName.value]
  {
    match request
    case None => None
    case Some(req) =>
      match sessionName
      case None => None
      case Some(name) => if name in req.cookies then Some(req.cookies[name]) else None
  }
}
