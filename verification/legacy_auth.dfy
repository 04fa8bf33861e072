/** The base `Auth` class of the basic-authentication API. Its
    `require_auth` turns each excluded path into a regular expression and
    tries `re.match` on the request path. The pattern shapes it builds are
    modelled directly: a literal followed by a starred `.` or a starred '/'. */
module LegacyApiAuth {

  import opened Wrappers
  import opened Strings
  import opened Requests
  import ApiAuth

  /** The starred atom that ends a pattern */
  datatype Tail = AnyChars  // `.*`
              | Slashes     // a starred '/'

  /** A pattern `literal` followed by its starred tail */
  datatype Pattern = Pattern(literal: string, tail: Tail)

  /** The pattern built from a stripped entry: the entry less its last
      character followed by a starred `.` when it ends in '*'; the entry less
      its last character followed by a starred '/' when it ends in '/'; the
      whole entry followed by a starred '/' otherwise */
  function Compile(entry: string): (p: Pattern)
    requires |entry| > 0
  {
    if entry[|entry| - 1] == '*' then Pattern(entry[..|entry| - 1], AnyChars)
    else if entry[|entry| - 1] == '/' then Pattern(entry[..|entry| - 1], Slashes)
    else Pattern(entry, Slashes)
  }

  /** The characters the tail's starred atom matches (`.` skips newlines) */
  predicate TailChar(t: Tail, c: char) {
    match t
    case AnyChars => c != '\n'
    case Slashes => c == '/'
  }

  /** `w` is in the language of the pattern */
  predicate InLanguage(p: Pattern, w: string) {
    && StartsWith(w, p.literal)
    && forall k :: |p.literal| <= k < |w| ==> TailChar(p.tail, w[k])
  }

  /** `re.match(p, path)`: some prefix of the path is in the pattern's
      language (the match is anchored at the start only). */
  predicate ReMatch(p: Pattern, path: string) {
    exists j :: 0 <= j <= |path| && InLanguage(p, path[..j])
  }

  /** Because a starred atom may match nothing, the pattern matches exactly
      the paths that start with its literal. */
  lemma ReMatchIsPrefix(p: Pattern, path: string)
    ensures ReMatch(p, path) <==> StartsWith(path, p.literal)
  {
    if StartsWith(path, p.literal) {
      assert InLanguage(p, path[..|p.literal|]);
    }
    if ReMatch(p, path) {
      var j :| 0 <= j <= |path| && InLanguage(p, path[..j]);
      assert path[..j][..|p.literal|] == path[..|p.literal|];
    }
  }

  /** The literal text an entry's pattern starts with: the entry without
      one trailing '*' or '/' */
  function Core(entry: string): (c: string)
    requires |entry| > 0
    ensures EndsWith(entry, '*') ==> entry == c + "*"
    ensures EndsWith(entry, '/') ==> entry == c + "/"
    ensures !EndsWith(entry, '*') && !EndsWith(entry, '/') ==> c == entry
  {
    Compile(entry).literal
  }

  /** An entry the loop can compile: non-empty once stripped
      (`exclusion_path[-1]` raises otherwise), with no regular expression
      metacharacter in the text it is matched by */
  predicate Compilable(entry: string) {
    |Strip(entry)| > 0 && NoRegexMeta(Core(Strip(entry)))
  }

  /** What `require_auth` needs of its excluded paths on a given path: every
      entry the loop reaches is compilable. The loop stops at the first
      entry whose pattern matches, so the entries after it are never looked
      at. */
  predicate Reachable(excluded: seq<string>, path: string)
    decreases |excluded|
  {
    |excluded| == 0 ||
    (Compilable(excluded[0]) &&
     (ReMatch(Compile(Strip(excluded[0])), path) || Reachable(excluded[1..], path)))
  }

  /** The loop of `require_auth`: does some stripped entry's pattern match? */
  function AnyPatternMatch(excluded: seq<string>, path: string): (r: bool)
    requires Reachable(excluded, path)
    decreases |excluded|
  {
    if |excluded| == 0 then false
    else ReMatch(Compile(Strip(excluded[0])), path) || AnyPatternMatch(excluded[1..], path)
  }

  /** `require_auth(path, excluded_paths)`: True for None arguments; otherwise
      False as soon as an entry's pattern matches the path. */
  function RequireAuth(path: Option<string>, excluded: Option<seq<string>>): (r: bool)
    requires path.Some? && excluded.Some? ==> Reachable(excluded.value, path.value)
    ensures path.None? || excluded.None? ==> r
    ensures excluded == Some([]) ==> r
  {
    if path.Some? && excluded.Some? then !AnyPatternMatch(excluded.value, path.value)
    else true
  }

  /** The entry, stripped and less one trailing '*' or '/', is a prefix of
      the path. */
  predicate EntryExempts(entry: string, path: string) {
    |Strip(entry)| > 0 && StartsWith(path, Core(Strip(entry)))
  }

  /** Every entry acts as a plain prefix test on the path: an entry exempts
      a path when, stripped and without one trailing '*' or '/', it is a
      prefix of the path. */
  lemma RequireAuthIsPrefixTest(path: string, excluded: seq<string>)
    requires Reachable(excluded, path)
    ensures RequireAuth(Some(path), Some(excluded)) <==>
              forall i :: 0 <= i < |excluded| ==> !EntryExempts(excluded[i], path)
  {
    AnyIsPrefix(path, excluded);
  }

  lemma {:induction false} AnyIsPrefix(path: string, excluded: seq<string>)
    requires Reachable(excluded, path)
    ensures AnyPatternMatch(excluded, path) <==>
              exists i :: 0 <= i < |excluded| && EntryExempts(excluded[i], path)
    decreases |excluded|
  {
    if |excluded| > 0 {
      var rest := excluded[1..];
      ReMatchIsPrefix(Compile(Strip(excluded[0])), path);
      if ReMatch(Compile(Strip(excluded[0])), path) {
        assert EntryExempts(excluded[0], path);
      } else {
        assert !EntryExempts(excluded[0], path);
        assert forall i :: 0 <= i < |rest| ==> rest[i] == excluded[i + 1];
        AnyIsPrefix(path, rest);
        if AnyPatternMatch(rest, path) {
          var i :| 0 <= i < |rest| && EntryExempts(rest[i], path);
          assert EntryExempts(excluded[i + 1], path);
        }
        if exists i :: 0 <= i < |excluded| && EntryExempts(excluded[i], path) {
          var i :| 0 <= i < |excluded| && EntryExempts(excluded[i], path);
          assert EntryExempts(rest[i - 1], path);
        }
      }
    }
  }

  /** A list whose every entry compiles can be given any path. */
  lemma {:induction false} AllCompilable(excluded: seq<string>, path: string)
    requires forall i :: 0 <= i < |excluded| ==> Compilable(excluded[i])
    ensures Reachable(excluded, path)
    decreases |excluded|
  {
    if |excluded| > 0 {
      assert forall i :: 0 <= i < |excluded| - 1 ==> excluded[1..][i] == excluded[i + 1];
      AllCompilable(excluded[1..], path);
    }
  }

  /** The loop never reaches an entry behind one that exempts the path:
      whatever follows, even an entry such as "" on which `""[-1]` would
      raise, the path is exempt. */
  lemma LaterEntriesNotCompiled(entry: string, path: string, later: seq<string>)
    requires Compilable(entry) && EntryExempts(entry, path)
    ensures Reachable([entry] + later, path)
    ensures !RequireAuth(Some(path), Some([entry] + later))
    ensures !Compilable("") && Reachable([entry, ""], path)
  {
    ReMatchIsPrefix(Compile(Strip(entry)), path);
    assert ([entry] + later)[0] == entry;
    assert [entry, ""][0] == entry;
    assert |Strip("")| <= 0;
  }

  /** With a single entry, the entry is a prefix test. */
  lemma SingleEntry(path: string, entry: string)
    requires Compilable(entry)
    ensures Reachable([entry], path)
    ensures RequireAuth(Some(path), Some([entry])) <==> !StartsWith(path, Core(Strip(entry)))
  {
    AllCompilable([entry], path);
    RequireAuthIsPrefixTest(path, [entry]);
    assert !EntryExempts([entry][0], path) <==> !StartsWith(path, Core(Strip(entry)));
  }

  /** An entry ending in '/' exempts the path with and without that '/'. */
  lemma SlashEntryExemptsBoth(x: string)
    requires |x| > 0 && NoRegexMeta(x) && !IsSpace(x[0])
    ensures Reachable([x + "/"], x) && Reachable([x + "/"], x + "/")
    ensures !RequireAuth(Some(x), Some([x + "/"]))
    ensures !RequireAuth(Some(x + "/"), Some([x + "/"]))
  {
    var e := x + "/";
    SlashEntryCore(x);
    SingleEntry(x, e);
    SingleEntry(e, e);
    PrefixOfAppend(x, "/");
  }

  /** `x/`, with `x` starting with no white space, strips to itself and
      compiles to the literal `x`. */
  lemma SlashEntryCore(x: string)
    requires |x| > 0 && !IsSpace(x[0])
    ensures Strip(x + "/") == x + "/" && Core(x + "/") == x
  {
    var e := x + "/";
    assert e[0] == x[0] && e[|e| - 1] == '/';
    TrimLeftNoSpace(e);
    TrimRightNoSpace(e);
  }

  lemma PrefixOfAppend(x: string, y: string)
    ensures StartsWith(x + y, x) && StartsWith(x, x)
  {
    assert (x + y)[..|x|] == x;
  }

  /** An entry without a trailing '*' or '/' is a bare prefix:
      "/api/v1/stat" exempts "/api/v1/status". */
  lemma BareEntryIsPrefix()
    ensures Reachable(["/api/v1/stat"], "/api/v1/status")
    ensures !RequireAuth(Some("/api/v1/status"), Some(["/api/v1/stat"]))
  {
    var e := "/api/v1/stat";
    StatEntryPlain();
    SingleEntry("/api/v1/status", e);
    PrefixOfAppend(e, "us");
    assert e + "us" == "/api/v1/status";
  }

  /** "/api/v1/stat" strips to itself, is its own literal and has no
      metacharacter. */
  lemma StatEntryPlain()
    ensures Strip("/api/v1/stat") == "/api/v1/stat"
    ensures Core("/api/v1/stat") == "/api/v1/stat"
    ensures NoRegexMeta("/api/v1/stat")
  {
    var e := "/api/v1/stat";
    assert e[0] == '/' && e[|e| - 1] == 't';
    TrimLeftNoSpace(e);
    TrimRightNoSpace(e);
    forall i | 0 <= i < |e|
      ensures !IsRegexMeta(e[i])
    {
      assert e[i] in "/apiv1st";
    }
  }

  /** `[e.strip() for e in excluded]` */
  function StripAll(excluded: seq<string>): (r: seq<string>)
    ensures |r| == |excluded|
    ensures forall i :: 0 <= i < |r| ==> r[i] == Strip(excluded[i])
  {
    if |excluded| == 0 then [] else [Strip(excluded[0])] + StripAll(excluded[1..])
  }

  /** Entries are stripped before use: stripping the list first changes
      neither what the loop needs nor its answer. */
  lemma {:induction false} EntriesStripped(path: string, excluded: seq<string>)
    requires Reachable(excluded, path)
    ensures Reachable(StripAll(excluded), path)
    ensures RequireAuth(Some(path), Some(StripAll(excluded))) == RequireAuth(Some(path), Some(excluded))
    decreases |excluded|
  {
    if |excluded| > 0 {
      var stripped := StripAll(excluded);
      assert stripped[1..] == StripAll(excluded[1..]);
      StripIdempotent(excluded[0]);
      assert Strip(stripped[0]) == Strip(excluded[0]);
      if !ReMatch(Compile(Strip(excluded[0])), path) {
        EntriesStripped(path, excluded[1..]);
      }
    }
  }

  /** `authorization_header(request)`: None without a request, otherwise the
      `Authorization` header, if any */
  function AuthorizationHeader(request: Option<Request>): (r: Option<string>)
    ensures request.None? ==> r.None?
    ensures request.Some? ==> r == request.value.authorization
  {
    if request.Some? then request.value.authorization else None
  }

  /** `current_user(request)`: this base class never identifies anyone */
  function CurrentUser<U>(request: Option<Request>): (r: Option<U>)
    ensures r.None?
  {
    None
  }

  /** The two `require_auth` implementations disagree on a bare entry: here
      it is a prefix test, in the session API's class an exact match after
      normalisation, so it exempts nothing there. */
  lemma ImplementationsDisagree()
    ensures Reachable(["/api/v1/stat"], "/api/v1/status")
    ensures !RequireAuth(Some("/api/v1/status"), Some(["/api/v1/stat"]))
    ensures ApiAuth.RequireAuth(Some("/api/v1/status"), Some(["/api/v1/stat"]))
  {
    BareEntryIsPrefix();
    assert "/api/v1/stat"[11] == 't';
    ApiAuth.BareEntryExemptsNothing("/api/v1/stat", "/api/v1/status");
  }
}
