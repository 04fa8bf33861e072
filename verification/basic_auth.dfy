/** `BasicAuth`: the `Authorization: Basic <base64(user:password)>` scheme
    of RFC 7617, as the session-authentication API parses it. */
module BasicAuth {

  import opened Wrappers
  import opened Strings
  import opened Requests
  import opened Models
  import Base64
  import Utf8
  import ApiAuth

  const Prefix: string := "Basic "

  /** `extract_base64_authorization_header(header)`: the text after
      "Basic " in the stripped header, matched by `Basic (?P<token>.+)` in
      full, so the token is non-empty and, since `.` does not match a
      newline, has none. The prefix is case-sensitive. */
  function ExtractBase64AuthorizationHeader(header: Option<string>): (r: Option<string>)
    ensures r.Some? ==> header.Some? && |r.value| > 0 && '\n' !in r.value
                        && Prefix + r.value == Strip(header.value)
    ensures header.Some? && !StartsWith(Strip(header.value), Prefix) ==> r.None?
  {
    match header
    case None => None
    case Some(h) =>
      var t := Strip(h);
      if StartsWith(t, Prefix) && |t| > |Prefix| && '\n' !in t[|Prefix|..] then
        assert Prefix + t[|Prefix|..] == t;
        Some(t[|Prefix|..])
      else None
  }

  /** Conversely, every such token is extracted. */
  lemma ExtractBase64Complete(header: string, token: string)
    requires |token| > 0 && '\n' !in token && Strip(header) == Prefix + token
    ensures ExtractBase64AuthorizationHeader(Some(header)) == Some(token)
  {
    assert (Prefix + token)[|Prefix|..] == token;
  }

  /** `decode_base64_authorization_header(token)`: None for None, for text
      that is not strict base 64 and for bytes that are not UTF-8; otherwise
      the text whose UTF-8 encoding the token decodes to. `b64decode` raises
      an uncaught ValueError on a non-ASCII string, hence the precondition. */
  function DecodeBase64AuthorizationHeader(token: Option<string>): (r: Option<string>)
    requires token.Some? ==> IsAscii(token.value)
    ensures token.Some? && !Base64.IsStrictBase64(token.value) ==> r.None?
    ensures r.Some? ==> token.Some? && Base64.Decode(token.value) == Some(Utf8.Encode(r.value))
    ensures forall s :: token.Some? && Base64.Decode(token.value) == Some(Utf8.Encode(s)) ==> r == Some(s)
  {
    match token
    case None => None
    case Some(t) =>
      match Base64.Decode(t)
      case None => None
      case Some(bytes) =>
        forall s | bytes == Utf8.Encode(s)
          ensures Utf8.Decode(bytes) == Some(s)
        {
          Utf8.DecodeEncode(s);
        }
        Utf8.Decode(bytes)
  }

  lemma StrictIsAscii(s: string)
    requires Base64.IsStrictBase64(s)
    ensures IsAscii(s)
  {
  }

  /** Round trip: the base 64 encoding of the UTF-8 bytes of any text
      decodes to that text. */
  lemma DecodeRoundTrip(text: string)
    ensures var token := Base64.Encode(Utf8.Encode(text));
            IsAscii(token) && DecodeBase64AuthorizationHeader(Some(token)) == Some(text)
  {
    var bytes := Utf8.Encode(text);
    Base64.EncodeIsStrict(bytes);
    StrictIsAscii(Base64.Encode(bytes));
    Base64.DecodeEncode(bytes);
    Utf8.DecodeEncode(text);
  }

  /** `extract_user_credentials(decoded)`: the stripped text split at its
      first ':' by `(?P<user>[^:]+):(?P<password>.+)` in full, so the user
      is non-empty without ':', and the password is non-empty, may hold
      ':' but, since `.` does not match a newline, no newline. (None, None)
      otherwise. */
  function ExtractUserCredentials(decoded: Option<string>): (r: (Option<string>, Option<string>))
    ensures r.0.Some? <==> r.1.Some?
    ensures r.0.Some? ==> decoded.Some?
                          && |r.0.value| > 0 && ':' !in r.0.value
                          && |r.1.value| > 0 && '\n' !in r.1.value
                          && r.0.value + ":" + r.1.value == Strip(decoded.value)
  {
    match decoded
    case None => (None, None)
    case Some(d) =>
      var t := Strip(d);
      match IndexOf(t, ':')
      case None => (None, None)
      case Some(i) =>
        if i > 0 && i + 1 < |t| && '\n' !in t[i + 1..] then
          assert t[..i] + ":" + t[i + 1..] == t;
          (Some(t[..i]), Some(t[i + 1..]))
        else (None, None)
  }

  /** Conversely, every such split is found. */
  lemma CredentialsComplete(decoded: string, user: string, password: string)
    requires |user| > 0 && ':' !in user && |password| > 0 && '\n' !in password
    requires Strip(decoded) == user + ":" + password
    ensures ExtractUserCredentials(Some(decoded)) == (Some(user), Some(password))
  {
    var t := Strip(decoded);
    assert t[|user|] == ':' && t[..|user|] == user;
    assert t[|user| + 1..] == password;
  }

  /** A password with a newline in it cannot be extracted. */
  lemma NewlinePasswordRefused(decoded: string, user: string, password: string)
    requires ':' !in user && '\n' in password
    requires Strip(decoded) == user + ":" + password
    ensures ExtractUserCredentials(Some(decoded)) == (None, None)
  {
    var t := Strip(decoded);
    assert t[|user|] == ':' && t[..|user|] == user;
    assert t[|user| + 1..] == password;
  }

  /** `user_object_from_credentials(email, pwd)`: the first user the search
      by email returns, when its password is valid; None for a None
      argument, a search that raises, no match or a wrong password. */
  function UserObjectFromCredentials<U>(model: UserModel<U>, email: Option<string>, pwd: Option<string>): (r: Option<U>)
    ensures r.Some? <==>
              && email.Some? && pwd.Some?
              && model.search(email.value).Found?
              && |model.search(email.value).users| > 0
              && model.isValidPassword(model.search(email.value).users[0], pwd.value)
    ensures r.Some? ==> r.value == model.search(email.value).users[0]
  {
    if email.Some? && pwd.Some? then
      match model.search(email.value)
      case SearchRaised => None
      case Found(users) =>
        if |users| == 0 then None
        else if model.isValidPassword(users[0], pwd.value) then Some(users[0])
        else None
    else None
  }

  /** The token of a request's header is ASCII, so decoding it cannot raise. */
  predicate Decodable(request: Option<Request>) {
    var token := ExtractBase64AuthorizationHeader(ApiAuth.AuthorizationHeader(request));
    token.Some? ==> IsAscii(token.value)
  }

  /** `current_user(request)`: header, token, decoded text, credentials and
      user lookup in turn; a None at any stage gives None. */
  function CurrentUser<U>(model: UserModel<U>, request: Option<Request>): (r: Option<U>)
    requires Decodable(request)
    ensures r.Some? ==>
              var header := ApiAuth.AuthorizationHeader(request);
              var token := ExtractBase64AuthorizationHeader(header);
              var decoded := DecodeBase64AuthorizationHeader(token);
              header.Some? && token.Some? && decoded.Some? && ExtractUserCredentials(decoded).0.Some?
  {
    var header := ApiAuth.AuthorizationHeader(request);
    var token := ExtractBase64AuthorizationHeader(header);
    var decoded := DecodeBase64AuthorizationHeader(token);
    var credentials := ExtractUserCredentials(decoded);
    UserObjectFromCredentials(model, credentials.0, credentials.1)
  }

  /** The header built from a non-empty base 64 token yields that token. */
  lemma TokenExtracted(token: string)
    requires |token| > 0 && Base64.IsStrictBase64(token)
    ensures ExtractBase64AuthorizationHeader(Some(Prefix + token)) == Some(token)
  {
    var header := Prefix + token;
    assert header[|header| - 1] == token[|token| - 1];
    assert Base64.IsAlphabet(token[|token| - 1]) || token[|token| - 1] == '=';
    TrimLeftNoSpace(header);
    TrimRightNoSpace(header);
    assert '\n' !in token;
    ExtractBase64Complete(header, token);
  }

  /** `email:password` with no white space at its ends splits back into
      the two. */
  lemma CredentialsExtracted(email: string, password: string)
    requires |email| > 0 && ':' !in email && !IsSpace(email[0])
    requires |password| > 0 && '\n' !in password && !IsSpace(password[|password| - 1])
    ensures ExtractUserCredentials(Some(email + ":" + password)) == (Some(email), Some(password))
  {
    var text := email + ":" + password;
    assert text[0] == email[0] && text[|text| - 1] == password[|password| - 1];
    TrimLeftNoSpace(text);
    TrimRightNoSpace(text);
    CredentialsComplete(text, email, password);
  }

  /** End to end: a request carrying `Basic base64(email:password)` is
      resolved by the credential lookup for exactly that email and password. */
  lemma BasicHeaderResolves<U>(model: UserModel<U>, req: Request, email: string, password: string)
    requires |email| > 0 && ':' !in email && !IsSpace(email[0])
    requires |password| > 0 && '\n' !in password && !IsSpace(password[|password| - 1])
    requires req.authorization == Some(Prefix + Base64.Encode(Utf8.Encode(email + ":" + password)))
    ensures Decodable(Some(req))
    ensures CurrentUser(model, Some(req)) == UserObjectFromCredentials(model, Some(email), Some(password))
  {
    var text := email + ":" + password;
    var bytes := Utf8.Encode(text);
    var token := Base64.Encode(bytes);
    var header := ApiAuth.AuthorizationHeader(Some(req));
    DecodeRoundTrip(text);
    Base64.EncodeIsStrict(bytes);
    assert |bytes| > 0;
    assert |token| > 0;
    assert header == Some(Prefix + token);
    TokenExtracted(token);
    CredentialsExtracted(email, password);
    assert ExtractUserCredentials(DecodeBase64AuthorizationHeader(Some(token))) == (Some(email), Some(password));
  }
}
