# alx-backend-user-data, modelled in Dafny

This project models the authentication and personal-data code of the
`alx-backend-user-data` exercises and proves properties of the model. There
are five parts:

- **The user-authentication service** (`0x03-user_authentication_service`).
  - Covers the `users` table schema, the `DB` store (`add_user`, `find_user_by`, `update_user`) and the `Auth` service (registration, login check, sessions, password reset).
  - Each method is a function from the old store to its result and the new store.
  - The store is the sequence of its rows in rowid order. Ids are 1, 2, 3, … because rows are never deleted.
  - `Consistent` is the invariant that every operation keeps: emails, live session ids and pending reset tokens each identify at most one user.
- **The two `require_auth` path matchers.**
  - The session API's version normalises a trailing '/' and then does an exact or `*`-prefix comparison.
  - The basic-auth API's version compiles every entry into a regular expression for `re.match`. The model proves this amounts to a plain prefix test.
- **Basic authentication** (`basic_auth.py`).
  - Extracts the `Basic` token, then decodes it with strict Base64 (section 4 of RFC 4648, as `b64decode(validate=True)` accepts it from Python 3.11 on) followed by UTF-8 (Table 3-7 of the Unicode Standard).
  - Splits `user:password` at the first ':' (section 2 of RFC 7617), then looks the user up.
  - The end-to-end lemma: a header built from `email:password` resolves to exactly that credential lookup.
- **Session authentication and the request gate.**
  - The process-wide session table is a `map<string, string>`.
  - `before_request` is a decision function: proceed, proceed as a user, or abort with 401 or 403. It depends on which class `AUTH_TYPE` selects.
- **The PII log filter** (`filtered_logger.py`).
  - `filter_datum` substitutes the fixed pattern `(?P<field>f1|…)=[^sep]*`. The model is a left-to-right scanner that tries the fields in list order.
  - `RedactingFormatter.format` is `filter_datum` applied to the formatted record.
  - `main` builds one `k=v; k=v;` line per row; its lemma shows exactly which values are masked.

Modules:

| Module | Covers |
|---|---|
| `Wrappers` | `Option`/`Result` |
| `Strings` | `strip`, `startswith`, `isspace` |
| `Utf8` | UTF-8 encoding and decoding |
| `Base64` | strict Base64 |
| `Bcrypt` | a stand-in for the library |
| `UserSchema`, `Db`, `UserAuth` | the 0x03 service |
| `Requests`, `Models` | the request record and the `User` model's interface |
| `ApiAuth`, `LegacyApiAuth` | the two base `Auth` classes |
| `BasicAuth`, `SessionAuth`, `App` | the session API |
| `FilteredLogger` | the log filter |

Three facts about the code that are easy to misread:

- `email` has no uniqueness constraint in the schema (`user.py:54`). Uniqueness comes only from `register_user`'s check, and the model proves that check keeps it (`UserAuth.RegisterUser`).
- `BasicAuth` reads only the `Authorization` header and `SessionAuth` reads only the session cookie. The gate's 401 test accepts either, so a cookie alone under basic auth is refused with 403 (`App.CookieUnderBasicForbidden`).
- Only the session API's matcher treats `/x` and `/x/` alike. The basic-auth API's matcher is a prefix test, and the two disagree on an entry with no trailing '/' or '*' (`LegacyApiAuth.ImplementationsDisagree`).

## Model

| member | source | states |
|---|---|---|
| UserSchema.ColumnsAreAttributes | 0x03-user_authentication_service/db.py:93 | every column passes `hasattr(User, key)`, and so do names that are not columns, such as `metadata` |
| UserSchema.ColumnValue | 0x03-user_authentication_service/user.py:49-70 | email and hashed_password are NOT NULL columns; session_id and reset_token hold NULL exactly when absent |
| UserSchema.Assign | 0x03-user_authentication_service/db.py:131-133 | setting one column gives that column the new value, keeps the id and leaves every other column as it was |
| UserSchema.NullNeverMatches | 0x03-user_authentication_service/db.py:98-101 | a filter value of None matches no row, since SQL `= NULL` is never true |
| Db.IdsUnique | 0x03-user_authentication_service/user.py:49 | the primary key identifies at most one row |
| Db.Init | 0x03-user_authentication_service/db.py:31-33 | a new store, after drop_all/create_all, holds no user |
| Db.AddUser | 0x03-user_authentication_service/db.py:64-71 | exactly one row is appended, with a fresh id, the given email and hash and NULL optional columns; earlier rows are untouched |
| Db.FirstMatch | 0x03-user_authentication_service/db.py:98-101 | finds the first row in table order whose named columns all equal the given values; finds none only when no row matches |
| Db.FindUserBy | 0x03-user_authentication_service/db.py:91-103 | a key that is not an attribute of `User` raises InvalidRequestError; with column keys it succeeds exactly when some row matches, returning the first such row, and fails with NoResultFound otherwise |
| Db.Lookup | 0x03-user_authentication_service/db.py:126-133 | the value a keyword argument gives a column, and None only when no argument names it |
| Db.ApplyAll | 0x03-user_authentication_service/db.py:131-133 | after the SET clause, exactly the named columns hold their new values and the others are unchanged |
| Db.ColumnsDetermineRow | 0x03-user_authentication_service/user.py:21-70 | two rows that agree on every mapped column are the same row |
| Db.UpdateUser | 0x03-user_authentication_service/db.py:122-135 | an unknown id raises NoResultFound (the None test is dead); a key that is not an attribute of `User` raises ValueError before any write; with column keys only the named columns of that user change and every other row stays |
| Db.UpdateKeepsValid | 0x03-user_authentication_service/db.py:122-135 | updates never move or renumber rows |
| UserAuth.LongestToken | 0x03-user_authentication_service/auth.py:30-36 | bounds the length of every session id and reset token in the store |
| UserAuth.FreshTokenExists | 0x03-user_authentication_service/auth.py:30-36 | some token is held by nobody, so a fresh-token source can always be served |
| UserAuth.EmailIndex | 0x03-user_authentication_service/auth.py:70-71 | a registered email has a row, and it is the only one when emails are unique |
| UserAuth.FindByEmail | 0x03-user_authentication_service/auth.py:70-71 | the lookup by email succeeds exactly for registered emails and returns that user |
| UserAuth.UpdateAt | 0x03-user_authentication_service/db.py:122-135 | updating a user by id replaces that user's row and no other |
| UserAuth.RegisterUser | 0x03-user_authentication_service/auth.py:70-74 | a registered email raises ValueError with the store unchanged; otherwise one user is appended with that email, a hash that checks against the password and no session or reset token; emails stay unique |
| UserAuth.ValidLogin | 0x03-user_authentication_service/auth.py:89-99 | False for an unknown email; otherwise true exactly when the password checks against that user's stored hash |
| UserAuth.SetTokenAt | 0x03-user_authentication_service/auth.py:118-121 | updating by the found user's id sets the token of exactly the users with that email |
| UserAuth.TokenUpdateSets | 0x03-user_authentication_service/auth.py:118-121 | the update sets exactly the session id or the reset token |
| UserAuth.CreateSession | 0x03-user_authentication_service/auth.py:113-122 | an unknown email gives None and no change; otherwise the new token overwrites that user's session id, nothing else changes, and the token is returned |
| UserAuth.GetUserFromSessionId | 0x03-user_authentication_service/auth.py:133-140 | None for None; otherwise the user holding that session id, and None only when nobody holds it |
| UserAuth.DestroySession | 0x03-user_authentication_service/auth.py:154-156 | None changes nothing; an unknown id raises NoResultFound; otherwise only that user's session id becomes NULL |
| UserAuth.ClearSessionFits | 0x03-user_authentication_service/auth.py:156 | the update `session_id=None` is a valid update |
| UserAuth.ClearSessionAt | 0x03-user_authentication_service/auth.py:156 | it clears the session id of exactly that user |
| UserAuth.GetResetPasswordToken | 0x03-user_authentication_service/auth.py:173-182 | an unknown email raises ValueError with no change; otherwise the token becomes that user's reset token and is returned |
| UserAuth.ResetUpdateSets | 0x03-user_authentication_service/auth.py:207-211 | the single update sets the new hash and clears the reset token |
| UserAuth.ConsumeEffect | 0x03-user_authentication_service/auth.py:200-212 | the token's holder gets the new hash and loses the token; every other user is unchanged |
| UserAuth.UpdatePassword | 0x03-user_authentication_service/auth.py:200-212 | None or a token nobody holds raises ValueError with no change; otherwise the holder's password is replaced and the token cleared in one update |
| UserAuth.InitConsistent | 0x03-user_authentication_service/db.py:31-33 | the empty store satisfies the invariant |
| UserAuth.CreateSessionKeepsConsistent | 0x03-user_authentication_service/auth.py:113-122 | with a fresh token, session ids stay unique |
| UserAuth.SetOneTokenKeepsConsistent | 0x03-user_authentication_service/auth.py:118-121 | giving one user a fresh token keeps emails, sessions and reset tokens unique |
| UserAuth.OnlyClearsKeepsConsistent | 0x03-user_authentication_service/auth.py:154-156 | clearing tokens cannot break uniqueness |
| UserAuth.DestroySessionKeepsConsistent | 0x03-user_authentication_service/auth.py:154-156 | logout keeps the invariant |
| UserAuth.GetResetPasswordTokenKeepsConsistent | 0x03-user_authentication_service/auth.py:173-182 | with a fresh token, reset tokens stay unique |
| UserAuth.UpdatePasswordKeepsConsistent | 0x03-user_authentication_service/auth.py:200-212 | a password reset keeps the invariant |
| UserAuth.ConsumedOnlyClears | 0x03-user_authentication_service/auth.py:207-211 | a reset only clears tokens and changes a hash |
| UserAuth.RegisterTwice | 0x03-user_authentication_service/auth.py:70-74 | a second registration of an email raises ValueError and leaves the store as the first one made it |
| UserAuth.RegisterThenLogin | 0x03-user_authentication_service/auth.py:70-99 | after registering, the password is a valid login |
| UserAuth.SessionResolves | 0x03-user_authentication_service/auth.py:113-140 | the session id create_session returns resolves to the user who logged in |
| UserAuth.NewSessionRevokesOld | 0x03-user_authentication_service/auth.py:118-121 | a new login revokes the session id the user held before |
| UserAuth.DestroyThenResolve | 0x03-user_authentication_service/auth.py:133-156 | after destroy_session, the old session id resolves to None |
| UserAuth.DestroyIdempotent | 0x03-user_authentication_service/auth.py:154-156 | destroying twice has the effect and result of destroying once |
| UserAuth.DestroyCleared | 0x03-user_authentication_service/auth.py:154-156 | destroying an absent session changes nothing |
| UserAuth.ResetTokenSingleUse | 0x03-user_authentication_service/auth.py:173-212 | a reset token changes the password once, the new password then logs in, and a second use raises ValueError with no change |
| UserAuth.ConsumedHolderLogsIn | 0x03-user_authentication_service/auth.py:89-99 | after a reset, the former holder logs in with the new password |
| UserAuth.ConsumedTokenGone | 0x03-user_authentication_service/auth.py:209-211 | after a reset, nobody holds the token |
| Bcrypt.Key | 0x03-user_authentication_service/auth.py:27 | bcrypt reads at most 72 key bytes, all of the UTF-8 encoding when it is short enough |
| Bcrypt.HashPassword | 0x03-user_authentication_service/auth.py:18-27 | the hash embeds the salt gensalt drew |
| Bcrypt.CheckOwnHash | 0x03-user_authentication_service/auth.py:93-96 | a password checks against its own hash |
| Bcrypt.FreshSaltFreshHash | 0x03-user_authentication_service/auth.py:27 | one password under two salts gives two hashes |
| Bcrypt.LongPasswordsCollide | 0x03-user_authentication_service/auth.py:93-96 | passwords whose encodings share their first 72 bytes check against each other's hash |
| Bcrypt.KeyOfLong | 0x03-user_authentication_service/auth.py:27 | the key of a long password is its first 72 bytes |
| Bcrypt.TruncationWitness | 0x03-user_authentication_service/auth.py:93-96 | two different 73-character passwords that bcrypt accepts for each other |
| ApiAuth.Normalize | 0x02-Session_authentication/api/v1/auth/auth.py:24-25 | the normalised path ends in '/' and is the path itself exactly when the path already did |
| ApiAuth.AnyWildcardMatch | 0x02-Session_authentication/api/v1/auth/auth.py:26-29 | true exactly when some entry ending in '*', without it, is a prefix of the normalised path |
| ApiAuth.RequireAuth | 0x02-Session_authentication/api/v1/auth/auth.py:22-32 | a None path, a None list or an empty list requires authentication |
| ApiAuth.RequireAuthExactly | 0x02-Session_authentication/api/v1/auth/auth.py:24-32 | authentication is required exactly when no entry exempts the normalised path, as a wildcard prefix or an equal entry |
| ApiAuth.TrailingSlashIrrelevant | 0x02-Session_authentication/api/v1/auth/auth.py:24-25 | `p` and `p/` get the same answer |
| ApiAuth.ListedPathExempt | 0x02-Session_authentication/api/v1/auth/auth.py:24-31 | an entry ending in one '/' exempts itself and itself without the '/' |
| ApiAuth.BareEntryExemptsNothing | 0x02-Session_authentication/api/v1/auth/auth.py:30-32 | an entry ending in neither '/' nor '*' exempts no path |
| ApiAuth.AuthorizationHeader | 0x02-Session_authentication/api/v1/auth/auth.py:44-46 | None without a request, otherwise the Authorization header |
| ApiAuth.SessionCookie | 0x02-Session_authentication/api/v1/auth/auth.py:70-73 | a value exactly when there is a request, SESSION_NAME is set and the request has that cookie; the value is that cookie |
| LegacyApiAuth.ReMatchIsPrefix | 0x01-Basic_authentication/api/v1/auth/auth.py:31-37 | `re.match` of `lit.*` or `lit/*` succeeds exactly on paths starting with `lit`, since the starred atom can match nothing |
| LegacyApiAuth.Core | 0x01-Basic_authentication/api/v1/auth/auth.py:31-36 | the literal an entry compiles to is the entry without one trailing `*` or `/`, and the whole entry otherwise |
| LegacyApiAuth.RequireAuth | 0x01-Basic_authentication/api/v1/auth/auth.py:28-39 | None arguments and an empty list require authentication |
| LegacyApiAuth.RequireAuthIsPrefixTest | 0x01-Basic_authentication/api/v1/auth/auth.py:28-39 | authentication is required exactly when no stripped entry, less one trailing '*' or '/', is a prefix of the path |
| LegacyApiAuth.AnyIsPrefix | 0x01-Basic_authentication/api/v1/auth/auth.py:29-38 | the loop finds a matching entry exactly when some entry's literal is a prefix of the path |
| LegacyApiAuth.SlashEntryExemptsBoth | 0x01-Basic_authentication/api/v1/auth/auth.py:33-34 | an entry `x/` exempts both `x` and `x/` |
| LegacyApiAuth.BareEntryIsPrefix | 0x01-Basic_authentication/api/v1/auth/auth.py:35-37 | `/api/v1/stat` exempts `/api/v1/status` |
| LegacyApiAuth.LaterEntriesNotCompiled | 0x01-Basic_authentication/api/v1/auth/auth.py:29-38 | the loop returns at the first entry that exempts the path, so whatever follows that entry, even an empty entry that could not be compiled, the path is exempt |
| LegacyApiAuth.StripAll | 0x01-Basic_authentication/api/v1/auth/auth.py:29 | each entry is stripped in place, keeping the list's length and order |
| LegacyApiAuth.EntriesStripped | 0x01-Basic_authentication/api/v1/auth/auth.py:29 | stripping the entries first changes no answer |
| LegacyApiAuth.AuthorizationHeader | 0x01-Basic_authentication/api/v1/auth/auth.py:51-53 | None without a request, otherwise the Authorization header |
| LegacyApiAuth.CurrentUser | 0x01-Basic_authentication/api/v1/auth/auth.py:55-65 | the base class never identifies a user |
| LegacyApiAuth.ImplementationsDisagree | 0x01-Basic_authentication/api/v1/auth/auth.py:35-37 | the same bare entry exempts a path here and not in the session API's matcher |
| Strings.TrimLeft | 0x02-Session_authentication/api/v1/auth/basic_auth.py:35 | `lstrip` keeps a suffix that does not start with white space |
| Strings.TrimRight | 0x02-Session_authentication/api/v1/auth/basic_auth.py:35 | `rstrip` keeps a prefix that does not end with white space |
| Strings.IsSpace | 0x02-Session_authentication/api/v1/auth/basic_auth.py:35 | the characters `str.isspace()` accepts, which are the ones `strip()` removes |
| Strings.Strip | 0x02-Session_authentication/api/v1/auth/basic_auth.py:35 | the stripped text neither starts nor ends with white space |
| Strings.StripCutsSpace | 0x02-Session_authentication/api/v1/auth/basic_auth.py:35 | `strip` keeps a slice and removes only white space around it |
| Strings.StripIdempotent | 0x01-Basic_authentication/api/v1/auth/auth.py:29 | stripping twice is stripping once |
| Strings.IndexOf | 0x02-Session_authentication/api/v1/auth/basic_auth.py:75-82 | the first position of a character, and None exactly when it is absent |
| Base64.SextetOf | 0x02-Session_authentication/api/v1/auth/basic_auth.py:53-56 | each alphabet character stands for a value below 64 |
| Base64.CharOf | 0x02-Session_authentication/api/v1/auth/basic_auth.py:53-56 | each value below 64 has an alphabet character that stands for it |
| Base64.IsStrictBase64 | 0x02-Session_authentication/api/v1/auth/basic_auth.py:53-56 | what `b64decode(validate=True)` accepts from Python 3.11 on: whole quanta of four, alphabet characters only, at most two '=' and only at the end |
| Base64.Decode | 0x02-Session_authentication/api/v1/auth/basic_auth.py:53-58 | strict decoding succeeds exactly on strict Base64 text: length a multiple of four, alphabet characters, and at most two '=' only at the end |
| Base64.DecodeQuantum | 0x02-Session_authentication/api/v1/auth/basic_auth.py:53-56 | a quantum ending in two, one or no '=' decodes to one, two or three bytes |
| Base64.EncodeQuantum | 0x02-Session_authentication/api/v1/auth/basic_auth.py:53-56 | one byte gives two characters and '==', two bytes three characters and '=', three bytes four alphabet characters |
| Base64.QuantaRoundsUp | 0x02-Session_authentication/api/v1/auth/basic_auth.py:53-56 | the encoded length is four times the number of started three-byte groups |
| Base64.Encode | 0x02-Session_authentication/api/v1/auth/basic_auth.py:53-56 | four characters per started three-byte group |
| Base64.EncodedLength | 0x02-Session_authentication/api/v1/auth/basic_auth.py:53-56 | the encoding of n bytes is 4·⌈n/3⌉ characters long |
| Base64.QuantumRoundTrip | 0x02-Session_authentication/api/v1/auth/basic_auth.py:53-56 | one quantum decodes to the bytes it encodes |
| Base64.EncodeIsStrict | 0x02-Session_authentication/api/v1/auth/basic_auth.py:53-56 | every encoding passes strict validation |
| Base64.DecodeEncode | 0x02-Session_authentication/api/v1/auth/basic_auth.py:53-56 | decoding an encoding gives back the bytes |
| Base64.DecodeQuantaEncode | 0x02-Session_authentication/api/v1/auth/basic_auth.py:53-56 | the quantum-by-quantum decoder inverts the encoder |
| Utf8.EncodeChar | 0x02-Session_authentication/api/v1/auth/basic_auth.py:57 | a character encodes to one to four bytes, and to one exactly when it is ASCII |
| Utf8.Encode | 0x02-Session_authentication/api/v1/auth/basic_auth.py:57 | the encoding is never shorter than the text |
| Utf8.DecodeChar | 0x02-Session_authentication/api/v1/auth/basic_auth.py:57-58 | a decoded character uses at least one and at most all of the available bytes |
| Utf8.DecodeEncodeChar | 0x02-Session_authentication/api/v1/auth/basic_auth.py:57 | decoding a character's encoding gives back that character and its length |
| Utf8.EncodeDecodeChar | 0x02-Session_authentication/api/v1/auth/basic_auth.py:57-58 | a decoded character re-encodes to exactly the bytes it was read from |
| Utf8.DecodeEncode | 0x02-Session_authentication/api/v1/auth/basic_auth.py:57 | decoding the encoding of any text gives that text |
| Utf8.Decode | 0x02-Session_authentication/api/v1/auth/basic_auth.py:57-58 | bytes that decode re-encode to themselves, so decoding is the exact inverse where it succeeds |
| Utf8.EncodeAscii | 0x03-user_authentication_service/auth.py:27 | ASCII text encodes one byte per character |
| BasicAuth.ExtractBase64AuthorizationHeader | 0x02-Session_authentication/api/v1/auth/basic_auth.py:33-38 | a token is non-empty, has no newline, and "Basic " followed by it is the stripped header; a header not starting with the case-sensitive "Basic " gives None |
| BasicAuth.ExtractBase64Complete | 0x02-Session_authentication/api/v1/auth/basic_auth.py:33-38 | every such token is extracted |
| BasicAuth.DecodeBase64AuthorizationHeader | 0x02-Session_authentication/api/v1/auth/basic_auth.py:51-59 | None for None and for text that is not strict Base64; a result is text whose UTF-8 encoding the token decodes to, and whenever the token decodes to the UTF-8 encoding of some text, that text is the result |
| BasicAuth.DecodeRoundTrip | 0x02-Session_authentication/api/v1/auth/basic_auth.py:51-59 | the Base64 of any text's UTF-8 decodes back to that text |
| BasicAuth.ExtractUserCredentials | 0x02-Session_authentication/api/v1/auth/basic_auth.py:74-84 | both parts or neither; the user is non-empty without ':', the password is non-empty without a newline, and user ':' password is the stripped text |
| BasicAuth.CredentialsComplete | 0x02-Session_authentication/api/v1/auth/basic_auth.py:74-84 | every such split is found |
| BasicAuth.NewlinePasswordRefused | 0x02-Session_authentication/api/v1/auth/basic_auth.py:75-84 | a password containing a newline yields (None, None) |
| BasicAuth.UserObjectFromCredentials | 0x02-Session_authentication/api/v1/auth/basic_auth.py:98-107 | a user exactly when both arguments are present, the search neither raises nor is empty, and the first user's password is valid; that first user is returned |
| BasicAuth.CurrentUser | 0x02-Session_authentication/api/v1/auth/basic_auth.py:120-124 | a user is found only if every stage of the pipeline produced a value |
| BasicAuth.TokenExtracted | 0x02-Session_authentication/api/v1/auth/basic_auth.py:33-38 | `Basic <base64>` yields exactly the Base64 text |
| BasicAuth.CredentialsExtracted | 0x02-Session_authentication/api/v1/auth/basic_auth.py:74-84 | `email:password` splits back into the two |
| BasicAuth.BasicHeaderResolves | 0x02-Session_authentication/api/v1/auth/basic_auth.py:109-124 | a header carrying `Basic base64(email:password)` resolves to the lookup of exactly that email and password |
| SessionAuth.CreateSession | 0x02-Session_authentication/api/v1/auth/session_auth.py:25-31 | None gives None and no change; otherwise the new id is added, bound to the user id, and every other binding is kept |
| SessionAuth.UserIdForSessionId | 0x02-Session_authentication/api/v1/auth/session_auth.py:43-46 | a user id exactly for a bound session id, and it is the bound one |
| SessionAuth.CurrentUser | 0x02-Session_authentication/api/v1/auth/session_auth.py:58-64 | None without a cookie; otherwise `User.get` of the user id the cookie's session resolves to |
| SessionAuth.DestroySession | 0x02-Session_authentication/api/v1/auth/session_auth.py:77-93 | True, with exactly the cookie's session removed, when a cookie's session is bound to a non-empty user id; otherwise False with no change |
| SessionAuth.CreateThenResolve | 0x02-Session_authentication/api/v1/auth/session_auth.py:29-64 | the cookie of a new session resolves to the user it was created for |
| SessionAuth.CreateKeepsOthers | 0x02-Session_authentication/api/v1/auth/session_auth.py:29-30 | a new id takes over no earlier session |
| SessionAuth.DestroyThenResolve | 0x02-Session_authentication/api/v1/auth/session_auth.py:88-93 | after logout the cookie resolves to no user id, and a second logout fails |
| SessionAuth.EmptyUserIdNeverDestroyed | 0x02-Session_authentication/api/v1/auth/session_auth.py:85-86 | a session bound to the empty user id can never be destroyed |
| App.SelectAuth | 0x02-Session_authentication/api/v1/app.py:16-26 | 'auth', 'basic_auth' and 'session_auth' select Auth, BasicAuth and SessionAuth; any other value, or none, selects nothing |
| App.CurrentUser | 0x02-Session_authentication/api/v1/app.py:78-80 | the base class never finds a user |
| App.HasCredentials | 0x02-Session_authentication/api/v1/app.py:75-76 | the request carries a non-empty Authorization header or session cookie |
| App.BeforeRequest | 0x02-Session_authentication/api/v1/app.py:65-80 | proceed exactly when nothing is selected or the path is exempt; 401 exactly for a gated request with neither header nor cookie; a gated request with credentials proceeds as exactly the user the selected class finds, and gets 403 exactly when it finds none; only 401 or 403 abort |
| App.AbortsHandled | 0x02-Session_authentication/api/v1/app.py:29-56 | every abort status has a JSON error handler |
| App.ExcludedPathShape | 0x02-Session_authentication/api/v1/app.py:67-72 | every excluded path ends in a single '/' |
| App.ExemptProceeds | 0x02-Session_authentication/api/v1/app.py:73-74 | an exempt path proceeds without any credential check |
| App.ExcludedPathsProceed | 0x02-Session_authentication/api/v1/app.py:67-74 | the four excluded paths proceed, with or without their trailing '/', under every class |
| App.BaseClassRejectsGated | 0x02-Session_authentication/api/v1/app.py:75-79 | under the base class a gated request always gets 401 or 403 |
| App.BasicLoginProceeds | 0x02-Session_authentication/api/v1/app.py:75-80 | under basic auth a valid `Basic` header proceeds as the user found, or gets 403 |
| App.SessionLoginProceeds | 0x02-Session_authentication/api/v1/app.py:75-80 | under session auth the cookie of a new session proceeds as that session's user |
| App.CookieUnderBasicForbidden | 0x02-Session_authentication/api/v1/app.py:75-79 | under basic auth a session cookie alone passes the 401 test and then gets 403 |
| FilteredLogger.Alts | 0x00-personal_data/filtered_logger.py:31 | the group always has an alternative, even for an empty field list |
| FilteredLogger.MatchAt | 0x00-personal_data/filtered_logger.py:31 | a match is an alternative followed by '=' at the start of the text |
| FilteredLogger.MatchAtFirst | 0x00-personal_data/filtered_logger.py:31 | the alternatives are tried in list order and the first that applies wins; no match only when none applies |
| FilteredLogger.MatchFrom | 0x00-personal_data/filtered_logger.py:31 | the first alternative from a position on that applies |
| FilteredLogger.RunLength | 0x00-personal_data/filtered_logger.py:31 | `[^sep]*` takes everything up to the next separator or the end |
| FilteredLogger.Redact | 0x00-personal_data/filtered_logger.py:54 | with no fields nothing is substituted and the text is returned unchanged |
| FilteredLogger.FilterDatum | 0x00-personal_data/filtered_logger.py:39-54 | a message without '=' is unchanged; the number of separators is kept when the redaction has none |
| FilteredLogger.NoMatchUnchanged | 0x00-personal_data/filtered_logger.py:54 | a message in which no field followed by '=' occurs is unchanged |
| FilteredLogger.NoEqualsUnchanged | 0x00-personal_data/filtered_logger.py:54 | a message without '=' is unchanged |
| FilteredLogger.SeparatorsKept | 0x00-personal_data/filtered_logger.py:31-32 | no separator is removed or added |
| FilteredLogger.MatchAtDetermined | 0x00-personal_data/filtered_logger.py:31 | which alternative matches depends only on which `f=` begin the text |
| FilteredLogger.SeparatorSplits | 0x00-personal_data/filtered_logger.py:31-32 | a redaction never crosses a separator: each side is redacted independently |
| FilteredLogger.RedactIdempotent | 0x00-personal_data/filtered_logger.py:54 | filtering twice is filtering once |
| FilteredLogger.EqualsPrefixBack | 0x00-personal_data/filtered_logger.py:54 | redaction creates no new `w=` at the start of a text |
| FilteredLogger.SuffixListedMeans | 0x00-personal_data/filtered_logger.py:31 | a key counts as listed exactly when some suffix of it is a field |
| FilteredLogger.OnlyKeyMatches | 0x00-personal_data/filtered_logger.py:31 | in `key=value` only the key itself can match at the start |
| FilteredLogger.FieldRedacted | 0x00-personal_data/filtered_logger.py:31-32 | `key=value` keeps its key and gets the redaction as its value exactly when a suffix of the key is a field |
| FilteredLogger.LeadIrrelevant | 0x00-personal_data/filtered_logger.py:118-120 | text ending in a space before a key does not change whether the key is listed |
| FilteredLogger.Fields | 0x00-personal_data/filtered_logger.py:118-119 | one `column=value` per pair, up to the shorter of columns and row |
| FilteredLogger.RecordLine | 0x00-personal_data/filtered_logger.py:118-120 | every line ends in ';', and a row with no columns is the line ";" |
| FilteredLogger.RecordLinePieces | 0x00-personal_data/filtered_logger.py:118-120 | the line is the first field and ';', then each later field behind a space and followed by ';' |
| FilteredLogger.RedactRow | 0x00-personal_data/filtered_logger.py:118-120 | a value becomes the redaction exactly when a suffix of its column is a field |
| FilteredLogger.PieceRedacted | 0x00-personal_data/filtered_logger.py:118-120 | a field behind a lead is redacted by its own column |
| FilteredLogger.LaterFieldsRedacted | 0x00-personal_data/filtered_logger.py:118-120 | the fields after the first are redacted one by one |
| FilteredLogger.RecordRedacted | 0x00-personal_data/filtered_logger.py:118-120 | filtering a record line masks exactly the values of listed columns and keeps every column and separator |
| FilteredLogger.FormatterConstants | 0x00-personal_data/filtered_logger.py:133-135 | SEPARATOR is one character and REDACTION contains neither it nor '\' |
| FilteredLogger.Format | 0x00-personal_data/filtered_logger.py:147-159 | format keeps every ';' of the formatted record |
| FilteredLogger.Header | 0x00-personal_data/filtered_logger.py:134 | the header opens with "[HOLBERTON] " and closes with ": ", and its length is 16 plus the two names' lengths plus the time's length padded to at least 15 |
| FilteredLogger.HeaderClean | 0x00-personal_data/filtered_logger.py:134 | the FORMAT header holds no '=' or ';' and ends in a space, so it cannot start a match |
| FilteredLogger.FormatRecordLine | 0x00-personal_data/filtered_logger.py:147-159 | formatting a record line leaves the header alone and masks exactly the listed columns' values |
| FilteredLogger.MainColumnsListed | 0x00-personal_data/filtered_logger.py:36-108 | of main's eight columns, PII_FIELDS lists exactly the first five |
| FilteredLogger.NoListedSuffix | 0x00-personal_data/filtered_logger.py:36-107 | no suffix of last_login or user_agent is a PII field |
| FilteredLogger.PiiMaskedEntries | 0x00-personal_data/filtered_logger.py:36-107 | that row masks exactly the columns PII_FIELDS lists |
| FilteredLogger.MainRowMasked | 0x00-personal_data/filtered_logger.py:36-120 | PII_FIELDS masks the first five of main's columns |
| FilteredLogger.MainLineRedacted | 0x00-personal_data/filtered_logger.py:100-159 | the line main logs shows name, email, phone, ssn and password as `***` and ip, last_login and user_agent as they are |
| FilteredLogger.MainConstantsPlain | 0x00-personal_data/filtered_logger.py:36-108 | main's columns and PII_FIELDS are plain text to the pattern and the line |
| FilteredLogger.PiiFieldsPlain | 0x00-personal_data/filtered_logger.py:36 | the PII fields hold no '=', ';', space or metacharacter |
| FilteredLogger.ListedColumnLine | 0x00-personal_data/filtered_logger.py:31-54 | a one-field line whose column ends in a field comes back masked |
| FilteredLogger.UsernameRedactedThroughName | 0x00-personal_data/filtered_logger.py:31 | `username=` is masked by the field `name`, because the pattern is not anchored |
| FilteredLogger.UsernameListed | 0x00-personal_data/filtered_logger.py:31 | `username` counts as listed under `name` |
| FilteredLogger.OneFieldLine | 0x00-personal_data/filtered_logger.py:118-120 | one field gives `column=value;` |
| FilteredLogger.EmptySuffixListed | 0x00-personal_data/filtered_logger.py:31 | under the empty alternative every key counts as listed |
| FilteredLogger.EmptyListRedactsAll | 0x00-personal_data/filtered_logger.py:31 | an empty field list masks every value of a record line |

## Left out

- Flask, SQLAlchemy, SQLite, MySQL and the logging handlers are I/O and are not modelled. A request is a record of its path, its Authorization header and its cookies. The store is a value.
- `uuid4()`, `bcrypt.gensalt()` and the environment variables `AUTH_TYPE` and `SESSION_NAME` are parameters. A fresh token is a hypothesis (`Fresh`).
- The bcrypt cipher is not modelled. A hash is its salt and the 72 key bytes bcrypt reads. The model relies only on a password checking against its own hash and on the 72-byte truncation.
- Bcrypt.Key: models pyca/bcrypt 4.x, which silently ignores key bytes after the 72nd and accepts any byte, NUL included. From 5.0 on, `hashpw` raises ValueError for a longer password instead, so `Bcrypt.LongPasswordsCollide` and `Bcrypt.TruncationWitness` describe the earlier versions only.
- UserAuth.RegisterUser: hashes any password. pyca/bcrypt 3.x refuses a password containing a NUL byte with ValueError, which the model does not reproduce.
- UserAuth.UpdatePassword: likewise hashes a new password containing a NUL byte, which pyca/bcrypt 3.x refuses.
- Base64.Decode: models `b64decode(validate=True)` as Python 3.11 and later implement it (`binascii.a2b_base64` in strict mode). Up to Python 3.10 the same call only checked the text against `[A-Za-z0-9+/]*={0,2}` and then decoded leniently, so it also accepted text such as "YWJj==" and "YWI==", which the model refuses.
- `models.user.User` is not part of this model. `User.search`, `User.get` and `is_valid_password` are given functions (`Models.UserModel`).
- Non-string arguments are modelled as None, which the source treats the same way.
- BasicAuth.DecodeBase64AuthorizationHeader: requires an ASCII token, because `b64decode` raises an uncaught ValueError on a non-ASCII string. The gate (`App.Judgeable`) carries the same requirement for gated basic-auth requests.
- FilteredLogger.FilterDatum: requires fields without regular-expression metacharacters, a one-character separator other than '\', and a redaction without '\'. Other arguments make `re` read a different pattern or template, and general regular expressions are not modelled.
- FilteredLogger.FilterDatum: the record-line lemmas further require columns and values without '=' or ';' (`Clean`) and fields without '=', ';' or space (`PlainFields`). For other values the line is ambiguous and only the scanner's own properties are proved.
- LegacyApiAuth.RequireAuth: requires every entry the loop reaches to be non-empty once stripped, since `exclusion_path[-1]` raises on the first empty one, and to have no metacharacter in its literal part, since general regular expressions are not modelled (`Reachable`). Entries behind the first one that exempts the path are never compiled and may be anything (`LaterEntriesNotCompiled`). A list on which the loop reaches an empty entry, where the source raises IndexError, is excluded rather than modelled as an error.
- Db.FindUserBy: `hasattr(User, key)` also holds for class attributes that are not columns, such as `__tablename__`. The contract promises nothing for such a key, because what SQLAlchemy does with it in `tuple_(...)` is not modelled. The body answers `QueryError` as a placeholder.
- Db.UpdateUser: likewise, the contract promises nothing for a key that is an attribute but not a column. The body answers `QueryError` as a placeholder.
- UserSchema.IsAttribute: lists `__tablename__`, what the declarative base adds, and the commonest attributes every class inherits from `object`, not all of them. The list decides only which keys fall into the unpromised case above rather than raising.
- ApiAuth.RequireAuth: requires a non-empty path when the list is non-empty, because `path[-1]` raises. Flask paths are never empty.
- Db.UpdateUser: requires `Fits`, which excludes updating `id` and writing NULL into a NOT NULL column, for the reason given on the `UserSchema.Assign` line below.
- BasicAuth.CurrentUser: requires `Decodable`, an ASCII token, for the reason given on the `BasicAuth.DecodeBase64AuthorizationHeader` line.
- App.CurrentUser: requires `Decodable` under basic authentication, for the same reason.
- App.BeforeRequest: requires `Judgeable`: a non-empty path (see the `ApiAuth.RequireAuth` line) and, for a gated basic-auth request, an ASCII token (see the `BasicAuth.DecodeBase64AuthorizationHeader` line).
- UserSchema.Assign: updating `id` and writing NULL into a NOT NULL column are excluded. The database would reject them with an IntegrityError, or renumber the row.
- SQLite's type affinity is not modelled. A value of the wrong kind never equals a column.
- `add_user`'s rollback path, which returns None when the commit fails, is not modelled: the commit is assumed to succeed.
- The timestamp that `asctime` formats is an input. `get_logger`, `get_db` and the `logging.LogRecord` plumbing are not modelled.
- Concurrency is not modelled; every operation is one atomic step.
- `0x00-personal_data/encrypt_password.py` is a thin wrapper over bcrypt and is not part of this model.
