/** The `Auth` class of the user-authentication service: registration,
    login check, sessions and password reset over the store. Every method is
    a function from the old store to its result and the new store. The salt
    that `bcrypt.gensalt()` draws and the string `uuid4()` returns are
    parameters; a token "from uuid4" is assumed fresh where a property needs
    it (`Fresh`). */
module UserAuth {

  import opened Wrappers
  import opened UserSchema
  import opened Db
  import opened Bcrypt

  function ByEmail(email: string): Kwargs { [("email", Text(email))] }

  predicate Registered(db: DB, email: string) {
    exists i :: 0 <= i < |db.rows| && db.rows[i].email == email
  }

  predicate UniqueEmails(db: DB) {
    forall i, j :: 0 <= i < j < |db.rows| ==> db.rows[i].email != db.rows[j].email
  }

  predicate UniqueSessions(db: DB) {
    forall i, j :: 0 <= i < j < |db.rows| && db.rows[i].sessionId.Some? ==>
      db.rows[i].sessionId != db.rows[j].sessionId
  }

  predicate UniqueResetTokens(db: DB) {
    forall i, j :: 0 <= i < j < |db.rows| && db.rows[i].resetToken.Some? ==>
      db.rows[i].resetToken != db.rows[j].resetToken
  }

  /** What holds of every store the service builds from an empty one with
      fresh tokens: ids are positions, and emails, live session ids and
      pending reset tokens each identify at most one user. */
  predicate Consistent(db: DB) {
    Valid(db) && UniqueEmails(db) && UniqueSessions(db) && UniqueResetTokens(db)
  }

  /** `token` is held by no user, as a session id or as a reset token */
  predicate Fresh(db: DB, token: string) {
    forall i :: 0 <= i < |db.rows| ==>
      db.rows[i].sessionId != Some(token) && db.rows[i].resetToken != Some(token)
  }

  /** Longest session id or reset token in the store */
  function LongestToken(rows: seq<User>): (n: nat)
    ensures forall i :: 0 <= i < |rows| && rows[i].sessionId.Some? ==> |rows[i].sessionId.value| <= n
    ensures forall i :: 0 <= i < |rows| && rows[i].resetToken.Some? ==> |rows[i].resetToken.value| <= n
  {
    if |rows| == 0 then 0
    else
      var a := if rows[0].sessionId.Some? then |rows[0].sessionId.value| else 0;
      var b := if rows[0].resetToken.Some? then |rows[0].resetToken.value| else 0;
      var c := LongestToken(rows[1..]);
      if a >= b && a >= c then a else if b >= c then b else c
  }

  /** The token oracle can always be served: some string is fresh. */
  lemma FreshTokenExists(db: DB)
    ensures exists t :: Fresh(db, t)
  {
    var t := seq(LongestToken(db.rows) + 1, _ => 'x');
    assert Fresh(db, t);
  }

  lemma MatchesByEmail(u: User, email: string)
    ensures Matches(u, ByEmail(email)) <==> u.email == email
  {
    assert ColumnValue(u, ByEmail(email)[0].0) == Text(u.email);
  }

  lemma MatchesBySession(u: User, s: string)
    ensures Matches(u, [("session_id", Text(s))]) <==> u.sessionId == Some(s)
  {
    var kw := [("session_id", Text(s))];
    assert Matches(u, kw) <==> SqlEquals(ColumnValue(u, kw[0].0), kw[0].1);
    assert ColumnValue(u, kw[0].0) == OptText(u.sessionId);
  }

  lemma MatchesByReset(u: User, t: Option<string>)
    ensures Matches(u, [("reset_token", OptText(t))]) <==> t.Some? && u.resetToken == t
  {
    var kw := [("reset_token", OptText(t))];
    assert Matches(u, kw) <==> SqlEquals(ColumnValue(u, kw[0].0), kw[0].1);
    assert ColumnValue(u, kw[0].0) == OptText(u.resetToken);
  }

  /** Position of the first user with `email` */
  function EmailIndex(db: DB, email: string): (k: nat)
    requires Registered(db, email)
    ensures k < |db.rows| && db.rows[k].email == email
    ensures UniqueEmails(db) ==> forall j :: 0 <= j < |db.rows| && db.rows[j].email == email ==> j == k
  {
    forall u: User { MatchesByEmail(u, email); }
    FirstMatch(db.rows, ByEmail(email)).value
  }

  /** The lookup by email fails exactly for unregistered emails and
      otherwise finds the user at `EmailIndex`. */
  lemma FindByEmail(db: DB, email: string)
    ensures FindUserBy(db, ByEmail(email)).Success? <==> Registered(db, email)
    ensures Registered(db, email) ==>
              FindUserBy(db, ByEmail(email)) == Success(db.rows[EmailIndex(db, email)])
  {
    forall u: User { MatchesByEmail(u, email); }
  }

  /** Updating the row at position `k` of a valid store by its id replaces
      that row and no other. */
  lemma UpdateAt(db: DB, k: nat, kw: Kwargs, expected: User)
    requires Valid(db) && k < |db.rows|
    requires DistinctKeys(kw) && Fits(kw) && AllColumns(kw)
    requires UpdatedAs(db.rows[k], expected, kw)
    ensures UpdateUser(db, db.rows[k].id, kw) == (Success(()), DB(db.rows[k := expected]))
  {
    var r := UpdateUser(db, db.rows[k].id, kw);
    assert HasId(db, db.rows[k].id);
    ColumnsDetermineRow(r.1.rows[k], expected);
    assert r.1.rows == db.rows[k := expected];
  }

  /** `register_user(email, password)` */
  function RegisterUser(db: DB, email: string, password: string, salt: Salt): (r: (Result<User, Exception>, DB))
    ensures Registered(db, email) ==>
              r == (Failure(ValueError("User " + email + " already exists")), db)
    ensures !Registered(db, email) ==>
              && r.0.Success?
              && r.1.rows == db.rows + [r.0.value]
              && r.0.value.email == email
              && CheckPassword(password, r.0.value.hashedPassword)
              && r.0.value.sessionId.None? && r.0.value.resetToken.None?
    ensures Consistent(db) ==> Consistent(r.1)
  {
    FindByEmail(db, email);
    match FindUserBy(db, ByEmail(email))
    case Success(_) => (Failure(ValueError("User " + email + " already exists")), db)
    case Failure(NoResultFound) =>
      var (u, db') := AddUser(db, email, HashPassword(password, salt));
      CheckOwnHash(password, salt);
      (Success(u), db')
    case Failure(e) => (Failure(e), db)
  }

  /** `valid_login(email, password)`: False for an unknown email, otherwise
      whether the password checks against that user's stored hash */
  function ValidLogin(db: DB, email: string, password: string): (r: bool)
    ensures !Registered(db, email) ==> !r
    ensures UniqueEmails(db) ==>
              (r <==> exists i :: 0 <= i < |db.rows| && db.rows[i].email == email
                                   && CheckPassword(password, db.rows[i].hashedPassword))
  {
    FindByEmail(db, email);
    match FindUserBy(db, ByEmail(email))
    case Success(u) => CheckPassword(password, u.hashedPassword)
    case Failure(_) => false
  }

  /** `db1` is `db` with the session id (`session`) or the reset token
      (`!session`) of the user with this email set to `token` */
  predicate SetsToken(db: DB, db1: DB, email: string, token: string, session: bool) {
    && |db1.rows| == |db.rows|
    && forall i :: 0 <= i < |db.rows| ==>
         db1.rows[i] == if db.rows[i].email != email then db.rows[i]
                        else if session then db.rows[i].(sessionId := Some(token))
                        else db.rows[i].(resetToken := Some(token))
  }

  /** The column `create_session` (`session`) or `get_reset_password_token`
      sets to the new token */
  function TokenUpdate(token: string, session: bool): Kwargs {
    if session then [("session_id", Text(token))] else [("reset_token", Text(token))]
  }

  /** Setting a token of the user with this email by that user's id */
  lemma SetTokenAt(db: DB, email: string, token: string, session: bool)
    requires Consistent(db) && Registered(db, email)
    ensures var r := UpdateUser(db, db.rows[EmailIndex(db, email)].id, TokenUpdate(token, session));
            r.0 == Success(()) && SetsToken(db, r.1, email, token, session)
  {
    var k := EmailIndex(db, email);
    var x := TokenSet(db.rows[k], token, session);
    TokenUpdateSets(db.rows[k], token, session);
    UpdateAt(db, k, TokenUpdate(token, session), x);
    assert forall i :: 0 <= i < |db.rows| && i != k ==> db.rows[i].email != email;
  }

  /** The row with its session id (`session`) or reset token set to `token` */
  function TokenSet(u: User, token: string, session: bool): User {
    if session then u.(sessionId := Some(token)) else u.(resetToken := Some(token))
  }

  lemma TokenUpdateSets(u: User, token: string, session: bool)
    ensures var kw := TokenUpdate(token, session);
            DistinctKeys(kw) && Fits(kw) && AllColumns(kw) && UpdatedAs(u, TokenSet(u, token, session), kw)
  {
  }

  /** `create_session(email)`, with `token` the value of `uuid4()`: None for
      an unknown email; otherwise that user's session id is overwritten with
      the token, which is returned. */
  function CreateSession(db: DB, email: string, token: string): (r: (Option<string>, DB))
    ensures !Registered(db, email) ==> r == (None, db)
    ensures Registered(db, email) && Consistent(db) ==>
              r.0 == Some(token) && SetsToken(db, r.1, email, token, true)
  {
    FindByEmail(db, email);
    match FindUserBy(db, ByEmail(email))
    case Failure(_) => (None, db)
    case Success(u) =>
      var kw := TokenUpdate(token, true);
      TokenUpdateSets(u, token, true);
      assert Consistent(db) ==> SetsToken(db, UpdateUser(db, u.id, kw).1, email, token, true) by {
        if Consistent(db) { SetTokenAt(db, email, token, true); }
      }
      (Some(token), UpdateUser(db, u.id, kw).1)
  }

  /** `get_user_from_session_id(session_id)`: None for None, otherwise the
      user holding that session id, or None when nobody holds it */
  function GetUserFromSessionId(db: DB, sessionId: Option<string>): (r: Option<User>)
    ensures sessionId.None? ==> r.None?
    ensures r.Some? ==> r.value in db.rows && r.value.sessionId == sessionId
    ensures sessionId.Some? && (exists i :: 0 <= i < |db.rows| && db.rows[i].sessionId == sessionId) ==> r.Some?
  {
    if sessionId.None? then None
    else
      var kw := [("session_id", Text(sessionId.value))];
      forall u: User { MatchesBySession(u, sessionId.value); }
      match FindUserBy(db, kw)
      case Success(u) => Some(u)
      case Failure(_) => None
  }

  /** `db1` is `db` with the session id of the user `id` cleared */
  predicate ClearsSessionOf(db: DB, db1: DB, id: int) {
    && |db1.rows| == |db.rows|
    && forall i :: 0 <= i < |db.rows| ==>
         db1.rows[i] == if db.rows[i].id == id then db.rows[i].(sessionId := None) else db.rows[i]
  }

  /** `destroy_session(user_id)`: nothing for None; NoResultFound, raised by
      the store, for an id nobody has; otherwise that user's session id
      becomes NULL and nothing else changes. */
  function DestroySession(db: DB, userId: Option<int>): (r: (Result<(), Exception>, DB))
    ensures userId.None? ==> r == (Success(()), db)
    ensures userId.Some? && !HasId(db, userId.value) ==> r == (Failure(NoResultFound), db)
    ensures userId.Some? && HasId(db, userId.value) && Valid(db) ==>
              r.0 == Success(()) && ClearsSessionOf(db, r.1, userId.value)
  {
    if userId.None? then (Success(()), db)
    else
      var kw := ClearSession;
      ClearSessionFits();
      assert HasId(db, userId.value) && Valid(db) ==>
        UpdateUser(db, userId.value, kw).0 == Success(())
        && ClearsSessionOf(db, UpdateUser(db, userId.value, kw).1, userId.value) by {
        if HasId(db, userId.value) && Valid(db) { ClearSessionAt(db, userId.value); }
      }
      UpdateUser(db, userId.value, kw)
  }

  /** The update `destroy_session` makes: no session id */
  const ClearSession: Kwargs := [("session_id", Null)]

  lemma ClearSessionFits()
    ensures DistinctKeys(ClearSession) && Fits(ClearSession) && AllColumns(ClearSession)
  {
  }

  lemma ClearSessionSets(u: User)
    ensures UpdatedAs(u, u.(sessionId := None), ClearSession)
  {
  }

  lemma ClearSessionAt(db: DB, id: int)
    requires Valid(db) && HasId(db, id)
    ensures var r := UpdateUser(db, id, ClearSession);
            r.0 == Success(()) && ClearsSessionOf(db, r.1, id)
  {
    var k :| 0 <= k < |db.rows| && db.rows[k].id == id;
    ClearSessionFits();
    ClearSessionSets(db.rows[k]);
    UpdateAt(db, k, ClearSession, db.rows[k].(sessionId := None));
  }

  /** `get_reset_password_token(email)`, with `token` the value of `uuid4()`:
      ValueError for an unknown email; otherwise the token is stored as that
      user's reset token and returned. */
  function GetResetPasswordToken(db: DB, email: string, token: string): (r: (Result<string, Exception>, DB))
    ensures !Registered(db, email) ==> r == (Failure(ValueError("User not found")), db)
    ensures Registered(db, email) && Consistent(db) ==>
              r.0 == Success(token) && SetsToken(db, r.1, email, token, false)
  {
    FindByEmail(db, email);
    match FindUserBy(db, ByEmail(email))
    case Failure(_) => (Failure(ValueError("User not found")), db)
    case Success(u) =>
      var kw := TokenUpdate(token, false);
      TokenUpdateSets(u, token, false);
      assert Consistent(db) ==> SetsToken(db, UpdateUser(db, u.id, kw).1, email, token, false) by {
        if Consistent(db) { SetTokenAt(db, email, token, false); }
      }
      (Success(token), UpdateUser(db, u.id, kw).1)
  }

  /** The holder of reset token `t` now has hash `h` and no reset token;
      every other user is as before. */
  predicate ResetConsumed(db: DB, db': DB, t: string, h: Hash) {
    && |db'.rows| == |db.rows|
    && forall i :: 0 <= i < |db.rows| ==>
         db'.rows[i] == if db.rows[i].resetToken == Some(t)
                        then db.rows[i].(hashedPassword := h, resetToken := None)
                        else db.rows[i]
  }

  /** The update `update_password` makes: the new hash, and no reset token */
  function ResetUpdate(h: Hash): Kwargs {
    [("hashed_password", Blob(h)), ("reset_token", Null)]
  }

  lemma ResetUpdateSets(u: User, h: Hash)
    ensures var kw := ResetUpdate(h);
            DistinctKeys(kw) && Fits(kw) && AllColumns(kw)
            && UpdatedAs(u, u.(hashedPassword := h, resetToken := None), kw)
  {
  }

  lemma ConsumeEffect(db: DB, t: string, k: nat, h: Hash)
    requires Consistent(db) && k < |db.rows| && db.rows[k].resetToken == Some(t)
    ensures ResetConsumed(db, UpdateUser(db, db.rows[k].id, ResetUpdate(h)).1, t, h)
  {
    ResetUpdateSets(db.rows[k], h);
    UpdateAt(db, k, ResetUpdate(h), db.rows[k].(hashedPassword := h, resetToken := None));
    assert forall i :: 0 <= i < |db.rows| && i != k ==> db.rows[i].resetToken != Some(t);
  }

  /** `update_password(reset_token, password)`: ValueError when no user holds
      the token (always so for None); otherwise one update stores the new
      password's hash and clears the token. */
  function UpdatePassword(db: DB, resetToken: Option<string>, password: string, salt: Salt): (r: (Result<(), Exception>, DB))
    ensures (resetToken.None? || forall i :: 0 <= i < |db.rows| ==> db.rows[i].resetToken != resetToken) ==>
              r == (Failure(ValueError("Invalid reset token")), db)
    ensures resetToken.Some? && (exists i :: 0 <= i < |db.rows| && db.rows[i].resetToken == resetToken)
            && Consistent(db) ==>
              r.0 == Success(()) && ResetConsumed(db, r.1, resetToken.value, HashPassword(password, salt))
  {
    var kw := [("reset_token", OptText(resetToken))];
    forall u: User { MatchesByReset(u, resetToken); }
    match FindUserBy(db, kw)
    case Failure(_) => (Failure(ValueError("Invalid reset token")), db)
    case Success(u) =>
      var update := ResetUpdate(HashPassword(password, salt));
      ResetUpdateSets(u, HashPassword(password, salt));
      var db' := UpdateUser(db, u.id, update).1;
      assert Consistent(db) ==> ResetConsumed(db, db', resetToken.value, HashPassword(password, salt)) by {
        if Consistent(db) {
          ConsumeEffect(db, resetToken.value, FirstMatch(db.rows, kw).value, HashPassword(password, salt));
        }
      }
      (Success(()), db')
  }

  // ---------------------------------------------------------------------
  // The service keeps the store consistent

  /** A new store is consistent. */
  lemma InitConsistent()
    ensures Consistent(Init())
  {
  }

  lemma CreateSessionKeepsConsistent(db: DB, email: string, token: string)
    requires Consistent(db) && Fresh(db, token)
    ensures Consistent(CreateSession(db, email, token).1)
  {
    if Registered(db, email) {
      SetOneTokenKeepsConsistent(db, CreateSession(db, email, token).1, email, token, true);
    }
  }

  lemma SetOneTokenKeepsConsistent(db: DB, db1: DB, email: string, token: string, session: bool)
    requires Consistent(db) && Fresh(db, token) && SetsToken(db, db1, email, token, session)
    ensures Consistent(db1)
  {
    forall i | 0 <= i < |db.rows|
      ensures db1.rows[i].id == db.rows[i].id && db1.rows[i].email == db.rows[i].email
      ensures db1.rows[i].sessionId == db.rows[i].sessionId
              || (session && db.rows[i].email == email && db1.rows[i].sessionId == Some(token))
      ensures db1.rows[i].resetToken == db.rows[i].resetToken
              || (!session && db.rows[i].email == email && db1.rows[i].resetToken == Some(token))
    {
    }
    assert UniqueSessions(db1) by {
      forall i, j | 0 <= i < j < |db1.rows| && db1.rows[i].sessionId.Some?
        ensures db1.rows[i].sessionId != db1.rows[j].sessionId
      {
        assert db.rows[i].email != db.rows[j].email;
      }
    }
    assert UniqueResetTokens(db1) by {
      forall i, j | 0 <= i < j < |db1.rows| && db1.rows[i].resetToken.Some?
        ensures db1.rows[i].resetToken != db1.rows[j].resetToken
      {
        assert db.rows[i].email != db.rows[j].email;
      }
    }
  }

  /** `db1` has the same users as `db` with the same ids and emails, and
      each session id or reset token either kept or cleared */
  predicate OnlyClears(db: DB, db1: DB) {
    && |db1.rows| == |db.rows|
    && forall i :: 0 <= i < |db.rows| ==>
         && db1.rows[i].id == db.rows[i].id
         && db1.rows[i].email == db.rows[i].email
         && (db1.rows[i].sessionId.Some? ==> db1.rows[i].sessionId == db.rows[i].sessionId)
         && (db1.rows[i].resetToken.Some? ==> db1.rows[i].resetToken == db.rows[i].resetToken)
  }

  lemma OnlyClearsKeepsConsistent(db: DB, db1: DB)
    requires Consistent(db) && OnlyClears(db, db1)
    ensures Consistent(db1)
  {
  }

  lemma DestroySessionKeepsConsistent(db: DB, userId: Option<int>)
    requires Consistent(db)
    ensures Consistent(DestroySession(db, userId).1)
  {
    var db1 := DestroySession(db, userId).1;
    if userId.Some? && HasId(db, userId.value) {
      assert OnlyClears(db, db1) by {
        forall i | 0 <= i < |db.rows|
          ensures db1.rows[i] == db.rows[i] || db1.rows[i] == db.rows[i].(sessionId := None)
        {
        }
      }
      OnlyClearsKeepsConsistent(db, db1);
    }
  }

  lemma GetResetPasswordTokenKeepsConsistent(db: DB, email: string, token: string)
    requires Consistent(db) && Fresh(db, token)
    ensures Consistent(GetResetPasswordToken(db, email, token).1)
  {
    if Registered(db, email) {
      SetOneTokenKeepsConsistent(db, GetResetPasswordToken(db, email, token).1, email, token, false);
    }
  }

  lemma UpdatePasswordKeepsConsistent(db: DB, resetToken: Option<string>, password: string, salt: Salt)
    requires Consistent(db)
    ensures Consistent(UpdatePassword(db, resetToken, password, salt).1)
  {
    var db1 := UpdatePassword(db, resetToken, password, salt).1;
    if resetToken.Some? && !(forall i :: 0 <= i < |db.rows| ==> db.rows[i].resetToken != resetToken) {
      ConsumedOnlyClears(db, db1, resetToken.value, HashPassword(password, salt));
      OnlyClearsKeepsConsistent(db, db1);
    }
  }

  lemma ConsumedOnlyClears(db: DB, db1: DB, t: string, h: Hash)
    requires ResetConsumed(db, db1, t, h)
    ensures OnlyClears(db, db1)
  {
    forall i | 0 <= i < |db.rows|
      ensures db1.rows[i] == db.rows[i] || db1.rows[i] == db.rows[i].(hashedPassword := h, resetToken := None)
    {
    }
  }

  // ---------------------------------------------------------------------
  // Scenarios across several calls

  /** Registering an email twice: the second call raises ValueError and
      leaves the store as the first call made it. */
  lemma RegisterTwice(db: DB, email: string, p1: string, p2: string, s1: Salt, s2: Salt)
    requires !Registered(db, email)
    ensures var (r1, db1) := RegisterUser(db, email, p1, s1);
            var (r2, db2) := RegisterUser(db1, email, p2, s2);
            r1.Success? && r2 == Failure(ValueError("User " + email + " already exists")) && db2 == db1
  {
    var db1 := RegisterUser(db, email, p1, s1).1;
    assert db1.rows[|db1.rows| - 1].email == email;
  }

  /** A fresh registration makes the password a valid login. */
  lemma RegisterThenLogin(db: DB, email: string, password: string, salt: Salt)
    requires Consistent(db) && !Registered(db, email)
    ensures ValidLogin(RegisterUser(db, email, password, salt).1, email, password)
  {
    var db1 := RegisterUser(db, email, password, salt).1;
    assert db1.rows[|db1.rows| - 1].email == email;
  }

  /** A new session id resolves to the user who logged in. */
  lemma SessionResolves(db: DB, email: string, token: string)
    requires Consistent(db) && Fresh(db, token) && Registered(db, email)
    ensures var (s, db1) := CreateSession(db, email, token);
            var u := GetUserFromSessionId(db1, s);
            s == Some(token) && u.Some? && u.value.email == email
            && u.value.id == db.rows[EmailIndex(db, email)].id
  {
    var (s, db1) := CreateSession(db, email, token);
    var k := EmailIndex(db, email);
    assert db1.rows[k].sessionId == Some(token);
    CreateSessionKeepsConsistent(db, email, token);
  }

  /** Logging in again revokes the session id the user held before. */
  lemma NewSessionRevokesOld(db: DB, email: string, token: string, previous: string)
    requires Consistent(db) && Fresh(db, token) && Registered(db, email)
    requires db.rows[EmailIndex(db, email)].sessionId == Some(previous)
    ensures GetUserFromSessionId(CreateSession(db, email, token).1, Some(previous)).None?
  {
    var k := EmailIndex(db, email);
    var db1 := CreateSession(db, email, token).1;
    forall i | 0 <= i < |db1.rows|
      ensures db1.rows[i].sessionId != Some(previous)
    {
    }
  }

  /** After `destroy_session`, the id the user held resolves to nobody. */
  lemma DestroyThenResolve(db: DB, k: nat, s: string)
    requires Consistent(db) && k < |db.rows| && db.rows[k].sessionId == Some(s)
    ensures GetUserFromSessionId(DestroySession(db, Some(db.rows[k].id)).1, Some(s)).None?
  {
    var db1 := DestroySession(db, Some(db.rows[k].id)).1;
    assert HasId(db, db.rows[k].id);
    forall i | 0 <= i < |db1.rows|
      ensures db1.rows[i].sessionId != Some(s)
    {
    }
  }

  /** `destroy_session` is idempotent. */
  lemma DestroyIdempotent(db: DB, userId: Option<int>)
    requires Valid(db)
    ensures var (r1, db1) := DestroySession(db, userId);
            DestroySession(db1, userId) == (r1, db1)
  {
    if userId.Some? && HasId(db, userId.value) {
      var id := userId.value;
      var db1 := DestroySession(db, userId).1;
      forall i | 0 <= i < |db.rows|
        ensures db1.rows[i].id == db.rows[i].id
        ensures db1.rows[i].id == id ==> db1.rows[i].sessionId.None?
      {
      }
      var k :| 0 <= k < |db.rows| && db.rows[k].id == id;
      assert db1.rows[k].id == id;
      DestroyCleared(db1, id);
    }
  }

  /** Destroying the session of a user who has none changes nothing. */
  lemma DestroyCleared(db: DB, id: int)
    requires Valid(db) && HasId(db, id)
    requires forall i :: 0 <= i < |db.rows| && db.rows[i].id == id ==> db.rows[i].sessionId.None?
    ensures DestroySession(db, Some(id)) == (Success(()), db)
  {
    var db2 := DestroySession(db, Some(id)).1;
    forall i | 0 <= i < |db.rows|
      ensures db2.rows[i] == db.rows[i]
    {
    }
    assert db2.rows == db.rows;
  }

  /** A reset token is single-use: it changes the password once, after
      which the new password logs in and the token is refused. */
  lemma ResetTokenSingleUse(db: DB, email: string, token: string, newPassword: string, salt: Salt,
                            again: string, salt2: Salt)
    requires Consistent(db) && Fresh(db, token) && Registered(db, email)
    ensures var (t, db1) := GetResetPasswordToken(db, email, token);
            var (r2, db2) := UpdatePassword(db1, Some(token), newPassword, salt);
            var (r3, db3) := UpdatePassword(db2, Some(token), again, salt2);
            && t == Success(token)
            && r2 == Success(())
            && ValidLogin(db2, email, newPassword)
            && r3 == Failure(ValueError("Invalid reset token")) && db3 == db2
  {
    var k := EmailIndex(db, email);
    var (t, db1) := GetResetPasswordToken(db, email, token);
    GetResetPasswordTokenKeepsConsistent(db, email, token);
    assert db1.rows[k].resetToken == Some(token) && db1.rows[k].email == email;
    var h := HashPassword(newPassword, salt);
    var (r2, db2) := UpdatePassword(db1, Some(token), newPassword, salt);
    assert r2 == Success(()) && ResetConsumed(db1, db2, token, h);
    ConsumedHolderLogsIn(db1, db2, token, k, email, newPassword, salt);
    ConsumedTokenGone(db1, db2, token, h);
    assert UpdatePassword(db2, Some(token), again, salt2) == (Failure(ValueError("Invalid reset token")), db2);
  }

  /** After a reset, the holder of the token logs in with the new password. */
  lemma ConsumedHolderLogsIn(db1: DB, db2: DB, token: string, k: nat, email: string, password: string, salt: Salt)
    requires Consistent(db1) && k < |db1.rows|
    requires db1.rows[k].resetToken == Some(token) && db1.rows[k].email == email
    requires ResetConsumed(db1, db2, token, HashPassword(password, salt))
    ensures ValidLogin(db2, email, password)
  {
    ConsumedOnlyClears(db1, db2, token, HashPassword(password, salt));
    OnlyClearsKeepsConsistent(db1, db2);
    assert db2.rows[k].email == email;
    CheckOwnHash(password, salt);
    assert CheckPassword(password, db2.rows[k].hashedPassword);
  }

  /** After a reset, nobody holds the token any more. */
  lemma ConsumedTokenGone(db1: DB, db2: DB, token: string, h: Hash)
    requires ResetConsumed(db1, db2, token, h)
    ensures forall i :: 0 <= i < |db2.rows| ==> db2.rows[i].resetToken != Some(token)
  {
    forall i | 0 <= i < |db2.rows|
      ensures db2.rows[i].resetToken != Some(token)
    {
    }
  }
}
