/** The `DB` class of the user-authentication service over the `users`
    table, as a value: the table is the sequence of its rows in rowid order
    (the order in which an unordered query with `.first()` meets them). */
module Db {

  import opened Wrappers
  import opened UserSchema
  import Bcrypt

  /** The exceptions the store and the service raise */
  datatype Exception = InvalidRequestError | NoResultFound | ValueError(message: string)
                     | QueryError  // stands for whatever a non-column attribute does in a query

  datatype DB = DB(rows: seq<User>)

  /** Keyword arguments, in call order; a Python call cannot repeat a key */
  type Kwargs = seq<(string, Value)>

  /** Rows are never deleted, so SQLite hands out ids 1, 2, 3, ... in
      insertion order and the id of a row is one more than its position. */
  predicate Valid(db: DB) {
    forall i :: 0 <= i < |db.rows| ==> db.rows[i].id == i + 1
  }

  /** The primary key is unique in a valid store. */
  lemma IdsUnique(db: DB, i: int, j: int)
    requires Valid(db) && 0 <= i < |db.rows| && 0 <= j < |db.rows|
    requires db.rows[i].id == db.rows[j].id
    ensures i == j
  {
  }

  predicate HasId(db: DB, id: int) {
    exists i :: 0 <= i < |db.rows| && db.rows[i].id == id
  }

  /** `DB()`: the table is dropped and created again, so it starts empty. */
  function Init(): (db: DB)
    ensures Valid(db)
    ensures forall id :: !HasId(db, id)
  {
    DB([])
  }

  /** `add_user(email, hashed_password)`: one new row with a fresh id, the
      given email and hash and NULL optional columns; earlier rows stay. */
  function AddUser(db: DB, email: string, hash: Bcrypt.Hash): (r: (User, DB))
    ensures r.1.rows == db.rows + [r.0]
    ensures r.0.email == email && r.0.hashedPassword == hash
    ensures r.0.sessionId.None? && r.0.resetToken.None?
    ensures Valid(db) ==> Valid(r.1) && !HasId(db, r.0.id)
  {
    var u := User(|db.rows| + 1, email, hash, None, None);
    (u, DB(db.rows + [u]))
  }

  predicate AllColumns(kw: Kwargs) {
    forall i :: 0 <= i < |kw| ==> IsColumn(kw[i].0)
  }

  /** Every key passes the `hasattr(User, key)` test */
  predicate AllAttributes(kw: Kwargs) {
    forall i :: 0 <= i < |kw| ==> IsAttribute(kw[i].0)
  }

  predicate DistinctKeys(kw: Kwargs) {
    forall i, j :: 0 <= i < j < |kw| ==> kw[i].0 != kw[j].0
  }

  /** The WHERE clause `(c1, .., cn) IN ((v1, .., vn))`: every named column
      equals its value */
  predicate Matches(u: User, kw: Kwargs)
    requires AllColumns(kw)
  {
    forall i :: 0 <= i < |kw| ==> SqlEquals(ColumnValue(u, kw[i].0), kw[i].1)
  }

  /** Position of the first row that matches, if any */
  function FirstMatch(rows: seq<User>, kw: Kwargs): (r: Option<nat>)
    requires AllColumns(kw)
    ensures r.Some? ==> r.value < |rows| && Matches(rows[r.value], kw)
    ensures r.Some? ==> forall j :: 0 <= j < r.value ==> !Matches(rows[j], kw)
    ensures r.None? ==> forall j :: 0 <= j < |rows| ==> !Matches(rows[j], kw)
    decreases |rows|
  {
    if |rows| == 0 then None
    else if Matches(rows[0], kw) then Some(0)
    else
      match FirstMatch(rows[1..], kw)
      case None => None
      case Some(k) => Some(k + 1)
  }

  /** `find_user_by(**kw)`: InvalidRequestError for a key that is not an
      attribute of `User`; for column keys, the first row whose named columns
      all equal the given values, or NoResultFound. What a non-column
      attribute does to the query is left open: the model answers QueryError
      and promises nothing about it. */
  function FindUserBy(db: DB, kw: Kwargs): (r: Result<User, Exception>)
    ensures !AllAttributes(kw) ==> r == Failure(InvalidRequestError)
    ensures AllColumns(kw) ==>
              (r.Success? <==> exists i :: 0 <= i < |db.rows| && Matches(db.rows[i], kw))
    ensures AllColumns(kw) && r.Success? ==>
              exists i :: 0 <= i < |db.rows| && db.rows[i] == r.value && Matches(r.value, kw)
                          && forall j :: 0 <= j < i ==> !Matches(db.rows[j], kw)
    ensures AllColumns(kw) && r.Failure? ==> r.error == NoResultFound
  {
    if !AllAttributes(kw) then Failure(InvalidRequestError)
    else if !AllColumns(kw) then Failure(QueryError)
    else
      match FirstMatch(db.rows, kw)
      case None => Failure(NoResultFound)
      case Some(i) => Success(db.rows[i])
  }

  /** The value a keyword argument gives `column`, if it names it */
  function Lookup(kw: Kwargs, column: string): (r: Option<Value>)
    ensures r.Some? ==> exists i :: 0 <= i < |kw| && kw[i] == (column, r.value)
    ensures r.None? ==> forall i :: 0 <= i < |kw| ==> kw[i].0 != column
  {
    if |kw| == 0 then None
    else if kw[0].0 == column then Some(kw[0].1)
    else Lookup(kw[1..], column)
  }

  /** `after` is `before` with exactly the columns named in `kw` set to
      their values: the partial-update contract of `update_user`. */
  predicate UpdatedAs(before: User, after: User, kw: Kwargs) {
    && after.id == before.id
    && forall c :: c in Columns ==>
         ColumnValue(after, c) == (match Lookup(kw, c) case Some(v) => v case None => ColumnValue(before, c))
  }

  predicate Fits(kw: Kwargs) {
    forall i :: 0 <= i < |kw| ==> IsColumn(kw[i].0) ==> Assignable(kw[i].0, kw[i].1)
  }

  /** The row after the SET clause built from `kw` */
  function ApplyAll(u: User, kw: Kwargs): (r: User)
    requires AllColumns(kw) && Fits(kw) && DistinctKeys(kw)
    ensures UpdatedAs(u, r, kw)
    decreases |kw|
  {
    if |kw| == 0 then u
    else
      var r := ApplyAll(Assign(u, kw[0].0, kw[0].1), kw[1..]);
      assert Lookup(kw[1..], kw[0].0).None?;
      r
  }

  /** Rows are determined by their columns. */
  lemma ColumnsDetermineRow(a: User, b: User)
    requires forall c :: IsColumn(c) ==> ColumnValue(a, c) == ColumnValue(b, c)
    ensures a == b
  {
    assert ColumnValue(a, "id") == ColumnValue(b, "id");
    assert ColumnValue(a, "email") == ColumnValue(b, "email");
    assert ColumnValue(a, "hashed_password") == ColumnValue(b, "hashed_password");
    assert ColumnValue(a, "session_id") == ColumnValue(b, "session_id");
    assert ColumnValue(a, "reset_token") == ColumnValue(b, "reset_token");
  }

  /** `update_user(user_id, **kw)`: NoResultFound when no row has that id
      (so `find_user_by` never returns None and the None test after it is
      dead); ValueError, before anything is written, when a key is not an
      attribute of `User`; for a key that is an attribute but not a column,
      nothing is promised; otherwise the row with that id gets exactly the named columns
      and nothing else changes. */
  function UpdateUser(db: DB, userId: int, kw: Kwargs): (r: (Result<(), Exception>, DB))
    requires DistinctKeys(kw) && Fits(kw)
    ensures !HasId(db, userId) ==> r == (Failure(NoResultFound), db)
    ensures HasId(db, userId) && !AllAttributes(kw) ==> r == (Failure(ValueError("")), db)
    ensures HasId(db, userId) && AllColumns(kw) ==>
              && r.0 == Success(())
              && |r.1.rows| == |db.rows|
              && forall i :: 0 <= i < |db.rows| ==>
                   if db.rows[i].id == userId then UpdatedAs(db.rows[i], r.1.rows[i], kw)
                   else r.1.rows[i] == db.rows[i]
  {
    var byId := [("id", Int(userId))];
    forall u: User
      ensures Matches(u, byId) <==> u.id == userId
    {
      assert ColumnValue(u, byId[0].0) == Int(u.id);
    }
    match FindUserBy(db, byId)
    case Failure(e) => (Failure(e), db)
    case Success(_) =>
      if !AllAttributes(kw) then (Failure(ValueError("")), db)
      else if !AllColumns(kw) then (Failure(QueryError), db)
      else
        var rows := seq(|db.rows|, i requires 0 <= i < |db.rows| =>
                          if db.rows[i].id == userId then ApplyAll(db.rows[i], kw) else db.rows[i]);
        (Success(()), DB(rows))
  }

  /** Updates never touch ids, so they keep a store valid. */
  lemma UpdateKeepsValid(db: DB, userId: int, kw: Kwargs)
    requires DistinctKeys(kw) && Fits(kw) && Valid(db)
    ensures Valid(UpdateUser(db, userId, kw).1)
  {
  }
}
