/** The `users` table of the user-authentication service: one record per
    row, the mapped columns and the values a query compares them with. */
module UserSchema {

  import opened Wrappers
  import Bcrypt

  /** A row. `id` is the integer primary key; `email` and `hashed_password`
      are NOT NULL columns, so they are plain fields; `session_id` and
      `reset_token` are nullable. Nothing makes `email` unique. */
  datatype User = User(
    id: nat,
    email: string,
    hashedPassword: Bcrypt.Hash,
    sessionId: Option<string>,
    resetToken: Option<string>)

  /** The mapped column attributes of `User` */
  const Columns: seq<string> := ["id", "email", "hashed_password", "session_id", "reset_token"]

  predicate IsColumn(key: string) {
    key in Columns
  }

  /** Names `User` has besides its columns: `__tablename__` from the class
      body, what the declarative base adds, and the commonest of what every
      Python class inherits from `object` */
  const OtherAttributes: set<string> :=
    {"__tablename__", "__table__", "__mapper__", "metadata", "registry", "_sa_class_manager",
     "__init__", "__class__", "__dict__", "__doc__", "__module__", "__repr__", "__eq__", "__hash__"}

  /** `hasattr(User, key)`: a column or another class attribute */
  predicate IsAttribute(key: string) {
    IsColumn(key) || key in OtherAttributes
  }

  /** Every column is an attribute; some attributes are not columns. */
  lemma ColumnsAreAttributes()
    ensures forall key :: IsColumn(key) ==> IsAttribute(key)
    ensures IsAttribute("metadata") && !IsColumn("metadata")
  {
    assert "metadata" != "id" && "metadata" != "email" && "metadata" != "hashed_password"
        && "metadata" != "session_id" && "metadata" != "reset_token";
  }

  /** A Python value passed as a filter or update value; `Null` is `None` */
  datatype Value = Int(n: int) | Text(s: string) | Blob(h: Bcrypt.Hash) | Null

  function OptText(o: Option<string>): Value {
    match o
    case Some(s) => Text(s)
    case None => Null
  }

  /** The value stored in a column of a row */
  function ColumnValue(u: User, column: string): (v: Value)
    requires IsColumn(column)
    ensures column == "email" ==> v == Text(u.email)
    ensures column == "session_id" ==> (v == Null <==> u.sessionId.None?)
    ensures column == "reset_token" ==> (v == Null <==> u.resetToken.None?)
    ensures (column == "id" || column == "email" || column == "hashed_password") ==> v != Null
  {
    match column
    case "id" => Int(u.id)
    case "email" => Text(u.email)
    case "hashed_password" => Blob(u.hashedPassword)
    case "session_id" => OptText(u.sessionId)
    case _ => OptText(u.resetToken)
  }

  /** SQL `column = value`: true only for equal non-NULL values, because a
      comparison with NULL is never true. Values of different kinds are
      treated as unequal. */
  predicate SqlEquals(stored: Value, given: Value) {
    given != Null && stored == given
  }

  /** Whether `value` fits `column` in an UPDATE. Updating the primary key
      and writing NULL into a NOT NULL column are outside the model. */
  predicate Assignable(column: string, value: Value) {
    match column
    case "id" => false
    case "email" => value.Text?
    case "hashed_password" => value.Blob?
    case "session_id" => value.Text? || value.Null?
    case "reset_token" => value.Text? || value.Null?
    case _ => true
  }

  /** The row after `column = value` */
  function Assign(u: User, column: string, value: Value): (r: User)
    requires IsColumn(column) && Assignable(column, value)
    ensures r.id == u.id
    ensures ColumnValue(r, column) == value
    ensures forall c :: IsColumn(c) && c != column ==> ColumnValue(r, c) == ColumnValue(u, c)
  {
    match column
    case "email" => u.(email := value.s)
    case "hashed_password" => u.(hashedPassword := value.h)
    case "session_id" => u.(sessionId := if value.Text? then Some(value.s) else None)
    case _ => u.(resetToken := if value.Text? then Some(value.s) else None)
  }

  /** NULL never matches: no row is found by a `None` filter value,
      whether or not its column holds NULL. */
  lemma NullNeverMatches(u: User, column: string)
    requires IsColumn(column)
    ensures !SqlEquals(ColumnValue(u, column), Null)
  {
  }
}
