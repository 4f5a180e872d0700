// The authentication service (src/Services/auth.service.js).
//
// The users table is abstracted as a map from id to row, with the store's
// serial id counter; the database's uniqueness constraint on `email` is the
// table invariant. bcrypt is left uninterpreted: a `Hasher` supplies hash and
// compare as opaque functions. Queries that fail at the store are modelled by
// an optional error supplied for each query, which also covers the race
// between the existence check and the insert (a unique violation, code
// '23505', raised by the insert).
module AuthService {
  import opened Common

  /** A row of the users table; `password` holds the stored hash. */
  datatype UserRow = UserRow(id: int, name: string, email: string, password: string, role: string, createdAt: int)

  /** A user as handed back to callers: every column except the password. */
  datatype PublicUser = PublicUser(id: int, name: string, email: string, role: string, createdAt: int)

  /** The validated signup data passed to `createUser`. */
  datatype NewUser = NewUser(name: string, email: string, password: string, role: string)

  /**
   * The bcrypt primitives, uninterpreted. `None` stands for the primitive
   * throwing; `compare` answers whether the plaintext matches the hash.
   */
  datatype Hasher = Hasher(hash: string -> Option<string>, compare: (string, string) -> Option<bool>)

  /** What bcrypt guarantees and the model relies on: a password matches its own hash. */
  ghost predicate Sound(h: Hasher) {
    forall p :: h.hash(p).Some? ==> h.compare(p, h.hash(p).value) == Some(true)
  }

  /** The users table and the store's next serial id. */
  datatype Table = Table(rows: map<int, UserRow>, nextId: int)

  /** The unique constraint on the `email` column. */
  ghost predicate UniqueEmails(rows: map<int, UserRow>) {
    forall i, j :: i in rows && j in rows && rows[i].email == rows[j].email ==> i == j
  }

  /** Rows are keyed by their own id, ids come from the serial counter, emails are unique. */
  ghost predicate WellFormed(t: Table) {
    && (forall id :: id in t.rows ==> t.rows[id].id == id && id < t.nextId)
    && UniqueEmails(t.rows)
  }

  ghost predicate HasEmail(rows: map<int, UserRow>, email: string) {
    exists id :: id in rows && rows[id].email == email
  }

  const INVALID_CREDENTIALS := "Invalid credentials"
  const USER_ALREADY_EXISTS := "User already exists"
  /** The Postgres error code of a unique-constraint violation. */
  const UNIQUE_VIOLATION := "23505"

  /** `SELECT * FROM users WHERE email = ? LIMIT 1`. */
  function FindByEmail(rows: map<int, UserRow>, email: string): (r: Option<UserRow>)
    requires UniqueEmails(rows)
    ensures r.None? <==> !HasEmail(rows, email)
    ensures r.Some? ==> r.value in rows.Values && r.value.email == email
  {
    if exists id | id in rows :: rows[id].email == email then
      var id :| id in rows && rows[id].email == email;
      Some(rows[id])
    else
      None
  }

  /** The row with its password column dropped. */
  function WithoutPassword(row: UserRow): PublicUser {
    PublicUser(row.id, row.name, row.email, row.role, row.createdAt)
  }

  /** Exactly the password is dropped: two rows look the same to callers iff they differ at most in password. */
  lemma WithoutPasswordDropsOnlyPassword(r1: UserRow, r2: UserRow)
    ensures WithoutPassword(r1) == WithoutPassword(r2) <==> r1 == r2.(password := r1.password)
  {
  }

  /** `hashPassword`: bcrypt's hash, with a failure of the primitive reported as 'Error hashing'. */
  function HashPassword(h: Hasher, password: string): (r: Result<string, Error>)
    ensures r.Ok? <==> h.hash(password).Some?
    ensures r.Ok? ==> r.value == h.hash(password).value
    ensures r.Err? ==> r.error == Raised("Error hashing")
  {
    match h.hash(password)
    case Some(digest) => Ok(digest)
    case None => Err(Raised("Error hashing"))
  }

  /** `comparePassword`: bcrypt's compare, with a failure reported as 'Error comparing password'. */
  function ComparePassword(h: Hasher, password: string, hashed: string): (r: Result<bool, Error>)
    ensures r.Ok? <==> h.compare(password, hashed).Some?
    ensures r.Ok? ==> r.value == h.compare(password, hashed).value
    ensures r.Err? ==> r.error == Raised("Error comparing password")
  {
    match h.compare(password, hashed)
    case Some(matches) => Ok(matches)
    case None => Err(Raised("Error comparing password"))
  }

  /** The catch block of `authenticateUser`: the two known errors escape, every other one is replaced. */
  function AuthenticateCatch(e: Error): (r: Error)
    ensures r.message in {USER_NOT_FOUND, INVALID_CREDENTIALS, "Error authenticating user"}
    ensures e.message == USER_NOT_FOUND || e.message == INVALID_CREDENTIALS ==> r == e
    ensures e.message != USER_NOT_FOUND && e.message != INVALID_CREDENTIALS ==> r == Raised("Error authenticating user")
  {
    if e.message == USER_NOT_FOUND || e.message == INVALID_CREDENTIALS then e
    else Raised("Error authenticating user")
  }

  /**
   * `authenticateUser(email, password)`: look the email up, check the
   * password against the stored hash, and return the row without its
   * password. It only reads the table.
   */
  function AuthenticateUser(t: Table, h: Hasher, lookupFault: Option<Error>, email: string, password: string)
    : (r: Result<PublicUser, Error>)
    requires WellFormed(t)
    ensures r.Ok? ==> lookupFault.None?
    ensures r.Err? ==> r.error.message in {USER_NOT_FOUND, INVALID_CREDENTIALS, "Error authenticating user"}
    ensures lookupFault.None? && !HasEmail(t.rows, email) ==> r == Err(Raised(USER_NOT_FOUND))
    ensures forall id | id in t.rows && t.rows[id].email == email && lookupFault.None? ::
      && (r.Ok? <==> h.compare(password, t.rows[id].password) == Some(true))
      && (r.Ok? ==> r.value == WithoutPassword(t.rows[id]))
      && (h.compare(password, t.rows[id].password) == Some(false) ==> r == Err(Raised(INVALID_CREDENTIALS)))
      && (h.compare(password, t.rows[id].password).None? ==> r == Err(Raised("Error authenticating user")))
    ensures lookupFault.Some? ==> r == Err(AuthenticateCatch(lookupFault.value))
  {
    var attempt: Result<PublicUser, Error> :=
      match lookupFault
      case Some(e) => Err(e)
      case None =>
        match FindByEmail(t.rows, email)
        case None => Err(Raised(USER_NOT_FOUND))
        case Some(row) =>
          match ComparePassword(h, password, row.password)
          case Err(e) => Err(e)
          case Ok(false) => Err(Raised(INVALID_CREDENTIALS))
          case Ok(true) => Ok(WithoutPassword(row));
    match attempt
    case Ok(user) => Ok(user)
    case Err(e) => Err(AuthenticateCatch(e))
  }

  /** The state after `createUser` and what it returned or threw. */
  datatype Created = Created(table: Table, result: Result<PublicUser, Error>)

  /**
   * The try block of `createUser`: the existence check, hashing, then the
   * insert, which takes the next serial id and the creation time `now`.
   * Errors are those thrown, before the catch block sees them.
   */
  function TryCreate(t: Table, input: NewUser, h: Hasher, lookupFault: Option<Error>,
                     insertFault: Option<Error>, now: int): (c: Created)
    requires WellFormed(t)
  {
    if lookupFault.Some? then Created(t, Err(lookupFault.value))
    else if FindByEmail(t.rows, input.email).Some? then Created(t, Err(Raised(USER_ALREADY_EXISTS)))
    else match HashPassword(h, input.password)
      case Err(e) => Created(t, Err(e))
      case Ok(digest) =>
        if insertFault.Some? then Created(t, Err(insertFault.value))
        else
          var row := UserRow(t.nextId, input.name, input.email, digest, input.role, now);
          Created(Table(t.rows[t.nextId := row], t.nextId + 1), Ok(WithoutPassword(row)))
  }

  /**
   * The catch block of `createUser` as written: only a unique violation
   * reported by the store becomes 'User already exists'; every other error,
   * including the 'User already exists' the existence check throws inside
   * the same try block, becomes 'Error creating user'.
   */
  function CreateCatchAsWritten(e: Error): (r: Error)
    ensures r.message == USER_ALREADY_EXISTS <==> e.causeCode == Some(UNIQUE_VIOLATION)
    ensures r.message != USER_ALREADY_EXISTS ==> r == Raised("Error creating user")
  {
    if e.causeCode == Some(UNIQUE_VIOLATION) then Raised(USER_ALREADY_EXISTS)
    else Raised("Error creating user")
  }

  /** The catch block as evidently intended: the existence check's own error escapes as well. */
  function CreateCatch(e: Error): (r: Error)
    ensures r.message == USER_ALREADY_EXISTS <==>
      e.causeCode == Some(UNIQUE_VIOLATION) || e.message == USER_ALREADY_EXISTS
    ensures r.message != USER_ALREADY_EXISTS ==> r == Raised("Error creating user")
  {
    if e.causeCode == Some(UNIQUE_VIOLATION) || e.message == USER_ALREADY_EXISTS then Raised(USER_ALREADY_EXISTS)
    else Raised("Error creating user")
  }

  function CatchWith(c: Created, normalise: Error -> Error): Created {
    match c.result
    case Ok(_) => c
    case Err(e) => Created(c.table, Err(normalise(e)))
  }

  /**
   * `createUser` as written. It changes the table exactly as the corrected
   * `Create` does and succeeds with the same user in the same cases; the two
   * differ only in the message of an error, and only for the existence
   * check's own error or an error carrying that same message.
   */
  function CreateAsWritten(t: Table, input: NewUser, h: Hasher, lookupFault: Option<Error>,
                           insertFault: Option<Error>, now: int): (c: Created)
    requires WellFormed(t)
    ensures WellFormed(c.table)
    ensures c.table == Create(t, input, h, lookupFault, insertFault, now).table
    ensures c.result.Ok? <==> Create(t, input, h, lookupFault, insertFault, now).result.Ok?
    ensures c.result.Ok? ==> c.result == Create(t, input, h, lookupFault, insertFault, now).result
    ensures c.result.Err? ==> c.result.error.message in {USER_ALREADY_EXISTS, "Error creating user"}
    ensures lookupFault.Some? ==> c.result == Err(CreateCatchAsWritten(lookupFault.value))
    ensures lookupFault.None? && HasEmail(t.rows, input.email) ==>
      c == Created(t, Err(Raised("Error creating user")))
    ensures (lookupFault.None? && !HasEmail(t.rows, input.email) && h.hash(input.password).None?) ==>
      c.result == Err(Raised("Error creating user"))
    ensures (lookupFault.None? && !HasEmail(t.rows, input.email) && h.hash(input.password).Some? &&
             insertFault.Some?) ==>
      c.result == Err(CreateCatchAsWritten(insertFault.value))
    ensures (lookupFault.Some? ==> lookupFault.value.message != USER_ALREADY_EXISTS) &&
            (insertFault.Some? ==> insertFault.value.message != USER_ALREADY_EXISTS) &&
            !(lookupFault.None? && HasEmail(t.rows, input.email)) ==>
      c == Create(t, input, h, lookupFault, insertFault, now)
  {
    CatchWith(TryCreate(t, input, h, lookupFault, insertFault, now), CreateCatchAsWritten)
  }

  /**
   * `createUser` with the catch block corrected: a guarded insert. It either
   * inserts exactly one new row, under a fresh id, holding the hash of the
   * password, and returns that row without the password; or it leaves the
   * table as it was and reports 'User already exists' or 'Error creating user'.
   */
  function Create(t: Table, input: NewUser, h: Hasher, lookupFault: Option<Error>,
                  insertFault: Option<Error>, now: int): (c: Created)
    requires WellFormed(t)
    ensures WellFormed(c.table)
    ensures c.result.Ok? <==>
      lookupFault.None? && !HasEmail(t.rows, input.email) && h.hash(input.password).Some? && insertFault.None?
    ensures c.result.Ok? ==>
      var row := UserRow(t.nextId, input.name, input.email, h.hash(input.password).value, input.role, now);
      && t.nextId !in t.rows
      && c.table == Table(t.rows[t.nextId := row], t.nextId + 1)
      && c.result.value == WithoutPassword(row)
    ensures c.result.Err? ==> c.table == t
    ensures c.result.Err? ==> c.result.error.message in {USER_ALREADY_EXISTS, "Error creating user"}
    ensures lookupFault.Some? ==> c.result == Err(CreateCatch(lookupFault.value))
    ensures lookupFault.None? && HasEmail(t.rows, input.email) ==> c.result == Err(Raised(USER_ALREADY_EXISTS))
    ensures (lookupFault.None? && !HasEmail(t.rows, input.email) && h.hash(input.password).None?) ==>
      c.result == Err(Raised("Error creating user"))
    ensures (lookupFault.None? && !HasEmail(t.rows, input.email) && h.hash(input.password).Some? &&
             insertFault.Some?) ==>
      c.result == Err(CreateCatch(insertFault.value))
  {
    CatchWith(TryCreate(t, input, h, lookupFault, insertFault, now), CreateCatch)
  }

  /** The users table as the store holds it, updated in place by `createUser`. */
  class UserTable {
    var rows: map<int, UserRow>
    var nextId: int

    ghost predicate Valid()
      reads this
    {
      WellFormed(State())
    }

    function State(): Table
      reads this
    {
      Table(rows, nextId)
    }

    constructor ()
      ensures Valid() && rows == map[] && nextId == 1
    {
      rows := map[];
      nextId := 1;
    }

    /** `createUser`: the existence check, hashing and the insert, in that order, with the corrected catch. */
    method CreateUser(input: NewUser, h: Hasher, lookupFault: Option<Error>, insertFault: Option<Error>, now: int)
      returns (r: Result<PublicUser, Error>)
      requires Valid()
      modifies this
      ensures Valid()
      ensures Created(State(), r) == Create(old(State()), input, h, lookupFault, insertFault, now)
    {
      if lookupFault.Some? {
        return Err(CreateCatch(lookupFault.value));
      }
      if exists id | id in rows :: rows[id].email == input.email {
        return Err(CreateCatch(Raised(USER_ALREADY_EXISTS)));
      }
      var hashed := HashPassword(h, input.password);
      if hashed.Err? {
        return Err(CreateCatch(hashed.error));
      }
      if insertFault.Some? {
        return Err(CreateCatch(insertFault.value));
      }
      var row := UserRow(nextId, input.name, input.email, hashed.value, input.role, now);
      rows := rows[nextId := row];
      nextId := nextId + 1;
      r := Ok(WithoutPassword(row));
    }
  }
}
