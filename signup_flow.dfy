// Properties of whole requests: `createUser` followed by `authenticateUser`
// or by `signup`, and a second signup with an email already registered.
module SignupFlow {
  import opened Common
  import opened AuthService
  import AuthControllers

  /** A user just created can sign in with the password given at signup, and gets back what signup returned. */
  lemma CreatedUserCanSignIn(t: Table, input: NewUser, h: Hasher, now: int)
    requires WellFormed(t) && Sound(h)
    requires !HasEmail(t.rows, input.email) && h.hash(input.password).Some?
    ensures Create(t, input, h, None, None, now).result.Ok?
    ensures var c := Create(t, input, h, None, None, now);
      AuthenticateUser(c.table, h, None, input.email, input.password) == c.result
  {
    var c := Create(t, input, h, None, None, now);
    var id := t.nextId;
    assert id in c.table.rows && c.table.rows[id].email == input.email;
    assert h.compare(input.password, c.table.rows[id].password) == Some(true);
  }

  /** Other users' credentials are unaffected by a signup: signing in as anyone else gives the same answer. */
  lemma CreateKeepsOtherSignIns(t: Table, input: NewUser, h: Hasher, now: int,
                                insertFault: Option<Error>, email: string, password: string)
    requires WellFormed(t) && email != input.email
    ensures var c := Create(t, input, h, None, insertFault, now);
      AuthenticateUser(c.table, h, None, email, password) == AuthenticateUser(t, h, None, email, password)
  {
    var c := Create(t, input, h, None, insertFault, now);
    if c.result.Ok? {
      assert HasEmail(c.table.rows, email) ==> HasEmail(t.rows, email) by {
        if HasEmail(c.table.rows, email) {
          var id :| id in c.table.rows && c.table.rows[id].email == email;
          assert id != t.nextId && id in t.rows;
        }
      }
      if HasEmail(t.rows, email) {
        var id :| id in t.rows && t.rows[id].email == email;
        assert id in c.table.rows && c.table.rows[id] == t.rows[id];
      }
    }
  }

  /**
   * A successful signup sends 201 and a token whose claims are the id,
   * email and role of the row just inserted; the body carries that row's
   * id, name, email and role.
   */
  lemma SignupIssuesTokenForStoredUser(t: Table, input: NewUser, h: Hasher, now: int,
                                       sign: AuthControllers.Signer, nodeEnv: string)
    requires WellFormed(t)
    requires !HasEmail(t.rows, input.email) && h.hash(input.password).Some?
    requires sign(AuthControllers.Claims(t.nextId, input.email, input.role)).Some?
    ensures var c := Create(t, input, h, None, None, now);
      var r := AuthControllers.Signup(Passed(input), c.result, sign, nodeEnv);
      && r.status == 201
      && t.nextId in c.table.rows
      && var row := c.table.rows[t.nextId];
      && r.signed == Some(AuthControllers.Claims(row.id, row.email, row.role))
      && r.body.user == AuthControllers.UserSummary(row.id, row.name, row.email, row.role)
      && row.email == input.email && row.role == input.role
  {
  }

  /** A second signup with a registered email, as the catch block is meant to work: 409 and no new row. */
  lemma SecondSignupConflicts(t: Table, first: NewUser, second: NewUser, h: Hasher, now: int, later: int,
                              insertFault: Option<Error>, sign: AuthControllers.Signer, nodeEnv: string)
    requires WellFormed(t) && second.email == first.email
    requires Create(t, first, h, None, None, now).result.Ok?
    ensures var c := Create(t, first, h, None, None, now);
      var again := Create(c.table, second, h, None, insertFault, later);
      && again.table == c.table
      && AuthControllers.Signup(Passed(second), again.result, sign, nodeEnv).status == 409
      && AuthControllers.Signup(Passed(second), again.result, sign, nodeEnv).body
           == AuthControllers.ErrorOnly("Email already exists")
  {
    var c := Create(t, first, h, None, None, now);
    assert t.nextId in c.table.rows && c.table.rows[t.nextId].email == second.email;
  }

  /**
   * The same second signup with the catch block as written: the existence
   * check's 'User already exists' is rewritten to 'Error creating user', so
   * the request is answered 500 with that message instead of 409.
   */
  lemma SecondSignupAsWrittenIsServerError(t: Table, first: NewUser, second: NewUser, h: Hasher, now: int,
                                           later: int, insertFault: Option<Error>,
                                           sign: AuthControllers.Signer, nodeEnv: string)
    requires WellFormed(t) && second.email == first.email
    requires Create(t, first, h, None, None, now).result.Ok?
    ensures var c := Create(t, first, h, None, None, now);
      var again := CreateAsWritten(c.table, second, h, None, insertFault, later);
      && again.table == c.table
      && AuthControllers.Signup(Passed(second), again.result, sign, nodeEnv).status == 500
      && AuthControllers.Signup(Passed(second), again.result, sign, nodeEnv).body
           == AuthControllers.ErrorMessage("Internal server error", "Error creating user")
  {
    var c := Create(t, first, h, None, None, now);
    assert t.nextId in c.table.rows && c.table.rows[t.nextId].email == second.email;
  }

  /** A hasher that prefixes the password, and the one compare that agrees with it. */
  function PrefixHasher(): Hasher {
    Hasher(p => Some("h:" + p), (p, d) => Some(d == "h:" + p))
  }

  /** The same request sent twice to an empty table: 201, then 500 'Error creating user' as written. */
  lemma DuplicateSignupExample(sign: AuthControllers.Signer)
    requires forall c :: sign(c).Some?
    ensures var input := NewUser("A", "a@x.com", "secret1", "user");
      var first := CreateAsWritten(Table(map[], 1), input, PrefixHasher(), None, None, 0);
      var second := CreateAsWritten(first.table, input, PrefixHasher(), None, None, 1);
      && AuthControllers.Signup(Passed(input), first.result, sign, "production").status == 201
      && AuthControllers.Signup(Passed(input), second.result, sign, "production").status == 500
      && second.table == first.table
  {
    var input := NewUser("A", "a@x.com", "secret1", "user");
    var first := CreateAsWritten(Table(map[], 1), input, PrefixHasher(), None, None, 0);
    assert !HasEmail(map[], input.email);
    assert first.table.rows[1].email == input.email;
  }
}
