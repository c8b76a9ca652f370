/**
 * routers/auth.py: registration of a new, pending user and the login
 * decision. Password hashing and verification are parameters standing for
 * bcrypt; the token encoder and the clock are passed on to Security.
 */
module Auth {
  import opened Wrappers
  import opened Query
  import opened Store
  import opened Schemas
  import opened Security

  /** The row `register` inserts: a pending, non-administrator user with the hashed password. */
  function NewUser(id: UserId, u: UserCreate, hash: string -> string): (r: User)
    ensures r.id == id && r.status == Pending && !r.isAdmin && r.passwordHash == hash(u.password)
    ensures r.name == u.name && r.cpf == u.cpf && r.email == u.email && r.phone == u.phone
    ensures r.validFrom == u.validFrom && r.validTo == u.validTo
  {
    User(id, u.name, u.cpf, u.email, u.phone, u.validFrom, u.validTo, Pending, false, hash(u.password))
  }

  /**
   * `register`, decided on the users table: 400 when the email is taken,
   * then 400 when the CPF is taken, and otherwise the new row.
   */
  function RegisterDecision(users: seq<User>, id: UserId, u: UserCreate, hash: string -> string)
    : (r: Result<User, HttpError>)
    ensures (exists x :: x in users && x.email == u.email) ==> r == Err(HttpError(400, "Email already registered"))
    ensures (forall x :: x in users ==> x.email != u.email) && (exists x :: x in users && x.cpf == u.cpf) ==>
      r == Err(HttpError(400, "CPF already registered"))
    ensures r.Ok? <==> forall x :: x in users ==> x.email != u.email && x.cpf != u.cpf
    ensures r.Ok? ==> r.value == NewUser(id, u, hash)
  {
    if UserByEmail(users, u.email).Some? then Err(HttpError(400, "Email already registered"))
    else if First(users, (x: User) => x.cpf == u.cpf).Some? then
      var w := First(users, (x: User) => x.cpf == u.cpf).value;
      assert w in users;
      Err(HttpError(400, "CPF already registered"))
    else Ok(NewUser(id, u, hash))
  }

  /**
   * The endpoint `register`: exactly one row is added on success, with the
   * next autoincrement id, and the table's keys stay unique.
   */
  method Register(db: Database, u: UserCreate, hash: string -> string) returns (r: Result<User, HttpError>)
    requires db.Valid()
    modifies db`users, db`nextUserId
    ensures db.Valid()
    ensures r == RegisterDecision(old(db.users), old(db.nextUserId), u, hash)
    ensures r.Err? ==> db.users == old(db.users) && db.nextUserId == old(db.nextUserId)
    ensures r.Ok? ==> db.users == old(db.users) + [r.value] && db.nextUserId == old(db.nextUserId) + 1
  {
    r := RegisterDecision(db.users, db.nextUserId, u, hash);
    if r.Ok? {
      db.AddUser(r.value);
    }
  }

  /**
   * `login`: 401 for an unknown email or a password that does not verify,
   * then 403 for a user who is not approved, and otherwise a bearer token
   * for the user's id and admin flag.
   */
  function Login(users: seq<User>, email: string, password: string, verify: (string, string) -> bool,
                 now: Instant, encode: TokenPayload -> string): (r: Result<string, HttpError>)
    ensures UserByEmail(users, email).None? ==> r == Err(HttpError(401, "Invalid credentials"))
    ensures (UserByEmail(users, email).Some? && !verify(password, UserByEmail(users, email).value.passwordHash)) ==>
      r == Err(HttpError(401, "Invalid credentials"))
    ensures (&& UserByEmail(users, email).Some? && verify(password, UserByEmail(users, email).value.passwordHash)
             && UserByEmail(users, email).value.status != Approved)
      ==> r == Err(HttpError(403, "User not approved"))
    ensures r.Ok? ==> var u := UserByEmail(users, email).value;
      && u in users && u.email == email && u.status == Approved && verify(password, u.passwordHash)
      && r.value == encode(AccessTokenPayload(u.id, u.isAdmin, now))
  {
    var u := UserByEmail(users, email);
    if u.None? || !verify(password, u.value.passwordHash) then Err(HttpError(401, "Invalid credentials"))
    else if u.value.status != Approved then Err(HttpError(403, "User not approved"))
    else Ok(CreateAccessToken(u.value.id, u.value.isAdmin, now, encode))
  }

  /**
   * A user just registered cannot log in until approved, and can once
   * approved, provided `verify` accepts a password against its own hash.
   */
  lemma RegisterThenApproveThenLogin(users: seq<User>, id: UserId, u: UserCreate, hash: string -> string,
                                     verify: (string, string) -> bool, now: Instant, encode: TokenPayload -> string)
    requires UniqueUserIds(users) && UniqueEmails(users)
    requires forall x :: x in users ==> x.id < id
    requires RegisterDecision(users, id, u, hash).Ok?
    requires verify(u.password, hash(u.password))
    ensures var after := users + [NewUser(id, u, hash)];
      && Login(after, u.email, u.password, verify, now, encode) == Err(HttpError(403, "User not approved"))
      && Login(SetStatus(after, id, Approved), u.email, u.password, verify, now, encode).Ok?
  {
    var row := NewUser(id, u, hash);
    var after := users + [row];
    var k := |users|;
    forall j | 0 <= j < k ensures after[j].email != u.email {
      assert after[j] in users;
    }
    FoundAt(after, u.email, k);
    LoginFound(after, u.email, u.password, verify, now, encode, row);
    var approved := SetStatus(after, id, Approved);
    assert approved[k] == row.(status := Approved);
    FoundAt(approved, u.email, k);
    LoginFound(approved, u.email, u.password, verify, now, encode, row.(status := Approved));
  }

  /** Once the row is found and the password verifies, the status alone decides. */
  lemma LoginFound(users: seq<User>, email: string, password: string, verify: (string, string) -> bool,
                   now: Instant, encode: TokenPayload -> string, row: User)
    requires UserByEmail(users, email) == Some(row) && verify(password, row.passwordHash)
    ensures row.status != Approved ==> Login(users, email, password, verify, now, encode) == Err(HttpError(403, "User not approved"))
    ensures row.status == Approved ==> Login(users, email, password, verify, now, encode).Ok?
  {
  }

  /** The lookup by e-mail finds the row at `k` when no earlier row has that e-mail. */
  lemma FoundAt(users: seq<User>, email: string, k: nat)
    requires k < |users| && users[k].email == email
    requires forall j :: 0 <= j < k ==> users[j].email != email
    ensures UserByEmail(users, email) == Some(users[k])
  {
    FirstAt(users, (x: User) => x.email == email, k);
  }

  /**
   * A sign-up body that validates registers under the address as the e-mail
   * validator normalised it, when neither that address nor the CPF is taken:
   * the new row copies the name and CPF, is pending, is not an
   * administrator and stores the password's hash.
   */
  lemma ValidSignUpRegisters(users: seq<User>, id: UserId, name: Field<string>, cpf: Field<string>,
                             email: Field<string>, phone: Field<Option<string>>, validFrom: Field<Option<Day>>,
                             validTo: Field<Option<Day>>, password: Field<string>,
                             emailStr: string -> Option<string>, hash: string -> string)
    requires ParseUserCreate(name, cpf, email, phone, validFrom, validTo, password, emailStr).Some?
    requires forall x :: x in users ==> x.email != emailStr(email.value).value && x.cpf != cpf.value
    ensures var r := RegisterDecision(users, id,
                                      ParseUserCreate(name, cpf, email, phone, validFrom, validTo, password, emailStr).value,
                                      hash);
      && r.Ok? && r.value.id == id && r.value.email == emailStr(email.value).value
      && r.value.name == name.value && r.value.cpf == cpf.value
      && r.value.status == Pending && !r.value.isAdmin && r.value.passwordHash == hash(password.value)
  {
  }

  /**
   * What `login` answers never validates as its `TokenOut` response: the
   * handler builds it without the required `refresh_token`.
   */
  lemma LoginResponseRejected(users: seq<User>, email: string, password: string, verify: (string, string) -> bool,
                              now: Instant, encode: TokenPayload -> string)
    requires Login(users, email, password, verify, now, encode).Ok?
    ensures ParseTokenOut(Given(Login(users, email, password, verify, now, encode).value), Missing, Missing).None?
  {
  }
}
