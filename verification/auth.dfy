/**
 The credential store: registration and login over an immutable user table.

 Password hashing, hash verification and token minting are library calls
 whose internals are not modelled; they are the fields of a `Crypto` value
 passed in, and the only fact assumed about them is `Sound`: a password
 verifies against any hash made from it. The random salt of each hash is a
 parameter of Register.
 */
module Auth {
  import opened Wrappers
  import opened Ints
  import opened Text
  import opened UserModel
  import opened Seqs

  type Salt = nat

  datatype Crypto = Crypto(
    hash: (string, Salt) -> string,
    verify: (string, string) -> bool,
    genToken: (int32, string) -> string)

  /** A password verifies against every hash computed from it, whatever the salt. */
  ghost predicate Sound(c: Crypto) {
    forall p, s :: c.verify(p, c.hash(p, s))
  }

  /** The Users table, plus the database's auto-increment counter for Id. */
  datatype Store = Store(users: seq<User>, lastId: int32)

  const MsgRequired: string := "Username and Password are required"
  const MsgExists: string := "User already exists"
  const MsgRegistered: string := "User Registered Successfully"
  const MsgInvalidUsername: string := "Invalid Username"
  const MsgInvalidPassword: string := "Invalid Password"

  datatype Response =
    | Ok(message: string)                                    // 200 from Register
    | LoggedIn(token: string, username: string, role: string) // 200 from Login
    | BadRequest(message: string)                            // 400
    | Unauthorized(message: string)                          // 401
    | Fault                                                  // unhandled exception, 500

  /**
   Every row passed Register's duplicate check when it was appended: no
   earlier name, lower-cased by the database, equals the later name
   lower-cased by .NET. For names whose capitals are all ASCII this is
   case-insensitive uniqueness; two names with a capital outside ASCII can
   both be stored.
   */
  predicate DistinctNames(users: seq<User>) {
    forall i, j :: 0 <= i < j < |users| ==> SqlLower(users[i].username) != Lower(users[j].username)
  }

  /** What Register guarantees of every row it writes. */
  predicate WellFormed(u: User) {
    && u.username != ""
    && IsTrimmed(u.username)
    && u.passwordHash.Some?
  }

  /** The store invariant Register keeps. */
  predicate Valid(st: Store) {
    && st.lastId >= 0
    && (forall i :: 0 <= i < |st.users| ==> WellFormed(st.users[i]) && 1 <= st.users[i].id <= st.lastId)
    && (forall i, j :: 0 <= i < j < |st.users| ==> st.users[i].id < st.users[j].id)
    && DistinctNames(st.users)
  }

  /** The empty table is valid. */
  lemma EmptyValid()
    ensures Valid(Store([], 0))
  {
  }

  /** Both request fields present and not blank. */
  predicate Filled(body: UserBody) {
    !IsNullOrWhiteSpace(body.username) && !IsNullOrWhiteSpace(body.password)
  }

  /** Register's duplicate query: some stored name, lower-cased by the database, equals `key`. */
  predicate NameTaken(users: seq<User>, key: string) {
    exists i | 0 <= i < |users| :: SqlLower(users[i].username) == key
  }

  /** The row Register writes for a new account. */
  function NewRow(c: Crypto, st: Store, username: string, password: string, salt: Salt): User
    requires st.lastId < Int32Max
  {
    User(st.lastId + 1, Trim(username), Some(c.hash(password, salt)), DefaultRole)
  }

  /**
   POST /api/Auth/register. Returns the response and the table after the call.
   Once the counter has reached int.MaxValue the generated Id no longer fits
   the `int` key and reading it back throws.
   */
  function Register(c: Crypto, st: Store, body: UserBody, salt: Salt): (r: (Response, Store))
    ensures !Filled(body) ==> r == (BadRequest(MsgRequired), st)
    ensures (Filled(body) && NameTaken(st.users, Lower(Trim(body.username.value))))
              ==> r == (BadRequest(MsgExists), st)
    ensures (Filled(body) && !NameTaken(st.users, Lower(Trim(body.username.value))) && st.lastId == Int32Max)
              ==> r == (Fault, st)
    ensures r.0.Ok? <==>
              Filled(body) && !NameTaken(st.users, Lower(Trim(body.username.value))) && st.lastId < Int32Max
    ensures !r.0.Ok? ==> r.1 == st
    ensures r.0.Ok? ==>
              && r.0.message == MsgRegistered
              && r.1.lastId as int == st.lastId as int + 1
              && |r.1.users| == |st.users| + 1
              && r.1.users[..|st.users|] == st.users
              && r.1.users[|st.users|] == User(st.lastId + 1, Trim(body.username.value),
                                               Some(c.hash(body.password.value, salt)), "User")
  {
    if !Filled(body) then
      (BadRequest(MsgRequired), st)
    else if NameTaken(st.users, Lower(Trim(body.username.value))) then
      (BadRequest(MsgExists), st)
    else if st.lastId == Int32Max then
      (Fault, st)
    else
      var row := NewRow(c, st, body.username.value, body.password.value, salt);
      (Ok(MsgRegistered), Store(st.users + [row], st.lastId + 1))
  }

  /** Register keeps the store invariant, in particular that every row passed the duplicate check. */
  lemma RegisterPreservesValid(c: Crypto, st: Store, body: UserBody, salt: Salt)
    requires Valid(st)
    ensures Valid(Register(c, st, body, salt).1)
  {
    if Register(c, st, body, salt).0.Ok? {
      var name := body.username.value;
      TrimEmptyIffBlank(name);
      var st' := Register(c, st, body, salt).1;
      var n := |st.users|;
      forall i, j | 0 <= i < j < |st'.users|
        ensures SqlLower(st'.users[i].username) != Lower(st'.users[j].username)
      {
        if j == n {
          assert st'.users[i] == st.users[i];
        }
      }
    }
  }

  /**
   Login's key for the typed name, computed in .NET before the query runs:
   lower-cased, then trimmed of all white space.
   */
  function LoginKey(s: string): string {
    Trim(Lower(s))
  }

  /**
   The stored side of Login's comparison, which the database evaluates:
   SQLite's lower(), which folds only ASCII, and then its trim(), which
   removes only spaces.
   */
  function StoredKey(u: User): string {
    SqlTrim(SqlLower(u.username))
  }

  /** Login's lookup predicate: the row's stored key equals `key`. */
  predicate Matches(u: User, key: string) {
    StoredKey(u) == key
  }

  /** FirstOrDefault over the table: the index of the first row whose login key is `key`. */
  function FindUser(users: seq<User>, key: string): (r: Option<nat>)
    ensures r.Some? ==> r.value < |users| && Matches(users[r.value], key)
    ensures r.Some? ==> forall j :: 0 <= j < r.value ==> !Matches(users[j], key)
    ensures r.None? ==> forall j :: 0 <= j < |users| ==> !Matches(users[j], key)
  {
    FindFirst(users, u => Matches(u, key))
  }

  /** The row `u` accepts the password of `body`. */
  predicate Accepts(c: Crypto, u: User, body: UserBody)
    requires body.password.Some?
  {
    u.passwordHash.Some? && c.verify(body.password.value, u.passwordHash.value)
  }

  /**
   POST /api/Auth/login. The table is read-only here: Login returns no new
   store, so it cannot change one.
   */
  function Login(c: Crypto, st: Store, body: UserBody): (r: Response)
    ensures !Filled(body) ==> r == BadRequest(MsgRequired)
    ensures (Filled(body) && forall i :: 0 <= i < |st.users| ==>
               !Matches(st.users[i], LoginKey(body.username.value)))
              ==> r == Unauthorized(MsgInvalidUsername)
    ensures r.LoggedIn? ==> Filled(body) && exists i | 0 <= i < |st.users| ::
              && Matches(st.users[i], LoginKey(body.username.value))
              && Accepts(c, st.users[i], body)
              && r == LoggedIn(c.genToken(st.users[i].id, st.users[i].username),
                               st.users[i].username, st.users[i].role)
    ensures r == Unauthorized(MsgInvalidPassword) ==> Filled(body) && exists i | 0 <= i < |st.users| ::
              && Matches(st.users[i], LoginKey(body.username.value))
              && !Accepts(c, st.users[i], body)
  {
    if !Filled(body) then
      BadRequest(MsgRequired)
    else
      match FindUser(st.users, LoginKey(body.username.value))
      case None => Unauthorized(MsgInvalidUsername)
      case Some(k) =>
        var u := st.users[k];
        if u.passwordHash.None? then Fault
        else if !c.verify(body.password.value, u.passwordHash.value) then
          Unauthorized(MsgInvalidPassword)
        else
          LoggedIn(c.genToken(u.id, u.username), u.username, u.role)
  }

  /**
   For a name Register wrote (trimmed), the stored key is its database
   lower-case form; the typed name's key is Lower(Trim(_)), Register's key,
   and has no capital left.
   */
  lemma LoginKeyFacts(stored: string, input: string)
    requires IsTrimmed(stored)
    ensures SqlTrim(SqlLower(stored)) == SqlLower(stored)
    ensures LoginKey(input) == Lower(Trim(input))
    ensures Lower(LoginKey(input)) == LoginKey(input)
  {
    SqlLowerKeepsTrimmed(stored);
    SqlTrimOfTrimmed(SqlLower(stored));
    LowerTrimCommute(input);
    LowerIdempotent(Trim(input));
  }

  /** In a valid store at most one row matches the login key of a typed name. */
  lemma MatchUnique(st: Store, i: int, j: int, input: string)
    requires Valid(st)
    requires 0 <= i < |st.users| && 0 <= j < |st.users|
    requires Matches(st.users[i], LoginKey(input)) && Matches(st.users[j], LoginKey(input))
    ensures i == j
  {
    var a, b := st.users[i].username, st.users[j].username;
    LoginKeyFacts(a, input);
    LoginKeyFacts(b, input);
    LowerOfSqlLower(a);
    LowerOfSqlLower(b);
    assert Lower(a) == LoginKey(input) == Lower(b);
  }

  /** On a valid store Login never reaches the null-hash exception. */
  lemma LoginNoFault(c: Crypto, st: Store, body: UserBody)
    requires Valid(st)
    ensures Login(c, st, body) != Fault
  {
  }

  /**
   On a valid store Login issues a token exactly when some row matches the
   name and accepts the password, and that token is for that row.
   */
  lemma LoginSucceedsIff(c: Crypto, st: Store, body: UserBody, i: int)
    requires Valid(st) && Filled(body)
    requires 0 <= i < |st.users| && Matches(st.users[i], LoginKey(body.username.value))
    ensures Accepts(c, st.users[i], body) ==>
              Login(c, st, body) == LoggedIn(c.genToken(st.users[i].id, st.users[i].username),
                                             st.users[i].username, st.users[i].role)
    ensures !Accepts(c, st.users[i], body) ==> Login(c, st, body) == Unauthorized(MsgInvalidPassword)
  {
    var k := FindUser(st.users, LoginKey(body.username.value));
    MatchUnique(st, i, k.value, body.username.value);
  }

  /**
   On a valid store, Register reports "User already exists" exactly when
   Login would find a row for the same name.
   */
  lemma RegisterConflictIffKnown(c: Crypto, st: Store, body: UserBody, salt: Salt)
    requires Valid(st) && Filled(body)
    ensures (Register(c, st, body, salt).0 == BadRequest(MsgExists))
              <==> FindUser(st.users, LoginKey(body.username.value)).Some?
  {
    var key := LoginKey(body.username.value);
    LoginKeyFacts("", body.username.value);
    if NameTaken(st.users, Lower(Trim(body.username.value))) {
      var i :| 0 <= i < |st.users| && SqlLower(st.users[i].username) == Lower(Trim(body.username.value));
      LoginKeyFacts(st.users[i].username, body.username.value);
    }
    if FindUser(st.users, key).Some? {
      var i := FindUser(st.users, key).value;
      LoginKeyFacts(st.users[i].username, body.username.value);
    }
  }

  /**
   A registration followed by a login with the same name and password
   issues a token for the new row, when the name's capitals are all ASCII
   (NonAsciiNameCannotLogIn shows the other case).
   */
  lemma RegisterThenLogin(c: Crypto, st: Store, body: UserBody, salt: Salt, login: UserBody)
    requires Sound(c) && Valid(st)
    requires Register(c, st, body, salt).0.Ok?
    requires AsciiCapitalsOnly(body.username.value)
    requires login.username == body.username && login.password == body.password
    ensures Login(c, Register(c, st, body, salt).1, login)
              == LoggedIn(c.genToken(Register(c, st, body, salt).1.lastId, Trim(body.username.value)),
                          Trim(body.username.value), DefaultRole)
  {
    var st' := Register(c, st, body, salt).1;
    var n := |st.users|;
    RegisterPreservesValid(c, st, body, salt);
    TrimEmptyIffBlank(body.username.value);
    LoginKeyFacts(Trim(body.username.value), body.username.value);
    TrimKeepsAsciiCapitals(body.username.value);
    LowersAgree(Trim(body.username.value));
    assert Matches(st'.users[n], LoginKey(login.username.value));
    assert c.verify(body.password.value, c.hash(body.password.value, salt));
    LoginSucceedsIff(c, st', login, n);
  }

  /**
   Registering a name that differs from a registered one only in letter
   case or surrounding white space fails, when the registered name's
   capitals are all ASCII (NonAsciiNameRegistersTwice shows the other case).
   */
  lemma RegisterRejectsVariant(c: Crypto, st: Store, first: UserBody, second: UserBody, s1: Salt, s2: Salt)
    requires Register(c, st, first, s1).0.Ok?
    requires AsciiCapitalsOnly(first.username.value)
    requires Filled(second)
    requires Lower(Trim(second.username.value)) == Lower(Trim(first.username.value))
    ensures Register(c, Register(c, st, first, s1).1, second, s2) == (BadRequest(MsgExists), Register(c, st, first, s1).1)
  {
    var st1 := Register(c, st, first, s1).1;
    TrimKeepsAsciiCapitals(first.username.value);
    LowersAgree(Trim(first.username.value));
    assert SqlLower(st1.users[|st.users|].username) == Lower(Trim(second.username.value));
  }

  /**
   The stored table depends on the password only through its hash, and not
   at all on the Id, PasswordHash or Role the client sent.
   */
  lemma RegisterStoresOnlyHash(c: Crypto, st: Store, b1: UserBody, b2: UserBody, salt: Salt)
    requires b1.username == b2.username
    requires Filled(b1) && Filled(b2)
    requires c.hash(b1.password.value, salt) == c.hash(b2.password.value, salt)
    ensures Register(c, st, b1, salt) == Register(c, st, b2, salt)
  {
  }

  /** A JSON body that leaves out the username or the password is rejected by both endpoints. */
  lemma AbsentFieldRejected(c: Crypto, st: Store, j: JsonUser, salt: Salt)
    requires j.username.Absent? || j.password.Absent?
    ensures Register(c, st, Bind(j), salt) == (BadRequest(MsgRequired), st)
    ensures Login(c, st, Bind(j)) == BadRequest(MsgRequired)
  {
  }

  /**
   A row whose name ends in a tab, which Register never writes, is not found
   by Login under the bare name: the stored side's trim() keeps the tab.
   */
  lemma TabbedRowNotFound(c: Crypto, h: string)
    ensures Login(c, Store([User(1, "bob\t", Some(h), DefaultRole)], 1), UserBody(0, Some("bob"), Some("pw"), None, None))
            == Unauthorized(MsgInvalidUsername)
  {
    SqlTrimKeepsTab();
    assert SqlLower("bob\t") == "bob\t";
    assert Lower("bob") == "bob";
    TrimOfTrimmed("bob");
    assert !AllWhiteSpace("bob") && !AllWhiteSpace("pw") by {
      assert !IsWhiteSpace("bob"[0]) && !IsWhiteSpace("pw"[0]);
    }
  }

  /** "Émile", with the capital E acute. */
  const Emile: string := "\U{C9}mile"

  /** A registration body with the name "Émile". */
  const EmileBody: UserBody := UserBody(0, Some(Emile), Some("secret"), None, None)

  /** A stored "Émile" is not found by a login as "Émile": the typed side folds it to "émile", the stored side keeps "Émile". */
  lemma NonAsciiRowNotFound(c: Crypto, h: string)
    ensures Login(c, Store([User(1, Emile, Some(h), DefaultRole)], 1), EmileBody) == Unauthorized(MsgInvalidUsername)
  {
    assert Filled(EmileBody) by {
      assert !IsWhiteSpace(Emile[0]) && !IsWhiteSpace("secret"[0]);
    }
    assert SqlLower(Emile) == Emile;
    SqlTrimOfTrimmed(Emile);
    assert IsTrimmed(Lower(Emile));
    TrimOfTrimmed(Lower(Emile));
    assert LoginKey(Emile)[0] != Emile[0];
  }

  /** A name with a capital outside ASCII cannot log in after registering. */
  lemma NonAsciiNameCannotLogIn(c: Crypto, salt: Salt)
    ensures Register(c, Store([], 0), EmileBody, salt).0 == Ok(MsgRegistered)
    ensures Login(c, Register(c, Store([], 0), EmileBody, salt).1, EmileBody) == Unauthorized(MsgInvalidUsername)
  {
    assert Filled(EmileBody) by {
      assert !IsWhiteSpace(Emile[0]) && !IsWhiteSpace("secret"[0]);
    }
    TrimOfTrimmed(Emile);
    assert Register(c, Store([], 0), EmileBody, salt).1
           == Store([User(1, Emile, Some(c.hash("secret", salt)), DefaultRole)], 1);
    NonAsciiRowNotFound(c, c.hash("secret", salt));
  }

  /**
   The duplicate check lets the same name with a capital outside ASCII be
   registered twice: the stored "Émile" is compared as "Émile" with the
   typed "émile".
   */
  lemma NonAsciiNameRegistersTwice(c: Crypto, s1: Salt, s2: Salt)
    ensures Register(c, Store([], 0), EmileBody, s1).0 == Ok(MsgRegistered)
    ensures Register(c, Register(c, Store([], 0), EmileBody, s1).1, EmileBody, s2).0 == Ok(MsgRegistered)
  {
    assert !AllWhiteSpace(Emile) && !AllWhiteSpace("secret") by {
      assert !IsWhiteSpace(Emile[0]) && !IsWhiteSpace("secret"[0]);
    }
    TrimOfTrimmed(Emile);
    assert SqlLower(Emile) == Emile;
    assert Lower(Emile)[0] != Emile[0];
  }
}
