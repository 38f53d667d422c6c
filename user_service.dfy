/**
 * The user service: registration unique by email with a fixed role,
 * login with one failure answer for both unknown email and wrong password,
 * and a user listing without passwords.
 *
 * A bcrypt digest is kept symbolically, as the hashed text and its salt.
 * `compare(p, hash(q, salt))` holds exactly when the keys bcrypt derives
 * from p and q agree: the UTF-8 bytes of the text and a closing NUL, cut to
 * 72 bytes. A signed token is kept as its payload; the secret and the
 * expiry are not modelled.
 */
module UserService {
  import opened Wrappers
  import opened Js
  import opened Database

  /** The role every registration gets. */
  const UserRole := "user"

  /** The message of a failed login. */
  const LoginFailed := "Email/Password không hợp lệ"

  /** `{ id: result.insertId, name, email, role: 'user' }` */
  datatype NewUser = NewUser(id: nat, name: Val, email: Val, role: string)

  /** `{ email, name }`: the token payload and the returned user alike. */
  datatype Profile = Profile(email: Val, name: Val)

  /** `jwt.sign(payload, secret, { expiresIn })` */
  datatype Token = Signed(payload: Profile)

  datatype LoginResult =
    | Rejected(ec: int, em: string)
    | LoggedIn(ec: int, accessToken: Token, user: Profile)

  /** `SELECT ... FROM users WHERE email = ?`, first row. */
  function UserByEmail(users: seq<UserRow>, email: Val): (r: Option<UserRow>)
    ensures r.Some? ==> r.value in users && SqlTextEquals(r.value.email, email)
    ensures r.None? ==> forall u :: u in users ==> !SqlTextEquals(u.email, email)
  {
    if users == [] then None
    else if SqlTextEquals(users[0].email, email) then Some(users[0])
    else UserByEmail(users[1..], email)
  }

  /** The byte values UTF-8 gives one character. */
  function Utf8(c: char): seq<int> {
    var n := c as int;
    if n < 0x80 then [n]
    else if n < 0x800 then [0xC0 + n / 0x40, 0x80 + n % 0x40]
    else if n < 0x1_0000 then [0xE0 + n / 0x1000, 0x80 + n / 0x40 % 0x40, 0x80 + n % 0x40]
    else [0xF0 + n / 0x4_0000, 0x80 + n / 0x1000 % 0x40, 0x80 + n / 0x40 % 0x40, 0x80 + n % 0x40]
  }

  /** The UTF-8 encoding of a text, as byte values. */
  function Utf8Bytes(s: string): seq<int> {
    if s == [] then [] else Utf8(s[0]) + Utf8Bytes(s[1..])
  }

  /** The most key bytes bcrypt reads. */
  const BcryptKeyBytes := 72

  /** The key bcrypt hashes: the encoded text and a closing NUL, cut to 72 bytes. */
  function BcryptKey(s: string): (k: seq<int>)
    ensures |k| <= BcryptKeyBytes
  {
    var bytes := Utf8Bytes(s) + [0];
    if |bytes| > BcryptKeyBytes then bytes[..BcryptKeyBytes] else bytes
  }

  /** `bcrypt.compare(plain, digest)`: the keys of the two texts agree. */
  predicate BcryptMatches(plain: string, digest: Digest) {
    BcryptKey(plain) == BcryptKey(digest.plain)
  }

  /** Printable ASCII and the control characters other than NUL: one byte each. */
  predicate IsAsciiText(s: string) {
    forall i :: 0 <= i < |s| ==> 0 < s[i] as int < 0x80
  }

  lemma {:induction false} AsciiBytes(s: string)
    requires IsAsciiText(s)
    ensures |Utf8Bytes(s)| == |s|
    ensures forall i :: 0 <= i < |s| ==> Utf8Bytes(s)[i] == s[i] as int
  {
    if s != [] {
      AsciiBytes(s[1..]);
    }
  }

  /** Two passwords whose encodings share their first 72 bytes are interchangeable at login. */
  lemma {:induction false} SharedKeyPrefixMatches(p: string, q: string, salt: string)
    requires |Utf8Bytes(p)| >= BcryptKeyBytes && |Utf8Bytes(q)| >= BcryptKeyBytes
    requires Utf8Bytes(p)[..BcryptKeyBytes] == Utf8Bytes(q)[..BcryptKeyBytes]
    ensures BcryptMatches(p, Bcrypt(q, salt)) && BcryptMatches(q, Bcrypt(p, salt))
  {
    assert (Utf8Bytes(p) + [0])[..BcryptKeyBytes] == Utf8Bytes(p)[..BcryptKeyBytes];
    assert (Utf8Bytes(q) + [0])[..BcryptKeyBytes] == Utf8Bytes(q)[..BcryptKeyBytes];
  }

  /** Below the 72-byte limit, an ASCII password matches exactly the text it was hashed from. */
  lemma ShortAsciiMatchesIffEqual(p: string, q: string, salt: string)
    requires IsAsciiText(p) && IsAsciiText(q)
    requires |p| < BcryptKeyBytes && |q| < BcryptKeyBytes
    ensures BcryptMatches(p, Bcrypt(q, salt)) <==> p == q
  {
    AsciiBytes(p);
    AsciiBytes(q);
    if BcryptKey(p) == BcryptKey(q) {
      assert |p| == |q|;
      forall i | 0 <= i < |p| ensures p[i] == q[i] {
        assert BcryptKey(p)[i] == BcryptKey(q)[i];
      }
    }
  }

  /**
   * `createUserService`: null when the email is taken, when bcrypt refuses a
   * non-string password, when a NOT NULL column gets null, or on any store
   * error; otherwise the new user with role "user", stored with the hash of
   * the password.
   */
  method CreateUserService(db: Db, name: Val, email: Val, password: Val, salt: string, fault: bool)
    returns (r: Option<NewUser>)
    requires db.Valid()
    modifies db
    ensures db.Valid()
    ensures unchanged(db`products, db`categories, db`favorites, db`orders, db`comments)
    ensures UserByEmail(old(db.users), email).Some? ==> r == None && unchanged(db)
    ensures r.None? ==> unchanged(db)
    ensures r.Some? <==>
      && !fault && UserByEmail(old(db.users), email).None?
      && password.Str? && SqlText(name).Some? && SqlText(email).Some?
    ensures r.Some? ==>
      && r.value == NewUser(old(db.nextUserId), name, email, UserRole)
      && db.users == old(db.users) + [UserRow(old(db.nextUserId), name, email, Bcrypt(password.s, salt), UserRole)]
      && db.nextUserId == old(db.nextUserId) + 1
  {
    if UserByEmail(db.users, email).Some? {
      return None;
    }
    if !password.Str? {
      // bcrypt.hash throws on anything but a string
      return None;
    }
    var hashPassword := Bcrypt(password.s, salt);
    if fault || SqlText(name).None? || SqlText(email).None? {
      return None;
    }
    var id := db.nextUserId;
    forall i | 0 <= i < |db.users| ensures SqlText(db.users[i].email) != SqlText(email) {
      assert db.users[i] in db.users;
      if SqlText(db.users[i].email) == SqlText(email) {
        SameTextSelects(db.users[i].email, email);
      }
    }
    UsersAppendValid(db.users, id, UserRow(id, name, email, hashPassword, UserRole));
    db.users := db.users + [UserRow(id, name, email, hashPassword, UserRole)];
    db.nextUserId := id + 1;
    r := Some(NewUser(id, name, email, UserRole));
  }

  /**
   * `loginService`: EC 0 with a token and the user's email and name, or
   * EC 1 with one fixed message; null when bcrypt throws (a non-string
   * password) or the store fails.
   */
  function LoginService(users: seq<UserRow>, email: Val, password: Val, fault: bool): (r: Option<LoginResult>)
    ensures r.Some? && r.value.LoggedIn? ==>
      exists u :: u in users && SqlTextEquals(u.email, email) && password.Str? && BcryptMatches(password.s, u.password)
        && r.value == LoggedIn(0, Signed(Profile(u.email, u.name)), Profile(u.email, u.name))
    ensures UserByEmail(users, email).None? && !fault ==> r == Some(Rejected(1, LoginFailed))
    ensures fault ==> r == None
    ensures !fault && UserByEmail(users, email).Some? && !password.Str? ==> r == None
    ensures !fault && UserByEmail(users, email).Some? && password.Str? ==>
      && r.Some?
      && (r.value.LoggedIn? <==> BcryptMatches(password.s, UserByEmail(users, email).value.password))
      && (r.value.Rejected? ==> r.value == Rejected(1, LoginFailed))
  {
    if fault then None
    else
      match UserByEmail(users, email)
      case None => Some(Rejected(1, LoginFailed))
      case Some(u) =>
        if !password.Str? then None
        else if !BcryptMatches(password.s, u.password) then Some(Rejected(1, LoginFailed))
        else
          var payload := Profile(u.email, u.name);
          Some(LoggedIn(0, Signed(payload), payload))
  }

  /**
   * A login whose password agrees with the registered one on the first 72
   * encoded bytes succeeds, whatever follows.
   */
  lemma LoginIgnoresBytesPastKey(users: seq<UserRow>, email: Val, password: string)
    requires UserByEmail(users, email).Some?
    requires var stored := UserByEmail(users, email).value.password.plain;
      && |Utf8Bytes(password)| >= BcryptKeyBytes && |Utf8Bytes(stored)| >= BcryptKeyBytes
      && Utf8Bytes(password)[..BcryptKeyBytes] == Utf8Bytes(stored)[..BcryptKeyBytes]
    ensures var r := LoginService(users, email, Str(password), false);
      r.Some? && r.value.LoggedIn?
  {
    var digest := UserByEmail(users, email).value.password;
    SharedKeyPrefixMatches(password, digest.plain, digest.salt);
  }

  /** An unknown email and a wrong password get the identical answer. */
  lemma LoginFailureIsUniform(users: seq<UserRow>, unknown: Val, known: Val, wrong: string)
    requires UserByEmail(users, unknown).None?
    requires UserByEmail(users, known).Some? && !BcryptMatches(wrong, UserByEmail(users, known).value.password)
    ensures LoginService(users, unknown, Str(wrong), false) == LoginService(users, known, Str(wrong), false)
    ensures LoginService(users, unknown, Str(wrong), false) == Some(Rejected(1, LoginFailed))
  {
  }

  /** Registering and then logging in with the same password succeeds with that user's profile. */
  lemma RegisterThenLogin(users: seq<UserRow>, id: nat, name: Val, email: Val, password: string, salt: string)
    requires UserByEmail(users, email).None? && SqlText(email).Some?
    ensures LoginService(users + [UserRow(id, name, email, Bcrypt(password, salt), UserRole)], email, Str(password), false) ==
      Some(LoggedIn(0, Signed(Profile(email, name)), Profile(email, name)))
  {
    var row := UserRow(id, name, email, Bcrypt(password, salt), UserRole);
    SameTextSelects(email, email);
    LookupAfterAppend(users, row, email);
  }

  /**
   * A login body with the number 0 as its e-mail selects a stored user whose
   * e-mail has no leading number, and logs in as that user.
   */
  lemma NumericEmailLogsIn(password: string, salt: string)
    ensures var alice := UserRow(1, Str("Alice"), Str("alice@x.com"), Bcrypt(password, salt), UserRole);
      LoginService([alice], Num(0), Str(password), false) ==
        Some(LoggedIn(0, Signed(Profile(alice.email, alice.name)), Profile(alice.email, alice.name)))
  {
    NumberSelectsText();
  }

  lemma {:induction false} LookupAfterAppend(users: seq<UserRow>, row: UserRow, email: Val)
    requires UserByEmail(users, email).None? && SqlTextEquals(row.email, email)
    ensures UserByEmail(users + [row], email) == Some(row)
  {
    if users != [] {
      assert (users + [row])[1..] == users[1..] + [row];
      LookupAfterAppend(users[1..], row, email);
    }
  }

  /** `SELECT id, name, email, role FROM users` */
  datatype PublicUser = PublicUser(id: nat, name: Val, email: Val, role: string)

  /** `getUserService`: every user, without the password column; null on a store error. */
  function GetUserService(users: seq<UserRow>, fault: bool): (r: Option<seq<PublicUser>>)
    ensures fault <==> r.None?
    ensures r.Some? ==> |r.value| == |users|
    ensures r.Some? ==> forall i :: 0 <= i < |users| ==>
      r.value[i] == PublicUser(users[i].id, users[i].name, users[i].email, users[i].role)
  {
    if fault then None
    else Some(seq(|users|, i requires 0 <= i < |users| => PublicUser(users[i].id, users[i].name, users[i].email, users[i].role)))
  }
}
