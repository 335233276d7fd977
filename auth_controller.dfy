/** Registration and login (server/authController.js). bcrypt is an abstract
    hasher whose only promise is that a password matches its own hash; the
    random salt of `bcrypt.hash` is a parameter. Tokens carry exactly the
    claims `{ id, role }`, signed with the server key and a '24h' expiry. */
module AuthController {
  import opened Tables
  import opened Http
  import opened Jwt
  import opened Database

  /** `bcrypt.hash(password, salt)` and `bcrypt.compare(password, hash)`. */
  datatype Hasher = Hasher(hash: (string, nat) -> string, compare: (string, string) -> bool)

  /** The one property of bcrypt the handlers rely on. */
  ghost predicate Sound(h: Hasher)
  {
    forall password, salt :: h.compare(password, h.hash(password, salt))
  }

  /** The row `INSERT ... RETURNING id, name, email, role` gives back. */
  datatype Registered = Registered(id: int, name: string, email: string, role: string)

  /** A user row without its `password` column. */
  datatype UserInfo = UserInfo(id: int, createdAt: nat, name: string, email: string, role: string)

  datatype RegisterReply = Registration(user: Registered, token: Token) | RegisterFailed(reply: Reply)

  datatype LoginReply = LoggedIn(user: UserInfo, token: Token) | LoginFailed(reply: Reply)

  const RegistrationFailed := Reply(500, PlainText("Registration failed. Check server logs."))
  const UserNotFound := Reply(401, JsonText("User not found"))
  const IncorrectPassword := Reply(401, JsonText("Incorrect password"))

  /** The token both handlers issue for a user. */
  function Issue(id: int, role: string): (t: Token)
    ensures t.payload == Claims(id, role) && t.secret == SecretKey && t.expiresIn == "24h"
  {
    Token(Claims(id, role), SecretKey, Lifetime)
  }

  /** Whether some user already has `email`. */
  predicate EmailTaken(users: seq<Row<User>>, email: string)
  {
    exists i :: 0 <= i < |users| && users[i].val.email == email
  }

  /** `SELECT * FROM users WHERE email = $1`, first row. */
  function FindByEmail(users: seq<Row<User>>, email: string): (r: Option<Row<User>>)
    ensures r.None? <==> !EmailTaken(users, email)
    ensures r.Some? ==> r.value in users && r.value.val.email == email
  {
    if users == [] then None
    else if users[0].val.email == email then Some(users[0])
    else
      var r := FindByEmail(users[1..], email);
      assert EmailTaken(users, email) <==> EmailTaken(users[1..], email) by {
        if EmailTaken(users[1..], email) {
          var i :| 0 <= i < |users[1..]| && users[1..][i].val.email == email;
          assert users[i + 1].val.email == email;
        }
        if EmailTaken(users, email) {
          var i :| 0 <= i < |users| && users[i].val.email == email;
          assert users[1..][i - 1].val.email == email;
        }
      }
      r
  }

  /** A user row with the `password` column removed. */
  function WithoutPassword(u: Row<User>): (info: UserInfo)
    ensures info.id == u.id && info.name == u.val.name && info.email == u.val.email && info.role == u.val.role
  {
    UserInfo(u.id, u.createdAt, u.val.name, u.val.email, u.val.role)
  }

  /** `login`: unknown email and wrong password are both 401, told apart by
      their text; success returns the user without the password and a token
      for exactly its id and role. */
  function Login(users: seq<Row<User>>, email: string, password: string, h: Hasher): (r: LoginReply)
    ensures r == LoginFailed(UserNotFound) <==> !EmailTaken(users, email)
    ensures r == LoginFailed(IncorrectPassword) <==>
      EmailTaken(users, email) && !h.compare(password, FindByEmail(users, email).value.val.password)
    ensures r.LoggedIn? <==>
      EmailTaken(users, email) && h.compare(password, FindByEmail(users, email).value.val.password)
    ensures r.LoggedIn? ==>
      var u := FindByEmail(users, email).value;
      r.user == WithoutPassword(u) && r.token == Issue(u.id, u.val.role)
  {
    match FindByEmail(users, email)
    case None => LoginFailed(UserNotFound)
    case Some(u) =>
      if !h.compare(password, u.val.password) then LoginFailed(IncorrectPassword)
      else LoggedIn(WithoutPassword(u), Issue(u.id, u.val.role))
  }

  /** `register`: stores the hash of the password under a fresh id with the
      default role; a duplicate email violates the unique constraint, which the
      handler reports like every other failure, as a 500. */
  method Register(db: Database, name: string, email: string, password: string, h: Hasher, salt: nat)
    returns (r: RegisterReply)
    requires db.Valid()
    modifies db`users, db`clock
    ensures db.Valid()
    ensures EmailTaken(old(db.users), email) ==>
      r == RegisterFailed(RegistrationFailed) && db.users == old(db.users) && db.clock == old(db.clock)
    ensures !EmailTaken(old(db.users), email) ==>
      var id := old(db.clock);
      && db.clock == id + 1
      && db.users == old(db.users) + [Row(id, id, User(name, email, h.hash(password, salt), DefaultRole))]
      && r == Registration(Registered(id, name, email, DefaultRole), Issue(id, DefaultRole))
  {
    if FindByEmail(db.users, email).Some? {
      return RegisterFailed(RegistrationFailed);
    }
    var hashed := h.hash(password, salt);
    var id := db.Tick();
    var row := Row(id, id, User(name, email, hashed, DefaultRole));
    StampedAppend(db.users, id, row);
    UniqueEmailsAppend(db.users, row);
    db.users := db.users + [row];
    r := Registration(Registered(id, name, email, DefaultRole), Issue(id, DefaultRole));
  }

  /** A row whose email no user has keeps the emails unique. */
  lemma UniqueEmailsAppend(users: seq<Row<User>>, row: Row<User>)
    requires UniqueEmails(users) && !EmailTaken(users, row.val.email)
    ensures UniqueEmails(users + [row])
  {
    var r := users + [row];
    assert forall i :: 0 <= i < |users| ==> r[i] == users[i];
  }

  /** After a registration succeeds, logging in with the same email and
      password succeeds, as the registered user with the same id and role. */
  lemma RegisterThenLogin(users: seq<Row<User>>, row: Row<User>, password: string, salt: nat, h: Hasher)
    requires Sound(h)
    requires !EmailTaken(users, row.val.email)
    requires row.val.password == h.hash(password, salt)
    ensures Login(users + [row], row.val.email, password, h) ==
      LoggedIn(WithoutPassword(row), Issue(row.id, row.val.role))
  {
    FindByEmailAppend(users, row);
  }

  /** Looking up the email of a row appended to a table without that email finds the row. */
  lemma {:induction false} FindByEmailAppend(users: seq<Row<User>>, row: Row<User>)
    requires !EmailTaken(users, row.val.email)
    ensures FindByEmail(users + [row], row.val.email) == Some(row)
  {
    if users != [] {
      assert (users + [row])[1..] == users[1..] + [row];
      assert users[0].val.email != row.val.email;
      FindByEmailAppend(users[1..], row);
    }
  }

  /** A wrong password for an existing email is reported as "Incorrect
      password", never as "User not found". */
  lemma WrongPasswordNotNotFound(users: seq<Row<User>>, email: string, password: string, h: Hasher)
    requires EmailTaken(users, email)
    requires forall i :: 0 <= i < |users| && users[i].val.email == email ==> !h.compare(password, users[i].val.password)
    ensures Login(users, email, password, h) == LoginFailed(IncorrectPassword)
  {
  }
}
