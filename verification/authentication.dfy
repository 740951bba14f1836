/**
 * controllers/authentication.js: registering an account and logging in.
 * bcrypt and JWT signing are kept opaque: the hash of a new password is an
 * input, and password comparison and token signing are parameters.
 */
module Authentication {
  import opened Collections
  import opened Model
  import opened Manager
  import opened Middlewares

  datatype RegisterOutcome =
    | UserExists                  // 400: the username is taken; nothing written
    | Registered(written: Dataset) // 201 after db.update(written)

  /** `register` with body fields `username` and `password`; `hashed` is what
      `bcrypt.hash(password, 10)` produced. */
  function Register(d: Dataset, username: string, hashed: string): (r: RegisterOutcome)
    ensures r.UserExists? <==> exists i :: 0 <= i < |d.users| && d.users[i].username == username
    ensures r.Registered? ==>
      && r.written.groups == d.groups
      && |r.written.users| == |d.users| + 1
      && r.written.users[..|d.users|] == d.users
      && r.written.users[|d.users|] == User(username, hashed, None)
  {
    if FindUser(d.users, username).Some? then UserExists
    else Registered(d.(users := d.users + [User(username, hashed, None)]))
  }

  /** Registration keeps usernames unique. */
  lemma RegisterKeepsUsernamesUnique(d: Dataset, username: string, hashed: string)
    requires UniqueUsernames(d.users)
    requires Register(d, username, hashed).Registered?
    ensures UniqueUsernames(Register(d, username, hashed).written.users)
  {
    var users := Register(d, username, hashed).written.users;
    forall a, b | 0 <= a < b < |users| ensures UsernamesDiffer(users[a], users[b]) {
      if b == |d.users| {
        assert users[a] == d.users[a];
      } else {
        assert users[a] == d.users[a] && users[b] == d.users[b];
        assert UsernamesDiffer(d.users[a], d.users[b]);
      }
    }
  }

  /** The account just registered is the one `getUser` finds. */
  lemma RegisteredUserIsFound(d: Dataset, username: string, hashed: string)
    requires Register(d, username, hashed).Registered?
    ensures GetUser(Register(d, username, hashed).written.users, username) == Some(User(username, hashed, None))
  {
    var users := Register(d, username, hashed).written.users;
    assert forall j :: 0 <= j < |d.users| ==> users[j] == d.users[j];
  }

  datatype LoginOutcome =
    | UserNotFound         // 400
    | WrongPassword        // 400
    | LoggedIn(token: string)  // 200 with the signed token

  /** `login` with body fields `username` and `password`. `compare` stands for
      `bcrypt.compare`, `sign` for `jwt.sign` with the server secret. */
  function Login(d: Dataset, username: string, password: string,
                 compare: (string, string) -> bool, sign: Claims -> string): (r: LoginOutcome)
    ensures r.UserNotFound? <==> GetUser(d.users, username).None?
    ensures r.WrongPassword? <==>
      GetUser(d.users, username).Some? && !compare(password, GetUser(d.users, username).value.passwordHash)
    ensures r.LoggedIn? ==> r.token == sign(Claims(username))
  {
    match FindUser(d.users, username)
    case None => UserNotFound
    case Some(i) =>
      if !compare(password, d.users[i].passwordHash) then WrongPassword
      else LoggedIn(sign(Claims(d.users[i].username)))
  }

  /** Whoever registers can then log in with the same password (when bcrypt
      accepts the password against its own hash). */
  lemma RegisterThenLogin(d: Dataset, username: string, password: string, hashed: string,
                          compare: (string, string) -> bool, sign: Claims -> string)
    requires Register(d, username, hashed).Registered?
    requires compare(password, hashed)
    ensures Login(Register(d, username, hashed).written, username, password, compare, sign)
            == LoggedIn(sign(Claims(username)))
  {
    RegisteredUserIsFound(d, username, hashed);
  }

  /** The token `login` issues, presented as "Bearer <token>", authenticates
      the same username (when `jwt.verify` accepts what `jwt.sign` produced). */
  lemma LoginThenVerify(d: Dataset, username: string, password: string,
                        compare: (string, string) -> bool, sign: Claims -> string,
                        verify: Option<string> -> Option<Claims>)
    requires forall c :: verify(Some(sign(c))) == Some(c)
    requires Login(d, username, password, compare, sign).LoggedIn?
    requires ' ' !in Login(d, username, password, compare, sign).token
    ensures VerifyToken(Some("Bearer " + Login(d, username, password, compare, sign).token), verify)
            == Authenticated(username)
  {
    var token := Login(d, username, password, compare, sign).token;
    BearerTokenOfHeader("Bearer", token, "");
    assert "Bearer" + " " + token + "" == "Bearer " + token;
  }
}
