/** Authentication: bearer-token extraction in the `authenticateToken`
    middleware, registration, login and the `/api/auth/me` lookup. The
    bcrypt and JWT libraries are outside the model: a password hash is
    handed in by the caller, `compare` stands for `bcrypt.compare` and
    `verify` for `jwt.verify` (the user id of a valid token). */
module Auth {
  import opened Common
  import opened Text
  import opened Tables

  datatype AuthError =
    | MissingToken        // 401 from the middleware
    | InvalidToken        // 403 from the middleware
    | MissingCredentials  // 400: email or password absent
    | PasswordTooShort    // 400
    | EmailTaken          // 400
    | InvalidCredentials  // 401: unknown email or wrong password
    | UserNotFound        // 404 from /api/auth/me

  const MinPasswordLength: nat := 8

  // ---------------------------------------------------------------- tokens

  /** `authHeader && authHeader.split(' ')[1]`: the second space-separated
      field of the header, whatever the first one says; absent when the
      header has no space or that field is empty. */
  function BearerToken(header: string): (t: Option<string>)
    ensures t.Some? ==> t.value != [] && ' ' !in t.value
    ensures ' ' !in header ==> t.None?
  {
    var parts := Split(header, ' ');
    if ' ' !in header then
      SplitWithoutSeparator(header, ' ');
      None
    else if |parts| >= 2 && parts[1] != [] then Some(parts[1])
    else None
  }

  /** `Bearer <token>` (or any scheme word, optionally followed by more
      space-separated text) yields exactly the token. */
  lemma BearerTokenOf(scheme: string, token: string, tail: string)
    requires ' ' !in scheme && ' ' !in token && token != []
    requires tail == [] || tail[0] == ' '
    ensures BearerToken(scheme + " " + token + tail) == Some(token)
  {
    var header := scheme + " " + token + tail;
    assert header == scheme + [' '] + (token + tail);
    SplitAfterField(scheme, token + tail, ' ');
    if tail == [] {
      assert token + tail == token;
      SplitWithoutSeparator(token, ' ');
    } else {
      assert token + tail == token + [' '] + tail[1..];
      SplitAfterField(token, tail[1..], ' ');
    }
    assert ' ' in header by { assert header[|scheme|] == ' '; }
  }

  /** `Bearer ` with nothing after the space, or a second space right after
      the first, leaves the second field empty, so no token is found. */
  lemma BearerTokenEmptyField(scheme: string, tail: string)
    requires ' ' !in scheme
    requires tail == [] || tail[0] == ' '
    ensures BearerToken(scheme + " " + tail) == None
  {
    var header := scheme + " " + tail;
    assert header == scheme + [' '] + tail;
    SplitAfterField(scheme, tail, ' ');
    if tail != [] {
      assert tail == [] + [' '] + tail[1..];
      SplitAfterField([], tail[1..], ' ');
    }
  }

  /** The middleware: 401 without a token, 403 when `verify` rejects it,
      otherwise the user id carried by the token. */
  function Authenticate(header: string, verify: string -> Option<nat>): (r: Result<nat, AuthError>)
    ensures r == Err(MissingToken) <==> BearerToken(header).None?
    ensures r.Ok? <==> BearerToken(header).Some? && verify(BearerToken(header).value).Some?
    ensures r.Ok? ==> r.value == verify(BearerToken(header).value).value
    ensures r == Err(InvalidToken) <==> BearerToken(header).Some? && verify(BearerToken(header).value).None?
  {
    match BearerToken(header)
    case None => Err(MissingToken)
    case Some(token) =>
      match verify(token)
      case None => Err(InvalidToken)
      case Some(userId) => Ok(userId)
  }

  // ---------------------------------------------------------- registration

  predicate EmailInUse(users: seq<User>, email: string)
  {
    exists k :: 0 <= k < |users| && users[k].email == email
  }

  /** The checks of the register handler, in order; on success the
      lower-cased email under which the user is stored. */
  function CheckRegistration(users: seq<User>, email: string, password: string): (r: Result<string, AuthError>)
    ensures r.Ok? <==> email != [] && |password| >= MinPasswordLength && !EmailInUse(users, Lower(email))
    ensures r.Ok? ==> r.value == Lower(email) && r.value != []
    ensures r == Err(MissingCredentials) <==> email == [] || password == []
    ensures r == Err(PasswordTooShort) <==> email != [] && password != [] && |password| < MinPasswordLength
    ensures r == Err(EmailTaken) <==> email != [] && |password| >= MinPasswordLength && EmailInUse(users, Lower(email))
  {
    if email == [] || password == [] then Err(MissingCredentials)
    else if |password| < MinPasswordLength then Err(PasswordTooShort)
    else if EmailInUse(users, Lower(email)) then Err(EmailTaken)
    else Ok(Lower(email))
  }

  /** `name || fullName || ''`. */
  function DisplayName(name: string, fullName: string): (r: string)
    ensures name != [] ==> r == name
    ensures name == [] ==> r == fullName
  {
    if name != [] then name else fullName
  }

  /** The table invariant registration maintains: stored emails are lower
      case and unique, ids are below the next serial value and increase
      along the table. */
  ghost predicate UsersWellFormed(users: seq<User>, nextId: nat)
  {
    && (forall k :: 0 <= k < |users| ==> users[k].id < nextId && Lower(users[k].email) == users[k].email)
    && (forall i, j :: 0 <= i < j < |users| ==> users[i].id < users[j].id && users[i].email != users[j].email)
  }

  /** A successful registration keeps lower-cased emails unique. */
  lemma RegisterKeepsUsersWellFormed(users: seq<User>, nextId: nat, email: string, password: string,
                                     hash: string, name: string, now: int)
    requires UsersWellFormed(users, nextId)
    requires CheckRegistration(users, email, password).Ok?
    ensures UsersWellFormed(users + [User(nextId, Lower(email), hash, name, now)], nextId + 1)
  {
    LowerIdempotent(email);
  }

  // ----------------------------------------------------------------- login

  /** `SELECT ... FROM users WHERE email = $1`, first row. */
  function FindByEmail(users: seq<User>, email: string): (r: Option<User>)
    ensures r.Some? ==> r.value in users && r.value.email == email
    ensures r.None? <==> !EmailInUse(users, email)
  {
    if users == [] then None
    else if users[0].email == email then Some(users[0])
    else
      var rest := FindByEmail(users[1..], email);
      assert forall k :: 0 < k < |users| ==> users[k] == users[1..][k - 1];
      rest
  }

  /** Appending a user under a fresh email makes it the one found. */
  lemma {:induction false} FindAppended(users: seq<User>, u: User)
    requires !EmailInUse(users, u.email)
    ensures FindByEmail(users + [u], u.email) == Some(u)
  {
    if users != [] {
      assert (users + [u])[1..] == users[1..] + [u];
      assert !EmailInUse(users[1..], u.email) by {
        forall k | 0 <= k < |users[1..]| ensures users[1..][k].email != u.email {
          assert users[1..][k] == users[k + 1];
        }
      }
      FindAppended(users[1..], u);
    }
  }

  /** The login handler: 400 without email or password, and the same 401
      for an unknown email as for a wrong password. */
  function Login(users: seq<User>, email: string, password: string,
                 compare: (string, string) -> bool): (r: Result<User, AuthError>)
    ensures r.Ok? ==> r.value in users && r.value.email == Lower(email) && compare(password, r.value.passwordHash)
    ensures r == Err(MissingCredentials) <==> email == [] || password == []
    ensures r.Err? ==> r.error == MissingCredentials || r.error == InvalidCredentials
    ensures email != [] && password != [] && !EmailInUse(users, Lower(email)) ==> r == Err(InvalidCredentials)
  {
    if email == [] || password == [] then Err(MissingCredentials)
    else
      match FindByEmail(users, Lower(email))
      case None => Err(InvalidCredentials)
      case Some(user) =>
        if compare(password, user.passwordHash) then Ok(user) else Err(InvalidCredentials)
  }

  /** Whoever registers can log in with the same password and with the
      email written in any letter case, provided the stored hash matches
      the password under `compare`. */
  lemma RegisterThenLogin(users: seq<User>, id: nat, email: string, password: string, hash: string,
                          name: string, now: int, compare: (string, string) -> bool, loginEmail: string)
    requires CheckRegistration(users, email, password).Ok?
    requires Lower(loginEmail) == Lower(email)
    requires compare(password, hash)
    ensures Login(users + [User(id, Lower(email), hash, name, now)], loginEmail, password, compare)
         == Ok(User(id, Lower(email), hash, name, now))
  {
    FindAppended(users, User(id, Lower(email), hash, name, now));
  }

  /** A stored user who gives their email in any letter case and a password
      that `compare` accepts against the stored hash is logged in. */
  lemma LoginSucceeds(users: seq<User>, nextId: nat, u: User, loginEmail: string, password: string,
                      compare: (string, string) -> bool)
    requires UsersWellFormed(users, nextId)
    requires u in users && u.email != []
    requires Lower(loginEmail) == u.email
    requires password != [] && compare(password, u.passwordHash)
    ensures Login(users, loginEmail, password, compare) == Ok(u)
  {
    assert loginEmail != [] by { assert |Lower(loginEmail)| == |loginEmail|; }
    FindUnique(users, nextId, u);
  }

  /** With unique emails, looking up a stored user's email finds that user. */
  lemma FindUnique(users: seq<User>, nextId: nat, u: User)
    requires UsersWellFormed(users, nextId)
    requires u in users
    ensures FindByEmail(users, u.email) == Some(u)
  {
    var j :| 0 <= j < |users| && users[j] == u;
    var f := FindByEmail(users, u.email);
    assert EmailInUse(users, u.email);
    var i :| 0 <= i < |users| && users[i] == f.value;
    assert users[i].email == users[j].email;
  }

  /** What the register and login responses reveal of a user. */
  datatype PublicUser = PublicUser(id: nat, email: string, name: string)

  /** What `/api/auth/me` reveals of a user. */
  datatype Profile = Profile(id: nat, email: string, name: string, createdAt: int)

  function Public(u: User): PublicUser
  {
    PublicUser(u.id, u.email, u.name)
  }

  function ProfileOf(u: User): Profile
  {
    Profile(u.id, u.email, u.name, u.createdAt)
  }

  // ------------------------------------------------------------------- me

  /** `SELECT ... FROM users WHERE id = $1`. */
  function CurrentUser(users: seq<User>, userId: nat): (r: Result<User, AuthError>)
    ensures r.Ok? ==> r.value in users && r.value.id == userId
    ensures r.Err? <==> forall k :: 0 <= k < |users| ==> users[k].id != userId
    ensures r.Err? ==> r.error == UserNotFound
  {
    if users == [] then Err(UserNotFound)
    else if users[0].id == userId then Ok(users[0])
    else
      assert forall k :: 0 < k < |users| ==> users[k] == users[1..][k - 1];
      CurrentUser(users[1..], userId)
  }
}
