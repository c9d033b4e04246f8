/**
 * The account routes: registration and login. Both read `username` and
 * `password` from the request body (absent fields are `None`), use the
 * injected `sha256` for password hashes and answer with a session token.
 */
module AuthRoutes {
  import opened Options
  import opened JsString
  import opened Credentials
  import opened Token
  import opened Dao
  import opened Http

  /** The success body: the token and the user it names. */
  datatype Session = Session(token: string, userId: string, username: string)

  /** `!field` for a body field that should be a string: absent or empty. */
  predicate Blank(field: Option<string>) {
    field.None? || field.value == ""
  }

  /** The reply for a user who passed the checks: their token, or 500 when it cannot be issued. */
  function SessionReply(user: User, secret: string, nowMs: nat): (r: Reply<Session>)
    ensures r.Ok? <==> Latin1(user.id) && Latin1(secret)
    ensures r.Error? ==> r.status == ServerError
    ensures r.Ok? ==> r.body.userId == user.id && r.body.username == user.username
                      && VerifyToken(r.body.token, secret, nowMs) == Some(user.id)
    ensures r.Ok? ==> r.body.token == GenerateToken(user.id, secret, nowMs).value
  {
    match GenerateToken(user.id, secret, nowMs)
    case None => Error(ServerError)
    case Some(token) =>
      VerifyGeneratedToken(user.id, secret, nowMs, nowMs);
      Ok(Session(token, user.id, user.username))
  }

  /**
   * The token of a session (issued whenever the user id and the secret are
   * Latin-1) stays valid, with the same secret, until its thirtieth day has
   * passed, and never verifies under another secret.
   */
  lemma SessionTokenLifetime(user: User, secret: string, other: string, nowMs: nat, laterMs: nat)
    requires Latin1(user.id) && Latin1(secret)
    requires other != secret
    ensures var token := SessionReply(user, secret, nowMs).body.token;
            && (laterMs / 1000 <= nowMs / 1000 + Lifetime ==> VerifyToken(token, secret, laterMs) == Some(user.id))
            && (laterMs / 1000 > nowMs / 1000 + Lifetime ==> VerifyToken(token, secret, laterMs).None?)
            && VerifyToken(token, other, laterMs).None?
  {
    if laterMs / 1000 <= nowMs / 1000 + Lifetime {
      VerifyGeneratedToken(user.id, secret, nowMs, laterMs);
    } else {
      ExpiredTokenRejected(user.id, secret, nowMs, laterMs);
    }
    WrongSecretRejected(user.id, secret, other, nowMs, laterMs);
  }

  /** No two users share a username. */
  predicate UniqueUsernames(users: seq<User>) {
    forall i, j :: 0 <= i < j < |users| ==> users[i].username != users[j].username
  }

  /** Appending a user whose name no stored user has keeps usernames unique. */
  lemma UniqueUsernamesAppend(users: seq<User>, user: User)
    requires UniqueUsernames(users)
    requires forall i :: 0 <= i < |users| ==> users[i].username != user.username
    ensures UniqueUsernames(users + [user])
  {
  }

  /** The row registration stores: the password only as its hash. */
  function NewUser(sha256: string -> Digest, newId: string, username: string, password: string, nowMs: nat): User {
    User(newId, username, HashPassword(sha256, password), nowMs, nowMs)
  }

  /**
   * `POST /register`: 400 for a missing or empty field, for a username
   * outside 3..20 characters or a password under 6; 409 when the username
   * is taken; otherwise the user is stored and a session returned (500 when
   * no token can be issued, the user being stored by then). The registered
   * user is then the one a login with the same name finds, and the
   * password matches the stored hash.
   */
  method Register(db: Database, env: Env, sha256: string -> Digest,
                  username: Option<string>, password: Option<string>, nowMs: nat, newId: string)
    returns (r: Reply<Session>)
    modifies db
    ensures Blank(username) || Blank(password) ==> r == Error(BadRequest) && unchanged(db)
    ensures !Blank(username) && !Blank(password) &&
            (|username.value| < 3 || |username.value| > 20 || |password.value| < 6) ==>
              r == Error(BadRequest) && unchanged(db)
    ensures !Blank(username) && !Blank(password) && 3 <= |username.value| <= 20 && |password.value| >= 6 ==>
              var user := NewUser(sha256, newId, username.value, password.value, nowMs);
              if exists i :: 0 <= i < |old(db.users)| && old(db.users)[i].username == username.value
              then r == Error(Conflict) && unchanged(db)
              else && db.users == old(db.users) + [user]
                   && db.mailboxes == old(db.mailboxes) && db.emails == old(db.emails)
                   && r == SessionReply(user, env.cookiesSecret, nowMs)
                   && db.FindUserByUsername(username.value) == Some(user)
                   && VerifyPassword(sha256, password.value, user.passwordHash)
    ensures UniqueUsernames(old(db.users)) ==> UniqueUsernames(db.users)
  {
    if Blank(username) || Blank(password) {
      return Error(BadRequest);
    }
    if |username.value| < 3 || |username.value| > 20 {
      return Error(BadRequest);
    }
    if |password.value| < 6 {
      return Error(BadRequest);
    }
    var existing := db.FindUserByUsername(username.value);
    if existing.Some? {
      return Error(Conflict);
    }
    if UniqueUsernames(db.users) {
      UniqueUsernamesAppend(db.users, NewUser(sha256, newId, username.value, password.value, nowMs));
    }
    var user := db.CreateUser(NewUser(sha256, newId, username.value, password.value, nowMs));
    r := SessionReply(user, env.cookiesSecret, nowMs);
    UserByNameAfterInsert(old(db.users), user);
  }

  /**
   * `POST /login`: 400 for a missing or empty field; the same 401 whether
   * the username is unknown or the password wrong; otherwise a session for
   * the first user with that name, whose token verifies to that user.
   */
  method Login(db: Database, env: Env, sha256: string -> Digest,
               username: Option<string>, password: Option<string>, nowMs: nat)
    returns (r: Reply<Session>)
    ensures Blank(username) || Blank(password) ==> r == Error(BadRequest)
    ensures !Blank(username) && !Blank(password) ==>
              (r == Error(Unauthorized) <==>
                 db.FindUserByUsername(username.value).None? ||
                 !VerifyPassword(sha256, password.value, db.FindUserByUsername(username.value).value.passwordHash))
    ensures !Blank(username) && !Blank(password) && db.FindUserByUsername(username.value).Some?
            && VerifyPassword(sha256, password.value, db.FindUserByUsername(username.value).value.passwordHash) ==>
              r == SessionReply(db.FindUserByUsername(username.value).value, env.cookiesSecret, nowMs)
    ensures r.Ok? ==> && !Blank(username) && !Blank(password)
                      && db.FindUserByUsername(username.value).Some?
                      && r == SessionReply(db.FindUserByUsername(username.value).value, env.cookiesSecret, nowMs)
                      && VerifyToken(r.body.token, env.cookiesSecret, nowMs) == Some(r.body.userId)
                      && exists i :: 0 <= i < |db.users| && db.users[i].id == r.body.userId
                                     && db.users[i].username == username.value
                                     && HashPassword(sha256, password.value) == db.users[i].passwordHash
  {
    if Blank(username) || Blank(password) {
      return Error(BadRequest);
    }
    var user := db.FindUserByUsername(username.value);
    if user.None? {
      return Error(Unauthorized);
    }
    var isValid := VerifyPassword(sha256, password.value, user.value.passwordHash);
    if !isValid {
      return Error(Unauthorized);
    }
    r := SessionReply(user.value, env.cookiesSecret, nowMs);
  }
}
