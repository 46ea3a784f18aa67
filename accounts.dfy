/** The `users` table seen by the authentication handlers: `login`, the
    lookup behind `register`, and `get_current_user`. */
module Accounts {
  import opened Records
  import opened Query
  import opened Tokens

  /** `UserDB.username == name` */
  function NamedAs(name: string): User -> bool
  {
    (u: User) => u.username == name
  }

  /** `UserDB.username == name, UserDB.password == password` */
  function WithCredentials(name: string, password: string): User -> bool
  {
    (u: User) => u.username == name && u.password == password
  }

  /** No two users share a username. */
  predicate UniqueUsernames(users: seq<User>)
  {
    Distinct(users, Username)
  }

  /** The response of `login`. */
  datatype AccessToken = AccessToken(accessToken: Claims, tokenType: string)

  /** `login`: the first user whose username and password both equal the
      submitted ones gets a token for sixty minutes whose subject is their
      username; anybody else gets a 401. */
  function Login(users: seq<User>, username: string, password: string, now: int): (r: Result<AccessToken>)
    ensures r.Ok? <==> exists u :: u in users && u.username == username && u.password == password
    ensures r.Ok? ==>
              && r.value.accessToken.Keys == {"sub", "exp"}
              && r.value.accessToken["sub"] == Text(username)
              && r.value.accessToken["exp"] == Instant(now + AccessTokenExpireMinutes * SecondsPerMinute)
              && r.value.tokenType == "bearer"
    ensures r.Err? ==> r.error == BadCredentials
  {
    match First(users, WithCredentials(username, password))
    case None => Err(BadCredentials)
    case Some(user) =>
      var expires := AccessTokenExpireMinutes * SecondsPerMinute;
      Ok(AccessToken(CreateAccessToken(map["sub" := Text(user.username)], Some(expires), now), "bearer"))
  }

  /** `get_current_user`, given what decoding the bearer token produced
      (`None` when the library rejected it: bad signature, malformed,
      expired, or a subject that is not a string). */
  function CurrentUser(users: seq<User>, decoded: Option<Claims>): (r: Result<User>)
    ensures decoded.None? ==> r == Err(TokenRejected)
    ensures decoded.Some? && "sub" !in decoded.value ==> r == Err(InvalidToken)
    ensures decoded.Some? && "sub" in decoded.value && decoded.value["sub"].Instant? ==>
              r == Err(TokenRejected)
    ensures decoded.Some? && "sub" in decoded.value && decoded.value["sub"].Text? ==>
              var name := decoded.value["sub"].text;
              && (r.Ok? <==> exists u :: u in users && u.username == name)
              && (r.Ok? ==> r.value in users && r.value.username == name)
              && (r.Err? ==> r.error == InvalidUser)
  {
    match decoded
    case None => Err(TokenRejected)
    case Some(claims) =>
      if "sub" !in claims then Err(InvalidToken)
      else
        match claims["sub"]
        case Instant(_) => Err(TokenRejected)
        case Text(name) =>
          match First(users, NamedAs(name))
          case None => Err(InvalidUser)
          case Some(user) => Ok(user)
  }

  /** With unique usernames, a token whose subject is a stored user's name
      resolves to that very user, whatever other claims it carries. */
  lemma SubjectResolves(users: seq<User>, claims: Claims, u: User)
    requires UniqueUsernames(users) && u in users
    requires "sub" in claims && claims["sub"] == Text(u.username)
    ensures CurrentUser(users, Some(claims)) == Ok(u)
  {
    var r := CurrentUser(users, Some(claims));
    DistinctKey(users, Username, r.value, u);
  }

  /** A successful login issues a token that `get_current_user` resolves to
      the user who logged in. */
  lemma LoginThenCurrentUser(users: seq<User>, username: string, password: string, now: int)
    requires UniqueUsernames(users)
    requires Login(users, username, password, now).Ok?
    ensures var u := CurrentUser(users, Some(Login(users, username, password, now).value.accessToken));
            u.Ok? && u.value.username == username && u.value.password == password
  {
    var u :| u in users && u.username == username && u.password == password;
    SubjectResolves(users, Login(users, username, password, now).value.accessToken, u);
  }

  /** Registering a new name keeps usernames unique, and the new user can
      log in at once with the token resolving to them. */
  lemma RegisterThenLogin(users: seq<User>, u: User, now: int)
    requires UniqueUsernames(users)
    requires forall x :: x in users ==> x.username != u.username
    ensures UniqueUsernames(users + [u])
    ensures var r := Login(users + [u], u.username, u.password, now);
            r.Ok? && CurrentUser(users + [u], Some(r.value.accessToken)) == Ok(u)
  {
    DistinctAppend(users, Username, u);
    var r := Login(users + [u], u.username, u.password, now);
    assert u in users + [u];
    SubjectResolves(users + [u], r.value.accessToken, u);
  }
}
