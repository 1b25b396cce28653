/** The `/auth` controller: registration over the user table and token
    issuance at login. */
module AuthController {
  import opened Common
  import opened Entities
  import opened Dtos
  import opened UserRepository
  import opened Jwt

  /** The profile every registered user receives. */
  const DefaultProfile := "ROLE_USER"

  /** The scheme marker the login response puts before the token. */
  const LoginBodyPrefix := "Bearer "

  /** The `jwt.secret` and `jwt.expiration` (milliseconds) settings. */
  datatype JwtConfig = JwtConfig(secret: string, expirationMillis: int)

  /** The result of a registration: the user table afterwards, the status and the saved user. */
  datatype RegisterReply = RegisterReply(users: UserStore, status: Status, body: Option<User>)

  /** `POST /auth/register`. `encode` is the password encoder and
      `emailFormat` the `@Email` check. An invalid body or a taken email is a
      bad request and saves nothing; otherwise the user is saved with the
      encoded password and the fixed profile. */
  function Register(users: UserStore, dto: UserDto, emailFormat: string -> bool, encode: string -> string): (r: RegisterReply)
    ensures r.status == Created <==> UserValid(dto, emailFormat) && dto.email.value !in users
    ensures r.status != Created ==> r.status == BadRequest && r.users == users && r.body.None?
    ensures r.status == Created ==>
      && r.body.Some?
      && r.body.value.name == dto.name.value
      && r.body.value.email == dto.email.value
      && r.body.value.password == encode(dto.password.value)
      && r.body.value.profile == DefaultProfile
      && r.users == users[dto.email.value := r.body.value]
    ensures forall e :: e in users ==> e in r.users && r.users[e] == users[e]
    ensures forall e :: e in r.users && e !in users ==> r.users[e].profile == DefaultProfile
    ensures KeyedByEmail(users) ==> KeyedByEmail(r.users)
  {
    if !UserValid(dto, emailFormat) then RegisterReply(users, BadRequest, None)
    else if FindByEmail(users, dto.email.value).Some? then RegisterReply(users, BadRequest, None)
    else
      var user := User(dto.name.value, dto.email.value, encode(dto.password.value), DefaultProfile);
      RegisterReply(users[user.email := user], Created, Some(user))
  }

  /** After a successful registration the email finds the new user, with the
      `ROLE_USER` profile, and registering the same email again is refused. */
  lemma RegisteredUserIsFoundAndUnique(users: UserStore, dto: UserDto, emailFormat: string -> bool, encode: string -> string)
    requires UserValid(dto, emailFormat) && FindByEmail(users, dto.email.value).None?
    ensures FindByEmail(Register(users, dto, emailFormat, encode).users, dto.email.value)
         == Register(users, dto, emailFormat, encode).body
    ensures FindByEmail(Register(users, dto, emailFormat, encode).users, dto.email.value).value.profile == DefaultProfile
    ensures Register(Register(users, dto, emailFormat, encode).users, dto, emailFormat, encode).status == BadRequest
  {
  }

  /** The claims of a login token for `username`. Two clock readings are
      taken: `issuedAtMillis` for `iat` and, afterwards, `clockMillis` to which
      the configured lifetime is added for `exp`; both are cut to whole seconds
      as Java's long division does. */
  function LoginClaims(username: string, issuedAtMillis: nat, clockMillis: nat, expirationMillis: int): (c: Claims)
    ensures c.subject == Some(username)
    ensures c.issuedAt * 1000 <= issuedAtMillis < c.issuedAt * 1000 + 1000
    ensures clockMillis + expirationMillis >= 0 ==>
      c.expiration * 1000 <= clockMillis + expirationMillis < c.expiration * 1000 + 1000
    ensures clockMillis + expirationMillis < 0 ==>
      c.expiration * 1000 - 1000 < clockMillis + expirationMillis <= c.expiration * 1000
  {
    Claims(Some(username), JavaDiv(issuedAtMillis, 1000), JavaDiv(clockMillis + expirationMillis, 1000))
  }

  /** The outcome of a login: the credentials are refused, the configured
      secret is refused as a key, or the body carrying the token. */
  datatype LoginReply = AuthenticationFailed | KeyRejected | Issued(body: string)

  /** `POST /auth/login`. `authenticate` is the authentication manager, giving
      the authenticated principal or nothing where it throws. */
  function Login(email: string, password: string, authenticate: (string, string) -> Option<Principal>,
                 codec: Codec, config: JwtConfig, issuedAtMillis: nat, clockMillis: nat): (r: LoginReply)
    ensures r.AuthenticationFailed? <==> authenticate(email, password).None?
    ensures r.KeyRejected? <==> authenticate(email, password).Some? && !KeyAccepted(config.secret)
    ensures r.Issued? ==>
      && StartsWith(r.body, LoginBodyPrefix)
      && r.body[|LoginBodyPrefix|..] == Sign(codec, config.secret,
           LoginClaims(authenticate(email, password).value.username, issuedAtMillis, clockMillis, config.expirationMillis))
  {
    match authenticate(email, password)
    case None => AuthenticationFailed
    case Some(principal) =>
      if !KeyAccepted(config.secret) then KeyRejected
      else
        var claims := LoginClaims(principal.username, issuedAtMillis, clockMillis, config.expirationMillis);
        Issued(LoginBodyPrefix + Sign(codec, config.secret, claims))
  }

  /** With a clock that does not run backwards, a token never expires before
      it was issued, and a lifetime of at least a second puts its expiration
      strictly after its issue. */
  lemma LoginExpiresAfterIssue(username: string, issuedAtMillis: nat, clockMillis: nat, expirationMillis: int)
    requires issuedAtMillis <= clockMillis && expirationMillis >= 0
    ensures LoginClaims(username, issuedAtMillis, clockMillis, expirationMillis).issuedAt
         <= LoginClaims(username, issuedAtMillis, clockMillis, expirationMillis).expiration
    ensures expirationMillis >= 1000 ==>
      LoginClaims(username, issuedAtMillis, clockMillis, expirationMillis).issuedAt
      < LoginClaims(username, issuedAtMillis, clockMillis, expirationMillis).expiration
  {
    var c := LoginClaims(username, issuedAtMillis, clockMillis, expirationMillis);
    assert c.issuedAt * 1000 < c.expiration * 1000 + 1000;
    if expirationMillis >= 1000 {
      assert c.issuedAt * 1000 < c.expiration * 1000;
    }
  }

  /** The lifetime is cut to whole seconds, so a lifetime under a second can
      give a token whose expiration equals its issue time. */
  lemma SubSecondLifetimeMayNotOutliveIssue()
    ensures LoginClaims("a@x.com", 0, 0, 500).issuedAt == LoginClaims("a@x.com", 0, 0, 500).expiration
  {
  }

  /** A login token is accepted up to the configured lifetime, less the part of
      a second the truncation drops, and refused once the lifetime has passed. */
  lemma LoginTokenLifetime(username: string, issuedAtMillis: nat, clockMillis: nat, expirationMillis: int, nowMillis: int)
    requires clockMillis + expirationMillis >= 0
    ensures nowMillis + 999 <= clockMillis + expirationMillis ==>
      Unexpired(LoginClaims(username, issuedAtMillis, clockMillis, expirationMillis), nowMillis)
    ensures nowMillis > clockMillis + expirationMillis ==>
      !Unexpired(LoginClaims(username, issuedAtMillis, clockMillis, expirationMillis), nowMillis)
  {
  }
}
