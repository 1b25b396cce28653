/** Properties that span the components: the login response read back by the
    filter, and the roles registration grants checked by the topic handlers. */
module EndToEnd {
  import opened Common
  import opened Entities
  import opened Dtos
  import opened UserRepository
  import opened TopicRepository
  import opened TopicController
  import opened Jwt
  import opened AuthController
  import opened UserDetailsService
  import opened JwtAuthenticationFilter

  /** The body the login answers with, sent back as the `Authorization` header
      before the token expires, authenticates the request as the user who
      logged in: it passes the case-sensitive prefix test, removing the marker
      gives back the token, and the token parses to its own subject. */
  lemma {:induction false} LoginTokenAuthenticatesRequest(
    email: string, password: string, authenticate: (string, string) -> Option<Principal>,
    codec: Codec, config: JwtConfig, issuedAtMillis: nat, clockMillis: nat,
    loadUser: string -> Option<Principal>, nowMillis: nat)
    requires Lawful(codec)
    requires Login(email, password, authenticate, codec, config, issuedAtMillis, clockMillis).Issued?
    requires nowMillis + 999 <= clockMillis + config.expirationMillis
    ensures DoFilterInternal(Some(Login(email, password, authenticate, codec, config, issuedAtMillis, clockMillis).body),
                             codec, config.secret, loadUser, nowMillis)
         == FilterResult(loadUser(authenticate(email, password).value.username), 1)
  {
    var username := authenticate(email, password).value.username;
    var claims := LoginClaims(username, issuedAtMillis, clockMillis, config.expirationMillis);
    var token := Sign(codec, config.secret, claims);
    var body := Login(email, password, authenticate, codec, config, issuedAtMillis, clockMillis).body;
    assert body == TokenPrefix + token;
    StripBearerOfCompactToken(token);
    LoginTokenLifetime(username, issuedAtMillis, clockMillis, config.expirationMillis, nowMillis);
    assert Parse(codec, config.secret, token, nowMillis) == Some(claims);
  }

  /** Once the login token has expired the filter does not authenticate the
      request, yet still passes it on: it fails open. */
  lemma {:induction false} ExpiredLoginTokenPassesUnauthenticated(
    email: string, password: string, authenticate: (string, string) -> Option<Principal>,
    codec: Codec, config: JwtConfig, issuedAtMillis: nat, clockMillis: nat,
    loadUser: string -> Option<Principal>, nowMillis: nat)
    requires Lawful(codec)
    requires Login(email, password, authenticate, codec, config, issuedAtMillis, clockMillis).Issued?
    requires clockMillis + config.expirationMillis >= 0
    requires nowMillis > clockMillis + config.expirationMillis
    ensures DoFilterInternal(Some(Login(email, password, authenticate, codec, config, issuedAtMillis, clockMillis).body),
                             codec, config.secret, loadUser, nowMillis)
         == FilterResult(None, 1)
  {
    var username := authenticate(email, password).value.username;
    var claims := LoginClaims(username, issuedAtMillis, clockMillis, config.expirationMillis);
    var token := Sign(codec, config.secret, claims);
    var body := Login(email, password, authenticate, codec, config, issuedAtMillis, clockMillis).body;
    assert body == TokenPrefix + token;
    StripBearerOfCompactToken(token);
    LoginTokenLifetime(username, issuedAtMillis, clockMillis, config.expirationMillis, nowMillis);
    assert Parse(codec, config.secret, token, nowMillis) == None;
  }

  /** A request the filter leaves unauthenticated is not aborted there: it
      reaches the topic handlers, whose pre-authorization answers Unauthorized
      and leaves the store untouched. */
  lemma UnauthenticatedRequestIsRefusedByTheGate(
    header: Option<string>, codec: Codec, secret: string, loadUser: string -> Option<Principal>, nowMillis: int,
    store: Store, id: int, dto: TopicDto)
    requires DoFilterInternal(header, codec, secret, loadUser, nowMillis).context.None?
    ensures
      var filtered := DoFilterInternal(header, codec, secret, loadUser, nowMillis);
      && filtered.chainCalls == 1
      && GetTopicById(store, filtered.context, id) == Reply(store, Unauthorized, None)
      && DeleteTopic(store, filtered.context, id) == Reply(store, Unauthorized, None)
      && (TopicValid(dto) ==> UpdateTopic(store, filtered.context, id, dto) == Reply(store, Unauthorized, None))
  {
  }

  /** Requests without an authenticated principal never change the topic
      table, whatever they ask for and however many there are. */
  lemma {:induction false} AnonymousRequestsChangeNothing(db: Db, users: UserStore, reqs: seq<Request>)
    requires db.nextId > 0 && IdsIssued(db)
    requires forall j :: 0 <= j < |reqs| ==> reqs[j].auth.None?
    ensures Run(db, users, reqs) == db
    decreases |reqs|
  {
    if reqs != [] {
      assert Handle(db, users, reqs[0]).0 == db;
      AnonymousRequestsChangeNothing(db, users, reqs[1..]);
    }
  }

  /** After a successful registration the new user authenticates with the
      password it registered, and loads with `ROLE_USER` as its only authority. */
  lemma RegisteredUserLoads(users: UserStore, signup: UserDto, emailFormat: string -> bool,
                            encode: string -> string, matches: (string, string) -> bool)
    requires UserValid(signup, emailFormat) && FindByEmail(users, signup.email.value).None?
    requires matches(signup.password.value, encode(signup.password.value))
    ensures
      var registered := Register(users, signup, emailFormat, encode).users;
      var principal := Principal(signup.email.value, {DefaultProfile});
      && signup.email.value in registered
      && UserDetailsService.Authenticate(registered, matches, signup.email.value, signup.password.value) == Some(principal)
      && LoadUserByUsername(registered, signup.email.value) == Some(principal)
  {
    var registered := Register(users, signup, emailFormat, encode).users;
    assert registered[signup.email.value].password == encode(signup.password.value);
  }

  /** A user who registers, logs in with the same password under an ASCII
      secret of at least 32 characters, and sends the login body back while
      it is valid is authenticated as itself, with `ROLE_USER` as its only
      authority. */
  lemma RegisteredUserIsAuthenticated(
    users: UserStore, signup: UserDto, emailFormat: string -> bool,
    encode: string -> string, matches: (string, string) -> bool,
    codec: Codec, config: JwtConfig, issuedAtMillis: nat, clockMillis: nat, nowMillis: nat)
    requires Lawful(codec)
    requires UserValid(signup, emailFormat) && FindByEmail(users, signup.email.value).None?
    requires matches(signup.password.value, encode(signup.password.value))
    requires |config.secret| >= 32 && forall i :: 0 <= i < |config.secret| ==> config.secret[i] < 0x80 as char
    requires nowMillis + 999 <= clockMillis + config.expirationMillis
    ensures
      var registered := Register(users, signup, emailFormat, encode).users;
      var login := Login(signup.email.value, signup.password.value, AuthenticatorFor(registered, matches),
                         codec, config, issuedAtMillis, clockMillis);
      && signup.email.value in registered
      && login.Issued?
      && DoFilterInternal(Some(login.body), codec, config.secret, LoaderFor(registered), nowMillis).context
         == Some(Principal(signup.email.value, {DefaultProfile}))
  {
    KeyLengthBoundary(config.secret);
    RegisteredUserLoads(users, signup, emailFormat, encode, matches);
    var registered := Register(users, signup, emailFormat, encode).users;
    var email, password := signup.email.value, signup.password.value;
    var authenticate := AuthenticatorFor(registered, matches);
    var loadUser := LoaderFor(registered);
    var principal := Principal(email, {DefaultProfile});
    assert authenticate(email, password) == Some(principal);
    assert loadUser(email) == Some(principal);
    LoginTokenAuthenticatesRequest(email, password, authenticate, codec, config, issuedAtMillis, clockMillis, loadUser, nowMillis);
  }

  /** A user who registers, logs in with the same password under an ASCII
      secret of at least 32 characters, and sends the login body back while
      it is valid holds the `USER` role, and may create a topic, which is
      recorded with that user as its author. */
  lemma RegisteredUserCanCreateTopics(
    users: UserStore, signup: UserDto, emailFormat: string -> bool,
    encode: string -> string, matches: (string, string) -> bool,
    codec: Codec, config: JwtConfig, issuedAtMillis: nat, clockMillis: nat, nowMillis: nat,
    store: Store, topic: TopicDto, newId: int)
    requires Lawful(codec)
    requires UserValid(signup, emailFormat) && FindByEmail(users, signup.email.value).None?
    requires matches(signup.password.value, encode(signup.password.value))
    requires |config.secret| >= 32 && forall i :: 0 <= i < |config.secret| ==> config.secret[i] < 0x80 as char
    requires nowMillis + 999 <= clockMillis + config.expirationMillis
    requires newId > 0 && newId !in store
    requires TopicValid(topic)
    requires !ExistsByTitleAndMessage(store, topic.title.value, topic.message.value)
    ensures
      var registered := Register(users, signup, emailFormat, encode).users;
      var login := Login(signup.email.value, signup.password.value, AuthenticatorFor(registered, matches),
                         codec, config, issuedAtMillis, clockMillis);
      && login.Issued?
      && var context := DoFilterInternal(Some(login.body), codec, config.secret, LoaderFor(registered), nowMillis).context;
      && HasRole(context, UserRole)
      && var created := CreateTopic(store, registered, context, topic, newId);
      && created.status == Created
      && created.store[newId].author == registered[signup.email.value]
  {
    RegisteredUserIsAuthenticated(users, signup, emailFormat, encode, matches, codec, config, issuedAtMillis, clockMillis, nowMillis);
    var registered := Register(users, signup, emailFormat, encode).users;
    var email := signup.email.value;
    var context := Some(Principal(email, {DefaultProfile}));
    GateWantsPrefixedAuthority(Principal(email, {DefaultProfile}));
    CreateByRegisteredCaller(store, registered, context, topic, newId);
  }
}
