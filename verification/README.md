# ForunHub security and topic core, modelled in Dafny

ForunHub is a small forum backend: users register and log in, receive a signed
bearer token, and create, read, update and delete discussion topics tied to
courses. This project models, as pure functions over immutable values:

- the topic store (`map<int, Topic>`) and the `/topics` handlers as store
  transitions returning the new store, a status and the response topic, with
  the `hasRole('USER')` pre-authorization in front of each handler and the
  repository's derived queries (`existsByTitleAndMessage`,
  `existsByTitleAndMessageAndIdNot`, `findByCourseNameAndYear`) as functions
  over the map;
- registration over a user table keyed by email, and login, which builds the
  `sub`/`iat`/`exp` claims (sections 4.1.2, 4.1.6 and 4.1.4 of RFC 7519) and
  answers `"Bearer " + token`;
- the bearer-header filter as a per-request decision from the optional
  `Authorization` header to the authentication it puts into the security
  context and the number of times it passes the request on;
- the Bean Validation constraints (`@NotBlank`, `@NotNull`, `@Email`) of the
  two request bodies, as sets of violations.

Files and modules: `common.dfy` (Option, statuses, Java long division),
`validation.dfy` (String.trim and `@NotBlank`), `entities.dfy` (entities),
`user_repository.dfy` (the user table), `dtos.dfy` (request bodies), `topic_repository.dfy`,
`topic_controller.dfy`, `jwt.dfy` (claims and the signing laws),
`auth_controller.dfy` (registration and login),
`user_details_service.dfy` (the assumed user-details service and
authentication manager), `jwt_filter.dfy`, `end_to_end.dfy` (properties across components)
and `codec_witness.dfy` (a codec meeting the signing laws, showing they are
consistent).

The signing library is not modelled. It appears as a `Codec`: a pair of
functions `sign(secret, claims)` and `parse(secret, token, now)`. The lemmas
that need them assume the `Jwt.Lawful` laws. The first law is that a signed
token parses back to exactly its claims until it expires, and fails after
that. The second is that a token uses only the compact alphabet (base64url
and `.`, section 7.1 of RFC 7515). `CodecWitness.WitnessCodecIsLawful` shows
that one codec meets both laws.

Three facts about the code, and two assumptions about the user-details
service and authentication manager (whose sources are not part of this
model), shape the model:
- The filter has no path allow-list.
- The filter fails open: a token that fails verification leaves the request
  unauthenticated, and the request continues.
- A taken email at registration is a 400 Bad Request.
- Assumed: a user has one `profile` string, which is its only authority.
- Assumed: the password check at login uses the encoder's `matches`.

## Model

| member | source | states |
|---|---|---|
| `Validation.NotBlank` | src/main/java/com/Alura/ForunHub/dto/TopicDTO.java:13-14 | `@NotBlank` holds iff the string is non-null and has a character that trimming keeps (above U+0020); an all-whitespace string fails |
| `Validation.Trim` | src/main/java/com/Alura/ForunHub/dto/UserDTO.java:9-10 | the trimmed string is the slice of the input left after cutting a trimmable prefix and a trimmable suffix, it neither starts nor ends with a trimmable character, and it is empty exactly when every character is trimmable |
| `Dtos.TopicViolations` | src/main/java/com/Alura/ForunHub/dto/TopicDTO.java:13-29 | each of the six field constraints is reported exactly when its field is null (date, author, course) or blank (title, message, status), and nothing else is reported |
| `Dtos.TopicValidIff` | src/main/java/com/Alura/ForunHub/dto/TopicDTO.java:13-29 | a topic body is valid iff title, message and status each hold a visible character and date, author and course are non-null |
| `Dtos.WhitespaceTitleRejected` | src/main/java/com/Alura/ForunHub/dto/TopicDTO.java:13-14 | a title of spaces, tabs and line breaks makes the body invalid whatever the other fields hold |
| `Dtos.UserViolations` | src/main/java/com/Alura/ForunHub/dto/UserDTO.java:9-17 | name, email and password are reported when null or blank; the email is also reported when present and failing the format check |
| `Dtos.UserValidIff` | src/main/java/com/Alura/ForunHub/dto/UserDTO.java:9-17 | a registration body is valid iff name, email and password hold visible characters and the email passes the format check |
| `UserRepository.FindByEmail` | src/main/java/com/Alura/ForunHub/controller/TopicController.java:78 | `findByEmail`, as the create handler calls it here and the register handler at AuthController.java line 65, finds a user iff the email is a key, and then the stored user |
| `TopicRepository.FindById` | src/main/java/com/Alura/ForunHub/repository/TopicRepository.java:11 | `findById` finds a topic iff the id is a key, and then the stored one |
| `TopicRepository.Save` | src/main/java/com/Alura/ForunHub/repository/TopicRepository.java:11 | `save` inserts or overwrites exactly one id and leaves every other entry as it was |
| `TopicRepository.DeleteById` | src/main/java/com/Alura/ForunHub/repository/TopicRepository.java:11 | `deleteById` removes exactly that id and keeps every other entry unchanged |
| `TopicRepository.ExistsByTitleAndMessage` | src/main/java/com/Alura/ForunHub/repository/TopicRepository.java:12 | true iff the set of stored ids whose topic has both this title and this message is non-empty |
| `TopicRepository.ExistsByTitleAndMessageAndIdNot` | src/main/java/com/Alura/ForunHub/repository/TopicRepository.java:14 | the same query over the table without the row of `id`; it implies `existsByTitleAndMessage`, and equals it when `id` is not stored |
| `TopicRepository.ExistsSplitsAtId` | src/main/java/com/Alura/ForunHub/repository/TopicRepository.java:12-14 | a title/message match exists iff one exists under another id or the excluded topic itself matches |
| `TopicRepository.OnlySelfMatchIsNoConflict` | src/main/java/com/Alura/ForunHub/repository/TopicRepository.java:14 | when topic `id` is the only match, `existsByTitleAndMessageAndIdNot` is false while `existsByTitleAndMessage` is true |
| `TopicRepository.FindByCourseNameAndYear` | src/main/java/com/Alura/ForunHub/repository/TopicRepository.java:16-17 | every returned entry is stored as returned and has that course name and creation year; every stored topic meeting both conditions is returned; no id twice |
| `TopicController.HasRole` | src/main/java/com/Alura/ForunHub/controller/TopicController.java:71 | `hasRole` on every topic handler never admits a request without a principal |
| `TopicController.GateWantsPrefixedAuthority` | src/main/java/com/Alura/ForunHub/controller/TopicController.java:71 | `hasRole('USER')` admits any principal exactly when it holds the authority `ROLE_USER`; the bare name `USER` is refused |
| `TopicController.GetTopicById` | src/main/java/com/Alura/ForunHub/controller/TopicController.java:56-66 | without the USER role the request is refused; id ≤ 0 is a bad request; an absent positive id is not found; otherwise the stored topic; the store never changes |
| `TopicController.CreateTopic` | src/main/java/com/Alura/ForunHub/controller/TopicController.java:68-91 | created iff the body is valid, the caller has the USER role, no stored topic has that title and message, and the caller's email is registered; a duplicate is a bad request even from an unknown user; an unknown caller with a valid, new title and message is not found; the new topic takes the body's fields and the caller as author under a fresh id; failures change nothing; the uniqueness invariant is kept |
| `TopicController.UpdateTopic` | src/main/java/com/Alura/ForunHub/controller/TopicController.java:93-124 | accepted iff the body is valid, the role is held, the id is positive and stored, and no topic under another id has the new title and message; it overwrites all six fields of that id (author from the body) and nothing else; an invalid body or id ≤ 0 is a bad request, a missing id is not found, and a clash with another id is a bad request; the key set and the uniqueness invariant are kept |
| `TopicController.DeleteTopic` | src/main/java/com/Alura/ForunHub/controller/TopicController.java:126-142 | without the role it is refused; id ≤ 0 is a bad request; an absent id is not found; otherwise exactly that id is removed and every remaining entry is unchanged |
| `TopicController.ListTopicsByCourseAndYear` | src/main/java/com/Alura/ForunHub/controller/TopicController.java:46-54 | with the USER role, the answer is OK with exactly the stored topics of that course name and year, each once and as stored; without it the request is refused with an empty list |
| `TopicController.CreateThenDeleteRestores` | src/main/java/com/Alura/ForunHub/controller/TopicController.java:89 | for a valid, non-duplicate body sent by an existing user with the USER role, deleting the topic just created gives back the store as it was before the create |
| `TopicController.GetAfterCreate` | src/main/java/com/Alura/ForunHub/controller/TopicController.java:81-90 | for a valid, non-duplicate body sent by an existing user with the USER role, the created topic is then found under its new id, exactly as the create returned it |
| `TopicController.CreateByRegisteredCaller` | src/main/java/com/Alura/ForunHub/controller/TopicController.java:73-89 | a valid topic with a new title and message, sent by a caller holding the role whose email is registered, is created with that stored user as its author |
| `TopicController.GetAfterDeleteIsNotFound` | src/main/java/com/Alura/ForunHub/controller/TopicController.java:140 | after a successful delete, reading the same id answers not found |
| `TopicController.UpdateIsIdempotent` | src/main/java/com/Alura/ForunHub/controller/TopicController.java:109-122 | repeating a successful update succeeds again and leaves the store as the first one left it |
| `TopicController.ResavingOwnTitleAndMessageIsAccepted` | src/main/java/com/Alura/ForunHub/controller/TopicController.java:109-113 | in a store without duplicates, updating a topic with its own title and message is accepted |
| `TopicController.Run` | src/main/java/com/Alura/ForunHub/controller/TopicController.java:89 | serving any sequence of requests keeps every stored id positive and below the identity counter, and the counter never goes back |
| `TopicController.RunKeepsTitleAndMessageUnique` | src/main/java/com/Alura/ForunHub/controller/TopicController.java:73-76 | from a store without duplicates, no sequence of requests ever leaves two distinct ids with the same title and message |
| `Jwt.KeyAccepted` | src/main/java/com/Alura/ForunHub/controller/AuthController.java:53 | `Keys.hmacShaKeyFor` accepts every secret of 32 or more characters and refuses every secret shorter than 8, whatever its characters |
| `Jwt.KeyLengthBoundary` | src/main/java/com/Alura/ForunHub/controller/AuthController.java:53 | an ASCII secret is accepted as an HMAC-SHA key iff it has at least 32 characters (256 bits) |
| `AuthController.Register` | src/main/java/com/Alura/ForunHub/controller/AuthController.java:63-77 | created iff the body is valid and the email is not yet taken; a taken email or an invalid body is a bad request and changes nothing; the saved user has the body's name and email, the encoded password and profile `ROLE_USER`; existing users are untouched; users stay keyed by their own email |
| `AuthController.RegisteredUserIsFoundAndUnique` | src/main/java/com/Alura/ForunHub/controller/AuthController.java:65-76 | for a valid body whose email is not yet taken, the email then finds the new user with profile `ROLE_USER`, and registering the same email again is refused |
| `AuthController.LoginClaims` | src/main/java/com/Alura/ForunHub/controller/AuthController.java:54-57 | the subject is the authenticated username; `iat` is the first clock reading and `exp` the second plus the lifetime, each cut to whole seconds toward zero |
| `AuthController.Login` | src/main/java/com/Alura/ForunHub/controller/AuthController.java:47-61 | refused iff authentication fails; a refused key is reported only after authentication succeeds; otherwise the body is `"Bearer "` followed by the token signed over the login claims |
| `AuthController.LoginExpiresAfterIssue` | src/main/java/com/Alura/ForunHub/controller/AuthController.java:56-57 | with non-decreasing clock readings and a non-negative lifetime, `exp` ≥ `iat`; with a lifetime of at least 1000 ms, `exp` > `iat` |
| `AuthController.SubSecondLifetimeMayNotOutliveIssue` | src/main/java/com/Alura/ForunHub/controller/AuthController.java:56-57 | a 500 ms lifetime issued at time 0 gives `exp` equal to `iat` |
| `AuthController.LoginTokenLifetime` | src/main/java/com/Alura/ForunHub/controller/AuthController.java:57 | the token is unexpired at any time at least 999 ms before the second clock reading plus the lifetime, and expired at any time after it |
| `JwtAuthenticationFilter.RemoveAll` | src/main/java/com/Alura/ForunHub/config/JwtAuthenticationFilter.java:46 | `replace(TOKEN_PREFIX, "")` never lengthens the header and leaves a string in which the marker does not occur unchanged |
| `JwtAuthenticationFilter.RemoveAllDropsFirstMarker` | src/main/java/com/Alura/ForunHub/config/JwtAuthenticationFilter.java:46 | for any marker-free text `a` and any rest `b`, removing the marker from `a + "Bearer " + b` keeps `a`, drops that marker and continues with the removal from `b` |
| `JwtAuthenticationFilter.RemoveAllBetweenMarkerFreePieces` | src/main/java/com/Alura/ForunHub/config/JwtAuthenticationFilter.java:46 | two marker-free pieces around one marker come out joined, with only the marker gone |
| `JwtAuthenticationFilter.Authenticate` | src/main/java/com/Alura/ForunHub/config/JwtAuthenticationFilter.java:47-64 | a principal results iff the key is accepted, the token parses, it has a subject and that subject loads; the principal is the loaded user with its authorities; every failure yields none |
| `JwtAuthenticationFilter.DoFilterInternal` | src/main/java/com/Alura/ForunHub/config/JwtAuthenticationFilter.java:37-67 | the chain is invoked exactly once on every path; an absent header or one not starting with `"Bearer "` sets no authentication; otherwise the authentication is what the token with every marker removed yields |
| `JwtAuthenticationFilter.LowerCaseSchemeIsIgnored` | src/main/java/com/Alura/ForunHub/config/JwtAuthenticationFilter.java:41-43 | a header starting `"bearer "` passes through unauthenticated whatever follows |
| `JwtAuthenticationFilter.EveryMarkerIsRemoved` | src/main/java/com/Alura/ForunHub/config/JwtAuthenticationFilter.java:46 | `"Bearer xBearer y"` becomes `"xy"`: inner occurrences are removed as well |
| `JwtAuthenticationFilter.CompactTokenHasNoMarker` | src/main/java/com/Alura/ForunHub/config/JwtAuthenticationFilter.java:34 | a string in the compact alphabet contains no `"Bearer "` |
| `JwtAuthenticationFilter.StripBearerOfCompactToken` | src/main/java/com/Alura/ForunHub/config/JwtAuthenticationFilter.java:41-46 | `"Bearer "` plus a compact token passes the prefix test, and removing the marker gives back the token |
| `EndToEnd.LoginTokenAuthenticatesRequest` | src/main/java/com/Alura/ForunHub/controller/AuthController.java:53-60 | the login body, sent back before expiry, makes the filter set the loaded user for the username that logged in, and pass the request on once |
| `EndToEnd.ExpiredLoginTokenPassesUnauthenticated` | src/main/java/com/Alura/ForunHub/config/JwtAuthenticationFilter.java:62-66 | after expiry, the login body sets no authentication, yet the request is still passed on once |
| `EndToEnd.UnauthenticatedRequestIsRefusedByTheGate` | src/main/java/com/Alura/ForunHub/controller/TopicController.java:58 | a request the filter leaves unauthenticated still continues down the chain; given the context the filter produced, get, delete, and update with a valid body answer Unauthorized and leave the store unchanged |
| `EndToEnd.AnonymousRequestsChangeNothing` | src/main/java/com/Alura/ForunHub/controller/TopicController.java:71 | any sequence of requests without a principal leaves the topic table and the counter exactly as they were |
| `EndToEnd.RegisteredUserLoads` | src/main/java/com/Alura/ForunHub/controller/AuthController.java:65-75 | after a successful registration the new user authenticates with the password it registered, and loads with `ROLE_USER` as its only authority |
| `EndToEnd.RegisteredUserIsAuthenticated` | src/main/java/com/Alura/ForunHub/config/JwtAuthenticationFilter.java:55-60 | a newly registered user who logs in under an ASCII secret of 32 or more characters and sends the body back while valid is authenticated as itself, with `ROLE_USER` as its only authority |
| `EndToEnd.RegisteredUserCanCreateTopics` | src/main/java/com/Alura/ForunHub/controller/AuthController.java:73 | a newly registered user who logs in under an ASCII secret of 32 or more characters and sends the body back while valid holds the USER role, and may create a topic, recorded with that user as author |

## Left out

- Pagination and sorting of `listTopics`: that is the page engine of the persistence framework. Its handler is not modelled; like the other handlers it sits behind `hasRole('USER')`.
- Signing, base64url encoding and token parsing belong to the JWT library. They are the abstract `Codec`, and the properties that need them assume `Jwt.Lawful`. Tampering, algorithm and malformed-token failures are all folded into `parse` returning nothing.
- `AuthenticationManager.authenticate` and `PasswordEncoder.encode`/`matches` are passed in as functions. The user-details service and the `User` entity's `UserDetails` view are not part of this model. `UserDetailsService.LoadUserByUsername` and `UserDetailsService.Authenticate` state the assumed behaviour: lookup by email, with the profile as the only authority.
- `LoginDTO` and its validation are not part of this model. Login takes the email and password directly.
- Clock reads are parameters in milliseconds since the epoch: `issuedAtMillis`, `clockMillis` and `nowMillis`. Java's `long` overflow on `currentTimeMillis() + expiration` is not modelled, because integers are unbounded here.
- The HTTP status for refused credentials at login, and for a rejected signing key, is left to the framework's exception handling. `Login` reports these failures without a status.
- The status of a refused pre-authorization depends on the security configuration, which is not part of this model. It is modelled as Unauthorized for an anonymous caller and Forbidden otherwise.
- URL-level authorization rules in the security configuration are not part of this model. They could refuse a request before a handler is reached.
- JPA identity generation is a parameter `newId` that must be positive and unused. In `TopicController.Run` it is an identity counter that only increases.
- `@Transactional`, thread-local security-context storage, request details, the servlet chain and response building are framework machinery. They are reduced to returned state, a status and a call count.
- Concurrent requests are not modelled: handlers are served one at a time. Create, update and register each check for a clash and then save, with no lock or unique constraint visible in the code, so two concurrent requests could both pass the check. `TopicController.RunKeepsTitleAndMessageUnique` and the preservation of `UserRepository.KeyedByEmail` by `AuthController.Register` hold only for requests served one after another.
- Ids and the year are unbounded integers. In the code the path id and the topic key are Java `long` and `year` is a Java `int`; a path or query value outside those ranges fails conversion and is answered 400 during argument resolution, before the `hasRole` gate runs. The model instead answers such an id as any other (refused, or not found).
- Database collation is not modelled. Title, message, email and course name are compared as exact strings, while a case-insensitive collation would make some of these checks coarser.
- The path variable `id` is an `int`. The source's `id == null` test cannot be reached for a path variable.
- The `@Email` pattern is a parameter `emailFormat`. Like the constraint, it accepts a null email.
- `Validation.NotBlank`: whitespace means what String.trim drops (code points up to U+0020), which is what the reference validator uses. Other Unicode space characters count as visible.
- `Jwt.KeyAccepted`: the secret's bytes are taken as UTF-8. The platform default charset that `getBytes()` uses is not modelled.
- Course validation (`@NotBlank` on the course's name and category) is not applied to the nested course of a topic body, because nested objects are not cascaded without `@Valid`. `Course` is a plain record.
