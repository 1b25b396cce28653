/** The `/topics` controller as pure transitions of the topic store. Each
    handler receives the store, the principal the security context holds (if
    any) and the request data, and returns the new store, the response status
    and the topic in the response body.

    The order of the checks follows the request's path through the framework:
    the `@Valid` body is validated while the handler's arguments are resolved,
    the `hasRole('USER')` pre-authorization runs when the handler is invoked,
    and the handler body then does its own checks in source order. */
module TopicController {
  import opened Common
  import opened Entities
  import opened Dtos
  import opened UserRepository
  import opened TopicRepository

  /** Spring Security's prefix turning a role name into an authority name. */
  const RolePrefix := "ROLE_"

  /** The role every topic handler demands. */
  const UserRole := "USER"

  /** `hasRole(role)`: a principal is present and holds the authority "ROLE_" + role. */
  predicate HasRole(auth: Option<Principal>, role: string)
    ensures HasRole(auth, role) ==> auth.Some?
  {
    auth.Some? && RolePrefix + role in auth.value.authorities
  }

  /** The gate looks for the prefixed authority: a principal is admitted
      exactly when it holds "ROLE_USER", and the bare role name "USER" alone
      is not enough. */
  lemma GateWantsPrefixedAuthority(p: Principal)
    ensures HasRole(Some(p), UserRole) <==> "ROLE_USER" in p.authorities
    ensures !HasRole(Some(Principal(p.username, {"USER"})), UserRole)
  {
    assert RolePrefix + UserRole == "ROLE_USER";
  }

  /** The answer to a request the pre-authorization refuses: an anonymous
      caller is asked to authenticate, an authenticated one is forbidden. */
  function Denied(auth: Option<Principal>): (s: Status)
    ensures s == Unauthorized <==> auth.None?
    ensures s == Forbidden <==> auth.Some?
  {
    if auth.None? then Unauthorized else Forbidden
  }

  /** A handler's result: the store afterwards, the status and the response topic. */
  datatype Reply = Reply(store: Store, status: Status, body: Option<Entry>)

  /** No two distinct stored topics share both title and message. */
  ghost predicate UniqueTitleAndMessage(store: Store)
  {
    forall a, b :: a in store && b in store && a != b ==>
      store[a].title != store[b].title || store[a].message != store[b].message
  }

  /** The topic a valid body describes, written by `author`. */
  function TopicFromDto(d: TopicDto, author: User): (t: Topic)
    requires TopicValid(d)
    ensures t.title == d.title.value && t.message == d.message.value
    ensures t.creationDate == d.creationDate.value && t.status == d.status.value
    ensures t.course == d.course.value && t.author == author
  {
    Topic(d.title.value, d.message.value, d.creationDate.value, d.status.value, author, d.course.value)
  }

  /** `GET /topics/{id}`. */
  function GetTopicById(store: Store, auth: Option<Principal>, id: int): (r: Reply)
    ensures r.store == store
    ensures !HasRole(auth, UserRole) ==> r.status == Denied(auth)
    ensures HasRole(auth, UserRole) && id <= 0 ==> r.status == BadRequest
    ensures HasRole(auth, UserRole) && id > 0 && id !in store ==> r.status == NotFound
    ensures r.status == Ok <==> HasRole(auth, UserRole) && id in store && id > 0
    ensures r.body.Some? <==> r.status == Ok
    ensures r.status == Ok ==> r.body == Some((id, store[id]))
  {
    if !HasRole(auth, UserRole) then Reply(store, Denied(auth), None)
    else if id <= 0 then Reply(store, BadRequest, None)
    else match FindById(store, id)
      case None => Reply(store, NotFound, None)
      case Some(t) => Reply(store, Ok, Some((id, t)))
  }

  /** `POST /topics`. `newId` is the identity the database assigns to the
      inserted row: positive and not yet in use. The duplicate check comes
      before the author lookup, so a duplicate from an unknown user is a bad
      request rather than a missing user. */
  function CreateTopic(store: Store, users: UserStore, auth: Option<Principal>, dto: TopicDto, newId: int): (r: Reply)
    requires newId > 0 && newId !in store
    ensures r.status == Created <==>
      && TopicValid(dto)
      && HasRole(auth, UserRole)
      && !ExistsByTitleAndMessage(store, dto.title.value, dto.message.value)
      && auth.value.username in users
    ensures r.status != Created ==> r.store == store && r.body.None?
    ensures !TopicValid(dto) ==> r.status == BadRequest
    ensures TopicValid(dto) && !HasRole(auth, UserRole) ==> r.status == Denied(auth)
    ensures TopicValid(dto) && HasRole(auth, UserRole) && ExistsByTitleAndMessage(store, dto.title.value, dto.message.value)
            ==> r.status == BadRequest
    ensures TopicValid(dto) && HasRole(auth, UserRole) && auth.value.username !in users
            && !ExistsByTitleAndMessage(store, dto.title.value, dto.message.value)
            ==> r.status == NotFound
    ensures r.status == Created ==>
      && r.store == store[newId := TopicFromDto(dto, users[auth.value.username])]
      && r.body == Some((newId, r.store[newId]))
    ensures UniqueTitleAndMessage(store) ==> UniqueTitleAndMessage(r.store)
  {
    if !TopicValid(dto) then Reply(store, BadRequest, None)
    else if !HasRole(auth, UserRole) then Reply(store, Denied(auth), None)
    else if ExistsByTitleAndMessage(store, dto.title.value, dto.message.value) then Reply(store, BadRequest, None)
    else match FindByEmail(users, auth.value.username)
      case None => Reply(store, NotFound, None)
      case Some(author) =>
        var t := TopicFromDto(dto, author);
        Reply(Save(store, newId, t), Created, Some((newId, t)))
  }

  /** `PUT /topics/{id}`. Only a clash with a topic under another id is
      refused; the new author is the one named in the body. */
  function UpdateTopic(store: Store, auth: Option<Principal>, id: int, dto: TopicDto): (r: Reply)
    ensures r.status == Ok <==>
      && TopicValid(dto)
      && HasRole(auth, UserRole)
      && id > 0 && id in store
      && !ExistsByTitleAndMessageAndIdNot(store, dto.title.value, dto.message.value, id)
    ensures r.status != Ok ==> r.store == store && r.body.None?
    ensures !TopicValid(dto) ==> r.status == BadRequest
    ensures TopicValid(dto) && !HasRole(auth, UserRole) ==> r.status == Denied(auth)
    ensures TopicValid(dto) && HasRole(auth, UserRole) && id <= 0 ==> r.status == BadRequest
    ensures TopicValid(dto) && HasRole(auth, UserRole) && id > 0 && id !in store ==> r.status == NotFound
    ensures TopicValid(dto) && HasRole(auth, UserRole) && id > 0 && id in store
            && ExistsByTitleAndMessageAndIdNot(store, dto.title.value, dto.message.value, id)
            ==> r.status == BadRequest
    ensures r.status == Ok ==>
      && r.store == store[id := TopicFromDto(dto, dto.author.value)]
      && r.body == Some((id, r.store[id]))
    ensures r.store.Keys == store.Keys
    ensures UniqueTitleAndMessage(store) ==> UniqueTitleAndMessage(r.store)
  {
    if !TopicValid(dto) then Reply(store, BadRequest, None)
    else if !HasRole(auth, UserRole) then Reply(store, Denied(auth), None)
    else if id <= 0 then Reply(store, BadRequest, None)
    else match FindById(store, id)
      case None => Reply(store, NotFound, None)
      case Some(_) =>
        if ExistsByTitleAndMessageAndIdNot(store, dto.title.value, dto.message.value, id) then
          Reply(store, BadRequest, None)
        else
          var t := TopicFromDto(dto, dto.author.value);
          Reply(Save(store, id, t), Ok, Some((id, t)))
  }

  /** `DELETE /topics/{id}`. */
  function DeleteTopic(store: Store, auth: Option<Principal>, id: int): (r: Reply)
    ensures r.status == NoContent <==> HasRole(auth, UserRole) && id > 0 && id in store
    ensures !HasRole(auth, UserRole) ==> r.status == Denied(auth)
    ensures HasRole(auth, UserRole) && id <= 0 ==> r.status == BadRequest
    ensures HasRole(auth, UserRole) && id > 0 && id !in store ==> r.status == NotFound
    ensures r.status != NoContent ==> r.store == store
    ensures r.status == NoContent ==> r.store.Keys == store.Keys - {id}
    ensures forall k :: k in r.store ==> k in store && r.store[k] == store[k]
    ensures r.body.None?
    ensures UniqueTitleAndMessage(store) ==> UniqueTitleAndMessage(r.store)
  {
    if !HasRole(auth, UserRole) then Reply(store, Denied(auth), None)
    else if id <= 0 then Reply(store, BadRequest, None)
    else match FindById(store, id)
      case None => Reply(store, NotFound, None)
      case Some(_) => Reply(DeleteById(store, id), NoContent, None)
  }

  /** `GET /topics/filter?courseName=&year=`: the repository query behind the
      pre-authorization. The store is only read. */
  method ListTopicsByCourseAndYear(store: Store, auth: Option<Principal>, courseName: string, year: int)
    returns (status: Status, topics: seq<Entry>)
    ensures status == Ok <==> HasRole(auth, UserRole)
    ensures status != Ok ==> status == Denied(auth) && topics == []
    ensures status == Ok ==> Ids(topics) == Selected(store, courseName, year)
    ensures forall j :: 0 <= j < |topics| ==>
      topics[j].0 in store && store[topics[j].0] == topics[j].1
      && MatchesCourseAndYear(topics[j].1, courseName, year)
    ensures forall i, j :: 0 <= i < j < |topics| ==> topics[i].0 != topics[j].0
  {
    if !HasRole(auth, UserRole) {
      return Denied(auth), [];
    }
    topics := FindByCourseNameAndYear(store, courseName, year);
    status := Ok;
  }

  /** A valid, new topic from a registered caller holding the role is
      created, with that caller's stored user as its author. */
  lemma CreateByRegisteredCaller(store: Store, users: UserStore, auth: Option<Principal>, dto: TopicDto, newId: int)
    requires newId > 0 && newId !in store
    requires TopicValid(dto) && HasRole(auth, UserRole) && auth.value.username in users
    requires !ExistsByTitleAndMessage(store, dto.title.value, dto.message.value)
    ensures CreateTopic(store, users, auth, dto, newId).status == Created
    ensures CreateTopic(store, users, auth, dto, newId).store[newId].author == users[auth.value.username]
  {
  }

  /** Creating a topic and then deleting it returns the store to what it was. */
  lemma CreateThenDeleteRestores(store: Store, users: UserStore, auth: Option<Principal>, dto: TopicDto, newId: int)
    requires newId > 0 && newId !in store
    requires TopicValid(dto) && HasRole(auth, UserRole) && auth.value.username in users
    requires !ExistsByTitleAndMessage(store, dto.title.value, dto.message.value)
    ensures DeleteTopic(CreateTopic(store, users, auth, dto, newId).store, auth, newId) == Reply(store, NoContent, None)
  {
    CreateByRegisteredCaller(store, users, auth, dto, newId);
    var created := CreateTopic(store, users, auth, dto, newId).store;
    assert created == store[newId := TopicFromDto(dto, users[auth.value.username])];
    assert created - {newId} == store;
  }

  /** A created topic is then found under its new id, exactly as created. */
  lemma GetAfterCreate(store: Store, users: UserStore, auth: Option<Principal>, dto: TopicDto, newId: int)
    requires newId > 0 && newId !in store
    requires TopicValid(dto) && HasRole(auth, UserRole) && auth.value.username in users
    requires !ExistsByTitleAndMessage(store, dto.title.value, dto.message.value)
    ensures GetTopicById(CreateTopic(store, users, auth, dto, newId).store, auth, newId)
         == Reply(CreateTopic(store, users, auth, dto, newId).store, Ok, CreateTopic(store, users, auth, dto, newId).body)
  {
  }

  /** After a successful delete the topic is no longer found. */
  lemma GetAfterDeleteIsNotFound(store: Store, auth: Option<Principal>, id: int)
    requires DeleteTopic(store, auth, id).status == NoContent
    ensures GetTopicById(DeleteTopic(store, auth, id).store, auth, id).status == NotFound
  {
  }

  /** Repeating a successful update changes nothing more: the second request
      succeeds too and leaves the store as the first one left it. */
  lemma UpdateIsIdempotent(store: Store, auth: Option<Principal>, id: int, dto: TopicDto)
    requires TopicValid(dto) && HasRole(auth, UserRole) && id > 0 && id in store
    requires !ExistsByTitleAndMessageAndIdNot(store, dto.title.value, dto.message.value, id)
    ensures UpdateTopic(UpdateTopic(store, auth, id, dto).store, auth, id, dto) == UpdateTopic(store, auth, id, dto)
  {
    var once := UpdateTopic(store, auth, id, dto);
    assert once.store[id := TopicFromDto(dto, dto.author.value)] == once.store;
  }

  /** In a store without duplicates, saving a topic again under its own title
      and message is accepted. */
  lemma ResavingOwnTitleAndMessageIsAccepted(store: Store, auth: Option<Principal>, id: int, dto: TopicDto)
    requires UniqueTitleAndMessage(store)
    requires TopicValid(dto) && HasRole(auth, UserRole) && id > 0 && id in store
    requires dto.title.value == store[id].title && dto.message.value == store[id].message
    ensures UpdateTopic(store, auth, id, dto).status == Ok
  {
  }

  /** One request to a topic handler. */
  datatype Request =
    | Get(auth: Option<Principal>, id: int)
    | Create(auth: Option<Principal>, dto: TopicDto)
    | Update(auth: Option<Principal>, id: int, dto: TopicDto)
    | Delete(auth: Option<Principal>, id: int)

  /** The topic table together with its identity counter, the next id the
      database hands out; ids are never reused. */
  datatype Db = Db(topics: Store, nextId: int)

  /** Every stored id is positive and below the counter. */
  ghost predicate IdsIssued(db: Db)
  {
    forall k :: k in db.topics ==> 0 < k < db.nextId
  }

  /** Serves one request; a successful insert consumes the counter's id. */
  function Handle(db: Db, users: UserStore, req: Request): (r: (Db, Reply))
    requires db.nextId > 0 && IdsIssued(db)
    ensures r.0.nextId > 0 && IdsIssued(r.0)
    ensures r.0.topics == r.1.store
    ensures db.nextId <= r.0.nextId
  {
    match req
    case Get(auth, id) =>
      (db, GetTopicById(db.topics, auth, id))
    case Create(auth, dto) =>
      var reply := CreateTopic(db.topics, users, auth, dto, db.nextId);
      (Db(reply.store, if reply.status == Created then db.nextId + 1 else db.nextId), reply)
    case Update(auth, id, dto) =>
      var reply := UpdateTopic(db.topics, auth, id, dto);
      (Db(reply.store, db.nextId), reply)
    case Delete(auth, id) =>
      var reply := DeleteTopic(db.topics, auth, id);
      (Db(reply.store, db.nextId), reply)
  }

  /** Serves a sequence of requests in order. */
  function Run(db: Db, users: UserStore, reqs: seq<Request>): (r: Db)
    requires db.nextId > 0 && IdsIssued(db)
    ensures r.nextId > 0 && IdsIssued(r)
    ensures db.nextId <= r.nextId
    decreases |reqs|
  {
    if reqs == [] then db else Run(Handle(db, users, reqs[0]).0, users, reqs[1..])
  }

  /** Whatever requests are served, starting from a store without duplicates,
      no two distinct topics ever share both title and message. */
  lemma {:induction false} RunKeepsTitleAndMessageUnique(db: Db, users: UserStore, reqs: seq<Request>)
    requires db.nextId > 0 && IdsIssued(db)
    requires UniqueTitleAndMessage(db.topics)
    ensures UniqueTitleAndMessage(Run(db, users, reqs).topics)
    decreases |reqs|
  {
    if reqs != [] {
      var next := Handle(db, users, reqs[0]).0;
      RunKeepsTitleAndMessageUnique(next, users, reqs[1..]);
    }
  }
}
