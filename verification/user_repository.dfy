/** The user table as the controllers see it: `findByEmail` is a lookup by email. */
module UserRepository {
  import opened Common
  import opened Entities

  /** Registered users keyed by email. */
  type UserStore = map<string, User>

  /** Every user is stored under its own email, so emails are unique. */
  ghost predicate KeyedByEmail(users: UserStore)
  {
    forall e :: e in users ==> users[e].email == e
  }

  /** `findByEmail`. */
  function FindByEmail(users: UserStore, email: string): (r: Option<User>)
    ensures r.Some? <==> email in users
    ensures r.Some? ==> r.value == users[email]
  {
    if email in users then Some(users[email]) else None
  }
}
