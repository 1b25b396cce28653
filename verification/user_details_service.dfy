/** The user-details service and authentication manager the security
    configuration wires to the user table. Their sources are not part of this
    model; this is the behaviour assumed for them: a user is loaded by email,
    its only authority is its profile, and a password is checked with the
    encoder's `matches`. */
module UserDetailsService {
  import opened Common
  import opened Entities
  import opened UserRepository

  /** `loadUserByUsername`; None where it throws UsernameNotFoundException. */
  function LoadUserByUsername(users: UserStore, username: string): (p: Option<Principal>)
    ensures p.Some? <==> username in users
    ensures p.Some? ==> p.value.username == users[username].email && users[username].profile in p.value.authorities
  {
    if username in users then Some(Principal(users[username].email, {users[username].profile})) else None
  }

  /** `authenticate` with a username/password token: the user must exist and
      the raw password must match the stored encoded one. */
  function Authenticate(users: UserStore, matches: (string, string) -> bool, email: string, password: string): (p: Option<Principal>)
    ensures p.Some? <==> email in users && matches(password, users[email].password)
    ensures p.Some? ==> p == LoadUserByUsername(users, email)
  {
    if email in users && matches(password, users[email].password) then LoadUserByUsername(users, email) else None
  }

  /** The authentication manager over `users`, as the function the login handler calls. */
  function AuthenticatorFor(users: UserStore, matches: (string, string) -> bool): (f: (string, string) -> Option<Principal>)
    ensures forall e, p :: f(e, p) == Authenticate(users, matches, e, p)
  {
    (e, p) => Authenticate(users, matches, e, p)
  }

  /** The user-details service over `users`, as the function the filter calls. */
  function LoaderFor(users: UserStore): (f: string -> Option<Principal>)
    ensures forall u :: f(u) == LoadUserByUsername(users, u)
  {
    u => LoadUserByUsername(users, u)
  }
}
