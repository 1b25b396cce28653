/** The persistent entities and the authenticated principal, as immutable values.
    Database identifiers are not fields here: topics are keyed by id in the
    topic store and users by email in the user store. */
module Entities {

  /** A java.time.LocalDateTime; only its year is ever inspected. */
  datatype DateTime = DateTime(year: int, month: int, day: int, hour: int, minute: int, second: int)

  /** A course: a plain entity with no behaviour of its own. */
  datatype Course = Course(id: int, name: string, category: string)

  /** A registered user. `password` holds whatever the password encoder produced;
      `profile` is the single authority name the user holds. */
  datatype User = User(name: string, email: string, password: string, profile: string)

  /** A forum topic. */
  datatype Topic = Topic(
    title: string,
    message: string,
    creationDate: DateTime,
    status: string,
    author: User,
    course: Course)

  /** The authenticated principal kept in the security context: a user name
      and the authorities granted to it. */
  datatype Principal = Principal(username: string, authorities: set<string>)
}
