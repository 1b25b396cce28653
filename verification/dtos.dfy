/** The request bodies of topic creation/update and of registration, with the
    Bean Validation constraints declared on their fields. Validation reports a
    set of violations; a body is valid when that set is empty, and only valid
    bodies reach the handlers. */
module Dtos {
  import opened Common
  import opened Validation
  import opened Entities

  /** A JSON topic body; every field may be missing (null). */
  datatype TopicDto = TopicDto(
    title: Option<string>,
    message: Option<string>,
    creationDate: Option<DateTime>,
    status: Option<string>,
    author: Option<User>,
    course: Option<Course>)

  /** A JSON registration body. */
  datatype UserDto = UserDto(name: Option<string>, email: Option<string>, password: Option<string>)

  /** One failed field constraint. */
  datatype Violation =
    | TitleBlank | MessageBlank | CreationDateNull | StatusBlank | AuthorNull | CourseNull
    | NameBlank | EmailBlank | EmailMalformed | PasswordBlank

  /** The six constraints declared on the topic body. */
  const TopicConstraints: set<Violation> := {TitleBlank, MessageBlank, CreationDateNull, StatusBlank, AuthorNull, CourseNull}

  /** Whether the topic body meets constraint `x`. */
  predicate TopicHolds(d: TopicDto, x: Violation)
  {
    match x
    case TitleBlank => NotBlank(d.title)
    case MessageBlank => NotBlank(d.message)
    case CreationDateNull => NotNull(d.creationDate)
    case StatusBlank => NotBlank(d.status)
    case AuthorNull => NotNull(d.author)
    case CourseNull => NotNull(d.course)
    case _ => true
  }

  /** The violations of the six constraints declared on the topic body. */
  function TopicViolations(d: TopicDto): (v: set<Violation>)
    ensures TitleBlank in v <==> Blank(d.title)
    ensures MessageBlank in v <==> Blank(d.message)
    ensures CreationDateNull in v <==> d.creationDate.None?
    ensures StatusBlank in v <==> Blank(d.status)
    ensures AuthorNull in v <==> d.author.None?
    ensures CourseNull in v <==> d.course.None?
    ensures v <= TopicConstraints
  {
    set x | x in TopicConstraints && !TopicHolds(d, x)
  }

  /** A topic body that passes `@Valid`. */
  predicate TopicValid(d: TopicDto)
  {
    TopicViolations(d) == {}
  }

  /** The four constraints declared on the registration body. */
  const UserConstraints: set<Violation> := {NameBlank, EmailBlank, EmailMalformed, PasswordBlank}

  /** Whether the registration body meets constraint `x`; `@Email` accepts a null email. */
  predicate UserHolds(d: UserDto, emailFormat: string -> bool, x: Violation)
  {
    match x
    case NameBlank => NotBlank(d.name)
    case EmailBlank => NotBlank(d.email)
    case EmailMalformed => d.email.None? || emailFormat(d.email.value)
    case PasswordBlank => NotBlank(d.password)
    case _ => true
  }

  /** The violations of the registration body. `emailFormat` stands for the
      `@Email` format check, whose pattern is not part of this model; like that
      constraint it says nothing about a null email. */
  function UserViolations(d: UserDto, emailFormat: string -> bool): (v: set<Violation>)
    ensures NameBlank in v <==> Blank(d.name)
    ensures EmailBlank in v <==> Blank(d.email)
    ensures EmailMalformed in v <==> d.email.Some? && !emailFormat(d.email.value)
    ensures PasswordBlank in v <==> Blank(d.password)
    ensures v <= UserConstraints
  {
    set x | x in UserConstraints && !UserHolds(d, emailFormat, x)
  }

  /** A registration body that passes `@Valid`. */
  predicate UserValid(d: UserDto, emailFormat: string -> bool)
  {
    UserViolations(d, emailFormat) == {}
  }

  /** A topic body is valid exactly when title, message and status each hold a
      visible character and the date, author and course are present. */
  lemma TopicValidIff(d: TopicDto)
    ensures TopicValid(d) <==>
      && d.title.Some? && HasVisibleChar(d.title.value)
      && d.message.Some? && HasVisibleChar(d.message.value)
      && d.creationDate.Some?
      && d.status.Some? && HasVisibleChar(d.status.value)
      && d.author.Some?
      && d.course.Some?
  {
    var v := TopicViolations(d);
    if !TopicValid(d) {
      var x :| x in v;
    }
  }

  /** A registration body is valid exactly when name, email and password each
      hold a visible character and the email passes the format check. */
  lemma UserValidIff(d: UserDto, emailFormat: string -> bool)
    ensures UserValid(d, emailFormat) <==>
      && d.name.Some? && HasVisibleChar(d.name.value)
      && d.email.Some? && HasVisibleChar(d.email.value) && emailFormat(d.email.value)
      && d.password.Some? && HasVisibleChar(d.password.value)
  {
    var v := UserViolations(d, emailFormat);
    if !UserValid(d, emailFormat) {
      var x :| x in v;
    }
  }

  /** A title made of spaces, tabs and line breaks only is rejected, whatever the other fields hold. */
  lemma WhitespaceTitleRejected(d: TopicDto)
    requires d.title.Some? && forall i :: 0 <= i < |d.title.value| ==> d.title.value[i] in {' ', '\t', '\n', '\r'}
    ensures !TopicValid(d)
  {
    assert TitleBlank in TopicViolations(d);
  }
}
