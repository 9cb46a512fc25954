/** The values the roster export works on: what the Canvas API hands
    back (enrollments, user profiles, group categories and their groups) and
    the cells of the table built from them. */
module Records {

  datatype Option<+T> = None | Some(value: T)

  /** One enrollment of a user in a course. `integrationId` is the
      institution's student number, absent for accounts created by hand
      (such as the course's test student). */
  datatype Enrollment = Enrollment(userId: int, role: string, integrationId: Option<string>)

  /** The profile of one course user. */
  datatype Profile = Profile(
    id: int,
    name: string,
    avatarUrl: string,
    integrationId: Option<string>,
    primaryEmail: Option<string>)

  /** A group and the ids of its members, in the order Canvas lists them. */
  datatype Group = Group(name: string, memberIds: seq<int>)

  /** A group category with its groups, in the order Canvas lists them. */
  datatype Category = Category(name: string, groups: seq<Group>)

  /** A table cell: a text value, or nothing (None or a missing value). */
  datatype Cell = Empty | Text(text: string)

  /** The optional student attributes a user can ask to see as columns. */
  datatype InfoField = Avatar | StudentNumber | Email

  const STUDENT_ROLE: string := "StudentEnrollment"
  const NAME_COLUMN: string := "Name"
  const AVATAR_COLUMN: string := "Avatar"

  /** The column header under which an info field appears. */
  function ColumnName(f: InfoField): string
  {
    match f
    case Avatar => AVATAR_COLUMN
    case StudentNumber => "Student Number"
    case Email => "Email"
  }

  /** No info field's column is the `Name` column. */
  lemma ColumnNameIsNotName(f: InfoField)
    ensures ColumnName(f) != NAME_COLUMN
  {
  }

  /** Distinct info fields have distinct column names. */
  lemma ColumnNameInjective(f: InfoField, g: InfoField)
    ensures ColumnName(f) == ColumnName(g) ==> f == g
  {
  }

  /** No element occurs twice. */
  predicate Distinct<T(==)>(s: seq<T>)
  {
    forall i, j :: 0 <= i < j < |s| ==> s[i] != s[j]
  }

  /** A cell holding an optional attribute: its text when present, empty when not. */
  function OptionalCell(v: Option<string>): Cell
  {
    match v
    case None => Empty
    case Some(s) => Text(s)
  }
}
