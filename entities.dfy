/** The entities the member search reads and the values it returns. */
module Entities {

  /** A value that may be SQL NULL / a Java null reference. */
  datatype Option<+T> = None | Some(value: T)

  /** A team row: identifier and name. The name column is nullable, as the
      entity's `String` field may hold null. */
  datatype Team = Team(id: int, name: Option<string>)

  /** A member row. The username column is nullable; a member belongs to at
      most one team (a to-one association, NULL when the member has no team). */
  datatype Member = Member(id: int, username: Option<string>, age: int, team: Option<Team>)

  /** The search form: every field is optional. */
  datatype MemberSearchCondition = MemberSearchCondition(
    username: Option<string>,
    teamName: Option<string>,
    ageGoe: Option<int>,
    ageLoe: Option<int>)

  /** The projection returned by the search: member columns plus the team
      columns of the left join, which are NULL for a member without a team. */
  datatype MemberTeamDto = MemberTeamDto(
    memberId: int,
    username: Option<string>,
    age: int,
    teamId: Option<int>,
    teamName: Option<string>)
}
