/**
 * The records the roster logic passes around (lib/types.ts). Optional string fields are
 * plain strings, with "" standing for an absent value.
 */
module Types {

  datatype Status = Available | Assigned

  /** A student as read from the roster sheet. */
  datatype Student = Student(
    regNo: string,
    fullName: string,
    email: string,
    dept: string,
    year: string,
    status: Status,
    assignedTeamId: string,
    password: string,
    createdAt: string)

  /** One participant of a create or update request. */
  datatype Member = Member(regNo: string, github: string, projectLink: string)

  /** A student together with the links recorded in their team slot. */
  datatype TeamMember = TeamMember(student: Student, github: string, projectLink: string)

  datatype Team = Team(
    teamId: string,
    teamName: string,
    problemStatementId: string,
    leader: TeamMember,
    members: seq<TeamMember>,
    createdAt: string,
    status: string)

  /**
   * The body of a create-team request. `problemStatementId` is not one of the declared
   * fields: it stands for whatever the JSON body carries under that key ("" when none),
   * because team creation reads that key.
   */
  datatype CreateTeamRequest = CreateTeamRequest(
    teamName: string,
    problemStatementId1: string,
    problemStatementId2: string,
    leader: Member,
    members: seq<Member>,
    deptNeeded: string,
    createdBy: string,
    problemStatementId: string)

  function RegNos(members: seq<Member>): (r: seq<string>)
    ensures |r| == |members|
    ensures forall i :: 0 <= i < |members| ==> r[i] == members[i].regNo
  {
    if members == [] then [] else [members[0].regNo] + RegNos(members[1..])
  }

  /** `members.filter(m => m.regNo)`. */
  function FilledMembers(members: seq<Member>): (r: seq<Member>)
    ensures |r| <= |members|
    ensures forall m :: m in r <==> m in members && m.regNo != []
    ensures |members| == 1 ==> r == if members[0].regNo == [] then [] else members
  {
    if members == [] then []
    else (if members[0].regNo == [] then [] else [members[0]]) + FilledMembers(members[1..])
  }

  /** The filter keeps order: with the one-member case above, this determines every result. */
  lemma {:induction false} FilledMembersAppend(xs: seq<Member>, ys: seq<Member>)
    ensures FilledMembers(xs + ys) == FilledMembers(xs) + FilledMembers(ys)
  {
    if xs == [] {
      assert xs + ys == ys;
    } else {
      assert (xs + ys)[1..] == xs[1..] + ys;
      FilledMembersAppend(xs[1..], ys);
    }
  }
}
