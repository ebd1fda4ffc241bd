/** Team-size, duplicate and schema checks of lib/validation.ts. */
module Validation {
  import opened Wrappers
  import opened Seqs
  import opened Config
  import opened Types
  import opened Strings

  /** `{ valid, message? }`. */
  datatype Check = Check(valid: bool, message: Option<string>)

  const AtLeastMessage := "Team must have at least 4 members (including leader)"
  const CannotExceedMessage := "Team cannot exceed 6 members (including leader)"
  const DuplicateMessage := "Duplicate students found in team"

  function ValidateTeamSize(memberCount: int): (r: Check)
    ensures r.valid <==> MinMembers <= memberCount <= MaxMembers
    ensures r.valid <==> r.message == None
    ensures memberCount < MinMembers ==> r.message == Some(AtLeastMessage)
    ensures memberCount > MaxMembers ==> r.message == Some(CannotExceedMessage)
  {
    if memberCount < MinMembers then Check(false, Some(AtLeastMessage))
    else if memberCount > MaxMembers then Check(false, Some(CannotExceedMessage))
    else Check(true, None)
  }

  /** Compares the size of `new Set(regNos)` with the length of the list. */
  function ValidateNoDuplicates(regNos: seq<string>): (r: Check)
    ensures r.valid <==> Distinct(regNos)
    ensures !r.valid <==> r.message == Some(DuplicateMessage)
  {
    DistinctIffSetSize(regNos);
    if |Elements(regNos)| != |regNos| then Check(false, Some(DuplicateMessage))
    else Check(true, None)
  }

  /**
   * The length and count bounds of `CreateTeamSchema`: a team name of 1..100 UTF-16 units,
   * a non-empty first problem statement, a non-empty registration number on the leader and
   * on every member, and at most MaxMembers - 1 members. URL formats are not part of it.
   */
  predicate CreateTeamSchemaBounds(request: CreateTeamRequest): (r: bool)
    ensures r ==> request.teamName != [] && |request.teamName| <= 100
    ensures r ==> |request.members| < MaxMembers
  {
    && 1 <= Utf16Length(request.teamName) <= 100
    && request.problemStatementId1 != []
    && request.leader.regNo != []
    && (forall m :: m in request.members ==> m.regNo != [])
    && |request.members| <= MaxMembers - 1
  }

  /** A request within the schema bounds never names more than MaxMembers students. */
  lemma {:induction false} SchemaBoundsLimitTeamSize(request: CreateTeamRequest)
    requires CreateTeamSchemaBounds(request)
    ensures FilledMembers(request.members) == request.members
    ensures 1 + |FilledMembers(request.members)| <= MaxMembers
    ensures ValidateTeamSize(1 + |request.members|).message != Some(CannotExceedMessage)
  {
    AllFilled(request.members);
  }

  lemma {:induction false} AllFilled(members: seq<Member>)
    requires forall m :: m in members ==> m.regNo != []
    ensures FilledMembers(members) == members
  {
    if members != [] {
      AllFilled(members[1..]);
    }
  }
}
