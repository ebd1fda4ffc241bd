/**
 * The form logic of the create-team page (app/create-team/page.tsx): a leader and a fixed
 * array of five member slots, the first three mandatory. Rendering, routing, the student
 * list fetch and the POST itself are outside the model; the form state is a value and each
 * handler a function or method over it.
 */
module CreateTeamPage {
  import opened Wrappers
  import opened Strings
  import opened Config
  import opened Types
  import Sheets
  import SheetsStore
  import Validation
  import ValidationUtils

  const EmptyMember := Member("", "", "")

  /** The five member slots of the form; the array is created with five entries and only ever replaced slot by slot. */
  type MemberSlots = s: seq<Member> | |s| == MandatoryMembers + OptionalMembers
    witness [EmptyMember, EmptyMember, EmptyMember, EmptyMember, EmptyMember]

  datatype FormState = FormState(
    teamName: string,
    problemStatementId1: string,
    problemStatementId2: string,
    needOtherDept: bool,
    deptNeeded: seq<string>,
    leader: Member,
    members: MemberSlots)

  // ---------------------------------------------------------------- updateMember

  /** `updated = [...members]; updated[index] = data`: slot index gets data, the others stay. */
  function UpdateMember(members: MemberSlots, index: nat, data: Member): (r: MemberSlots)
    requires index < |members|
    ensures r[index] == data
    ensures forall j :: 0 <= j < |members| && j != index ==> r[j] == members[j]
  {
    members[index := data]
  }

  // ---------------------------------------------------------------- getExcludedRegNos

  /** `[leader.regNo, ...members.map(m => m.regNo)].filter(Boolean)`. */
  function GetExcludedRegNos(form: FormState): (r: seq<string>)
    ensures |r| <= 1 + |form.members|
    ensures forall x :: x in r <==> x != [] && (x == form.leader.regNo || x in RegNos(form.members))
    ensures form.leader.regNo != [] ==> r == [form.leader.regNo] + RemoveEmpty(RegNos(form.members))
    ensures form.leader.regNo == [] ==> r == RemoveEmpty(RegNos(form.members))
  {
    var all := [form.leader.regNo] + RegNos(form.members);
    RemoveEmptyAppend([form.leader.regNo], RegNos(form.members));
    assert RemoveEmpty([form.leader.regNo]) == if form.leader.regNo == [] then [] else [form.leader.regNo];
    RemoveEmpty(all)
  }

  // ---------------------------------------------------------------- validateForm

  const TeamNameRequired := "Team name is required"
  const ProblemStatementRequired := "Problem Statement ID 1 is required"
  const LeaderRequired := "Team leader is required"
  const TooFewMembers := "Team must have at least 4 members (1 leader + 3 members)"
  const TooManyMembers := "Team cannot have more than " + NatToString(MaxMembers) + " members"

  /** The message for the mandatory slot i, shown to users as member i + 1. */
  function MemberRequired(i: nat): string {
    "Member " + NatToString(i + 1) + " is required"
  }

  /** The first mandatory slot left empty. */
  function FirstEmptyMandatory(members: MemberSlots): (r: Option<nat>)
    ensures r.Some? ==> r.value < MandatoryMembers && members[r.value].regNo == []
    ensures r.Some? ==> forall j :: 0 <= j < r.value ==> members[j].regNo != []
    ensures r.None? <==> forall j :: 0 <= j < MandatoryMembers ==> members[j].regNo != []
  {
    if members[0].regNo == [] then Some(0)
    else if members[1].regNo == [] then Some(1)
    else if members[2].regNo == [] then Some(2)
    else None
  }

  /** The loop of validateForm over the three mandatory slots, stopping at the first empty one. */
  method FindEmptyMandatory(members: MemberSlots) returns (r: Option<nat>)
    ensures r == FirstEmptyMandatory(members)
  {
    for i := 0 to MandatoryMembers
      invariant forall j :: 0 <= j < i ==> members[j].regNo != []
    {
      if members[i].regNo == [] {
        return Some(i);
      }
    }
    return None;
  }

  /** Everything validateForm can reject: the name, the first problem statement, the leader, the mandatory slots. */
  predicate FormComplete(form: FormState) {
    && Trim(form.teamName) != []
    && Trim(form.problemStatementId1) != []
    && form.leader.regNo != []
    && forall j :: 0 <= j < MandatoryMembers ==> form.members[j].regNo != []
  }

  /** The first k members with a register number are all kept by the filter. */
  lemma {:induction false} FilledAtLeast(members: seq<Member>, k: nat)
    requires k <= |members|
    requires forall j :: 0 <= j < k ==> members[j].regNo != []
    ensures |FilledMembers(members)| >= k
  {
    if k > 0 {
      FilledAtLeast(members[1..], k - 1);
    }
  }

  /**
   * With the mandatory slots filled, the five-slot form always holds a team of 4 to 6:
   * neither size check of validateForm can fire.
   */
  lemma FormTeamSize(members: MemberSlots)
    requires forall j :: 0 <= j < MandatoryMembers ==> members[j].regNo != []
    ensures MinMembers <= 1 + |FilledMembers(members)| <= MaxMembers
  {
    FilledAtLeast(members, MandatoryMembers);
  }

  /**
   * validateForm: the checks in order, stopping at the first failure with its message.
   * The two team-size checks are kept as in the page; the contract shows they never fire.
   */
  method ValidateForm(form: FormState) returns (ok: bool, error: Option<string>)
    ensures ok <==> error.None?
    ensures ok <==> FormComplete(form)
    ensures Trim(form.teamName) == [] ==> error == Some(TeamNameRequired)
    ensures Trim(form.teamName) != [] && Trim(form.problemStatementId1) == [] ==> error == Some(ProblemStatementRequired)
    ensures Trim(form.teamName) != [] && Trim(form.problemStatementId1) != [] && form.leader.regNo == [] ==>
      error == Some(LeaderRequired)
    ensures Trim(form.teamName) != [] && Trim(form.problemStatementId1) != [] && form.leader.regNo != []
            && FirstEmptyMandatory(form.members).Some? ==>
      error == Some(MemberRequired(FirstEmptyMandatory(form.members).value))
    ensures error != Some(TooFewMembers) && error != Some(TooManyMembers)
  {
    if Trim(form.teamName) == [] {
      return false, Some(TeamNameRequired);
    }
    if Trim(form.problemStatementId1) == [] {
      return false, Some(ProblemStatementRequired);
    }
    if form.leader.regNo == [] {
      return false, Some(LeaderRequired);
    }
    var empty := FindEmptyMandatory(form.members);
    if empty.Some? {
      return false, Some(MemberRequired(empty.value));
    }
    var totalMembers := 1 + |FilledMembers(form.members)|;
    FormTeamSize(form.members);
    if totalMembers < MinMembers {
      return false, Some(TooFewMembers);
    }
    if totalMembers > MaxMembers {
      return false, Some(TooManyMembers);
    }
    return true, None;
  }

  // ---------------------------------------------------------------- the submitted request

  /**
   * The request handleSubmit posts: only the members with a register number, and the
   * selected departments joined by ", " when other departments are wanted. The page sends
   * no "problemStatementId" key, so that field is "".
   */
  function BuildTeamRequest(form: FormState): (r: CreateTeamRequest)
    ensures r.members == FilledMembers(form.members)
    ensures forall m :: m in r.members <==> m in form.members && m.regNo != []
    ensures r.leader == form.leader && r.teamName == form.teamName
    ensures r.problemStatementId1 == form.problemStatementId1 && r.problemStatementId2 == form.problemStatementId2
    ensures !form.needOtherDept ==> r.deptNeeded == []
    ensures form.needOtherDept && |form.deptNeeded| == 1 ==> r.deptNeeded == form.deptNeeded[0]
    ensures r.problemStatementId == []
  {
    CreateTeamRequest(
      form.teamName, form.problemStatementId1, form.problemStatementId2, form.leader,
      FilledMembers(form.members),
      if form.needOtherDept then Join(form.deptNeeded, ", ") else "",
      "", "")
  }

  /**
   * A form that passes validateForm yields a request naming 4 to 6 students, all with
   * register numbers.
   */
  lemma ValidFormRequest(form: FormState)
    requires FormComplete(form)
    ensures var r := BuildTeamRequest(form);
      && r.leader.regNo != []
      && MandatoryMembers <= |r.members| <= MandatoryMembers + OptionalMembers
      && MinMembers <= 1 + |r.members| <= MaxMembers
      && forall m :: m in r.members ==> m.regNo != []
  {
    FormTeamSize(form.members);
  }

  /**
   * A request from a form that passes validateForm passes the server's team-size check of
   * validateTeamRequest, which counts the leader and the members with a register number.
   */
  lemma ValidFormPassesServerSize(form: FormState)
    requires FormComplete(form)
    ensures ValidationUtils.ValidateTeamSize(1 + |FilledMembers(BuildTeamRequest(form).members)|).isValid
  {
    var r := BuildTeamRequest(form);
    ValidFormRequest(form);
    Validation.AllFilled(r.members);
  }

  /**
   * The two name checks part: validateForm asks only for a non-blank name, while the
   * server's validateTeamName refuses a name of one UTF-16 unit as too short.
   */
  lemma OneLetterNamePassesPageOnly(form: FormState)
    requires form.teamName == "A"
    requires Trim(form.problemStatementId1) != [] && form.leader.regNo != []
    requires forall j :: 0 <= j < MandatoryMembers ==> form.members[j].regNo != []
    ensures FormComplete(form)
    ensures ValidationUtils.ValidateTeamName(form.teamName).errors == [ValidationUtils.TeamNameTooShort]
  {
    TrimKeepsUnpadded(form.teamName);
  }

  /**
   * What createTeam writes for a request from this page, once every student is on the
   * roster: the "Problem Statement ID" cell is empty, because the page sends the two
   * numbered statement fields and never the unnumbered one the row is written from; and the
   * members read back from the new row are the filled form slots, in form order.
   */
  lemma PageRequestStored(form: FormState, rows: seq<Sheets.StudentRow>, teamId: string)
    requires FormComplete(form)
    requires SheetsStore.AllFound(rows, SheetsStore.Participants(BuildTeamRequest(form)))
    ensures var request := BuildTeamRequest(form);
            var t := SheetsStore.NewTeamRow(rows, request, teamId);
            var rows' := SheetsStore.MarkAll(rows, RegNos(SheetsStore.Participants(request)), teamId);
            && t.problemStatementId == []
            && t.leader.regNo == form.leader.regNo
            && Sheets.MemberRegNos(Sheets.ResolvedMembers(rows', t.members)) == RegNos(FilledMembers(form.members))
  {
    var request := BuildTeamRequest(form);
    ValidFormRequest(form);
    assert forall i :: 0 <= i < |request.members| ==> request.members[i].regNo != [] by {
      forall i | 0 <= i < |request.members| ensures request.members[i].regNo != [] {
        assert request.members[i] in request.members;
      }
    }
    SheetsStore.CreateThenResolveMembers(rows, request, teamId);
  }
}
