/**
 * The two Google Sheets the roster lives in (lib/sheets.ts): "Form Responses 1", one row per
 * registered student, and "Teams", one row per team with a leader and five member slots.
 * A sheet is a sequence of rows in sheet order; a cell is a string, "" when it is empty.
 * This module holds the rows and the read-only lookups over them.
 */
module Sheets {
  import opened Wrappers
  import opened Types
  import opened Strings

  /** The value of "is Assigned to a team?" that marks a student as taken. */
  const Yes := "Yes"

  /**
   * A row of "Form Responses 1". `assignedTeamId` is None when the row has no
   * "AssignedTeamID" cell at all, which is the one place where the source tells an absent
   * cell from an empty one.
   */
  datatype StudentRow = StudentRow(
    regNo: string,
    fullName: string,
    email: string,
    dept: string,
    year: string,
    assignedCell: string,
    assignedTeamId: Option<string>,
    password: string,
    timestamp: string)

  /** The Student a row reads as; the status is Assigned exactly when the cell says "Yes". */
  function ToStudent(row: StudentRow): (s: Student)
    ensures s.regNo == row.regNo && s.fullName == row.fullName && s.password == row.password
    ensures s.status == Assigned <==> row.assignedCell == Yes
    ensures row.assignedTeamId.None? ==> s.assignedTeamId == []
  {
    Student(
      row.regNo, row.fullName, row.email, row.dept, row.year,
      if row.assignedCell == Yes then Assigned else Available,
      match row.assignedTeamId case Some(id) => id case None => "",
      row.password, row.timestamp)
  }

  // ---------------------------------------------------------------- students

  /**
   * The filter of getStudents: rows with an empty register number or name are dropped, an
   * empty dept or year filters nothing, and availableOnly keeps Available students only.
   */
  predicate Listed(s: Student, dept: string, year: string, availableOnly: bool) {
    && s.regNo != []
    && s.fullName != []
    && (dept == [] || s.dept == dept)
    && (year == [] || s.year == year)
    && (!availableOnly || s.status == Available)
  }

  /** getStudents over a snapshot of the roster. */
  function ListStudents(rows: seq<StudentRow>, dept: string, year: string, availableOnly: bool): (r: seq<Student>)
    ensures |r| <= |rows|
    ensures forall s :: s in r <==>
      Listed(s, dept, year, availableOnly) && exists i :: 0 <= i < |rows| && ToStudent(rows[i]) == s
  {
    if rows == [] then []
    else
      var prefix := rows[..|rows| - 1];
      var prev := ListStudents(prefix, dept, year, availableOnly);
      var s := ToStudent(rows[|rows| - 1]);
      var r := if Listed(s, dept, year, availableOnly) then prev + [s] else prev;
      assert forall i :: 0 <= i < |prefix| ==> prefix[i] == rows[i];
      r
  }

  /** getStudents keeps sheet order: listing two stretches of rows is listing each in turn. */
  lemma {:induction false} ListStudentsAppend(a: seq<StudentRow>, b: seq<StudentRow>, dept: string, year: string, availableOnly: bool)
    ensures ListStudents(a + b, dept, year, availableOnly)
         == ListStudents(a, dept, year, availableOnly) + ListStudents(b, dept, year, availableOnly)
    decreases |b|
  {
    if b == [] {
      assert a + b == a;
    } else {
      var b' := b[..|b| - 1];
      assert (a + b)[..|a + b| - 1] == a + b';
      assert (a + b)[|a + b| - 1] == b[|b| - 1];
      ListStudentsAppend(a, b', dept, year, availableOnly);
    }
  }

  /** `rows.find(r => r.get("University Register Number") === regNo)`, as an index. */
  function FindRow(rows: seq<StudentRow>, regNo: string): (r: Option<nat>)
    ensures r.Some? ==> r.value < |rows| && rows[r.value].regNo == regNo
    ensures r.Some? ==> forall j :: 0 <= j < r.value ==> rows[j].regNo != regNo
    ensures r.None? <==> forall j :: 0 <= j < |rows| ==> rows[j].regNo != regNo
  {
    if rows == [] then None
    else if rows[0].regNo == regNo then Some(0)
    else match FindRow(rows[1..], regNo)
      case None => None
      case Some(i) => Some(i + 1)
  }

  /** getStudentByRegNo: the first row with the register number, read as a Student. */
  function GetStudentByRegNo(rows: seq<StudentRow>, regNo: string): (r: Option<Student>)
    ensures r.Some? <==> exists i :: 0 <= i < |rows| && rows[i].regNo == regNo
    ensures r.Some? ==> r.value.regNo == regNo
    ensures r.Some? ==> exists i :: 0 <= i < |rows| && rows[i].regNo == regNo && r.value == ToStudent(rows[i])
    ensures r.Some? ==> r.value == ToStudent(rows[FindRow(rows, regNo).value])
  {
    match FindRow(rows, regNo)
    case None => None
    case Some(i) => Some(ToStudent(rows[i]))
  }

  /** The first row with the register number exists and says "Yes". */
  predicate IsAssigned(rows: seq<StudentRow>, regNo: string) {
    FindRow(rows, regNo).Some? && rows[FindRow(rows, regNo).value].assignedCell == Yes
  }

  /** checkAvailability: a student who is not on the roster is not available. */
  function CheckAvailability(rows: seq<StudentRow>, regNo: string): (r: bool)
    ensures r <==> FindRow(rows, regNo).Some? && !IsAssigned(rows, regNo)
    ensures r ==> exists i :: 0 <= i < |rows| && rows[i].regNo == regNo && rows[i].assignedCell != Yes
  {
    match GetStudentByRegNo(rows, regNo)
    case None => false
    case Some(s) => s.status == Available
  }

  /** The first student of the list with this register number and password. */
  function FindByCredentials(students: seq<Student>, regNo: string, password: string): (r: Option<Student>)
    ensures r.Some? ==> exists i :: && 0 <= i < |students| && r.value == students[i]
                                   && students[i].regNo == regNo && students[i].password == password
                                   && forall j :: 0 <= j < i ==> !(students[j].regNo == regNo && students[j].password == password)
    ensures r.None? <==> forall s :: s in students ==> !(s.regNo == regNo && s.password == password)
  {
    if students == [] then None
    else if students[0].regNo == regNo && students[0].password == password then Some(students[0])
    else
      var r := FindByCredentials(students[1..], regNo, password);
      assert forall j :: 0 <= j < |students[1..]| ==> students[1..][j] == students[j + 1];
      r
  }

  /** A roster row that getStudents lists and whose register number and password are the given ones. */
  predicate CredentialsMatch(row: StudentRow, regNo: string, password: string) {
    regNo != [] && row.regNo == regNo && row.password == password && row.fullName != []
  }

  /** Searching two lists in turn is searching the first, then the second. */
  lemma {:induction false} FindByCredentialsAppend(xs: seq<Student>, ys: seq<Student>, regNo: string, password: string)
    ensures FindByCredentials(xs + ys, regNo, password)
         == if FindByCredentials(xs, regNo, password).Some? then FindByCredentials(xs, regNo, password)
            else FindByCredentials(ys, regNo, password)
  {
    if xs == [] {
      assert xs + ys == ys;
    } else {
      assert (xs + ys)[1..] == xs[1..] + ys;
      FindByCredentialsAppend(xs[1..], ys, regNo, password);
    }
  }

  /** Listing one row without filters keeps it exactly when its register number and name are filled. */
  lemma ListOneRow(row: StudentRow)
    ensures ListStudents([row], [], [], false) == if row.regNo != [] && row.fullName != [] then [ToStudent(row)] else []
  {
    assert [row][..0] == [];
  }

  /** Position of the first roster row matching the credentials. */
  function CredentialRow(rows: seq<StudentRow>, regNo: string, password: string): (r: Option<nat>)
    ensures r.Some? ==> r.value < |rows| && CredentialsMatch(rows[r.value], regNo, password)
    ensures r.Some? ==> forall j :: 0 <= j < r.value ==> !CredentialsMatch(rows[j], regNo, password)
    ensures r.None? <==> forall j :: 0 <= j < |rows| ==> !CredentialsMatch(rows[j], regNo, password)
  {
    if rows == [] then None
    else if CredentialsMatch(rows[0], regNo, password) then Some(0)
    else match CredentialRow(rows[1..], regNo, password)
      case None => None
      case Some(i) => Some(i + 1)
  }

  /** The credentials match the listing of one row exactly when they match that row. */
  lemma CredentialsHeadRow(row: StudentRow, regNo: string, password: string)
    ensures FindByCredentials(ListStudents([row], [], [], false), regNo, password)
         == if CredentialsMatch(row, regNo, password) then Some(ToStudent(row)) else None
  {
    ListOneRow(row);
    assert [ToStudent(row)][1..] == [];
  }

  /**
   * Finding the credentials among the listed students finds the first roster row that
   * matches them.
   */
  lemma {:induction false} CredentialsFirstRow(rows: seq<StudentRow>, regNo: string, password: string)
    ensures FindByCredentials(ListStudents(rows, [], [], false), regNo, password)
         == match CredentialRow(rows, regNo, password)
            case None => None
            case Some(i) => Some(ToStudent(rows[i]))
  {
    if rows != [] {
      var tail := rows[1..];
      assert FindByCredentials(ListStudents(rows, [], [], false), regNo, password)
          == if CredentialsMatch(rows[0], regNo, password) then Some(ToStudent(rows[0]))
             else FindByCredentials(ListStudents(tail, [], [], false), regNo, password) by {
        assert [rows[0]] + tail == rows;
        ListStudentsAppend([rows[0]], tail, [], [], false);
        FindByCredentialsAppend(ListStudents([rows[0]], [], [], false), ListStudents(tail, [], [], false), regNo, password);
        CredentialsHeadRow(rows[0], regNo, password);
      }
      CredentialsFirstRow(tail, regNo, password);
    }
  }

  /** authenticateStudent: the first listed student whose register number and password both match. */
  function AuthenticateStudent(rows: seq<StudentRow>, regNo: string, password: string): (r: Option<Student>)
    ensures r.Some? ==> r.value.regNo == regNo && r.value.password == password
    ensures r.Some? ==> regNo != [] && r.value.fullName != []
    ensures r.Some? <==> exists i :: 0 <= i < |rows| && CredentialsMatch(rows[i], regNo, password)
    ensures r.Some? ==> exists i :: && 0 <= i < |rows| && CredentialsMatch(rows[i], regNo, password)
                                   && r.value == ToStudent(rows[i])
                                   && forall j :: 0 <= j < i ==> !CredentialsMatch(rows[j], regNo, password)
  {
    CredentialsFirstRow(rows, regNo, password);
    var r := FindByCredentials(ListStudents(rows, [], [], false), regNo, password);
    assert r.Some? ==> r.value == ToStudent(rows[CredentialRow(rows, regNo, password).value]);
    r
  }

  // ---------------------------------------------------------------- teams

  /** The four cells of a person in a team row. */
  datatype Slot = Slot(regNo: string, name: string, github: string, project: string)

  const EmptySlot := Slot("", "", "", "")

  /** Number of member slots ("Member-1" to "Member-5") in a team row. */
  const SlotCount := 5

  type Slots = s: seq<Slot> | |s| == SlotCount witness [EmptySlot, EmptySlot, EmptySlot, EmptySlot, EmptySlot]

  /** A row of "Teams"; `members[i]` holds the "Member-(i + 1)" cells. */
  datatype TeamRow = TeamRow(
    teamId: string,
    teamName: string,
    problemStatementId: string,
    leader: Slot,
    members: Slots)

  /** The register number in position a of a team row: 0 is the leader, 1 to 5 the members. */
  function Cell(t: TeamRow, a: nat): string
    requires a <= SlotCount
  {
    if a == 0 then t.leader.regNo else t.members[a - 1].regNo
  }

  /** The predicate getTeamByMemberRegNo searches with: the leader or a member cell equals regNo. */
  predicate HoldsRegNo(t: TeamRow, regNo: string) {
    || t.leader.regNo == regNo
    || t.members[0].regNo == regNo
    || t.members[1].regNo == regNo
    || t.members[2].regNo == regNo
    || t.members[3].regNo == regNo
    || t.members[4].regNo == regNo
  }

  lemma HoldsRegNoIff(t: TeamRow, regNo: string)
    ensures HoldsRegNo(t, regNo) <==> exists a :: 0 <= a <= SlotCount && Cell(t, a) == regNo
  {
    if HoldsRegNo(t, regNo) {
      if t.leader.regNo == regNo { assert Cell(t, 0) == regNo; }
      else if t.members[0].regNo == regNo { assert Cell(t, 1) == regNo; }
      else if t.members[1].regNo == regNo { assert Cell(t, 2) == regNo; }
      else if t.members[2].regNo == regNo { assert Cell(t, 3) == regNo; }
      else if t.members[3].regNo == regNo { assert Cell(t, 4) == regNo; }
      else { assert Cell(t, 5) == regNo; }
    }
  }

  /** The first team row holding the register number. */
  function FindTeamRow(teams: seq<TeamRow>, regNo: string): (r: Option<nat>)
    ensures r.Some? ==> r.value < |teams| && HoldsRegNo(teams[r.value], regNo)
    ensures r.Some? ==> forall j :: 0 <= j < r.value ==> !HoldsRegNo(teams[j], regNo)
    ensures r.None? <==> forall j :: 0 <= j < |teams| ==> !HoldsRegNo(teams[j], regNo)
  {
    if teams == [] then None
    else if HoldsRegNo(teams[0], regNo) then Some(0)
    else match FindTeamRow(teams[1..], regNo)
      case None => None
      case Some(i) => Some(i + 1)
  }

  /**
   * The members getTeamByMemberRegNo collects from a row's slots, in slot order: an empty
   * slot is skipped, and so is a slot whose student is not on the roster.
   */
  function ResolvedMembers(rows: seq<StudentRow>, slots: seq<Slot>): (r: seq<TeamMember>)
    ensures |r| <= |slots|
  {
    if slots == [] then []
    else
      var prev := ResolvedMembers(rows, slots[..|slots| - 1]);
      var s := slots[|slots| - 1];
      if s.regNo == [] then prev
      else match GetStudentByRegNo(rows, s.regNo)
        case None => prev
        case Some(student) => prev + [TeamMember(student, s.github, s.project)]
  }

  /** Register numbers of a list of team members. */
  function MemberRegNos(ms: seq<TeamMember>): (r: seq<string>)
    ensures |r| == |ms|
    ensures forall i :: 0 <= i < |ms| ==> r[i] == ms[i].student.regNo
  {
    if ms == [] then [] else MemberRegNos(ms[..|ms| - 1]) + [ms[|ms| - 1].student.regNo]
  }

  /** Register numbers of a list of slots. */
  function SlotRegNos(slots: seq<Slot>): (r: seq<string>)
    ensures |r| == |slots|
    ensures forall i :: 0 <= i < |slots| ==> r[i] == slots[i].regNo
  {
    if slots == [] then [] else SlotRegNos(slots[..|slots| - 1]) + [slots[|slots| - 1].regNo]
  }

  /**
   * Each resolved member sits in a non-empty slot with that register number and carries
   * that slot's links and the roster's record of the student.
   */
  lemma {:induction false} ResolvedMembersSound(rows: seq<StudentRow>, slots: seq<Slot>)
    ensures forall m :: m in ResolvedMembers(rows, slots) ==>
      && m.student.regNo != []
      && GetStudentByRegNo(rows, m.student.regNo) == Some(m.student)
      && exists i :: 0 <= i < |slots| && slots[i] == Slot(m.student.regNo, slots[i].name, m.github, m.projectLink)
  {
    if slots != [] {
      var p := slots[..|slots| - 1];
      ResolvedMembersSound(rows, p);
      forall m | m in ResolvedMembers(rows, p)
        ensures exists i :: 0 <= i < |slots| && slots[i] == Slot(m.student.regNo, slots[i].name, m.github, m.projectLink)
      {
        var i :| 0 <= i < |p| && p[i] == Slot(m.student.regNo, p[i].name, m.github, m.projectLink);
        assert slots[i] == p[i];
      }
    }
  }

  /**
   * When every filled slot names a student on the roster, the members are exactly the
   * filled slots, in order: `RemoveEmpty` of the slot register numbers.
   */
  lemma {:induction false} ResolvedMembersComplete(rows: seq<StudentRow>, slots: seq<Slot>)
    requires forall i :: 0 <= i < |slots| && slots[i].regNo != [] ==> FindRow(rows, slots[i].regNo).Some?
    ensures MemberRegNos(ResolvedMembers(rows, slots)) == RemoveEmpty(SlotRegNos(slots))
  {
    if slots != [] {
      var p, s := slots[..|slots| - 1], slots[|slots| - 1];
      ResolvedMembersComplete(rows, p);
      assert SlotRegNos(slots) == SlotRegNos(p) + [s.regNo];
      RemoveEmptyAppend(SlotRegNos(p), [s.regNo]);
      assert RemoveEmpty([s.regNo]) == if s.regNo == [] then [] else [s.regNo];
      var prev := ResolvedMembers(rows, p);
      if s.regNo != [] {
        var student := GetStudentByRegNo(rows, s.regNo).value;
        assert MemberRegNos(prev + [TeamMember(student, s.github, s.project)]) == MemberRegNos(prev) + [s.regNo];
      }
    }
  }

  /**
   * getTeamByMemberRegNo over snapshots of both sheets: the first team row holding regNo,
   * with its leader and members looked up on the roster; None when no row holds regNo or
   * the leader is not on the roster.
   */
  method GetTeamByMemberRegNo(rows: seq<StudentRow>, teams: seq<TeamRow>, regNo: string) returns (r: Option<Team>)
    ensures r.None? <==> || FindTeamRow(teams, regNo).None?
                         || FindRow(rows, teams[FindTeamRow(teams, regNo).value].leader.regNo).None?
    ensures r.Some? ==>
      var t := teams[FindTeamRow(teams, regNo).value];
      && HoldsRegNo(t, regNo)
      && r.value.teamId == t.teamId
      && r.value.teamName == t.teamName
      && r.value.problemStatementId == t.problemStatementId
      && r.value.leader.student.regNo == t.leader.regNo
      && GetStudentByRegNo(rows, t.leader.regNo) == Some(r.value.leader.student)
      && r.value.leader.github == t.leader.github
      && r.value.leader.projectLink == t.leader.project
      && r.value.members == ResolvedMembers(rows, t.members)
      && r.value.createdAt == []
      && r.value.status == "Active"
  {
    var index := FindTeamRow(teams, regNo);
    if index.None? {
      return None;
    }
    var row := teams[index.value];
    var leaderStudent := GetStudentByRegNo(rows, row.leader.regNo);
    if leaderStudent.None? {
      return None;
    }
    var members: seq<TeamMember> := [];
    for i := 1 to SlotCount + 1
      invariant members == ResolvedMembers(rows, row.members[..i - 1])
    {
      var slot := row.members[i - 1];
      assert row.members[..i][..i - 1] == row.members[..i - 1];
      if slot.regNo != [] {
        var memberStudent := GetStudentByRegNo(rows, slot.regNo);
        if memberStudent.Some? {
          members := members + [TeamMember(memberStudent.value, slot.github, slot.project)];
        }
      }
    }
    assert row.members[..SlotCount] == row.members;
    var leader := TeamMember(leaderStudent.value, row.leader.github, row.leader.project);
    r := Some(Team(row.teamId, row.teamName, row.problemStatementId, leader, members, [], "Active"));
  }
}
