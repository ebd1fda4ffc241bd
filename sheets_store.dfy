/**
 * The writes of lib/sheets.ts: creating a team, updating a team's links and changing a
 * student's password. Both sheets are fields of a Store that the operations update in
 * place; each write is specified by functions on the old rows, and the lemmas below show
 * what those functions keep: the roster stays consistent with the teams, a created team is
 * found again by each of its members, and an update touches only links and names.
 */
module SheetsStore {
  import opened Wrappers
  import opened Strings
  import opened Seqs
  import opened Types
  import opened Sheets

  // ---------------------------------------------------------------- create: specification

  /** What createTeam gives back or throws. */
  datatype CreateResult =
    | Created(teamId: string)            // { teamId, conflicts: [] }
    | Rejected(conflicts: seq<string>)   // { teamId: "", conflicts }
    | Failed(message: string)            // the message of the thrown Error

  const DuplicateRequest := "Duplicate students in team request"

  /** The leader followed by the members, the order createTeam looks them up in. */
  function Participants(request: CreateTeamRequest): seq<Member> {
    [request.leader] + request.members
  }

  /** The error thrown for the participant at position index who is not on the roster. */
  function NotFoundMessage(index: nat, regNo: string): string {
    (if index == 0 then "Leader" else "Member") + " with RegNo " + regNo + " not found"
  }

  predicate AllFound(rows: seq<StudentRow>, ps: seq<Member>) {
    forall k :: 0 <= k < |ps| ==> FindRow(rows, ps[k].regNo).Some?
  }

  /** The position of the first participant who is not on the roster. */
  function FirstMissing(rows: seq<StudentRow>, ps: seq<Member>): (r: Option<nat>)
    ensures r.None? <==> AllFound(rows, ps)
    ensures r.Some? ==> && r.value < |ps| && FindRow(rows, ps[r.value].regNo).None?
                        && forall j :: 0 <= j < r.value ==> FindRow(rows, ps[j].regNo).Some?
  {
    if ps == [] then None
    else if FindRow(rows, ps[0].regNo).None? then Some(0)
    else match FirstMissing(rows, ps[1..])
      case None => None
      case Some(k) => Some(k + 1)
  }

  /** A participant not on the roster after participants who all are is the first missing one. */
  lemma FirstMissingAt(rows: seq<StudentRow>, ps: seq<Member>, i: nat)
    requires i < |ps| && FindRow(rows, ps[i].regNo).None?
    requires forall k :: 0 <= k < i ==> FindRow(rows, ps[k].regNo).Some?
    ensures FirstMissing(rows, ps) == Some(i)
  {
  }

  /** The register numbers of the participants already marked "Yes", in request order. */
  function Conflicted(rows: seq<StudentRow>, ps: seq<Member>): seq<string> {
    if ps == [] then []
    else
      var prev := Conflicted(rows, ps[..|ps| - 1]);
      var m := ps[|ps| - 1];
      if IsAssigned(rows, m.regNo) then prev + [m.regNo] else prev
  }

  /** Every participant found so far is either a conflict or a collected slot, never both. */
  lemma {:induction false} ConflictedCollectedCount(rows: seq<StudentRow>, ps: seq<Member>)
    ensures |Conflicted(rows, ps)| + |Collected(rows, ps)| == |ps|
  {
    if ps != [] {
      ConflictedCollectedCount(rows, ps[..|ps| - 1]);
    }
  }

  /** The conflicts are exactly the participants whose first roster row says "Yes". */
  lemma {:induction false} ConflictedIff(rows: seq<StudentRow>, ps: seq<Member>)
    ensures forall x :: x in Conflicted(rows, ps) <==>
      exists k :: 0 <= k < |ps| && ps[k].regNo == x && IsAssigned(rows, x)
  {
    if ps != [] {
      var p := ps[..|ps| - 1];
      ConflictedIff(rows, p);
      assert forall k :: 0 <= k < |p| ==> p[k] == ps[k];
    }
  }

  /** The name cell of the first roster row with the register number. */
  function NameOf(rows: seq<StudentRow>, regNo: string): string {
    match FindRow(rows, regNo)
    case None => ""
    case Some(i) => rows[i].fullName
  }

  /** The slot createTeam writes for a participant. */
  function SlotFor(rows: seq<StudentRow>, m: Member): Slot {
    Slot(m.regNo, NameOf(rows, m.regNo), m.github, m.projectLink)
  }

  /** The slots of the participants not yet assigned, in request order: the source's teamMembers. */
  function Collected(rows: seq<StudentRow>, ps: seq<Member>): seq<Slot> {
    if ps == [] then []
    else
      var prev := Collected(rows, ps[..|ps| - 1]);
      var m := ps[|ps| - 1];
      if IsAssigned(rows, m.regNo) then prev else prev + [SlotFor(rows, m)]
  }

  /** Without conflicts, every participant is collected, in order. */
  lemma {:induction false} CollectedAll(rows: seq<StudentRow>, ps: seq<Member>)
    requires Conflicted(rows, ps) == []
    ensures |Collected(rows, ps)| == |ps|
    ensures forall k :: 0 <= k < |ps| ==> Collected(rows, ps)[k] == SlotFor(rows, ps[k])
  {
    if ps != [] {
      var p := ps[..|ps| - 1];
      AppendEmpty(Conflicted(rows, p), if IsAssigned(rows, ps[|ps| - 1].regNo) then [ps[|ps| - 1].regNo] else []);
      CollectedAll(rows, p);
    }
  }

  /** Slot "Member-(i + 1)" of a new team: the i-th member, or empty cells. */
  function NewSlot(rows: seq<StudentRow>, members: seq<Member>, i: nat): Slot {
    if i < |members| then SlotFor(rows, members[i]) else EmptySlot
  }

  /** The row createTeam appends to "Teams". */
  function NewTeamRow(rows: seq<StudentRow>, request: CreateTeamRequest, teamId: string): (r: TeamRow)
    ensures r.teamId == teamId && r.teamName == request.teamName
    ensures r.leader.name == NameOf(rows, request.leader.regNo)
    ensures forall i :: |request.members| <= i < SlotCount ==> r.members[i] == EmptySlot
  {
    var ms := request.members;
    TeamRow(teamId, request.teamName, request.problemStatementId, SlotFor(rows, request.leader),
            [NewSlot(rows, ms, 0), NewSlot(rows, ms, 1), NewSlot(rows, ms, 2), NewSlot(rows, ms, 3), NewSlot(rows, ms, 4)])
  }

  /**
   * The register numbers in the new row are the participants' in order, up to the leader
   * and five members, then empty cells.
   */
  lemma NewTeamRowCells(rows: seq<StudentRow>, request: CreateTeamRequest, teamId: string)
    ensures forall a :: 0 <= a <= SlotCount ==>
      Cell(NewTeamRow(rows, request, teamId), a)
        == if a < |Participants(request)| then Participants(request)[a].regNo else []
  {
    var t, ps := NewTeamRow(rows, request, teamId), Participants(request);
    forall a | 0 <= a <= SlotCount
      ensures Cell(t, a) == if a < |ps| then ps[a].regNo else []
    {
      if a > 0 {
        assert t.members[a - 1] == NewSlot(rows, request.members, a - 1);
        if a < |ps| {
          assert ps[a] == request.members[a - 1];
        }
      }
    }
  }

  /** A roster row after its student joins team teamId. */
  function Marked(row: StudentRow, teamId: string): StudentRow {
    row.(assignedCell := Yes,
         assignedTeamId := if row.assignedTeamId.Some? then Some(teamId) else None)
  }

  /** Marks the first row with the register number, if there is one. */
  function MarkRow(rows: seq<StudentRow>, regNo: string, teamId: string): seq<StudentRow> {
    match FindRow(rows, regNo)
    case None => rows
    case Some(i) => rows[i := Marked(rows[i], teamId)]
  }

  /** Marks the participants one after the other, as the status loop does. */
  function MarkAll(rows: seq<StudentRow>, regNos: seq<string>, teamId: string): (r: seq<StudentRow>)
    ensures |r| == |rows|
  {
    if regNos == [] then rows
    else MarkRow(MarkAll(rows, regNos[..|regNos| - 1], teamId), regNos[|regNos| - 1], teamId)
  }

  // ---------------------------------------------------------------- create: properties

  /** Rows that agree on every register number agree on every lookup. */
  lemma {:induction false} FindRowSameRegNos(a: seq<StudentRow>, b: seq<StudentRow>, regNo: string)
    requires |a| == |b|
    requires forall i :: 0 <= i < |a| ==> a[i].regNo == b[i].regNo
    ensures FindRow(a, regNo) == FindRow(b, regNo)
  {
    if a != [] && a[0].regNo != regNo {
      FindRowSameRegNos(a[1..], b[1..], regNo);
    }
  }

  /** Marking keeps the number of rows and every register number. */
  lemma {:induction false} MarkAllKeepsRegNos(rows: seq<StudentRow>, regNos: seq<string>, teamId: string)
    ensures |MarkAll(rows, regNos, teamId)| == |rows|
    ensures forall i :: 0 <= i < |rows| ==> MarkAll(rows, regNos, teamId)[i].regNo == rows[i].regNo
  {
    if regNos != [] {
      MarkAllKeepsRegNos(rows, regNos[..|regNos| - 1], teamId);
    }
  }

  /** Marking changes no lookup by register number. */
  lemma MarkAllKeepsFind(rows: seq<StudentRow>, regNos: seq<string>, teamId: string)
    ensures forall x :: FindRow(MarkAll(rows, regNos, teamId), x) == FindRow(rows, x)
  {
    MarkAllKeepsRegNos(rows, regNos, teamId);
    forall x ensures FindRow(MarkAll(rows, regNos, teamId), x) == FindRow(rows, x) {
      FindRowSameRegNos(MarkAll(rows, regNos, teamId), rows, x);
    }
  }

  /**
   * A row after marking is the old row or, for a marked student, the old row Marked;
   * only the first row of a marked register number changes.
   */
  lemma {:induction false} MarkAllRows(rows: seq<StudentRow>, regNos: seq<string>, teamId: string)
    ensures |MarkAll(rows, regNos, teamId)| == |rows|
    ensures forall i :: 0 <= i < |rows| ==>
      || MarkAll(rows, regNos, teamId)[i] == rows[i]
      || (MarkAll(rows, regNos, teamId)[i] == Marked(rows[i], teamId) && rows[i].regNo in regNos)
    ensures forall i :: 0 <= i < |rows| && MarkAll(rows, regNos, teamId)[i] != rows[i] ==>
      rows[i].regNo in regNos && FindRow(rows, rows[i].regNo) == Some(i)
  {
    MarkAllKeepsRegNos(rows, regNos, teamId);
    if regNos != [] {
      var p := regNos[..|regNos| - 1];
      MarkAllRows(rows, p, teamId);
      MarkAllKeepsRegNos(rows, p, teamId);
      MarkAllKeepsFind(rows, p, teamId);
    }
  }

  /** Every marked student on the roster ends up assigned. */
  lemma {:induction false} MarkAllAssigns(rows: seq<StudentRow>, regNos: seq<string>, teamId: string)
    ensures forall x :: x in regNos && FindRow(rows, x).Some? ==> IsAssigned(MarkAll(rows, regNos, teamId), x)
  {
    if regNos != [] {
      var p, x := regNos[..|regNos| - 1], regNos[|regNos| - 1];
      MarkAllAssigns(rows, p, teamId);
      MarkAllKeepsFind(rows, p, teamId);
      MarkAllKeepsFind(rows, regNos, teamId);
      var before := MarkAll(rows, p, teamId);
      var after := MarkAll(rows, regNos, teamId);
      forall y | y in regNos && FindRow(rows, y).Some?
        ensures IsAssigned(after, y)
      {
        if y != x {
          assert y in p;
        }
      }
    }
  }

  /**
   * The roster agrees with the teams: every filled cell of a team row names a student whose
   * first roster row says "Yes", and no filled register number sits in two cells.
   */
  predicate Consistent(rows: seq<StudentRow>, teams: seq<TeamRow>) {
    CellsAssigned(rows, teams) && CellsUnique(teams)
  }

  /** Every filled cell of a team row names a student whose first roster row says "Yes". */
  predicate CellsAssigned(rows: seq<StudentRow>, teams: seq<TeamRow>) {
    forall i, a :: 0 <= i < |teams| && 0 <= a <= SlotCount && Cell(teams[i], a) != []
      ==> IsAssigned(rows, Cell(teams[i], a))
  }

  /** No filled register number sits in two cells of the teams sheet. */
  predicate CellsUnique(teams: seq<TeamRow>) {
    forall i, a, j, b :: && 0 <= i < |teams| && 0 <= a <= SlotCount
                         && 0 <= j < |teams| && 0 <= b <= SlotCount
                         && Cell(teams[i], a) != [] && Cell(teams[i], a) == Cell(teams[j], b)
      ==> i == j && a == b
  }

  /** The conditions under which createTeam writes: no duplicate, nobody missing, no conflict. */
  predicate CreateSucceeds(rows: seq<StudentRow>, request: CreateTeamRequest) {
    var ps := Participants(request);
    Distinct(RegNos(ps)) && AllFound(rows, ps) && Conflicted(rows, ps) == []
  }

  /** Under a consistent roster, a filled register number is held by at most one team. */
  lemma ConsistentFindsOnlyTeam(rows: seq<StudentRow>, teams: seq<TeamRow>, regNo: string, i: nat)
    requires Consistent(rows, teams)
    requires regNo != [] && i < |teams| && HoldsRegNo(teams[i], regNo)
    ensures FindTeamRow(teams, regNo) == Some(i)
  {
    HoldsRegNoIff(teams[i], regNo);
    var a :| 0 <= a <= SlotCount && Cell(teams[i], a) == regNo;
    var j := FindTeamRow(teams, regNo).value;
    HoldsRegNoIff(teams[j], regNo);
    var b :| 0 <= b <= SlotCount && Cell(teams[j], b) == regNo;
  }

  /** No filled cell of an existing team holds a participant of a successful create. */
  lemma NewCellsFresh(rows: seq<StudentRow>, teams: seq<TeamRow>, request: CreateTeamRequest, teamId: string)
    requires Consistent(rows, teams)
    requires CreateSucceeds(rows, request)
    ensures forall i, a, b :: 0 <= i < |teams| && 0 <= a <= SlotCount && 0 <= b <= SlotCount && Cell(teams[i], a) != []
                              ==> Cell(teams[i], a) != Cell(NewTeamRow(rows, request, teamId), b)
  {
    NewTeamRowCells(rows, request, teamId);
    ConflictedIff(rows, Participants(request));
  }

  /** Marking more students keeps every assigned student assigned. */
  lemma MarkAllKeepsAssigned(rows: seq<StudentRow>, regNos: seq<string>, teamId: string, x: string)
    requires IsAssigned(rows, x)
    ensures IsAssigned(MarkAll(rows, regNos, teamId), x)
  {
    MarkAllRows(rows, regNos, teamId);
    MarkAllKeepsFind(rows, regNos, teamId);
    var k := FindRow(rows, x).value;
    assert MarkAll(rows, regNos, teamId)[k] == rows[k] || MarkAll(rows, regNos, teamId)[k] == Marked(rows[k], teamId);
  }

  /** The filled cells of the existing teams still name assigned students after marking. */
  lemma OldCellsStayAssigned(rows: seq<StudentRow>, teams: seq<TeamRow>, regNos: seq<string>, teamId: string)
    requires CellsAssigned(rows, teams)
    ensures CellsAssigned(MarkAll(rows, regNos, teamId), teams)
  {
    forall i, a | 0 <= i < |teams| && 0 <= a <= SlotCount && Cell(teams[i], a) != []
      ensures IsAssigned(MarkAll(rows, regNos, teamId), Cell(teams[i], a))
    {
      MarkAllKeepsAssigned(rows, regNos, teamId, Cell(teams[i], a));
    }
  }

  /** The filled cells of the new row name students assigned by the marking. */
  lemma NewCellsAssigned(rows: seq<StudentRow>, request: CreateTeamRequest, teamId: string)
    requires AllFound(rows, Participants(request))
    ensures var rows' := MarkAll(rows, RegNos(Participants(request)), teamId);
            forall a :: 0 <= a <= SlotCount && Cell(NewTeamRow(rows, request, teamId), a) != []
                        ==> IsAssigned(rows', Cell(NewTeamRow(rows, request, teamId), a))
  {
    var regNos := RegNos(Participants(request));
    MarkAllAssigns(rows, regNos, teamId);
    NewTeamRowCells(rows, request, teamId);
    forall a | 0 <= a <= SlotCount && Cell(NewTeamRow(rows, request, teamId), a) != []
      ensures Cell(NewTeamRow(rows, request, teamId), a) in regNos
              && FindRow(rows, Cell(NewTeamRow(rows, request, teamId), a)).Some?
    {
      assert Cell(NewTeamRow(rows, request, teamId), a) == regNos[a];
    }
  }

  /** Every filled cell of a team list and one more row names an assigned student when each part does. */
  lemma AppendKeepsAssigned(rows: seq<StudentRow>, teams: seq<TeamRow>, t: TeamRow)
    requires CellsAssigned(rows, teams)
    requires forall a :: 0 <= a <= SlotCount && Cell(t, a) != [] ==> IsAssigned(rows, Cell(t, a))
    ensures CellsAssigned(rows, teams + [t])
  {
    var teams' := teams + [t];
    assert forall i :: 0 <= i < |teams| ==> teams'[i] == teams[i];
    assert teams'[|teams|] == t;
  }

  /** After a successful create, every filled cell of every team names an assigned student. */
  lemma CreateKeepsAssigned(rows: seq<StudentRow>, teams: seq<TeamRow>, request: CreateTeamRequest, teamId: string)
    requires Consistent(rows, teams)
    requires CreateSucceeds(rows, request)
    ensures CellsAssigned(MarkAll(rows, RegNos(Participants(request)), teamId),
                          teams + [NewTeamRow(rows, request, teamId)])
  {
    var rows' := MarkAll(rows, RegNos(Participants(request)), teamId);
    OldCellsStayAssigned(rows, teams, RegNos(Participants(request)), teamId);
    NewCellsAssigned(rows, request, teamId);
    AppendKeepsAssigned(rows', teams, NewTeamRow(rows, request, teamId));
  }

  /** The filled cells of the new row are pairwise different when the participants are. */
  lemma NewRowCellsDistinct(rows: seq<StudentRow>, request: CreateTeamRequest, teamId: string)
    requires Distinct(RegNos(Participants(request)))
    ensures var t := NewTeamRow(rows, request, teamId);
            forall a, b :: 0 <= a <= SlotCount && 0 <= b <= SlotCount && Cell(t, a) != [] && Cell(t, a) == Cell(t, b)
                           ==> a == b
  {
    var regNos := RegNos(Participants(request));
    var t := NewTeamRow(rows, request, teamId);
    NewTeamRowCells(rows, request, teamId);
    forall a, b | 0 <= a <= SlotCount && 0 <= b <= SlotCount && Cell(t, a) != [] && Cell(t, a) == Cell(t, b)
      ensures a == b
    {
      assert Cell(t, a) == regNos[a] && Cell(t, b) == regNos[b];
    }
  }

  /** No register number sits twice in a team list and one more row whose cells are fresh and distinct. */
  lemma AppendKeepsUnique(teams: seq<TeamRow>, t: TeamRow)
    requires CellsUnique(teams)
    requires forall i, a, b :: 0 <= i < |teams| && 0 <= a <= SlotCount && 0 <= b <= SlotCount && Cell(teams[i], a) != []
                               ==> Cell(teams[i], a) != Cell(t, b)
    requires forall a, b :: 0 <= a <= SlotCount && 0 <= b <= SlotCount && Cell(t, a) != [] && Cell(t, a) == Cell(t, b)
                            ==> a == b
    ensures CellsUnique(teams + [t])
  {
    var teams' := teams + [t];
    forall i, a, j, b | && 0 <= i < |teams'| && 0 <= a <= SlotCount
                        && 0 <= j < |teams'| && 0 <= b <= SlotCount
                        && Cell(teams'[i], a) != [] && Cell(teams'[i], a) == Cell(teams'[j], b)
      ensures i == j && a == b
    {
      if i < |teams| { assert teams'[i] == teams[i]; } else { assert teams'[i] == t; }
      if j < |teams| { assert teams'[j] == teams[j]; } else { assert teams'[j] == t; }
    }
  }

  /** Creating a team keeps the roster consistent with the teams. */
  lemma CreatePreservesConsistent(rows: seq<StudentRow>, teams: seq<TeamRow>, request: CreateTeamRequest, teamId: string)
    requires Consistent(rows, teams)
    requires CreateSucceeds(rows, request)
    ensures Consistent(MarkAll(rows, RegNos(Participants(request)), teamId),
                       teams + [NewTeamRow(rows, request, teamId)])
  {
    CreateKeepsAssigned(rows, teams, request, teamId);
    NewCellsFresh(rows, teams, request, teamId);
    NewRowCellsDistinct(rows, request, teamId);
    AppendKeepsUnique(teams, NewTeamRow(rows, request, teamId));
  }

  /** A row appended after rows that do not hold regNo is the first to hold it. */
  lemma {:induction false} FindTeamRowAppend(teams: seq<TeamRow>, t: TeamRow, regNo: string)
    requires forall j :: 0 <= j < |teams| ==> !HoldsRegNo(teams[j], regNo)
    requires HoldsRegNo(t, regNo)
    ensures FindTeamRow(teams + [t], regNo) == Some(|teams|)
  {
    if teams == [] {
      assert teams + [t] == [t];
    } else {
      assert (teams + [t])[1..] == teams[1..] + [t];
      assert forall j :: 0 <= j < |teams[1..]| ==> teams[1..][j] == teams[j + 1];
      FindTeamRowAppend(teams[1..], t, regNo);
    }
  }

  /** The participant in cell k of the new row is in no existing team. */
  lemma NewCellOnlyInNewRow(rows: seq<StudentRow>, teams: seq<TeamRow>, request: CreateTeamRequest, teamId: string, k: nat)
    requires Consistent(rows, teams)
    requires CreateSucceeds(rows, request)
    requires k <= SlotCount && Cell(NewTeamRow(rows, request, teamId), k) != []
    ensures HoldsRegNo(NewTeamRow(rows, request, teamId), Cell(NewTeamRow(rows, request, teamId), k))
    ensures forall j :: 0 <= j < |teams| ==> !HoldsRegNo(teams[j], Cell(NewTeamRow(rows, request, teamId), k))
  {
    var t := NewTeamRow(rows, request, teamId);
    var x := Cell(t, k);
    NewCellsFresh(rows, teams, request, teamId);
    HoldsRegNoIff(t, x);
    forall j | 0 <= j < |teams| ensures !HoldsRegNo(teams[j], x) {
      HoldsRegNoIff(teams[j], x);
    }
  }

  /**
   * After a successful create, every filled participant who got a cell in the new row finds
   * that row, and only it: getTeamByMemberRegNo reaches the new team from any of them.
   */
  lemma CreateThenFind(rows: seq<StudentRow>, teams: seq<TeamRow>, request: CreateTeamRequest, teamId: string, k: nat)
    requires Consistent(rows, teams)
    requires CreateSucceeds(rows, request)
    requires k <= SlotCount && k < |Participants(request)| && Participants(request)[k].regNo != []
    ensures FindTeamRow(teams + [NewTeamRow(rows, request, teamId)], Participants(request)[k].regNo) == Some(|teams|)
  {
    var t := NewTeamRow(rows, request, teamId);
    NewTeamRowCells(rows, request, teamId);
    NewCellOnlyInNewRow(rows, teams, request, teamId, k);
    FindTeamRowAppend(teams, t, Cell(t, k));
  }

  /** n empty cells. */
  function Blanks(n: nat): (r: seq<string>)
    ensures |r| == n && forall i :: 0 <= i < n ==> r[i] == []
  {
    if n == 0 then [] else Blanks(n - 1) + [[]]
  }

  /** RemoveEmpty keeps a list of filled strings and drops the empty cells after it. */
  lemma {:induction false} RemoveEmptyFilled(xs: seq<string>, n: nat)
    requires forall i :: 0 <= i < |xs| ==> xs[i] != []
    ensures RemoveEmpty(xs + Blanks(n)) == xs
  {
    if xs == [] {
      if n > 0 {
        assert xs + Blanks(n) == [[]] + Blanks(n - 1);
        RemoveEmptyFilled(xs, n - 1);
        assert xs + Blanks(n - 1) == Blanks(n - 1);
      } else {
        assert xs + Blanks(n) == [];
      }
    } else {
      assert (xs + Blanks(n))[1..] == xs[1..] + Blanks(n);
      RemoveEmptyFilled(xs[1..], n);
    }
  }

  /** The register numbers of the new row's member slots: the members', then empty cells. */
  lemma NewSlotRegNos(rows: seq<StudentRow>, request: CreateTeamRequest, teamId: string)
    requires |request.members| <= SlotCount
    ensures SlotRegNos(NewTeamRow(rows, request, teamId).members)
              == RegNos(request.members) + Blanks(SlotCount - |request.members|)
  {
  }

  /** Every filled member slot of the new row names a student on the roster after marking. */
  lemma NewSlotsFound(rows: seq<StudentRow>, request: CreateTeamRequest, teamId: string)
    requires AllFound(rows, Participants(request))
    ensures var rows' := MarkAll(rows, RegNos(Participants(request)), teamId);
            var t := NewTeamRow(rows, request, teamId);
            && FindRow(rows', t.leader.regNo).Some?
            && forall i :: 0 <= i < SlotCount && t.members[i].regNo != [] ==> FindRow(rows', t.members[i].regNo).Some?
  {
    var ps := Participants(request);
    var t := NewTeamRow(rows, request, teamId);
    MarkAllKeepsFind(rows, RegNos(ps), teamId);
    NewTeamRowCells(rows, request, teamId);
    assert FindRow(rows, ps[0].regNo).Some?;
    forall i | 0 <= i < SlotCount && t.members[i].regNo != []
      ensures FindRow(rows, t.members[i].regNo).Some?
    {
      assert Cell(t, i + 1) == t.members[i].regNo;
    }
  }

  /**
   * Round trip: after a successful create of a team whose members all have register numbers
   * and fit the five slots, the members read back from the new row are the requested
   * members, in request order, and the leader is on the roster.
   */
  lemma CreateThenResolveMembers(rows: seq<StudentRow>, request: CreateTeamRequest, teamId: string)
    requires AllFound(rows, Participants(request))
    requires |request.members| <= SlotCount
    requires forall i :: 0 <= i < |request.members| ==> request.members[i].regNo != []
    ensures var rows' := MarkAll(rows, RegNos(Participants(request)), teamId);
            var t := NewTeamRow(rows, request, teamId);
            && FindRow(rows', t.leader.regNo).Some?
            && MemberRegNos(ResolvedMembers(rows', t.members)) == RegNos(request.members)
  {
    var rows' := MarkAll(rows, RegNos(Participants(request)), teamId);
    var t := NewTeamRow(rows, request, teamId);
    NewSlotsFound(rows, request, teamId);
    NewSlotRegNos(rows, request, teamId);
    ResolvedFilledSlots(rows', t.members, RegNos(request.members), SlotCount - |request.members|);
  }

  /** Slots holding filled register numbers followed by empty ones, all on the roster, read back as those numbers. */
  lemma ResolvedFilledSlots(rows: seq<StudentRow>, slots: seq<Slot>, regNos: seq<string>, n: nat)
    requires forall i :: 0 <= i < |slots| && slots[i].regNo != [] ==> FindRow(rows, slots[i].regNo).Some?
    requires SlotRegNos(slots) == regNos + Blanks(n)
    requires forall i :: 0 <= i < |regNos| ==> regNos[i] != []
    ensures MemberRegNos(ResolvedMembers(rows, slots)) == regNos
  {
    ResolvedMembersComplete(rows, slots);
    RemoveEmptyFilled(regNos, n);
  }

  // ---------------------------------------------------------------- update team: specification

  /** The body of an update request. */
  datatype TeamUpdate = TeamUpdate(teamName: string, problemStatementId: string, leader: Member, members: seq<Member>)

  /** A person in the object updateTeam returns; `name` is None where the source reads a cell that does not exist. */
  datatype PersonView = PersonView(regNo: string, name: Option<string>, github: string, projectLink: string)

  datatype UpdatedTeam = UpdatedTeam(
    teamId: string,
    teamName: string,
    problemStatementId: string,
    leader: PersonView,
    members: seq<PersonView>)

  /** The first team row whose "Team ID" is teamId. */
  function FindTeamById(teams: seq<TeamRow>, teamId: string): (r: Option<nat>)
    ensures r.Some? ==> r.value < |teams| && teams[r.value].teamId == teamId
    ensures r.Some? ==> forall j :: 0 <= j < r.value ==> teams[j].teamId != teamId
    ensures r.None? <==> forall j :: 0 <= j < |teams| ==> teams[j].teamId != teamId
  {
    if teams == [] then None
    else if teams[0].teamId == teamId then Some(0)
    else match FindTeamById(teams[1..], teamId)
      case None => None
      case Some(i) => Some(i + 1)
  }

  /** Slot "Member-(i + 1)" after an update: new links when the request has an i-th member. */
  function UpdatedSlot(s: Slot, members: seq<Member>, i: nat): Slot {
    if i < |members| then s.(github := members[i].github, project := members[i].projectLink) else s
  }

  /** The row after updateTeam has set its cells. */
  function ApplyUpdate(t: TeamRow, data: TeamUpdate): (u: TeamRow)
    ensures u.teamId == t.teamId
    ensures forall a :: 0 <= a <= SlotCount ==> Cell(u, a) == Cell(t, a)
  {
    var ms := data.members;
    t.(teamName := data.teamName,
       problemStatementId := data.problemStatementId,
       leader := t.leader.(github := data.leader.github, project := data.leader.projectLink),
       members := [UpdatedSlot(t.members[0], ms, 0), UpdatedSlot(t.members[1], ms, 1), UpdatedSlot(t.members[2], ms, 2),
                   UpdatedSlot(t.members[3], ms, 3), UpdatedSlot(t.members[4], ms, 4)])
  }

  /** The i-th entry of the returned members: the request's member, the slot's name when there is a slot. */
  function MemberView(t: TeamRow, m: Member, i: nat): PersonView {
    PersonView(m.regNo, if i < SlotCount then Some(t.members[i].name) else None, m.github, m.projectLink)
  }

  function MemberViews(t: TeamRow, ms: seq<Member>): (r: seq<PersonView>)
    ensures |r| == |ms|
    ensures forall i :: 0 <= i < |ms| ==> r[i] == MemberView(t, ms[i], i)
  {
    if ms == [] then [] else MemberViews(t, ms[..|ms| - 1]) + [MemberView(t, ms[|ms| - 1], |ms| - 1)]
  }

  /** The object updateTeam returns, read from the updated row u. */
  function Snapshot(u: TeamRow, data: TeamUpdate): (s: UpdatedTeam)
    ensures s.teamId == u.teamId && s.leader.regNo == u.leader.regNo
    ensures |s.members| == |data.members|
  {
    UpdatedTeam(u.teamId, u.teamName, u.problemStatementId,
                PersonView(u.leader.regNo, Some(u.leader.name), u.leader.github, u.leader.project),
                MemberViews(u, data.members))
  }

  // ---------------------------------------------------------------- update team: properties

  /**
   * An update changes the name, the problem statement and the links, and nothing else: the
   * team id and every register number and name cell stay as they were.
   */
  lemma ApplyUpdateEffect(t: TeamRow, data: TeamUpdate)
    ensures var u := ApplyUpdate(t, data);
      && u.teamId == t.teamId
      && u.teamName == data.teamName && u.problemStatementId == data.problemStatementId
      && u.leader == Slot(t.leader.regNo, t.leader.name, data.leader.github, data.leader.projectLink)
      && (forall a :: 0 <= a <= SlotCount ==> Cell(u, a) == Cell(t, a))
      && (forall i :: 0 <= i < SlotCount ==> u.members[i].name == t.members[i].name)
      && (forall i :: 0 <= i < SlotCount && i < |data.members| ==>
            u.members[i].github == data.members[i].github && u.members[i].project == data.members[i].projectLink)
      && (forall i :: |data.members| <= i < SlotCount ==> u.members[i] == t.members[i])
  {
  }

  /** Applying the same update twice is applying it once. */
  lemma ApplyUpdateIdempotent(t: TeamRow, data: TeamUpdate)
    ensures ApplyUpdate(ApplyUpdate(t, data), data) == ApplyUpdate(t, data)
  {
  }

  /** The returned object repeats the request's members with the names found in the row, and no name past the fifth. */
  lemma SnapshotMembers(t: TeamRow, data: TeamUpdate)
    ensures var s := Snapshot(ApplyUpdate(t, data), data);
      && s.teamId == t.teamId
      && s.leader.regNo == t.leader.regNo
      && |s.members| == |data.members|
      && (forall i :: 0 <= i < |data.members| ==> s.members[i].regNo == data.members[i].regNo)
      && (forall i :: 0 <= i < |data.members| ==> (s.members[i].name.None? <==> i >= SlotCount))
      && (forall i :: 0 <= i < |data.members| && i < SlotCount ==> s.members[i].name == Some(t.members[i].name))
  {
  }

  /** Updating a team keeps the roster consistent with the teams. */
  lemma UpdatePreservesConsistent(rows: seq<StudentRow>, teams: seq<TeamRow>, k: nat, data: TeamUpdate)
    requires k < |teams|
    requires Consistent(rows, teams)
    ensures Consistent(rows, teams[k := ApplyUpdate(teams[k], data)])
  {
    ApplyUpdateEffect(teams[k], data);
    var teams' := teams[k := ApplyUpdate(teams[k], data)];
    assert forall i, a :: 0 <= i < |teams| && 0 <= a <= SlotCount ==> Cell(teams'[i], a) == Cell(teams[i], a);
  }

  // ---------------------------------------------------------------- password

  /** The roster after updateStudentPassword: the first row with the register number gets the password. */
  function SetPassword(rows: seq<StudentRow>, regNo: string, password: string): (r: seq<StudentRow>)
    ensures |r| == |rows|
    ensures forall i :: 0 <= i < |rows| ==> r[i] == rows[i].(password := r[i].password)
    ensures forall i :: 0 <= i < |rows| ==>
      r[i] == if FindRow(rows, regNo) == Some(i) then rows[i].(password := password) else rows[i]
  {
    match FindRow(rows, regNo)
    case None => rows
    case Some(i) => rows[i := rows[i].(password := password)]
  }

  /** Round trip: a listed student whose password was just set can log in with it. */
  lemma SetPasswordThenAuthenticate(rows: seq<StudentRow>, regNo: string, password: string)
    requires regNo != []
    requires FindRow(rows, regNo).Some? && rows[FindRow(rows, regNo).value].fullName != []
    ensures var s := AuthenticateStudent(SetPassword(rows, regNo, password), regNo, password);
            s.Some? && s.value.regNo == regNo && s.value.password == password
  {
    var i := FindRow(rows, regNo).value;
    var rows' := SetPassword(rows, regNo, password);
    assert rows'[i].regNo == regNo && rows'[i].password == password && rows'[i].fullName != [];
  }

  /** Changing a password keeps the roster consistent with the teams. */
  lemma SetPasswordPreservesConsistent(rows: seq<StudentRow>, teams: seq<TeamRow>, regNo: string, password: string)
    requires Consistent(rows, teams)
    ensures Consistent(SetPassword(rows, regNo, password), teams)
  {
    var rows' := SetPassword(rows, regNo, password);
    forall x ensures FindRow(rows', x) == FindRow(rows, x) {
      FindRowSameRegNos(rows', rows, x);
    }
  }

  // ---------------------------------------------------------------- create: the loops

  /**
   * One more participant, found at roster row k: Conflicted and Collected grow by the
   * entry that row gives.
   */
  lemma ScanStep(rows: seq<StudentRow>, ps: seq<Member>, i: nat, k: nat)
    requires i < |ps| && FindRow(rows, ps[i].regNo) == Some(k)
    ensures Conflicted(rows, ps[..i + 1])
         == Conflicted(rows, ps[..i]) + if rows[k].assignedCell == Yes then [ps[i].regNo] else []
    ensures Collected(rows, ps[..i + 1])
         == Collected(rows, ps[..i])
            + if rows[k].assignedCell == Yes then [] else [Slot(rows[k].regNo, rows[k].fullName, ps[i].github, ps[i].projectLink)]
  {
    assert ps[..i + 1][..i] == ps[..i];
    assert ps[..i + 1][i] == ps[i];
  }

  /**
   * The lookup loop of createTeam over a roster snapshot: stops at the first participant not
   * on the roster; otherwise collects the assigned participants' register numbers and, for
   * the others, the slot the team row will hold.
   */
  method ScanParticipants(rows: seq<StudentRow>, ps: seq<Member>)
    returns (missing: Option<nat>, conflicts: seq<string>, teamMembers: seq<Slot>)
    ensures missing == FirstMissing(rows, ps)
    ensures missing.None? ==> conflicts == Conflicted(rows, ps) && teamMembers == Collected(rows, ps)
  {
    conflicts, teamMembers := [], [];
    for i := 0 to |ps|
      invariant forall k :: 0 <= k < i ==> FindRow(rows, ps[k].regNo).Some?
      invariant conflicts == Conflicted(rows, ps[..i])
      invariant teamMembers == Collected(rows, ps[..i])
    {
      var index := FindRow(rows, ps[i].regNo);
      if index.None? {
        FirstMissingAt(rows, ps, i);
        return Some(i), conflicts, teamMembers;
      }
      ScanStep(rows, ps, i, index.value);
      assert forall k :: 0 <= k < i + 1 ==> FindRow(rows, ps[k].regNo).Some? by {
        forall k | 0 <= k < i + 1 ensures FindRow(rows, ps[k].regNo).Some? {
          if k == i { assert index.Some?; }
        }
      }
      var row := rows[index.value];
      if row.assignedCell == Yes {
        conflicts := conflicts + [ps[i].regNo];
      } else {
        teamMembers := teamMembers + [Slot(row.regNo, row.fullName, ps[i].github, ps[i].projectLink)];
      }
    }
    assert ps[..|ps|] == ps;
    missing := None;
  }

  /** The row-building loops of createTeam: the leader, then members into slots 1 to 5, then empty slots. */
  method BuildTeamRow(rows: seq<StudentRow>, request: CreateTeamRequest, teamId: string, teamMembers: seq<Slot>)
    returns (row: TeamRow)
    requires Conflicted(rows, Participants(request)) == []
    requires teamMembers == Collected(rows, Participants(request))
    ensures row == NewTeamRow(rows, request, teamId)
  {
    CollectedAll(rows, Participants(request));
    var slots: seq<Slot> := [];
    for i := 1 to SlotCount + 1
      invariant |slots| == i - 1
      invariant forall k :: 0 <= k < i - 1 ==> slots[k] == NewSlot(rows, request.members, k)
    {
      if i < |teamMembers| {
        slots := slots + [teamMembers[i]];
      } else {
        slots := slots + [EmptySlot];
      }
    }
    row := TeamRow(teamId, request.teamName, request.problemStatementId, teamMembers[0], slots);
  }

  // ---------------------------------------------------------------- the store

  /** Both sheets, updated in place by the writes. */
  class Store {
    var students: seq<StudentRow>
    var teams: seq<TeamRow>

    constructor(students: seq<StudentRow>, teams: seq<TeamRow>)
      ensures this.students == students && this.teams == teams
    {
      this.students := students;
      this.teams := teams;
    }

    /**
     * createTeam with the generated id teamId: rejects a request that names a student twice,
     * then fails on the first participant not on the roster, then returns the participants
     * already assigned; only when none is does it append the team row and mark every
     * participant. The roster stays consistent with the teams.
     */
    method CreateTeam(request: CreateTeamRequest, teamId: string) returns (r: CreateResult)
      modifies this
      ensures var ps := Participants(request);
        !Distinct(RegNos(ps)) ==>
          r == Failed(DuplicateRequest) && students == old(students) && teams == old(teams)
      ensures var ps := Participants(request);
        Distinct(RegNos(ps)) && FirstMissing(old(students), ps).Some? ==>
          var k := FirstMissing(old(students), ps).value;
          r == Failed(NotFoundMessage(k, ps[k].regNo)) && students == old(students) && teams == old(teams)
      ensures var ps := Participants(request);
        Distinct(RegNos(ps)) && AllFound(old(students), ps) && Conflicted(old(students), ps) != [] ==>
          r == Rejected(Conflicted(old(students), ps)) && students == old(students) && teams == old(teams)
      ensures CreateSucceeds(old(students), request) ==>
        && r == Created(teamId)
        && teams == old(teams) + [NewTeamRow(old(students), request, teamId)]
        && students == MarkAll(old(students), RegNos(Participants(request)), teamId)
      ensures old(Consistent(students, teams)) ==> Consistent(students, teams)
    {
      var ps := Participants(request);
      var allRegNos := RegNos(ps);
      DistinctIffSetSize(allRegNos);
      if |Elements(allRegNos)| != |allRegNos| {
        return Failed(DuplicateRequest);
      }

      var missing, conflicts, teamMembers := ScanParticipants(students, ps);
      if missing.Some? {
        return Failed(NotFoundMessage(missing.value, ps[missing.value].regNo));
      }
      if conflicts != [] {
        return Rejected(conflicts);
      }
      var newRow := BuildTeamRow(students, request, teamId, teamMembers);
      AddTeam(request, teamId, newRow);
      r := Created(teamId);
    }

    /** The writes of a successful createTeam: append the team row, then mark every participant. */
    method AddTeam(request: CreateTeamRequest, teamId: string, newRow: TeamRow)
      modifies this
      requires CreateSucceeds(students, request)
      requires newRow == NewTeamRow(students, request, teamId)
      ensures teams == old(teams) + [newRow]
      ensures students == MarkAll(old(students), RegNos(Participants(request)), teamId)
      ensures old(Consistent(students, teams)) ==> Consistent(students, teams)
    {
      CreatePreservesConsistentIfOld(students, teams, request, teamId);
      teams := teams + [newRow];
      // the team members' register numbers are the participants' own
      MarkParticipants(RegNos(Participants(request)), teamId);
    }

    /** The status loop of createTeam: marks each student in turn on the roster. */
    method MarkParticipants(regNos: seq<string>, teamId: string)
      modifies this
      ensures students == MarkAll(old(students), regNos, teamId)
      ensures teams == old(teams)
    {
      for i := 0 to |regNos|
        invariant students == MarkAll(old(students), regNos[..i], teamId)
        invariant teams == old(teams)
      {
        assert regNos[..i + 1][..i] == regNos[..i];
        var index := FindRow(students, regNos[i]);
        if index.Some? {
          students := students[index.value := Marked(students[index.value], teamId)];
        }
      }
      assert regNos[..|regNos|] == regNos;
    }

    /**
     * updateTeam: the first row with the team id gets the new name, problem statement and
     * links, and the returned object describes it; None when no row has the id.
     */
    method UpdateTeam(teamId: string, data: TeamUpdate) returns (r: Option<UpdatedTeam>)
      modifies this
      ensures students == old(students)
      ensures FindTeamById(old(teams), teamId).None? ==> r.None? && teams == old(teams)
      ensures FindTeamById(old(teams), teamId).Some? ==>
        var k := FindTeamById(old(teams), teamId).value;
        && teams == old(teams)[k := ApplyUpdate(old(teams)[k], data)]
        && r == Some(Snapshot(teams[k], data))
      ensures old(Consistent(students, teams)) ==> Consistent(students, teams)
    {
      for k := 0 to |teams|
        invariant teams == old(teams)
        invariant forall j :: 0 <= j < k ==> teams[j].teamId != teamId
      {
        if teams[k].teamId == teamId {
          var row := teams[k];
          var slots: seq<Slot> := row.members;
          for i := 0 to SlotCount
            invariant |slots| == SlotCount
            invariant forall j :: 0 <= j < SlotCount ==>
              slots[j] == if j < i then UpdatedSlot(row.members[j], data.members, j) else row.members[j]
          {
            if i < |data.members| {
              var member := data.members[i];
              slots := slots[i := slots[i].(github := member.github, project := member.projectLink)];
            }
          }
          var updated := row.(teamName := data.teamName,
                              problemStatementId := data.problemStatementId,
                              leader := row.leader.(github := data.leader.github, project := data.leader.projectLink),
                              members := slots);
          assert updated == ApplyUpdate(row, data);
          if Consistent(students, teams) {
            UpdatePreservesConsistent(students, teams, k, data);
          }
          teams := teams[k := updated];
          return Some(Snapshot(updated, data));
        }
      }
      return None;
    }

    /** updateStudentPassword: true when the student was on the roster and the password was set. */
    method UpdateStudentPassword(regNo: string, password: string) returns (ok: bool)
      modifies this
      ensures ok <==> FindRow(old(students), regNo).Some?
      ensures students == SetPassword(old(students), regNo, password)
      ensures teams == old(teams)
      ensures old(Consistent(students, teams)) ==> Consistent(students, teams)
    {
      var index := FindRow(students, regNo);
      if index.None? {
        return false;
      }
      if Consistent(students, teams) {
        SetPasswordPreservesConsistent(students, teams, regNo, password);
      }
      students := students[index.value := students[index.value].(password := password)];
      return true;
    }
  }

  /** CreatePreservesConsistent for callers that do not know whether the roster was consistent. */
  lemma CreatePreservesConsistentIfOld(rows: seq<StudentRow>, teams: seq<TeamRow>, request: CreateTeamRequest, teamId: string)
    requires CreateSucceeds(rows, request)
    ensures Consistent(rows, teams) ==>
      Consistent(MarkAll(rows, RegNos(Participants(request)), teamId), teams + [NewTeamRow(rows, request, teamId)])
  {
    if Consistent(rows, teams) {
      CreatePreservesConsistent(rows, teams, request, teamId);
    }
  }
}
