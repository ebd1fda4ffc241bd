/**
 * The business checks of lib/validation-utils.ts: team name, team size, duplicates,
 * link formats, a whole create-team request, conflicts against the roster, sanitising.
 * URL parsing is a parameter `parse`, which gives the hostname of a string that parses
 * as a URL and None otherwise.
 */
module ValidationUtils {
  import opened Wrappers
  import opened Strings
  import opened Seqs
  import opened Config
  import opened Types
  import Validation

  /** `{ isValid, errors }`, where isValid is always `errors.length === 0`. */
  datatype ValidationResult = ValidationResult(isValid: bool, errors: seq<string>)

  function FromErrors(errors: seq<string>): (r: ValidationResult)
    ensures r.errors == errors && (r.isValid <==> errors == [])
  {
    ValidationResult(errors == [], errors)
  }

  // ---------------------------------------------------------------- team name

  const TeamNameRequired := "Team name is required"
  const TeamNameTooShort := "Team name must be at least 2 characters long"
  const TeamNameTooLong := "Team name cannot exceed 100 characters"

  /** validateTeamName: the trimmed name is measured in UTF-16 units, as `.length` counts them. */
  function ValidateTeamName(teamName: string): (r: ValidationResult)
    ensures r.isValid <==> r.errors == []
    ensures |r.errors| <= 1
    ensures r.isValid <==> 2 <= Utf16Length(Trim(teamName)) <= 100
    ensures r.errors == [TeamNameRequired] <==> AllWhitespace(teamName)
    ensures r.errors == [TeamNameTooShort] <==> !AllWhitespace(teamName) && Utf16Length(Trim(teamName)) < 2
    ensures r.errors == [TeamNameTooLong] <==> Utf16Length(Trim(teamName)) > 100
  {
    if teamName == [] || Trim(teamName) == [] then FromErrors([TeamNameRequired])
    else if Utf16Length(Trim(teamName)) < 2 then FromErrors([TeamNameTooShort])
    else if Utf16Length(Trim(teamName)) > 100 then FromErrors([TeamNameTooLong])
    else FromErrors([])
  }

  /** A name of one character above U+FFFF is two UTF-16 units long, and so long enough. */
  lemma AstralCharNameAccepted()
    ensures ValidateTeamName("\U{1F600}").isValid
  {
    var name := "\U{1F600}";
    assert !IsWhitespace(name[0]);
    TrimKeepsUnpadded(name);
  }

  /** Fifty-one such characters are 102 units: too long, though only 51 code points. */
  lemma AstralCharNameTooLong(name: string)
    requires |name| == 51 && forall i :: 0 <= i < |name| ==> name[i] == '\U{1F600}'
    ensures ValidateTeamName(name).errors == [TeamNameTooLong]
  {
    assert !IsWhitespace(name[0]) && !IsWhitespace(name[|name| - 1]);
    TrimKeepsUnpadded(name);
    AstralLength(name);
  }

  lemma {:induction false} AstralLength(s: string)
    requires forall i :: 0 <= i < |s| ==> s[i] as int > 0xFFFF
    ensures Utf16Length(s) == 2 * |s|
  {
    if s != [] {
      AstralLength(s[1..]);
    }
  }

  // ---------------------------------------------------------------- team size

  // the same two messages as lib/validation.ts
  const SizeTooSmall := Validation.AtLeastMessage
  const SizeTooLarge := Validation.CannotExceedMessage

  function ValidateTeamSize(memberCount: int): (r: ValidationResult)
    ensures r.isValid <==> r.errors == []
    ensures |r.errors| <= 1
    ensures r.isValid <==> MinMembers <= memberCount <= MaxMembers
    ensures memberCount < MinMembers ==> r.errors == [SizeTooSmall]
    ensures memberCount > MaxMembers ==> r.errors == [SizeTooLarge]
  {
    if memberCount < MinMembers then FromErrors([SizeTooSmall])
    else if memberCount > MaxMembers then FromErrors([SizeTooLarge])
    else FromErrors([])
  }

  // ---------------------------------------------------------------- duplicates

  /** Some non-empty value sits at two positions of s. */
  predicate Repeated(s: seq<string>, x: string) {
    x != [] && exists i, j :: 0 <= i < j < |s| && s[i] == x && s[j] == x
  }

  /** No non-empty value sits at two positions; empty strings may repeat. */
  predicate NoRepeatedFilled(s: seq<string>) {
    forall i, j :: 0 <= i < j < |s| && s[i] != [] ==> s[i] != s[j]
  }

  /**
   * The duplicated values of s in the order a left-to-right scan first sees them repeat,
   * which is the insertion order of the `duplicates` set.
   */
  function FirstRepeats(s: seq<string>): (r: seq<string>)
    ensures |r| <= |s|
    ensures forall x :: x in r ==> x != [] && x in s
  {
    if s == [] then []
    else
      var p, x := s[..|s| - 1], s[|s| - 1];
      var d := FirstRepeats(p);
      if x != [] && x in p && x !in d then d + [x] else d
  }

  /** FirstRepeats lists every repeated non-empty value, and only those, once each. */
  lemma {:induction false} FirstRepeatsExact(s: seq<string>)
    ensures forall x :: x in FirstRepeats(s) <==> Repeated(s, x)
    ensures Distinct(FirstRepeats(s))
  {
    if s != [] {
      var p, x := s[..|s| - 1], s[|s| - 1];
      FirstRepeatsExact(p);
      assert s == p + [x];
      forall y ensures y in FirstRepeats(s) <==> Repeated(s, y) {
        if Repeated(s, y) && !Repeated(p, y) {
          var i, j :| 0 <= i < j < |s| && s[i] == y && s[j] == y;
          assert j == |s| - 1 && y == x && p[i] == y;
        }
        if Repeated(p, y) {
          var i, j :| 0 <= i < j < |p| && p[i] == y && p[j] == y;
          assert s[i] == y && s[j] == y;
        }
        if y == x && x != [] && x in p {
          var i :| 0 <= i < |p| && p[i] == x;
          assert s[i] == x && s[|s| - 1] == x;
        }
      }
    }
  }

  /** The check finds no duplicate exactly when no non-empty value repeats. */
  lemma NoFirstRepeatsIff(s: seq<string>)
    ensures FirstRepeats(s) == [] <==> NoRepeatedFilled(s)
  {
    FirstRepeatsExact(s);
    if FirstRepeats(s) != [] {
      assert Repeated(s, FirstRepeats(s)[0]);
    }
    if !NoRepeatedFilled(s) {
      var i, j :| 0 <= i < j < |s| && s[i] != [] && s[i] == s[j];
      assert Repeated(s, s[i]);
    }
  }

  function DuplicateErrors(duplicates: seq<string>): seq<string>
  {
    if duplicates == [] then [] else ["Duplicate students found: " + Join(duplicates, ", ")]
  }

  /** Two students listed twice give one message naming both, comma-separated, in order. */
  lemma TwoDuplicatesMessage()
    ensures DuplicateErrors(FirstRepeats(["a", "b", "a", "b"])) == ["Duplicate students found: a, b"]
  {
    var s: seq<string> := ["a", "b", "a", "b"];
    assert s[..1][..0] == [] && FirstRepeats(s[..1]) == [];
    assert s[..2][..1] == s[..1] && FirstRepeats(s[..2]) == [];
    assert s[..3][..2] == s[..2] && FirstRepeats(s[..3]) == ["a"];
    assert s[..4][..3] == s[..3] && s[..4] == s;
    assert FirstRepeats(s) == ["a", "b"];
    JoinAppend(["a"], "b", ", ");
    assert ["a"] + ["b"] == ["a", "b"];
    assert Join(["a", "b"], ", ") == "a, b";
    assert "Duplicate students found: " + "a, b" == "Duplicate students found: a, b";
  }

  method ValidateNoDuplicates(regNos: seq<string>) returns (r: ValidationResult)
    ensures r.isValid <==> r.errors == []
    ensures r.isValid <==> NoRepeatedFilled(regNos)
    ensures r.errors == DuplicateErrors(FirstRepeats(regNos))
  {
    var seen: set<string> := {};
    var duplicates: seq<string> := [];
    for i := 0 to |regNos|
      invariant seen == set k | 0 <= k < i && regNos[k] != [] :: regNos[k]
      invariant duplicates == FirstRepeats(regNos[..i])
    {
      var regNo := regNos[i];
      assert regNos[..i + 1][..i] == regNos[..i];
      assert regNo in regNos[..i] <==> exists k :: 0 <= k < i && regNos[k] == regNo;
      if regNo != [] && regNo in seen && regNo !in duplicates {
        duplicates := duplicates + [regNo];
      }
      if regNo != [] {
        seen := seen + {regNo};
      }
    }
    assert regNos[..|regNos|] == regNos;
    NoFirstRepeatsIff(regNos);
    r := FromErrors(DuplicateErrors(duplicates));
  }

  // ---------------------------------------------------------------- links

  const GitHubNotGitHub := "GitHub URL must be from github.com"
  const GitHubMalformed := "Invalid GitHub URL format"
  const ProjectMalformed := "Invalid project URL format"

  function ValidateGitHubUrl(url: string, parse: string -> Option<string>): (r: ValidationResult)
    ensures r.isValid <==> r.errors == []
    ensures |r.errors| <= 1
    ensures AllWhitespace(url) ==> r.isValid
    ensures r.isValid <==> AllWhitespace(url) || (parse(url).Some? && Contains(parse(url).value, "github.com"))
  {
    if url != [] && Trim(url) != [] then
      match parse(url)
      case None => FromErrors([GitHubMalformed])
      case Some(hostname) => if !Contains(hostname, "github.com") then FromErrors([GitHubNotGitHub]) else FromErrors([])
    else FromErrors([])
  }

  function ValidateProjectUrl(url: string, parse: string -> Option<string>): (r: ValidationResult)
    ensures r.isValid <==> r.errors == []
    ensures |r.errors| <= 1
    ensures r.isValid <==> AllWhitespace(url) || parse(url).Some?
  {
    if url != [] && Trim(url) != [] && parse(url).None? then FromErrors([ProjectMalformed]) else FromErrors([])
  }

  function Prefixed(prefix: string, errors: seq<string>): (r: seq<string>)
    ensures |r| == |errors|
    ensures forall i :: 0 <= i < |errors| ==> r[i] == prefix + errors[i]
  {
    seq(|errors|, i requires 0 <= i < |errors| => prefix + errors[i])
  }

  predicate LinksValid(m: Member, parse: string -> Option<string>) {
    ValidateGitHubUrl(m.github, parse).isValid && ValidateProjectUrl(m.projectLink, parse).isValid
  }

  /** An unfilled member slot, or one whose links pass. */
  predicate MemberLinksOk(m: Member, parse: string -> Option<string>) {
    m.regNo == [] || LinksValid(m, parse)
  }

  /**
   * The link errors the forEach callback reports for the member at `index`, shown to users
   * as member number index + 2; nothing for a member whose registration number is empty.
   */
  method MemberLinkErrors(m: Member, index: nat, parse: string -> Option<string>) returns (r: seq<string>)
    ensures r == [] <==> MemberLinksOk(m, parse)
    ensures |r| <= 2
  {
    r := [];
    if m.regNo != [] {
      var prefix := "Member " + NatToString(index + 2) + ": ";
      r := r + Prefixed(prefix, ValidateGitHubUrl(m.github, parse).errors);
      r := r + Prefixed(prefix, ValidateProjectUrl(m.projectLink, parse).errors);
    }
  }

  // ---------------------------------------------------------------- agreement with lib/validation.ts

  /** The team-size checks of the two libraries accept the same counts with the same message. */
  lemma TeamSizeChecksAgree(memberCount: int)
    ensures ValidateTeamSize(memberCount).isValid == Validation.ValidateTeamSize(memberCount).valid
    ensures !ValidateTeamSize(memberCount).isValid ==>
      ValidateTeamSize(memberCount).errors == [Validation.ValidateTeamSize(memberCount).message.value]
  {
  }

  /** On filled registration numbers the duplicate checks of the two libraries agree. */
  lemma DuplicateChecksAgree(regNos: seq<string>)
    requires forall i :: 0 <= i < |regNos| ==> regNos[i] != []
    ensures Validation.ValidateNoDuplicates(regNos).valid <==> NoRepeatedFilled(regNos)
  {
  }

  /** Empty registration numbers are where they part: only lib/validation.ts counts two of them as a duplicate. */
  lemma EmptyRegNosDiverge()
    ensures !Validation.ValidateNoDuplicates(["", ""]).valid
    ensures NoRepeatedFilled(["", ""])
  {
    var s: seq<string> := ["", ""];
    assert s[0] == s[1];
  }

  // ---------------------------------------------------------------- whole request

  const LeaderRequired := "Team leader is required"

  /** The request passes every check of validateTeamRequest. */
  predicate RequestAcceptable(request: CreateTeamRequest, parse: string -> Option<string>) {
    var filled := FilledMembers(request.members);
    && ValidateTeamName(request.teamName).isValid
    && request.leader.regNo != []
    && LinksValid(request.leader, parse)
    && (forall i :: 0 <= i < |request.members| ==> MemberLinksOk(request.members[i], parse))
    && MinMembers <= 1 + |filled| <= MaxMembers
    && NoRepeatedFilled([request.leader.regNo] + RegNos(filled))
  }

  /** The errors reported before the members are looked at: the name and the leader. */
  method LeaderErrors(request: CreateTeamRequest, parse: string -> Option<string>) returns (errors: seq<string>)
    ensures errors == [] <==> && ValidateTeamName(request.teamName).isValid
                              && request.leader.regNo != []
                              && LinksValid(request.leader, parse)
  {
    errors := ValidateTeamName(request.teamName).errors;
    if request.leader.regNo == [] {
      errors := errors + [LeaderRequired];
    }
    var leaderGitHub := Prefixed("Leader ", ValidateGitHubUrl(request.leader.github, parse).errors);
    var leaderProject := Prefixed("Leader ", ValidateProjectUrl(request.leader.projectLink, parse).errors);
    AppendEmpty(errors, leaderGitHub);
    AppendEmpty(errors + leaderGitHub, leaderProject);
    errors := errors + leaderGitHub + leaderProject;
  }

  /** The link errors of every member, in order of the members. */
  method MembersLinkErrors(members: seq<Member>, parse: string -> Option<string>) returns (errors: seq<string>)
    ensures errors == [] <==> forall k :: 0 <= k < |members| ==> MemberLinksOk(members[k], parse)
  {
    errors := [];
    for i := 0 to |members|
      invariant errors == [] <==> forall k :: 0 <= k < i ==> MemberLinksOk(members[k], parse)
    {
      var memberErrors := MemberLinkErrors(members[i], i, parse);
      AppendEmpty(errors, memberErrors);
      errors := errors + memberErrors;
    }
  }

  /**
   * Every check of the request, in the order the errors are reported: the name, the leader,
   * each member's links, the team size, the duplicates.
   */
  method ValidateTeamRequest(request: CreateTeamRequest, parse: string -> Option<string>) returns (r: ValidationResult)
    ensures r.isValid <==> r.errors == []
    ensures r.isValid <==> RequestAcceptable(request, parse)
  {
    var leaderErrors := LeaderErrors(request, parse);
    var memberErrors := MembersLinkErrors(request.members, parse);
    var filled := FilledMembers(request.members);
    var size := ValidateTeamSize(1 + |filled|);
    var duplicates := ValidateNoDuplicates([request.leader.regNo] + RegNos(filled));
    var errors := leaderErrors + memberErrors + size.errors + duplicates.errors;
    AppendEmpty(leaderErrors, memberErrors);
    AppendEmpty(leaderErrors + memberErrors, size.errors);
    AppendEmpty(leaderErrors + memberErrors + size.errors, duplicates.errors);
    r := FromErrors(errors);
  }

  // ---------------------------------------------------------------- conflicts

  datatype ConflictCheckResult = ConflictCheckResult(
    hasConflicts: bool,
    conflicts: seq<string>,
    availableStudents: seq<Student>)

  /** Position of the first student with this registration number. */
  function FindStudentIndex(students: seq<Student>, regNo: string): (r: Option<nat>)
    ensures r.Some? ==> r.value < |students| && students[r.value].regNo == regNo
    ensures r.Some? ==> forall j :: 0 <= j < r.value ==> students[j].regNo != regNo
    ensures r.None? <==> forall s :: s in students ==> s.regNo != regNo
  {
    if students == [] then None
    else if students[0].regNo == regNo then Some(0)
    else match FindStudentIndex(students[1..], regNo)
      case None => None
      case Some(k) => Some(k + 1)
  }

  /** `allStudents.find(s => s.regNo === regNo)`. */
  function FindStudent(students: seq<Student>, regNo: string): (r: Option<Student>)
    ensures r.Some? ==> r.value.regNo == regNo
    ensures FindStudentIndex(students, regNo).Some? ==> r == Some(students[FindStudentIndex(students, regNo).value])
    ensures r.None? <==> forall s :: s in students ==> s.regNo != regNo
  {
    match FindStudentIndex(students, regNo)
    case None => None
    case Some(i) => Some(students[i])
  }

  /** Where checkStudentConflicts files one requested registration number. */
  datatype Outcome = NotFound | AlreadyAssigned | Free(student: Student)

  function Classify(regNo: string, students: seq<Student>): Outcome {
    match FindStudent(students, regNo)
    case None => NotFound
    case Some(s) => if s.status == Assigned then AlreadyAssigned else Free(s)
  }

  function NotFoundMessage(regNo: string): string {
    "Student with RegNo " + regNo + " not found"
  }

  function ConflictEntry(regNo: string, students: seq<Student>): seq<string> {
    match Classify(regNo, students)
    case NotFound => [NotFoundMessage(regNo)]
    case AlreadyAssigned => [regNo]
    case Free(_) => []
  }

  function AvailableEntry(regNo: string, students: seq<Student>): seq<Student> {
    match Classify(regNo, students)
    case Free(s) => [s]
    case _ => []
  }

  function ConflictList(requested: seq<string>, students: seq<Student>): (r: seq<string>)
    ensures |r| <= |requested|
  {
    if requested == [] then []
    else ConflictList(requested[..|requested| - 1], students) + ConflictEntry(requested[|requested| - 1], students)
  }

  function AvailableList(requested: seq<string>, students: seq<Student>): (r: seq<Student>)
    ensures |r| <= |requested|
  {
    if requested == [] then []
    else AvailableList(requested[..|requested| - 1], students) + AvailableEntry(requested[|requested| - 1], students)
  }

  /** Every requested registration number lands in exactly one of the two lists. */
  lemma {:induction false} ConflictPartition(requested: seq<string>, students: seq<Student>)
    ensures |ConflictList(requested, students)| + |AvailableList(requested, students)| == |requested|
  {
    if requested != [] {
      ConflictPartition(requested[..|requested| - 1], students);
    }
  }

  /** The available list holds only roster students that are Available and were requested. */
  lemma {:induction false} AvailableListSound(requested: seq<string>, students: seq<Student>)
    ensures forall s :: s in AvailableList(requested, students) ==>
              s in students && s.status == Available && s.regNo in requested
  {
    if requested != [] {
      var p := requested[..|requested| - 1];
      AvailableListSound(p, students);
      forall s | s in AvailableList(requested, students)
        ensures s in students && s.status == Available && s.regNo in requested
      {
        if s in AvailableList(p, students) {
          assert s.regNo in p;
        }
      }
    }
  }

  /** There is no conflict exactly when every requested student exists and is Available. */
  lemma {:induction false} NoConflictsIff(requested: seq<string>, students: seq<Student>)
    ensures ConflictList(requested, students) == [] <==> forall x :: x in requested ==> Classify(x, students).Free?
  {
    if requested != [] {
      var p, x := requested[..|requested| - 1], requested[|requested| - 1];
      NoConflictsIff(p, students);
      assert requested == p + [x];
    }
  }

  /** One more requested number adds its own entry to each list. */
  lemma ConflictStep(requested: seq<string>, students: seq<Student>, i: nat)
    requires i < |requested|
    ensures ConflictList(requested[..i + 1], students) == ConflictList(requested[..i], students) + ConflictEntry(requested[i], students)
    ensures AvailableList(requested[..i + 1], students) == AvailableList(requested[..i], students) + AvailableEntry(requested[i], students)
  {
    assert requested[..i + 1][..i] == requested[..i];
  }

  method CheckStudentConflicts(requestedRegNos: seq<string>, allStudents: seq<Student>) returns (r: ConflictCheckResult)
    ensures r.conflicts == ConflictList(requestedRegNos, allStudents)
    ensures r.availableStudents == AvailableList(requestedRegNos, allStudents)
    ensures r.hasConflicts <==> r.conflicts != []
    ensures |r.conflicts| + |r.availableStudents| == |requestedRegNos|
  {
    var conflicts: seq<string> := [];
    var availableStudents: seq<Student> := [];
    for i := 0 to |requestedRegNos|
      invariant conflicts == ConflictList(requestedRegNos[..i], allStudents)
      invariant availableStudents == AvailableList(requestedRegNos[..i], allStudents)
    {
      var regNo := requestedRegNos[i];
      ConflictStep(requestedRegNos, allStudents, i);
      var student := FindStudent(allStudents, regNo);
      if student.None? {
        conflicts := conflicts + [NotFoundMessage(regNo)];
      } else if student.value.status == Assigned {
        conflicts := conflicts + [regNo];
      } else {
        availableStudents := availableStudents + [student.value];
      }
    }
    assert requestedRegNos[..|requestedRegNos|] == requestedRegNos;
    ConflictPartition(requestedRegNos, allStudents);
    r := ConflictCheckResult(|conflicts| > 0, conflicts, availableStudents);
  }

  // ---------------------------------------------------------------- sanitising

  /** `s.replace(/[<>]/g, "")`. */
  function RemoveAngleBrackets(s: string): (r: string)
    ensures '<' !in r && '>' !in r
    ensures forall c :: c != '<' && c != '>' ==> multiset(r)[c] == multiset(s)[c]
    ensures ('<' !in s && '>' !in s) ==> r == s
    ensures |s| == 1 ==> r == if s[0] == '<' || s[0] == '>' then [] else s
  {
    if s == [] then []
    else
      assert s == [s[0]] + s[1..];
      (if s[0] == '<' || s[0] == '>' then [] else [s[0]]) + RemoveAngleBrackets(s[1..])
  }

  /**
   * The replacement works character by character and keeps order: with the one-character
   * case above, this determines the result of every string.
   */
  lemma {:induction false} RemoveAngleBracketsAppend(a: string, b: string)
    ensures RemoveAngleBrackets(a + b) == RemoveAngleBrackets(a) + RemoveAngleBrackets(b)
  {
    if a == [] {
      assert a + b == b;
    } else {
      assert (a + b)[1..] == a[1..] + b;
      RemoveAngleBracketsAppend(a[1..], b);
    }
  }

  /** sanitizeInput: the trimmed input with every angle bracket removed, the other characters kept in order. */
  function SanitizeInput(input: string): (r: string)
    ensures r == RemoveAngleBrackets(Trim(input))
    ensures '<' !in r && '>' !in r
    ensures forall c :: c != '<' && c != '>' ==> multiset(r)[c] == multiset(Trim(input))[c]
    ensures ('<' !in input && '>' !in input) ==> r == Trim(input)
  {
    var t := Trim(input);
    assert '<' !in input && '>' !in input ==> '<' !in t && '>' !in t;
    RemoveAngleBrackets(t)
  }
}
