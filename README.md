# Team formation over two spreadsheets — a Dafny model

The system lets registered students form hackathon teams of 4 to 6 (a leader plus three
mandatory and up to two optional members). All data lives in two Google Sheets:
"Form Responses 1", one row per registered student, and "Teams", one row per team with the
leader's cells and five member slots. This project models:

- the data layer `lib/sheets.ts`:
  - reads: listing, lookup, availability and login;
  - writes: team creation, team update and password change, on a `Store` class whose two
    fields are the sheets;
- the two request validators, `lib/validation.ts` and `lib/validation-utils.ts`;
- the form logic of the create-team page, `app/create-team/page.tsx`;
- the PDF-link form, `components/SubmitPPTForm.tsx`: the link check, the submit guards and
  the retrying team load.

A sheet is a sequence of rows in sheet order, and a cell is a string that is `""` when empty.
Network calls are replaced by their inputs or outputs: a roster snapshot, the answers a
fetch receives, the generated team id.

What is proved:

- **Consistency.** The roster and the teams sheet stay consistent under every write
  (`SheetsStore.Consistent`):
  - every filled team cell names a student marked "Yes";
  - no register number sits in two cells.
- **Create, then read back.** After a team is created:
  - each participant finds the new team again through the lookup that
    `getTeamByMemberRegNo` uses;
  - the members read back are the requested ones, in order.
- **Updates** change only the team name, the problem statement and the links, and applying
  one twice is the same as applying it once.
- **Setting a password** lets the student log in with it.
- **The validators** accept exactly the requests their predicates describe.
  - The size and duplicate checks of the two server libraries agree, except on empty
    register numbers.
  - A form the create-team page accepts passes the server's size check.
  - A one-letter team name passes the page's check but not the server's.
- **The retrying load** makes at most three retries, waiting 1, 2 and 4 seconds.

One behaviour of the code as written is shown by `CreateTeamPage.PageRequestStored`:

- `createTeam` fills the "Problem Statement ID" cell from a `problemStatementId` key that
  `CreateTeamRequest` does not declare.
- The create-team page sends only `problemStatementId1` and `problemStatementId2`.
- So a team created from the page has an empty "Problem Statement ID" cell.

The model keeps that key as the field `CreateTeamRequest.problemStatementId`.
The update route has the same gap: it passes `problemStatementId1` and `problemStatementId2`
(app/api/teams/[teamId]/route.ts:54-57), while `updateTeam` writes `problemStatementId`
(lib/sheets.ts:330, 358). `SheetsStore.ApplyUpdate` takes that field as given in `TeamUpdate`.

Modules, one per source file, plus shared helpers:

| file | module | source |
|---|---|---|
| common.dfy | `Wrappers`, `Strings`, `Seqs`, `Config` | `Option`, `trim`, `includes`, `join`, `Set` sizes, lib/config.ts |
| types.dfy | `Types` | lib/types.ts |
| validation.dfy | `Validation` | lib/validation.ts |
| validation_utils.dfy | `ValidationUtils` | lib/validation-utils.ts |
| sheets.dfy | `Sheets` | lib/sheets.ts, reads |
| sheets_store.dfy | `SheetsStore` | lib/sheets.ts, writes |
| create_team_page.dfy | `CreateTeamPage` | app/create-team/page.tsx |
| submit_ppt_form.dfy | `SubmitPptForm` | components/SubmitPPTForm.tsx |

## Model

| member | source | states |
|---|---|---|
| Types.FilledMembers | lib/validation-utils.ts:138 | `members.filter(m => m.regNo)`: exactly the members with a register number; one member is kept iff filled, never longer than the input |
| Types.FilledMembersAppend | lib/validation-utils.ts:138 | the filter keeps order and multiplicity: filtering two lists in turn is filtering each; with the one-member case this fixes every result |
| Strings.Trim | lib/validation-utils.ts:18-22 | `trim()`: the result is the input with its leading and trailing whitespace removed, empty iff the input is all whitespace |
| Strings.Join | app/create-team/page.tsx:155 | `join(", ")`: no parts give the empty string and a single part is returned unchanged |
| Strings.JoinAppend | lib/validation-utils.ts:60 | one more part is appended behind the separator, which with Join's two cases fixes every join |
| Strings.Utf16Length | lib/validation-utils.ts:20-22 | JavaScript `.length`: between the number of code points and twice that, zero only for the empty string |
| Strings.TrimKeepsUnpadded | lib/validation-utils.ts:18-22 | `trim()` leaves a non-empty string alone when it neither starts nor ends with whitespace |
| Seqs.DistinctIffSetSize | lib/sheets.ts:97-101 | the `new Set(allRegNos).size !== allRegNos.length` test fires exactly when two positions of the list hold the same register number |
| Validation.ValidateTeamSize | lib/validation.ts:25-41 | a count is valid iff it lies in 4..6; below 4 the "at least" message, above 6 the "cannot exceed" message, no message when valid |
| Validation.ValidateNoDuplicates | lib/validation.ts:43-54 | valid iff the register numbers are pairwise distinct; otherwise "Duplicate students found in team" |
| Validation.CreateTeamSchemaBounds | lib/validation.ts:10-18 | the `min`/`max` bounds of `CreateTeamSchema`, with the name measured in UTF-16 units: an accepted request has a non-empty name of at most 100 code points and fewer than 6 members |
| Validation.SchemaBoundsLimitTeamSize | lib/validation.ts:10-18 | a request within the schema's bounds has only filled members and names at most 6 students, so the "cannot exceed" check never fires on it |
| ValidationUtils.ValidateTeamName | lib/validation-utils.ts:15-30 | valid iff the trimmed name has 2..100 UTF-16 units; exactly one error, chosen in the source's order: blank name "required", then "at least 2", then "cannot exceed 100" |
| ValidationUtils.AstralCharNameAccepted | lib/validation-utils.ts:20 | a name of one character above U+FFFF counts two units and is long enough |
| ValidationUtils.AstralCharNameTooLong | lib/validation-utils.ts:22 | 51 characters above U+FFFF count 102 units and are refused as too long |
| ValidationUtils.AstralLength | lib/validation-utils.ts:20-22 | a string of characters above U+FFFF has twice as many UTF-16 units as characters |
| ValidationUtils.ValidateTeamSize | lib/validation-utils.ts:32-45 | valid iff the count lies in 4..6, with one error naming the violated bound otherwise |
| ValidationUtils.FirstRepeats | lib/validation-utils.ts:47-67 | the values the scan adds to `duplicates`: non-empty values of the list, never more than the list has |
| ValidationUtils.FirstRepeatsExact | lib/validation-utils.ts:47-67 | the `duplicates` set built by the scan holds every non-empty value that occurs twice, and nothing else, each once |
| ValidationUtils.NoFirstRepeatsIff | lib/validation-utils.ts:59-61 | the scan finds no duplicate iff no non-empty register number repeats (empty ones may repeat) |
| ValidationUtils.TwoDuplicatesMessage | lib/validation-utils.ts:47-67 | a list naming two students twice each gives the one message "Duplicate students found: a, b" |
| ValidationUtils.ValidateNoDuplicates | lib/validation-utils.ts:47-67 | the loop with `seen` and `duplicates`: valid iff no non-empty value repeats, and the single error lists the duplicates in first-repeat order |
| ValidationUtils.ValidateGitHubUrl | lib/validation-utils.ts:69-87 | a blank URL passes; otherwise valid iff it parses and its hostname contains "github.com"; at most one error |
| ValidationUtils.ValidateProjectUrl | lib/validation-utils.ts:89-104 | a blank URL passes; otherwise valid iff it parses; at most one error |
| ValidationUtils.Prefixed | lib/validation-utils.ts:120 | each error is kept, in order, behind the prefix |
| ValidationUtils.TeamSizeChecksAgree | lib/validation-utils.ts:32-45 | the two libraries' size checks accept the same counts and report the same message |
| ValidationUtils.DuplicateChecksAgree | lib/validation-utils.ts:47-67 | on non-empty register numbers the two libraries' duplicate checks accept the same lists |
| ValidationUtils.EmptyRegNosDiverge | lib/validation-utils.ts:53-56 | empty register numbers are where the two checks part: only lib/validation.ts rejects `["", ""]` |
| ValidationUtils.MemberLinkErrors | lib/validation-utils.ts:127-135 | the forEach callback reports nothing iff the member is unfilled or both its links pass; at most two errors |
| ValidationUtils.LeaderErrors | lib/validation-utils.ts:109-124 | no error before the members iff the team name is valid, the leader has a register number and both leader links pass |
| ValidationUtils.MembersLinkErrors | lib/validation-utils.ts:126-135 | no member-link error iff every member is unfilled or has passing links |
| ValidationUtils.ValidateTeamRequest | lib/validation-utils.ts:106-152 | `isValid` iff there are no errors, iff the request meets every check: name, leader, all links, 4..6 filled students, no repeated filled register number |
| ValidationUtils.FindStudent | lib/validation-utils.ts:159 | `find` gives the student at the first index with that register number, and none exactly when no student has it |
| ValidationUtils.FindStudentIndex | lib/validation-utils.ts:159 | the first index whose student has the register number, none iff there is none |
| ValidationUtils.ConflictList | lib/validation-utils.ts:158-168 | the `conflicts` of the loop: at most one entry per requested number |
| ValidationUtils.AvailableList | lib/validation-utils.ts:158-168 | the `availableStudents` of the loop: at most one entry per requested number |
| ValidationUtils.ConflictStep | lib/validation-utils.ts:158-168 | one more requested number appends its own entry to each list |
| ValidationUtils.ConflictPartition | lib/validation-utils.ts:158-168 | every requested register number lands in exactly one of `conflicts` and `availableStudents` |
| ValidationUtils.AvailableListSound | lib/validation-utils.ts:163-167 | every available student is on the roster, has status Available and was requested |
| ValidationUtils.NoConflictsIff | lib/validation-utils.ts:154-175 | there is no conflict iff every requested student exists and is not Assigned |
| ValidationUtils.CheckStudentConflicts | lib/validation-utils.ts:154-175 | the loop's result equals the conflict and availability lists in request order, `hasConflicts` iff conflicts is non-empty, and the two lists together have one entry per request |
| ValidationUtils.RemoveAngleBrackets | lib/validation-utils.ts:178 | no `<` or `>` is left; one character is dropped iff it is a bracket; every other character is kept with its count, and a string without brackets is unchanged |
| ValidationUtils.RemoveAngleBracketsAppend | lib/validation-utils.ts:178 | the replacement works character by character in order: removing from two strings in turn is removing from each, so with the one-character case the result is the input with its brackets deleted |
| ValidationUtils.SanitizeInput | lib/validation-utils.ts:177-179 | the trimmed input with its angle brackets deleted, the other characters in their order; none left, each other character kept |
| Sheets.ToStudent | lib/sheets.ts:38-48 | a row reads as a student with the same register number, name and password; status Assigned iff the cell is exactly "Yes"; an absent AssignedTeamID reads as "" |
| Sheets.ListStudents | lib/sheets.ts:27-57 | a student is listed iff some row reads as it and it passes the filter (register number and name filled, dept/year when given, Available when asked) |
| Sheets.ListStudentsAppend | lib/sheets.ts:37-56 | getStudents keeps sheet order: listing rows a then b is listing a, then listing b |
| Sheets.FindRow | lib/sheets.ts:68 | `rows.find` by register number gives the first matching row, and none iff no row matches |
| Sheets.GetStudentByRegNo | lib/sheets.ts:59-83 | a student iff some row has the register number; then it is the first such row read as a Student |
| Sheets.CheckAvailability | lib/sheets.ts:213-216 | true iff the student is on the roster and their first row is not marked "Yes" |
| Sheets.FindByCredentials | lib/sheets.ts:221 | the student at the first index whose register number and password both match, none iff no such student |
| Sheets.FindByCredentialsAppend | lib/sheets.ts:221 | searching two lists in turn is searching the first, then the second |
| Sheets.ListOneRow | lib/sheets.ts:27-57 | an unfiltered listing of one row keeps it iff its register number and name are filled |
| Sheets.CredentialRow | lib/sheets.ts:218-227 | the first roster row that getStudents lists with the register number and password, none iff there is none |
| Sheets.CredentialsHeadRow | lib/sheets.ts:218-227 | the listing of one row matches the credentials iff the row does, and then gives that row as a Student |
| Sheets.CredentialsFirstRow | lib/sheets.ts:218-227 | finding the credentials in the listing is reading the first matching roster row |
| Sheets.AuthenticateStudent | lib/sheets.ts:218-227 | a student iff some row has a filled name, the non-empty register number and the password; then it is the first such row read as a Student |
| Sheets.HoldsRegNoIff | lib/sheets.ts:268-282 | the six-way comparison of getTeamByMemberRegNo holds iff one of the row's six register cells equals the register number |
| Sheets.FindTeamRow | lib/sheets.ts:268-282 | the first team row holding the register number, none iff no row holds it |
| Sheets.ResolvedMembersSound | lib/sheets.ts:306-319 | each member read from a row sits in a filled slot with that register number, carries the slot's links and is the roster's record of that student |
| Sheets.ResolvedMembers | lib/sheets.ts:306-319 | the members of a team read from its slots: never more than there are slots |
| Sheets.ResolvedMembersComplete | lib/sheets.ts:306-319 | when every filled slot names a roster student, the members read are exactly the filled slots in slot order |
| Sheets.GetTeamByMemberRegNo | lib/sheets.ts:256-326 | none iff no team row holds the register number or its leader is not on the roster; otherwise the first such row with its cells, the leader's roster record and links, the resolved members, status "Active" |
| SheetsStore.FirstMissing | lib/sheets.ts:109-136 | none iff every participant is on the roster; otherwise the first participant who is not |
| SheetsStore.FirstMissingAt | lib/sheets.ts:128-132 | the lookup loop throws at participant i when i is the first participant not on the roster |
| SheetsStore.ScanStep | lib/sheets.ts:128-154 | one more participant found at roster row k adds its register number to the conflicts when the row says "Yes", and its slot to `teamMembers` otherwise |
| SheetsStore.Conflicted | lib/sheets.ts:114-115 | the `conflicts` of the lookup loop, in request order; what it holds is stated by ConflictedIff and ConflictedCollectedCount |
| SheetsStore.Collected | lib/sheets.ts:116-154 | the `teamMembers` of the lookup loop, in request order; what it holds is stated by CollectedAll and ConflictedCollectedCount |
| SheetsStore.ConflictedIff | lib/sheets.ts:114-115 | the conflicts are exactly the participants whose first roster row says "Yes" |
| SheetsStore.ConflictedCollectedCount | lib/sheets.ts:114-154 | every participant found is either a conflict or one of `teamMembers`, never both |
| SheetsStore.CollectedAll | lib/sheets.ts:132-154 | without conflicts `teamMembers` holds one slot per participant, in request order |
| SheetsStore.NewTeamRowCells | lib/sheets.ts:161-192 | the new row's register cells are the leader and the members in order, then empty cells |
| SheetsStore.NewTeamRow | lib/sheets.ts:161-192 | the new row carries the generated id, the requested name, the roster name of the leader, and empty cells in the slots past the last member |
| SheetsStore.MarkAllKeepsFind | lib/sheets.ts:198-208 | marking students changes no lookup by register number |
| SheetsStore.MarkAllKeepsRegNos | lib/sheets.ts:198-208 | marking keeps the number of roster rows and every register number |
| SheetsStore.MarkAll | lib/sheets.ts:198-208 | marking keeps the number of roster rows |
| SheetsStore.FindRowSameRegNos | lib/sheets.ts:68 | two rosters that agree on every register number give the same lookup result |
| SheetsStore.MarkAllRows | lib/sheets.ts:198-208 | after marking each row is unchanged or, for a marked student, set to "Yes" with its AssignedTeamID (when the cell exists) set to the team id; a row that changes is the first roster row of a participant's register number |
| SheetsStore.MarkAllAssigns | lib/sheets.ts:198-208 | every marked student who is on the roster ends up assigned |
| SheetsStore.MarkAllKeepsAssigned | lib/sheets.ts:198-208 | marking more students never unmarks an assigned student |
| SheetsStore.OldCellsStayAssigned | lib/sheets.ts:198-208 | the filled cells of the existing teams still name assigned students after marking |
| SheetsStore.NewCellsAssigned | lib/sheets.ts:161-208 | every filled cell of the new row names a student the marking assigned |
| SheetsStore.AppendKeepsAssigned | lib/sheets.ts:195-196 | appending a row whose filled cells name assigned students keeps every team cell assigned |
| SheetsStore.NewRowCellsDistinct | lib/sheets.ts:97-101 | with distinct participants, no register number fills two cells of the new row |
| SheetsStore.AppendKeepsUnique | lib/sheets.ts:195-196 | appending a row with distinct cells that no existing team holds keeps every register number in at most one cell |
| SheetsStore.ConsistentFindsOnlyTeam | lib/sheets.ts:268-282 | in a consistent store a filled register number is found in the one team that holds it |
| SheetsStore.NewCellsFresh | lib/sheets.ts:156-192 | after a successful create no existing team holds a participant of the new row |
| SheetsStore.CreateKeepsAssigned | lib/sheets.ts:195-208 | after a successful create every filled cell of every team names an assigned student |
| SheetsStore.CreatePreservesConsistent | lib/sheets.ts:85-211 | a successful create keeps the roster consistent with the teams |
| SheetsStore.CreateThenFind | lib/sheets.ts:268-282 | after a create, every participant with a cell in the new row finds exactly that row |
| SheetsStore.FindTeamRowAppend | lib/sheets.ts:268-282 | a row appended after rows that do not hold the register number is the first row found for it |
| SheetsStore.NewCellOnlyInNewRow | lib/sheets.ts:156-196 | each participant in a cell of the new row is held by the new row and by no existing team |
| SheetsStore.CreateThenResolveMembers | lib/sheets.ts:306-319 | round trip: the members read back from a new row are the requested members in request order, and the leader is on the roster |
| SheetsStore.NewSlotRegNos | lib/sheets.ts:171-190 | the new row's member slots hold the members' register numbers in order, then empty cells |
| SheetsStore.NewSlotsFound | lib/sheets.ts:161-208 | every filled cell of the new row names a student on the roster after marking |
| SheetsStore.RemoveEmptyFilled | lib/sheets.ts:306-319 | skipping the empty slots of filled register numbers followed by empty cells gives back those register numbers |
| SheetsStore.ResolvedFilledSlots | lib/sheets.ts:306-319 | slots holding filled register numbers on the roster, then empty ones, read back as exactly those register numbers |
| SheetsStore.FindTeamById | lib/sheets.ts:354-355 | the first row with the Team ID, none iff no row has it |
| SheetsStore.ApplyUpdate | lib/sheets.ts:357-373 | an update keeps the team id and every register number cell |
| SheetsStore.ApplyUpdateEffect | lib/sheets.ts:357-373 | an update sets name, problem statement and links of the first `min(5, n)` members, and keeps the id, every register number and every name |
| SheetsStore.ApplyUpdateIdempotent | lib/sheets.ts:357-373 | applying the same update twice is applying it once |
| SheetsStore.SnapshotMembers | lib/sheets.ts:378-394 | the returned object repeats the request's members with the name cells of the row, and no name past the fifth member |
| SheetsStore.Snapshot | lib/sheets.ts:378-394 | the returned object has the row's team id and leader and one member entry per requested member |
| SheetsStore.MemberViews | lib/sheets.ts:378-394 | the returned members list has one entry per requested member, each with the name of its slot when there is one |
| SheetsStore.UpdatePreservesConsistent | lib/sheets.ts:354-396 | updating a team keeps the roster consistent with the teams |
| SheetsStore.SetPassword | lib/sheets.ts:239-247 | the first row with the register number gets the new password and every other row stays as it was; no cell but the password changes |
| SheetsStore.SetPasswordThenAuthenticate | lib/sheets.ts:229-254 | round trip: a listed student whose password was just set logs in with it |
| SheetsStore.SetPasswordPreservesConsistent | lib/sheets.ts:239-247 | changing a password keeps the roster consistent with the teams |
| SheetsStore.ScanParticipants | lib/sheets.ts:108-154 | the lookup loop stops at the first participant not on the roster; otherwise it yields the conflicts and the `teamMembers` slots of the specification |
| SheetsStore.BuildTeamRow | lib/sheets.ts:161-192 | the row-building loops produce the new team row of the specification |
| SheetsStore.Store.CreateTeam | lib/sheets.ts:85-211 | duplicate request, then first unknown participant, then conflicts, each leaving both sheets as they were; otherwise the row is appended, every participant is marked, the id returned; consistency preserved |
| SheetsStore.Store.AddTeam | lib/sheets.ts:195-208 | the writes of a successful create: the new row is appended, every participant is marked, and consistency is kept |
| SheetsStore.CreatePreservesConsistentIfOld | lib/sheets.ts:85-211 | a successful create keeps a consistent store consistent, stated for any starting store |
| SheetsStore.Store.MarkParticipants | lib/sheets.ts:198-208 | the status loop marks each register number in turn and leaves the teams sheet alone |
| SheetsStore.Store.UpdateTeam | lib/sheets.ts:328-403 | the first row with the id becomes the updated row and its snapshot is returned; none and no change when the id is unknown; the roster is untouched; consistency preserved |
| SheetsStore.Store.UpdateStudentPassword | lib/sheets.ts:229-254 | true iff the student is on the roster; the first row with the number gets the new password and every other row stays as it was; the teams sheet is untouched; consistency preserved |
| CreateTeamPage.UpdateMember | app/create-team/page.tsx:86-90 | slot `index` gets the data and every other slot is unchanged |
| CreateTeamPage.GetExcludedRegNos | app/create-team/page.tsx:92-95 | the non-empty register numbers of leader and slots, leader first, in slot order |
| CreateTeamPage.FirstEmptyMandatory | app/create-team/page.tsx:117-122 | the first of the three mandatory slots left empty, none iff all three are filled |
| CreateTeamPage.FindEmptyMandatory | app/create-team/page.tsx:117-122 | the loop over the three mandatory slots stops at the first empty slot, and finds none iff all three are filled |
| CreateTeamPage.FilledAtLeast | app/create-team/page.tsx:124-134 | when the first k slots are filled, the filtered member list keeps at least k members |
| CreateTeamPage.FormTeamSize | app/create-team/page.tsx:124-134 | with the mandatory slots filled the five-slot form always holds 4 to 6 students |
| CreateTeamPage.ValidateForm | app/create-team/page.tsx:97-137 | ok iff name, first statement, leader and mandatory slots are filled; each failure gives the source's first message; the two size messages never occur |
| CreateTeamPage.BuildTeamRequest | app/create-team/page.tsx:149-156 | the request's members are the filled slots in form order, with the form's name, statements and leader; the joined departments only when other departments are wanted; no `problemStatementId` |
| CreateTeamPage.ValidFormRequest | app/create-team/page.tsx:142-156 | a form that passes validation gives a request with a filled leader and 3 to 5 filled members |
| CreateTeamPage.ValidFormPassesServerSize | app/create-team/page.tsx:97-137 | a form that passes validateForm yields a request that passes the server's team-size check |
| CreateTeamPage.OneLetterNamePassesPageOnly | app/create-team/page.tsx:99-101 | a one-letter team name passes validateForm but the server's validateTeamName refuses it as too short |
| CreateTeamPage.PageRequestStored | lib/sheets.ts:161-192 | a request from the page, once all its students are on the roster, yields a team row whose "Problem Statement ID" is empty and whose members read back as the filled form slots in order |
| SubmitPptForm.ValidatePdfLink | components/SubmitPPTForm.tsx:84-91 | an empty link passes; otherwise valid iff it contains both "drive.google.com" and "usp=sharing" |
| SubmitPptForm.PlaceholderAccepted | components/SubmitPPTForm.tsx:84-91 | the sample Drive sharing link is accepted |
| SubmitPptForm.NoEqualsNotShared | components/SubmitPPTForm.tsx:88 | a link without `=` cannot carry the sharing parameter |
| SubmitPptForm.UnsharedLinkRefused | components/SubmitPPTForm.tsx:84-91 | a Drive link without the sharing parameter is refused |
| SubmitPptForm.HandleSubmit | components/SubmitPPTForm.tsx:93-118 | the links are sent iff each is empty or a valid Drive link whose problem statement the team has; otherwise the first failing guard's message, in the source's order |
| SubmitPptForm.NoTeamSendsNothing | components/SubmitPPTForm.tsx:110-118 | with no team loaded only two empty links can be sent |
| SubmitPptForm.RetryDelay | components/SubmitPPTForm.tsx:52 | the delay is `min(1000 * 2^n, 10000)`: never above either, and equal to one of them |
| SubmitPptForm.LoadTeamData | components/SubmitPPTForm.tsx:37-82 | a load that ran out of answers has neither team nor error; a loaded team comes with no error, and an ended load without a team has an error |
| SubmitPptForm.LoadTeamDataRetries | components/SubmitPPTForm.tsx:37-82 | from attempt n, at most `3 - n` retries are scheduled, no more than there were answers, the k-th after `RetryDelay(n + k)` |
| SubmitPptForm.LoadedTeamWasAnswered | components/SubmitPPTForm.tsx:37-82 | a team the load ends with is one a fetch was answered with |
| SubmitPptForm.FirstLoadDelays | components/SubmitPPTForm.tsx:52-57 | the first load waits at most 1, 2 and 4 seconds: the 10-second cap is never reached |
| SubmitPptForm.FourFailuresGiveUp | components/SubmitPPTForm.tsx:55-76 | four 429s or network failures in a row end the load with the quota or the connection message, after exactly three retries |

## Left out

- Google Sheets access, authentication and spreadsheet loading (`getSpreadsheet`):
  - each read works on a snapshot of the rows;
  - each write is an update of the `Store` fields;
  - a missing sheet and the `try`/`catch` blocks that turn a failed call into `null` or
    `false` are not modelled.
- `uuidv4`: the new team id is a parameter of `SheetsStore.Store.CreateTeam`.
- URL parsing (`new URL`) is the parameter `parse` of the link validators. It gives the
  hostname, or None when the string does not parse.
- The zod schemas: only the length and count bounds of `CreateTeamSchema` are modelled, as
  `Validation.CreateTeamSchemaBounds`.
  - Not modelled: the URL formats of `MemberSchema` and `StudentFilterSchema`.
- `validateEmail` is left out: it is a regular-expression test that no other core operation
  uses.
- Absent cells: a cell that does not exist reads as `""`, as `|| ""` makes it.
  - The one exception is "AssignedTeamID", whose presence decides whether marking writes
    it: `Option<string>`.
  - Cells read without `|| ""` in createTeam's lookup loop are also taken as `""` when
    absent.
- Sheet row saving, concurrency between requests and the order of `save()` calls are not
  modelled: each operation is atomic.
- SheetsStore.Store.CreateTeam: members past the fifth get no cell in the team row but are
  still marked "Yes", as in the source. The consistency and read-back lemmas are stated for
  the cells that exist.
- The rendering, routing, `localStorage` checks and student-list fetches of both pages.
  - The POST/PUT calls themselves.
  - The `loading`, `retrying` and `submitting` flags of the PDF-link form.
  - The page's success and error display.
- SubmitPptForm.LoadTeamData: the timers are represented by the list of delays they are
  scheduled with. The pre-filling of the two link inputs from the loaded team is not
  modelled separately.
- Strings.Join: its own contract states only the empty and one-part cases; longer joins,
  such as the department list and the "Duplicate students found: a, b" message, are fixed by
  `Strings.JoinAppend` and shown for two duplicates by `ValidationUtils.TwoDuplicatesMessage`.
- `createdBy` and the department list of the create-team page are carried, not checked.
- The join-request, edit-team and dashboard flows are not part of this model.
