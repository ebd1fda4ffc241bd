/**
 * The PDF-link form (components/SubmitPPTForm.tsx): the link check, the guards run before
 * the links are sent, and the retrying load of the team. Fetches are replaced by the
 * sequence of answers they get; timers by the list of delays they are scheduled with.
 */
module SubmitPptForm {
  import opened Wrappers
  import opened Strings

  /** The fields of the loaded team that the form reads. */
  datatype TeamView = TeamView(
    problemStatementId1: string,
    problemStatementId2: string,
    pptLink1: string,
    pptLink2: string)

  // ---------------------------------------------------------------- validatePDFLink

  const DriveHost := "drive.google.com"
  const SharingParam := "usp=sharing"

  /** validatePDFLink: an empty link is allowed; otherwise it must name Drive and carry the sharing parameter. */
  function ValidatePdfLink(link: string): (r: bool)
    ensures link == [] ==> r
    ensures link != [] ==> (r <==> Contains(link, DriveHost) && Contains(link, SharingParam))
  {
    if link == [] then true
    else Contains(link, DriveHost) && Contains(link, SharingParam)
  }

  /** The placeholder the form shows is an accepted link. */
  lemma PlaceholderAccepted()
    ensures ValidatePdfLink("https://" + DriveHost + "/file/d/.../view?" + SharingParam)
  {
    var head, tail := "https://", "/file/d/.../view?";
    var link := head + DriveHost + tail + SharingParam;
    assert link[|head|..|head| + |DriveHost|] == DriveHost;
    assert OccursAt(link, DriveHost, |head|);
    assert link[|link| - |SharingParam|..] == SharingParam;
    assert OccursAt(link, SharingParam, |link| - |SharingParam|);
  }

  /** A link with no '=' cannot carry the sharing parameter. */
  lemma {:induction false} NoEqualsNotShared(link: string)
    requires '=' !in link
    ensures !Contains(link, SharingParam)
  {
    forall i | 0 <= i <= |link| - |SharingParam| ensures !OccursAt(link, SharingParam, i) {
      assert link[i..i + |SharingParam|][3] == link[i + 3];
      assert link[i + 3] in link;
    }
  }

  /** A Drive link without the sharing parameter is refused. */
  lemma UnsharedLinkRefused()
    ensures !ValidatePdfLink("https://drive.google.com/file/d/x/view")
  {
    NoEqualsNotShared("https://drive.google.com/file/d/x/view");
  }

  // ---------------------------------------------------------------- handleSubmit guards

  const Link1Invalid := "PDF Link 1 must be a Google Drive link and include sharing parameter (usp=sharing)"
  const Link2Invalid := "PDF Link 2 must be a Google Drive link and include sharing parameter (usp=sharing)"
  const Link1WithoutStatement := "Cannot submit PPT Link 1 without Problem Statement ID 1"
  const Link2WithoutStatement := "Cannot submit PPT Link 2 without Problem Statement ID 2"

  /** What handleSubmit does before any request: refuse with a message, or send the two links. */
  datatype SubmitOutcome = Refused(message: string) | Send(pptLink1: string, pptLink2: string)

  /** `!team?.problemStatementId{n}`: no team loaded, or that statement empty. */
  predicate MissingStatement(team: Option<TeamView>, n: nat) {
    team.None? || (if n == 1 then team.value.problemStatementId1 else team.value.problemStatementId2) == []
  }

  /** A link may be sent: empty, or a valid Drive link whose problem statement the team has. */
  predicate Sendable(link: string, team: Option<TeamView>, n: nat) {
    link == [] || (ValidatePdfLink(link) && !MissingStatement(team, n))
  }

  /**
   * The guard chain of handleSubmit, in order: link 1 format, link 2 format, link 1 has a
   * statement, link 2 has a statement.
   */
  method HandleSubmit(pptLink1: string, pptLink2: string, team: Option<TeamView>) returns (r: SubmitOutcome)
    ensures r.Send? <==> Sendable(pptLink1, team, 1) && Sendable(pptLink2, team, 2)
    ensures r.Send? ==> r == Send(pptLink1, pptLink2)
    ensures pptLink1 != [] && !ValidatePdfLink(pptLink1) ==> r == Refused(Link1Invalid)
    ensures (pptLink1 == [] || ValidatePdfLink(pptLink1)) && pptLink2 != [] && !ValidatePdfLink(pptLink2) ==>
      r == Refused(Link2Invalid)
    ensures ValidatePdfLink(pptLink1) && ValidatePdfLink(pptLink2) && pptLink1 != [] && MissingStatement(team, 1) ==>
      r == Refused(Link1WithoutStatement)
    ensures ValidatePdfLink(pptLink1) && ValidatePdfLink(pptLink2) && Sendable(pptLink1, team, 1)
            && pptLink2 != [] && MissingStatement(team, 2) ==>
      r == Refused(Link2WithoutStatement)
  {
    if pptLink1 != [] && !ValidatePdfLink(pptLink1) {
      return Refused(Link1Invalid);
    }
    if pptLink2 != [] && !ValidatePdfLink(pptLink2) {
      return Refused(Link2Invalid);
    }
    if pptLink1 != [] && MissingStatement(team, 1) {
      return Refused(Link1WithoutStatement);
    }
    if pptLink2 != [] && MissingStatement(team, 2) {
      return Refused(Link2WithoutStatement);
    }
    return Send(pptLink1, pptLink2);
  }

  /** Without a loaded team only two empty links can be sent. */
  lemma NoTeamSendsNothing(pptLink1: string, pptLink2: string)
    ensures Sendable(pptLink1, None, 1) && Sendable(pptLink2, None, 2) <==> pptLink1 == [] && pptLink2 == []
  {
  }

  // ---------------------------------------------------------------- loadTeamData

  const MaxRetries := 3
  const BaseDelay := 1000
  const MaxDelay := 10000

  const TeamNotFound := "Team not found"
  const QuotaExceededMessage := "Google Sheets API quota exceeded. This happens when too many requests are made. Please wait a few minutes and try again."
  const LoadFailed := "Failed to load team data"
  const ConnectionFailed := "Failed to load team data. Please check your connection and try again."

  function Pow2(n: nat): (r: nat)
    ensures r >= 1
  {
    if n == 0 then 1 else 2 * Pow2(n - 1)
  }

  /** `Math.min(1000 * Math.pow(2, retryCount), 10000)`. */
  function RetryDelay(retryCount: nat): (r: nat)
    ensures BaseDelay <= r <= MaxDelay
    ensures r == MaxDelay || r == BaseDelay * Pow2(retryCount)
    ensures r <= BaseDelay * Pow2(retryCount)
  {
    if BaseDelay * Pow2(retryCount) < MaxDelay then BaseDelay * Pow2(retryCount) else MaxDelay
  }

  /** The answer one fetch of the team gets. */
  datatype Answer =
    | Found(team: TeamView)   // 200 with { ok: true, team }
    | NoTeam                  // 200 without a team
    | Quota                   // 429
    | OtherStatus             // any other failing status
    | NetworkFailure          // the fetch threw

  /** Where the loading ends: the team, or the error shown, and the delays of the retries scheduled on the way. */
  datatype LoadResult = LoadResult(team: Option<TeamView>, error: string, delays: seq<nat>, pending: bool)

  /**
   * loadTeamData(retryCount) when successive fetches get `answers`: a 429 or a thrown fetch
   * is retried after RetryDelay(retryCount) while retryCount < 3; `pending` means the
   * answers ran out before the loading ended.
   */
  function LoadTeamData(answers: seq<Answer>, retryCount: nat): (r: LoadResult)
    ensures r.pending ==> r.team.None? && r.error == []
    ensures r.team.Some? ==> r.error == [] && !r.pending
    ensures !r.pending && r.team.None? ==> r.error != []
    decreases |answers|
  {
    if answers == [] then LoadResult(None, "", [], true)
    else match answers[0]
      case Found(t) => LoadResult(Some(t), "", [], false)
      case NoTeam => LoadResult(None, TeamNotFound, [], false)
      case OtherStatus => LoadResult(None, LoadFailed, [], false)
      case Quota =>
        if retryCount < MaxRetries then
          var rest := LoadTeamData(answers[1..], retryCount + 1);
          rest.(delays := [RetryDelay(retryCount)] + rest.delays)
        else LoadResult(None, QuotaExceededMessage, [], false)
      case NetworkFailure =>
        if retryCount < MaxRetries then
          var rest := LoadTeamData(answers[1..], retryCount + 1);
          rest.(delays := [RetryDelay(retryCount)] + rest.delays)
        else LoadResult(None, ConnectionFailed, [], false)
  }

  /**
   * From attempt retryCount the load schedules at most 3 - retryCount retries, each after
   * the delay of its own attempt number, and no more retries than there were answers.
   */
  lemma {:induction false} LoadTeamDataRetries(answers: seq<Answer>, retryCount: nat)
    requires retryCount <= MaxRetries
    ensures var r := LoadTeamData(answers, retryCount);
      && |r.delays| <= MaxRetries - retryCount
      && |r.delays| <= |answers|
      && (forall k :: 0 <= k < |r.delays| ==> r.delays[k] == RetryDelay(retryCount + k))
  {
    if answers != [] && (answers[0].Quota? || answers[0].NetworkFailure?) && retryCount < MaxRetries {
      LoadTeamDataRetries(answers[1..], retryCount + 1);
    }
  }

  /** A team the load ends with is one a fetch was answered with. */
  lemma {:induction false} LoadedTeamWasAnswered(answers: seq<Answer>, retryCount: nat)
    ensures var r := LoadTeamData(answers, retryCount);
            r.team.Some? ==> Found(r.team.value) in answers
    decreases |answers|
  {
    if answers != [] && (answers[0].Quota? || answers[0].NetworkFailure?) && retryCount < MaxRetries {
      LoadedTeamWasAnswered(answers[1..], retryCount + 1);
      assert forall a :: a in answers[1..] ==> a in answers;
    }
  }

  /** The first load waits 1, 2 and 4 seconds at most: the 10-second cap is never reached. */
  lemma FirstLoadDelays(answers: seq<Answer>)
    ensures var d := LoadTeamData(answers, 0).delays;
      && |d| <= MaxRetries
      && forall k :: 0 <= k < |d| ==> d[k] == [1000, 2000, 4000][k]
  {
    LoadTeamDataRetries(answers, 0);
    assert RetryDelay(0) == 1000 && RetryDelay(1) == 2000 && RetryDelay(2) == 4000;
  }

  /** Four failures in a row end the first load with an error. */
  lemma FourFailuresGiveUp(answers: seq<Answer>)
    requires |answers| >= 4
    requires forall k :: 0 <= k < 4 ==> answers[k].Quota? || answers[k].NetworkFailure?
    ensures var r := LoadTeamData(answers, 0);
      && r.team.None? && !r.pending && |r.delays| == MaxRetries
      && r.error == (if answers[3].Quota? then QuotaExceededMessage else ConnectionFailed)
  {
    var a1, a2, a3 := answers[1..], answers[2..], answers[3..];
    assert a1[1..] == a2 && a2[1..] == a3;
    assert a1[0] == answers[1] && a2[0] == answers[2] && a3[0] == answers[3];
    var last := LoadTeamData(a3, 3);
    assert last == LoadResult(None, if answers[3].Quota? then QuotaExceededMessage else ConnectionFailed, [], false);
    assert LoadTeamData(a2, 2) == last.(delays := [RetryDelay(2)]);
    assert LoadTeamData(a1, 1) == last.(delays := [RetryDelay(1), RetryDelay(2)]);
  }
}
