/** The challenge page (`ChallengeDetailPage`): cleaning the starter code, the order of the
    checks before a submission, the points a submission earns, and the guest bookkeeping
    (a submission log in storage and the profile's points, count and badge). */
module ChallengeDetail {
  import opened Wrappers
  import opened Strings
  import opened Seqs
  import opened Badges
  import opened Challenges
  import Auth

  /** Lines of starter code that the cleanup throws away (besides empty ones). */
  predicate IsMarked(line: string) {
    Contains(line, "color:") || Contains(line, "Your code here")
  }

  /** The per-line step of the cleanup, given the line's index. */
  function CleanLine(index: nat, line: string): string {
    if index == 0 && '{' in line then line[..IndexOf(line, '{') + 1]
    else if IsMarked(line) then ""
    else line
  }

  /** `lines.map((line, index) => ...)` starting at `index`. */
  function CleanLines(lines: seq<string>, index: nat): (r: seq<string>)
    ensures |r| == |lines|
  {
    if |lines| == 0 then [] else [CleanLine(index, lines[0])] + CleanLines(lines[1..], index + 1)
  }

  predicate NonEmpty(line: string) {
    line != ""
  }

  /** A line after the first survives the cleanup when it is neither empty nor marked. */
  predicate KeptLater(line: string) {
    line != "" && !IsMarked(line)
  }

  /** The starter code placed in the editor: `""` when the challenge has none; otherwise the
      lines cleaned, the empty ones dropped, and the rest joined again. */
  function CleanStarterCode(starter: Option<string>): (r: string)
    ensures starter.None? || starter.value == "" ==> r == ""
    ensures forall i :: 0 <= i < |Split(r, '\n')| ==> (Split(r, '\n')[i] == "" <==> r == "")
  {
    if starter.None? || starter.value == "" then ""
    else
      var lines := Split(starter.value, '\n');
      var kept := Filter(CleanLines(lines, 0), NonEmpty);
      CleanedAreKept(lines);
      KeptLinesUnbroken(lines);
      if |kept| > 0 then
        SplitJoin(kept, '\n');
        Join(kept, '\n')
      else
        assert Split("", '\n') == [""];
        Join(kept, '\n')
  }

  /** Reference definition of the surviving lines: the first line (cut after its first `{`
      when it has one, otherwise dropped if marked or empty), then every later line that is
      neither empty nor marked, in order. */
  function KeptLines(lines: seq<string>): (r: seq<string>)
    requires |lines| >= 1
  {
    var first := CleanLine(0, lines[0]);
    (if first != "" then [first] else []) + Filter(lines[1..], KeptLater)
  }

  /** Past the first line, cleaning then dropping empty lines keeps exactly the non-empty unmarked lines. */
  lemma {:induction false} CleanRestLines(lines: seq<string>, index: nat)
    requires index >= 1
    ensures Filter(CleanLines(lines, index), NonEmpty) == Filter(lines, KeptLater)
  {
    if |lines| > 0 {
      CleanRestLines(lines[1..], index + 1);
      assert CleanLines(lines, index)[1..] == CleanLines(lines[1..], index + 1);
    }
  }

  /** Cleaning the lines and dropping the empty ones gives the reference selection. */
  lemma CleanedAreKept(lines: seq<string>)
    requires |lines| >= 1
    ensures Filter(CleanLines(lines, 0), NonEmpty) == KeptLines(lines)
  {
    CleanRestLines(lines[1..], 1);
    assert CleanLines(lines, 0)[1..] == CleanLines(lines[1..], 1);
  }

  /** No kept line holds a line break when no original line does. */
  lemma KeptLinesUnbroken(lines: seq<string>)
    requires |lines| >= 1
    requires forall i :: 0 <= i < |lines| ==> '\n' !in lines[i]
    ensures forall i :: 0 <= i < |KeptLines(lines)| ==> '\n' !in KeptLines(lines)[i]
  {
    var kept := KeptLines(lines);
    var first := CleanLine(0, lines[0]);
    var rest := Filter(lines[1..], KeptLater);
    assert forall l :: l in rest ==> l in lines[1..] by {
      FilterKeeps(lines[1..], KeptLater);
    }
    assert first <= lines[0];
    forall i | 0 <= i < |kept| ensures '\n' !in kept[i] {
      if first != "" && i == 0 {
        assert kept[0] == first;
      } else {
        var j := if first != "" then i - 1 else i;
        assert kept[i] == rest[j];
        assert rest[j] in lines[1..];
      }
    }
  }

  /** The cleaned code is the kept lines joined; split again it gives back those lines. */
  lemma CleanStarterCodeLines(code: string)
    requires code != ""
    ensures var kept := KeptLines(Split(code, '\n'));
      && CleanStarterCode(Some(code)) == Join(kept, '\n')
      && (|kept| > 0 ==> Split(CleanStarterCode(Some(code)), '\n') == kept)
      && (|kept| == 0 ==> CleanStarterCode(Some(code)) == "")
  {
    var lines := Split(code, '\n');
    CleanedAreKept(lines);
    KeptLinesUnbroken(lines);
    var kept := KeptLines(lines);
    if |kept| > 0 {
      SplitJoin(kept, '\n');
    }
  }

  /** The first line survives whenever it has a `{`, cut just after the first one. */
  lemma FirstLineKept(code: string)
    requires code != ""
    requires '{' in Split(code, '\n')[0]
    ensures var first := Split(code, '\n')[0];
      Split(CleanStarterCode(Some(code)), '\n')[0] == first[..IndexOf(first, '{') + 1]
  {
    CleanStarterCodeLines(code);
  }

  /** Every line of the cleaned code after the cut first line is an original later line,
      non-empty and unmarked, in the original order, and each such line is there. */
  lemma LaterLinesKept(code: string)
    requires code != ""
    ensures var lines := Split(code, '\n');
      var cleaned := CleanStarterCode(Some(code));
      var out := Split(cleaned, '\n');
      var later := if CleanLine(0, lines[0]) != "" then out[1..] else out;
      cleaned != "" ==>
        && IsSubsequence(later, lines[1..])
        && (forall l :: l in later <==> l in lines[1..] && l != "" && !IsMarked(l))
  {
    var lines := Split(code, '\n');
    CleanStarterCodeLines(code);
    var kept := KeptLines(lines);
    var rest := Filter(lines[1..], KeptLater);
    if CleanLine(0, lines[0]) != "" {
      assert kept[1..] == rest;
    } else {
      assert kept == rest;
    }
    FilterKeeps(lines[1..], KeptLater);
  }

  /** What pressing Submit leads to, in the order the page checks. */
  datatype Gate = LoginRequired | EmptySolution | ConfirmResubmit | Submit

  /** `handleSubmit`. */
  function SubmitGate(isAuthenticated: bool, solution: string, alreadyCompleted: bool): (g: Gate)
    ensures g == LoginRequired <==> !isAuthenticated
    ensures g == EmptySolution <==> isAuthenticated && IsBlank(solution)
    ensures g == ConfirmResubmit <==> isAuthenticated && !IsBlank(solution) && alreadyCompleted
    ensures g == Submit <==> isAuthenticated && !IsBlank(solution) && !alreadyCompleted
  {
    TrimEmptyIffBlank(solution);
    if !isAuthenticated then LoginRequired
    else if Trim(solution) == "" then EmptySolution
    else if alreadyCompleted then ConfirmResubmit
    else Submit
  }

  /** `submitSolution` runs on a direct Submit, or on a re-submission the user confirmed. */
  predicate SubmissionRuns(g: Gate, confirmed: bool) {
    g == Submit || (g == ConfirmResubmit && confirmed)
  }

  lemma SubmissionNeedsUserAndCode(isAuthenticated: bool, solution: string, alreadyCompleted: bool, confirmed: bool)
    ensures SubmissionRuns(SubmitGate(isAuthenticated, solution, alreadyCompleted), confirmed)
        <==> isAuthenticated && !IsBlank(solution) && (!alreadyCompleted || confirmed)
  {
  }

  /** Points a submission earns: none for a challenge already completed. */
  function EarnedPoints(alreadyCompleted: bool, challenge: Challenge): (p: int)
    ensures alreadyCompleted ==> p == 0
    ensures !alreadyCompleted ==> p == challenge.points
  {
    if alreadyCompleted then 0 else challenge.points
  }

  /** A record of the guest submission log (`devrank_guest_submissions`), without its
      time-based id and timestamp. */
  datatype GuestSubmission = GuestSubmission(
    challengeId: int,
    challengeTitle: string,
    code: string,
    solution: string,
    status: string,
    points: int)

  /** `checkIfCompleted` for a guest: some logged record completed this challenge. */
  predicate IsCompleted(subs: seq<GuestSubmission>, id: int) {
    exists i :: 0 <= i < |subs| && subs[i].challengeId == id && subs[i].status == "completed"
  }

  /** Position `i` holds the first completed record of the challenge. */
  predicate FirstCompletedAt(subs: seq<GuestSubmission>, id: int, i: int) {
    && 0 <= i < |subs| && subs[i].challengeId == id && subs[i].status == "completed"
    && forall j :: 0 <= j < i ==> !(subs[j].challengeId == id && subs[j].status == "completed")
  }

  /** The record `find` returns: the first completed one for the challenge. */
  function FindCompleted(subs: seq<GuestSubmission>, id: int): (r: Option<GuestSubmission>)
    ensures r.Some? <==> IsCompleted(subs, id)
    ensures r.Some? ==> exists i :: FirstCompletedAt(subs, id, i) && subs[i] == r.value
  {
    if |subs| == 0 then None
    else if subs[0].challengeId == id && subs[0].status == "completed" then Some(subs[0])
    else
      var r := FindCompleted(subs[1..], id);
      assert IsCompleted(subs, id) ==> IsCompleted(subs[1..], id) by {
        if IsCompleted(subs, id) {
          var i :| 0 <= i < |subs| && subs[i].challengeId == id && subs[i].status == "completed";
          assert subs[1..][i - 1] == subs[i];
        }
      }
      assert r.Some? ==> exists i :: FirstCompletedAt(subs, id, i) && subs[i] == r.value by {
        if r.Some? {
          var k :| FirstCompletedAt(subs[1..], id, k) && subs[1..][k] == r.value;
          assert FirstCompletedAt(subs, id, k + 1);
        }
      }
      r
  }

  /** The record a guest submission appends. */
  function NewRecord(challenge: Challenge, solution: string, alreadyCompleted: bool): GuestSubmission {
    GuestSubmission(challenge.id, challenge.title, solution, solution, "completed", EarnedPoints(alreadyCompleted, challenge))
  }

  /** The profile update sent after a first completion. */
  function FirstCompletionUpdate(p: Auth.Profile, challenge: Challenge): Auth.ProfileUpdate {
    var newPoints := p.points + challenge.points;
    Auth.ProfileUpdate(None, Some(newPoints), Some(BadgeFor(newPoints)), Some(p.completedChallenges + 1), None)
  }

  /** Result of `handleGuestSubmission`: the new session and log, and whether it finished
      without an exception. */
  datatype GuestOutcome = GuestOutcome(auth: Auth.AuthState, subs: seq<GuestSubmission>, ok: bool)

  /** `handleGuestSubmission`: log the submission, then on a first completion add the
      challenge's points, count it, and recompute the badge. Whether the challenge was
      already completed is read from the log itself. */
  function HandleGuestSubmission(auth: Auth.AuthState, subs: seq<GuestSubmission>, challenge: Challenge, solution: string): (r: GuestOutcome)
    requires auth.IsGuest()
    ensures |r.subs| == |subs| + 1 && r.subs[..|subs|] == subs
    ensures r.subs[|subs|] == NewRecord(challenge, solution, IsCompleted(subs, challenge.id))
    ensures IsCompleted(r.subs, challenge.id)
    ensures IsCompleted(subs, challenge.id) ==> r.auth == auth && r.ok
    ensures !IsCompleted(subs, challenge.id) && Auth.Valid(auth) ==>
      var p := auth.profile.value;
      && r.ok && Auth.Valid(r.auth) && r.auth.account == auth.account
      && r.auth.profile == Some(p.(points := p.points + challenge.points,
                                   completedChallenges := p.completedChallenges + 1,
                                   badge := BadgeFor(p.points + challenge.points)))
  {
    var already := IsCompleted(subs, challenge.id);
    var record := NewRecord(challenge, solution, already);
    var logged := subs + [record];
    assert logged[..|subs|] == subs;
    assert logged[|subs|] == record;
    if already then GuestOutcome(auth, logged, true)
    else if auth.storedGuest.None? then GuestOutcome(auth, logged, false)
    else
      var update := FirstCompletionUpdate(auth.storedGuest.value.profile, challenge);
      match Auth.UpdateGuestProfile(auth, update)
      case Some(next) => GuestOutcome(next, logged, true)
      case None => GuestOutcome(auth, logged, false)
  }

  /** A second submission of a challenge earns nothing: the guest profile stays as it was. */
  lemma SecondSubmissionAwardsNothing(auth: Auth.AuthState, subs: seq<GuestSubmission>, challenge: Challenge, s1: string, s2: string)
    requires auth.IsGuest() && Auth.Valid(auth)
    ensures var first := HandleGuestSubmission(auth, subs, challenge, s1);
      var second := HandleGuestSubmission(first.auth, first.subs, challenge, s2);
      second.auth == first.auth && second.subs[|second.subs| - 1].points == 0
  {
  }

  /** How `submitSolution` ends. */
  datatype Submitted = Succeeded(earned: int) | SubmitFailed

  /** `submitSolution`: a guest goes through the log; a member's insert is the backend's
      affair (`memberInsertOk`), and a member's earlier completion (`memberCompleted`) is what
      the backend reported on page load. */
  function SubmitSolution(auth: Auth.AuthState, subs: seq<GuestSubmission>, challenge: Challenge, solution: string,
                          memberCompleted: bool, memberInsertOk: bool): (r: (GuestOutcome, Submitted))
    ensures !auth.IsGuest() ==> r.0 == GuestOutcome(auth, subs, memberInsertOk)
    ensures auth.IsGuest() && r.1.Succeeded? ==> r.1.earned == EarnedPoints(IsCompleted(subs, challenge.id), challenge)
    ensures !auth.IsGuest() && memberInsertOk ==> r.1 == Succeeded(EarnedPoints(memberCompleted, challenge))
    ensures r.1.Succeeded? <==> r.0.ok
  {
    if auth.IsGuest() then
      var out := HandleGuestSubmission(auth, subs, challenge, solution);
      (out, if out.ok then Succeeded(EarnedPoints(IsCompleted(subs, challenge.id), challenge)) else SubmitFailed)
    else
      (GuestOutcome(auth, subs, memberInsertOk), if memberInsertOk then Succeeded(EarnedPoints(memberCompleted, challenge)) else SubmitFailed)
  }
}
