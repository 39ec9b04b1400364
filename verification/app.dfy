/** The guest's points over a whole session history: the session context, the guest
    submission log in storage, and the challenge page's Submit button, driven by a
    sequence of user events. The log outlives logging out and logging in again. */
module GuestApp {
  import opened Wrappers
  import opened Seqs
  import Strings
  import opened Badges
  import opened Challenges
  import Auth
  import opened ChallengeDetail

  /** The session context together with the guest submission log. */
  datatype App = App(auth: Auth.AuthState, subs: seq<GuestSubmission>)

  /** What the user (or the browser) does; backend outcomes travel with the event. */
  datatype Event =
    | Reload(session: Auth.Session)
    | GuestLogin(stamp: string, createdAt: string)
    | MemberLogin(email: string, password: string, signIn: Auth.SignIn)
    | MemberRegister(name: string, email: string, password: string, signUp: Auth.SignUp)
    | Logout(signOut: Auth.SignOut)
    | PressSubmit(challenge: Challenge, solution: string, confirmed: bool, memberCompleted: bool, memberInsertOk: bool)

  /** A fresh browser: nobody signed in, nothing stored. */
  function Init(offline: bool): App {
    App(Auth.Initial(None, offline), [])
  }

  /** Pressing Submit on a challenge page: the gate, then (when it lets the submission
      through, or the user confirms a re-submission) `submitSolution`. */
  function Submit(a: App, challenge: Challenge, solution: string, confirmed: bool, memberCompleted: bool, memberInsertOk: bool): (r: App)
    ensures a.subs <= r.subs && |r.subs| <= |a.subs| + 1
    ensures r.auth.account == a.auth.account
    ensures !a.auth.IsGuest() ==> r == a
  {
    var already := if a.auth.IsGuest() then IsCompleted(a.subs, challenge.id) else memberCompleted;
    var gate := SubmitGate(a.auth.IsAuthenticated(), solution, already);
    if SubmissionRuns(gate, confirmed) then
      var out := SubmitSolution(a.auth, a.subs, challenge, solution, memberCompleted, memberInsertOk).0;
      App(out.auth, out.subs)
    else a
  }

  /** One event, as the application handles it today: a guest login leaves the log alone. */
  function Step(a: App, e: Event): (r: App)
    ensures a.subs <= r.subs && |r.subs| <= |a.subs| + 1
    ensures !e.PressSubmit? ==> r.subs == a.subs
  {
    match e
    case Reload(session) => App(Auth.Restore(Auth.Initial(a.auth.storedGuest, a.auth.offline), session), a.subs)
    case GuestLogin(stamp, at) => App(Auth.LoginAsGuest(a.auth, stamp, at).0, a.subs)
    case MemberLogin(email, password, o) => App(Auth.Login(a.auth, email, password, o).0, a.subs)
    case MemberRegister(name, email, password, o) => App(Auth.Register(a.auth, name, email, password, o).0, a.subs)
    case Logout(o) => App(Auth.Logout(a.auth, o), a.subs)
    case PressSubmit(ch, sol, confirmed, mc, ok) => Submit(a, ch, sol, confirmed, mc, ok)
  }

  function Run(a: App, events: seq<Event>): App
    decreases |events|
  {
    if |events| == 0 then a else Run(Step(a, events[0]), events[1..])
  }

  /** Challenge ids of the log, in order. */
  function Ids(subs: seq<GuestSubmission>): seq<int> {
    if |subs| == 0 then [] else Ids(subs[..|subs| - 1]) + [subs[|subs| - 1].challengeId]
  }

  /** Points recorded in the log. */
  function LoggedPoints(subs: seq<GuestSubmission>): int {
    if |subs| == 0 then 0 else LoggedPoints(subs[..|subs| - 1]) + subs[|subs| - 1].points
  }

  /** Only the first record of a challenge carries points. */
  predicate AwardedOnce(subs: seq<GuestSubmission>) {
    forall i, j :: 0 <= i < j < |subs| && subs[i].challengeId == subs[j].challengeId ==> subs[j].points == 0
  }

  predicate AllCompleted(subs: seq<GuestSubmission>) {
    forall i :: 0 <= i < |subs| ==> subs[i].status == "completed"
  }

  /** The guest's profile is the log's summary: its points are the points logged, its
      count is the number of distinct challenges logged, its badge follows its points. */
  predicate Summarises(p: Auth.Profile, subs: seq<GuestSubmission>) {
    && p.points == LoggedPoints(subs)
    && p.completedChallenges == DistinctCount(Ids(subs))
    && p.badge == BadgeFor(p.points)
  }

  /** The invariant of the intended design: storage agrees with the context, points are
      awarded at most once per challenge, and a guest's profile summarises the log. */
  predicate Consistent(a: App) {
    && Auth.Valid(a.auth)
    && AllCompleted(a.subs)
    && AwardedOnce(a.subs)
    && (a.auth.IsGuest() ==> Summarises(a.auth.profile.value, a.subs))
  }

  lemma {:induction false} IdsMembership(subs: seq<GuestSubmission>, id: int)
    ensures id in Ids(subs) <==> exists i :: 0 <= i < |subs| && subs[i].challengeId == id
    decreases |subs|
  {
    if |subs| > 0 {
      var init := subs[..|subs| - 1];
      IdsMembership(init, id);
      if id in Ids(init) {
        var i :| 0 <= i < |init| && init[i].challengeId == id;
        assert subs[i] == init[i];
      }
      if exists i :: 0 <= i < |subs| && subs[i].challengeId == id {
        var i :| 0 <= i < |subs| && subs[i].challengeId == id;
        if i < |subs| - 1 {
          assert init[i] == subs[i];
        }
      }
    }
  }

  /** `checkIfCompleted` on a log of completed records: a challenge counts as completed
      exactly when its id was logged. */
  lemma CompletedIffLogged(subs: seq<GuestSubmission>, id: int)
    requires AllCompleted(subs)
    ensures IsCompleted(subs, id) <==> id in Ids(subs)
  {
    IdsMembership(subs, id);
  }

  /** Logging one more record extends the ids and the points by that record. */
  lemma LogAppend(subs: seq<GuestSubmission>, r: GuestSubmission)
    ensures Ids(subs + [r]) == Ids(subs) + [r.challengeId]
    ensures LoggedPoints(subs + [r]) == LoggedPoints(subs) + r.points
  {
    assert (subs + [r])[..|subs|] == subs;
  }

  /** Logging a guest submission keeps every record completed and awards a challenge's
      points at most once. */
  lemma LogSubmissionKeepsLog(subs: seq<GuestSubmission>, ch: Challenge, sol: string)
    requires AllCompleted(subs) && AwardedOnce(subs)
    ensures var logged := subs + [NewRecord(ch, sol, IsCompleted(subs, ch.id))];
      AllCompleted(logged) && AwardedOnce(logged)
  {
    var already := IsCompleted(subs, ch.id);
    var logged := subs + [NewRecord(ch, sol, already)];
    forall i, j | 0 <= i < j < |logged| && logged[i].challengeId == logged[j].challengeId
      ensures logged[j].points == 0
    {
      if j == |subs| {
        assert logged[i] == subs[i];
        assert already;
      } else {
        assert logged[i] == subs[i] && logged[j] == subs[j];
      }
    }
  }

  /** Logging a guest submission extends the log's summary by the challenge exactly when
      the challenge is new to the log. */
  lemma LogSubmissionSummary(subs: seq<GuestSubmission>, ch: Challenge, sol: string)
    requires AllCompleted(subs)
    ensures var already := IsCompleted(subs, ch.id);
      var logged := subs + [NewRecord(ch, sol, already)];
      && LoggedPoints(logged) == LoggedPoints(subs) + (if already then 0 else ch.points)
      && DistinctCount(Ids(logged)) == DistinctCount(Ids(subs)) + (if already then 0 else 1)
  {
    var already := IsCompleted(subs, ch.id);
    var r := NewRecord(ch, sol, already);
    LogAppend(subs, r);
    DistinctCountSnoc(Ids(subs), ch.id);
    IdsMembership(subs, ch.id);
    assert already <==> ch.id in Ids(subs);
  }

  /** The profile a guest submission leaves behind summarises the extended log. */
  lemma SummaryAfterSubmission(p: Auth.Profile, subs: seq<GuestSubmission>, ch: Challenge, sol: string)
    requires AllCompleted(subs) && Summarises(p, subs)
    ensures var already := IsCompleted(subs, ch.id);
      var q := if already then p
               else p.(points := p.points + ch.points, completedChallenges := p.completedChallenges + 1,
                       badge := BadgeFor(p.points + ch.points));
      Summarises(q, subs + [NewRecord(ch, sol, already)])
  {
    LogSubmissionSummary(subs, ch, sol);
  }

  /** A guest's submission keeps the invariant. */
  lemma GuestSubmitKeepsConsistent(a: App, ch: Challenge, sol: string)
    requires Consistent(a) && a.auth.IsGuest()
    ensures var out := HandleGuestSubmission(a.auth, a.subs, ch, sol);
      Consistent(App(out.auth, out.subs))
  {
    var out := HandleGuestSubmission(a.auth, a.subs, ch, sol);
    assert out.subs == a.subs + [NewRecord(ch, sol, IsCompleted(a.subs, ch.id))];
    LogSubmissionKeepsLog(a.subs, ch, sol);
    SummaryAfterSubmission(a.auth.profile.value, a.subs, ch, sol);
  }

  /** A submission keeps the invariant. */
  lemma SubmitKeepsConsistent(a: App, ch: Challenge, sol: string, confirmed: bool, mc: bool, ok: bool)
    requires Consistent(a)
    ensures Consistent(Submit(a, ch, sol, confirmed, mc, ok))
  {
    var already := if a.auth.IsGuest() then IsCompleted(a.subs, ch.id) else mc;
    var gate := SubmitGate(a.auth.IsAuthenticated(), sol, already);
    if SubmissionRuns(gate, confirmed) && a.auth.IsGuest() {
      GuestSubmitKeepsConsistent(a, ch, sol);
    }
  }

  /** The corrected handling of a guest login: a new guest starts with an empty log. */
  function StepFixed(a: App, e: Event): App {
    match e
    case GuestLogin(stamp, at) => App(Auth.LoginAsGuest(a.auth, stamp, at).0, [])
    case _ => Step(a, e)
  }

  function RunFixed(a: App, events: seq<Event>): App
    decreases |events|
  {
    if |events| == 0 then a else RunFixed(StepFixed(a, events[0]), events[1..])
  }

  /** Every corrected step keeps the invariant. */
  lemma StepFixedKeepsConsistent(a: App, e: Event)
    requires Consistent(a)
    ensures Consistent(StepFixed(a, e))
  {
    match e
    case PressSubmit(ch, sol, confirmed, mc, ok) =>
      SubmitKeepsConsistent(a, ch, sol, confirmed, mc, ok);
    case Reload(session) =>
      Auth.RestoreValid(a.auth.storedGuest, a.auth.offline, session);
    case MemberLogin(email, password, o) =>
      Auth.OperationsKeepValid(a.auth, email, password, "", o, Auth.AwaitingConfirmation, Auth.SignedOut);
    case MemberRegister(name, email, password, o) =>
      Auth.OperationsKeepValid(a.auth, email, password, name, Auth.SignInFailed(""), o, Auth.SignedOut);
    case Logout(o) =>
      Auth.OperationsKeepValid(a.auth, "", "", "", Auth.SignInFailed(""), Auth.AwaitingConfirmation, o);
    case GuestLogin(stamp, at) =>
  }

  /** Points are awarded at most once per challenge: from a fresh browser, whatever happens,
      the log credits each challenge once and a guest's profile totals exactly the log. */
  lemma {:induction false} RunFixedConsistent(a: App, events: seq<Event>)
    requires Consistent(a)
    ensures Consistent(RunFixed(a, events))
    decreases |events|
  {
    if |events| > 0 {
      StepFixedKeepsConsistent(a, events[0]);
      RunFixedConsistent(StepFixed(a, events[0]), events[1..]);
    }
  }

  lemma FreshBrowserConsistent(offline: bool, events: seq<Event>)
    ensures Consistent(RunFixed(Init(offline), events))
  {
    RunFixedConsistent(Init(offline), events);
  }

  /** A fresh guest's first submission of a challenge earns its points. */
  lemma FirstGuestSubmission(a: App, stamp: string, at: string, ch: Challenge, sol: string, fixed: bool)
    requires (fixed || a.subs == []) && !Strings.IsBlank(sol)
    ensures var g := if fixed then StepFixed(a, GuestLogin(stamp, at)) else Step(a, GuestLogin(stamp, at));
      var b := Step(g, PressSubmit(ch, sol, false, false, false));
      && b.auth.IsGuest() && Auth.Valid(b.auth)
      && b.auth.profile.value.points == ch.points && b.subs == [NewRecord(ch, sol, false)]
  {
    var g := if fixed then StepFixed(a, GuestLogin(stamp, at)) else Step(a, GuestLogin(stamp, at));
    assert g.subs == [] && g.auth.profile.value.points == 0;
    assert !IsCompleted(g.subs, ch.id);
  }

  /** Logging out and in again as a guest: a new zero-point profile. The log stays as it was
      (as written) or starts empty (corrected). */
  lemma GuestRelogin(a: App, stamp: string, at: string, fixed: bool)
    requires Auth.Valid(a.auth) && a.auth.IsGuest()
    ensures var b := Step(a, Logout(Auth.SignedOut));
      var c := if fixed then StepFixed(b, GuestLogin(stamp, at)) else Step(b, GuestLogin(stamp, at));
      && c.auth.IsGuest() && Auth.Valid(c.auth) && c.auth.profile == Some(Auth.NewGuestProfile(at))
      && c.subs == (if fixed then [] else a.subs)
  {
  }

  /** Every step as written keeps the log sound: records are completed and each challenge's
      points are logged at most once. */
  lemma StepKeepsLog(a: App, e: Event)
    requires AllCompleted(a.subs) && AwardedOnce(a.subs)
    ensures AllCompleted(Step(a, e).subs) && AwardedOnce(Step(a, e).subs)
  {
    if e.PressSubmit? && a.auth.IsGuest() {
      var already := IsCompleted(a.subs, e.challenge.id);
      if SubmissionRuns(SubmitGate(true, e.solution, already), e.confirmed) {
        assert Step(a, e).subs == a.subs + [NewRecord(e.challenge, e.solution, already)];
        LogSubmissionKeepsLog(a.subs, e.challenge, e.solution);
      }
    }
  }

  /** As written, whatever happens, the log stays sound: no challenge's points are logged twice. */
  lemma {:induction false} RunKeepsLog(a: App, events: seq<Event>)
    requires AllCompleted(a.subs) && AwardedOnce(a.subs)
    ensures AllCompleted(Run(a, events).subs) && AwardedOnce(Run(a, events).subs)
    decreases |events|
  {
    if |events| > 0 {
      StepKeepsLog(a, events[0]);
      RunKeepsLog(Step(a, events[0]), events[1..]);
    }
  }

  /** The guest's profile totals the part of the log written since the guest logged in; the
      first `mark` records were there before. */
  predicate SummarisesSince(p: Auth.Profile, subs: seq<GuestSubmission>, mark: nat)
    requires mark <= |subs|
  {
    && p.points == LoggedPoints(subs) - LoggedPoints(subs[..mark])
    && p.completedChallenges == DistinctCount(Ids(subs)) - DistinctCount(Ids(subs[..mark]))
    && p.badge == BadgeFor(p.points)
  }

  /** What the application as written keeps: storage agrees with the context, the log is
      sound, and a guest's profile totals the log since that guest's login at `mark`. */
  predicate SessionConsistent(a: App, mark: nat) {
    && Auth.Valid(a.auth)
    && AllCompleted(a.subs)
    && AwardedOnce(a.subs)
    && mark <= |a.subs|
    && (a.auth.IsGuest() ==> SummarisesSince(a.auth.profile.value, a.subs, mark))
  }

  /** Where the current guest's part of the log begins: a guest login moves it to the end. */
  function MarkAfter(a: App, mark: nat, e: Event): nat {
    if e.GuestLogin? then |a.subs| else mark
  }

  /** The log's length at the last guest login of the history (`mark` when there is none). */
  function RunMark(a: App, mark: nat, events: seq<Event>): nat
    decreases |events|
  {
    if |events| == 0 then mark else RunMark(Step(a, events[0]), MarkAfter(a, mark, events[0]), events[1..])
  }

  /** Without an earlier guest session, the within-session invariant is the full one. */
  lemma SessionFromStart(a: App)
    ensures SessionConsistent(a, 0) <==> Consistent(a)
  {
    assert a.subs[..0] == [];
  }

  /** A guest's submission keeps the profile totalling the log since the login. */
  lemma GuestSubmitKeepsSession(a: App, mark: nat, ch: Challenge, sol: string)
    requires SessionConsistent(a, mark) && a.auth.IsGuest()
    ensures var out := HandleGuestSubmission(a.auth, a.subs, ch, sol);
      SessionConsistent(App(out.auth, out.subs), mark)
  {
    var already := IsCompleted(a.subs, ch.id);
    var out := HandleGuestSubmission(a.auth, a.subs, ch, sol);
    var logged := a.subs + [NewRecord(ch, sol, already)];
    assert out.subs == logged;
    assert logged[..mark] == a.subs[..mark];
    LogSubmissionKeepsLog(a.subs, ch, sol);
    LogSubmissionSummary(a.subs, ch, sol);
  }

  /** Every event as written keeps the within-session invariant, with the mark moved to the
      log's end by a guest login. */
  lemma StepKeepsSession(a: App, mark: nat, e: Event)
    requires SessionConsistent(a, mark)
    ensures SessionConsistent(Step(a, e), MarkAfter(a, mark, e))
  {
    match e
    case GuestLogin(stamp, at) =>
      assert a.subs[..|a.subs|] == a.subs;
    case PressSubmit(ch, sol, confirmed, mc, ok) =>
      SubmitKeepsSession(a, mark, ch, sol, confirmed, mc, ok);
    case _ =>
      AccountEventKeepsSession(a, mark, e);
  }

  /** Pressing Submit keeps the within-session invariant. */
  lemma SubmitKeepsSession(a: App, mark: nat, ch: Challenge, sol: string, confirmed: bool, mc: bool, ok: bool)
    requires SessionConsistent(a, mark)
    ensures SessionConsistent(Submit(a, ch, sol, confirmed, mc, ok), mark)
  {
    var already := IsCompleted(a.subs, ch.id);
    if a.auth.IsGuest() && SubmissionRuns(SubmitGate(true, sol, already), confirmed) {
      GuestSubmitKeepsSession(a, mark, ch, sol);
    }
  }

  /** Reloading, signing in, signing up and signing out keep the within-session invariant. */
  lemma AccountEventKeepsSession(a: App, mark: nat, e: Event)
    requires SessionConsistent(a, mark) && !e.GuestLogin? && !e.PressSubmit?
    ensures SessionConsistent(Step(a, e), mark)
  {
    match e
    case Reload(session) =>
      Auth.RestoreValid(a.auth.storedGuest, a.auth.offline, session);
    case MemberLogin(email, password, o) =>
      Auth.OperationsKeepValid(a.auth, email, password, "", o, Auth.AwaitingConfirmation, Auth.SignedOut);
    case MemberRegister(name, email, password, o) =>
      Auth.OperationsKeepValid(a.auth, email, password, name, Auth.SignInFailed(""), o, Auth.SignedOut);
    case Logout(o) =>
      Auth.OperationsKeepValid(a.auth, "", "", "", Auth.SignInFailed(""), Auth.AwaitingConfirmation, o);
  }

  /** As written, over every history, a guest's profile totals exactly the points and
      challenges logged since the last guest login. */
  lemma {:induction false} RunKeepsSession(a: App, mark: nat, events: seq<Event>)
    requires SessionConsistent(a, mark)
    ensures SessionConsistent(Run(a, events), RunMark(a, mark, events))
    decreases |events|
  {
    if |events| > 0 {
      StepKeepsSession(a, mark, events[0]);
      RunKeepsSession(Step(a, events[0]), MarkAfter(a, mark, events[0]), events[1..]);
    }
  }

  /** From a fresh browser, every history as written keeps the within-session invariant. */
  lemma FreshBrowserSession(offline: bool, events: seq<Event>)
    ensures SessionConsistent(Run(Init(offline), events), RunMark(Init(offline), 0, events))
  {
    SessionFromStart(Init(offline));
    RunKeepsSession(Init(offline), 0, events);
  }

  /** Running a history extended by one event is running the history, then the event. */
  lemma {:induction false} RunSnoc(a: App, events: seq<Event>, e: Event)
    ensures Run(a, events + [e]) == Step(Run(a, events), e)
    decreases |events|
  {
    if |events| > 0 {
      assert (events + [e])[1..] == events[1..] + [e];
      RunSnoc(Step(a, events[0]), events[1..], e);
    } else {
      assert events + [e] == [e];
    }
  }

  lemma {:induction false} RunFixedSnoc(a: App, events: seq<Event>, e: Event)
    ensures RunFixed(a, events + [e]) == StepFixed(RunFixed(a, events), e)
    decreases |events|
  {
    if |events| > 0 {
      assert (events + [e])[1..] == events[1..] + [e];
      RunFixedSnoc(StepFixed(a, events[0]), events[1..], e);
    } else {
      assert events + [e] == [e];
    }
  }

  /** A four-event history is its four steps in turn. */
  lemma RunFour(a: App, e0: Event, e1: Event, e2: Event, e3: Event)
    ensures Run(a, [e0, e1, e2, e3]) == Step(Step(Step(Step(a, e0), e1), e2), e3)
  {
    RunSnoc(a, [], e0);
    RunSnoc(a, [e0], e1);
    RunSnoc(a, [e0, e1], e2);
    RunSnoc(a, [e0, e1, e2], e3);
    assert [] + [e0] == [e0] && [e0] + [e1] == [e0, e1] && [e0, e1] + [e2] == [e0, e1, e2];
    assert [e0, e1, e2] + [e3] == [e0, e1, e2, e3];
  }

  /** A five-event corrected history is its five steps in turn. */
  lemma RunFixedFive(a: App, e0: Event, e1: Event, e2: Event, e3: Event, e4: Event)
    ensures RunFixed(a, [e0, e1, e2, e3, e4]) == StepFixed(StepFixed(StepFixed(StepFixed(StepFixed(a, e0), e1), e2), e3), e4)
  {
    RunFixedSnoc(a, [], e0);
    RunFixedSnoc(a, [e0], e1);
    RunFixedSnoc(a, [e0, e1], e2);
    RunFixedSnoc(a, [e0, e1, e2], e3);
    RunFixedSnoc(a, [e0, e1, e2, e3], e4);
    assert [] + [e0] == [e0] && [e0] + [e1] == [e0, e1] && [e0, e1] + [e2] == [e0, e1, e2];
    assert [e0, e1, e2] + [e3] == [e0, e1, e2, e3] && [e0, e1, e2, e3] + [e4] == [e0, e1, e2, e3, e4];
  }

  /** A guest whose profile shows fewer points than the log credits breaks the invariant. */
  lemma PointsBehindLog(a: App)
    requires a.auth.IsGuest() && a.auth.profile.Some?
    requires a.auth.profile.value.points < LoggedPoints(a.subs)
    ensures !Consistent(a)
  {
  }

  /** A new guest facing a log that already credits a challenge: the challenge counts as
      completed, the log credits its points while the profile holds none, so the full
      invariant fails and only the one counted from the login holds. */
  lemma FreshGuestOverOldLog(a: App, ch: Challenge, sol: string, at: string)
    requires ch.points > 0 && a.subs == [NewRecord(ch, sol, false)]
    requires a.auth.IsGuest() && Auth.Valid(a.auth) && a.auth.profile == Some(Auth.NewGuestProfile(at))
    ensures IsCompleted(a.subs, ch.id) && LoggedPoints(a.subs) == ch.points
    ensures !Consistent(a) && SessionConsistent(a, 1)
  {
    var rec := NewRecord(ch, sol, false);
    assert IsCompleted(a.subs, ch.id) by { assert a.subs[0] == rec; }
    LogAppend([], rec);
    assert [] + [rec] == [rec];
    PointsBehindLog(a);
    assert a.subs[..1] == a.subs;
  }

  /** As written, a second guest inherits the first guest's log: one guest completes a
      challenge and logs out, the next guest logs in, and straight away the challenge counts
      as completed (its page offers no Submit button) while the new profile holds 0 points
      and the log credits the challenge's points. Only the within-session invariant, counted
      from the second login, still holds. */
  lemma NewGuestInheritsLog(ch: Challenge, sol: string, s1: string, t1: string, s2: string, t2: string)
    requires ch.points > 0 && !Strings.IsBlank(sol)
    ensures var events := [GuestLogin(s1, t1), PressSubmit(ch, sol, false, false, false), Logout(Auth.SignedOut),
                           GuestLogin(s2, t2)];
      var a := Run(Init(false), events);
      && a.auth.IsGuest() && a.auth.profile.Some? && a.auth.profile.value.points == 0
      && IsCompleted(a.subs, ch.id) && LoggedPoints(a.subs) == ch.points
      && !Consistent(a) && SessionConsistent(a, 1)
  {
    var e0 := GuestLogin(s1, t1);
    var e1 := PressSubmit(ch, sol, false, false, false);
    var e2 := Logout(Auth.SignedOut);
    var e3 := GuestLogin(s2, t2);
    FirstGuestSubmission(Init(false), s1, t1, ch, sol, false);
    var a2 := Step(Step(Init(false), e0), e1);
    GuestRelogin(a2, s2, t2, false);
    var a4 := Step(Step(a2, e2), e3);
    RunFour(Init(false), e0, e1, e2, e3);
    FreshGuestOverOldLog(a4, ch, sol, t2);
  }

  /** With the correction, the same history followed by the second guest's submission gives
      that guest the challenge's points. */
  lemma NewGuestEarnsWhenFixed(ch: Challenge, sol1: string, sol2: string, s1: string, t1: string, s2: string, t2: string)
    requires ch.points > 0 && !Strings.IsBlank(sol1) && !Strings.IsBlank(sol2)
    ensures var events := [GuestLogin(s1, t1), PressSubmit(ch, sol1, false, false, false), Logout(Auth.SignedOut),
                           GuestLogin(s2, t2), PressSubmit(ch, sol2, false, false, false)];
      var a := RunFixed(Init(false), events);
      && a.auth.IsGuest() && a.auth.profile.Some? && a.auth.profile.value.points == ch.points && a.subs == [NewRecord(ch, sol2, false)]
  {
    var e0 := GuestLogin(s1, t1);
    var e1 := PressSubmit(ch, sol1, false, false, false);
    var e2 := Logout(Auth.SignedOut);
    var e3 := GuestLogin(s2, t2);
    var e4 := PressSubmit(ch, sol2, false, false, false);
    RunFixedFive(Init(false), e0, e1, e2, e3, e4);
    FirstGuestSubmission(Init(false), s1, t1, ch, sol1, true);
    var f2 := StepFixed(StepFixed(Init(false), e0), e1);
    GuestRelogin(f2, s2, t2, true);
    var f3 := StepFixed(f2, e2);
    FirstGuestSubmission(f3, s2, t2, ch, sol2, true);
    var f4 := StepFixed(f3, e3);
    assert StepFixed(f4, e4) == Step(f4, e4);
  }
}
