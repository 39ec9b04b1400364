/** The session state of the application (`AuthContext`): no user, a guest whose account
    lives in browser storage, or a member signed in with the backend. Backend calls are
    parameters: each operation is given the outcome the backend would report. */
module Auth {
  import opened Wrappers
  import opened Badges

  datatype Profile = Profile(name: string, points: int, badge: string, completedChallenges: int, createdAt: string)

  /** The keys passed to `updateGuestProfile`; `None` means the key is absent. */
  datatype ProfileUpdate = ProfileUpdate(
    name: Option<string>,
    points: Option<int>,
    badge: Option<string>,
    completedChallenges: Option<int>,
    createdAt: Option<string>)

  /** The guest record kept in storage under `devrank_guest`. */
  datatype GuestRecord = GuestRecord(id: string, email: string, profile: Profile)

  datatype MemberUser = MemberUser(id: string, email: string)

  /** Who `user` is: nobody, the guest, or a backend member. `isGuest` is `GuestAccount?`. */
  datatype Account = NoAccount | GuestAccount(id: string, email: string) | MemberAccount(user: MemberUser)

  /** The context's state plus the guest record in storage (`None` when no key is stored). */
  datatype AuthState = AuthState(account: Account, profile: Option<Profile>, storedGuest: Option<GuestRecord>, offline: bool) {
    predicate IsGuest() {
      account.GuestAccount?
    }

    /** `isAuthenticated: !!user`. */
    predicate IsAuthenticated() {
      !account.NoAccount?
    }
  }

  /** What `login`, `register` and `loginAsGuest` return to the pages. */
  datatype AuthResult = AuthResult(success: bool, isGuest: bool, error: Option<string>, message: Option<string>)

  /** Backend outcomes, in the shapes the context distinguishes. `fetched` is the profile row
      read after signing in, or `None` when that read failed. */
  datatype Session = NoSession | Session(user: MemberUser, fetched: Option<Profile>)
  datatype SignIn = SignInFailed(message: string) | SignedIn(user: MemberUser, fetched: Option<Profile>)
  datatype SignUp = SignUpFailed(message: string) | AwaitingConfirmation | SignedUp(user: MemberUser, fetched: Option<Profile>)
  datatype SignOut = SignedOut | SignOutThrew

  const OfflineMessage := "You are offline. Please try Guest Mode or connect to the internet."
  const ConfirmEmailMessage := "Please check your email to confirm your account"
  const GuestEmail := "guest@local"

  /** The state before the stored session is restored. */
  function Initial(storedGuest: Option<GuestRecord>, offline: bool): AuthState {
    AuthState(NoAccount, None, storedGuest, offline)
  }

  /** The context's state agrees with storage: a guest's record is stored and is the profile
      shown; when nobody is a guest, no guest record is stored. */
  predicate Valid(s: AuthState) {
    match s.account
    case GuestAccount(id, email) =>
      s.storedGuest.Some? && s.storedGuest.value.id == id && s.storedGuest.value.email == email
      && s.profile == Some(s.storedGuest.value.profile)
    case _ => s.storedGuest.None?
  }

  /** `fetchUserProfile`: the fetched row replaces the profile; a failed read keeps the old one. */
  function FetchProfile(current: Option<Profile>, fetched: Option<Profile>): Option<Profile> {
    if fetched.Some? then fetched else current
  }

  /** `checkUser`: a stored guest wins; otherwise a backend session is restored; otherwise nothing changes. */
  function Restore(s: AuthState, session: Session): (t: AuthState)
    ensures t.storedGuest == s.storedGuest && t.offline == s.offline
    ensures s.storedGuest.Some? ==> t.IsGuest() && t.profile == Some(s.storedGuest.value.profile)
    ensures s.storedGuest.None? && session.Session? ==> t.account == MemberAccount(session.user)
    ensures s.storedGuest.None? && session.NoSession? ==> t == s
  {
    match s.storedGuest
    case Some(g) => s.(account := GuestAccount(g.id, g.email), profile := Some(g.profile))
    case None =>
      match session
      case NoSession => s
      case Session(u, fetched) => s.(account := MemberAccount(u), profile := FetchProfile(s.profile, fetched))
  }

  /** A stored guest takes precedence over whatever session the backend holds. */
  lemma RestoreGuestFirst(s: AuthState, a: Session, b: Session)
    requires s.storedGuest.Some?
    ensures Restore(s, a) == Restore(s, b)
  {
  }

  /** Restoring from the initial state gives a state that agrees with storage. */
  lemma RestoreValid(storedGuest: Option<GuestRecord>, offline: bool, session: Session)
    ensures Valid(Restore(Initial(storedGuest, offline), session))
  {
  }

  /** The profile a new guest starts with. */
  function NewGuestProfile(createdAt: string): Profile {
    Profile("Guest User", 0, "Beginner", 0, createdAt)
  }

  /** `loginAsGuest`; `stamp` stands for `Date.now()` and `createdAt` for the ISO timestamp. */
  function LoginAsGuest(s: AuthState, stamp: string, createdAt: string): (r: (AuthState, AuthResult))
    ensures r.0.IsGuest() && Valid(r.0)
    ensures r.0.profile.Some? && r.0.profile.value.points == 0 && r.0.profile.value.completedChallenges == 0
    ensures r.0.profile.value.badge == "Beginner" == BadgeFor(r.0.profile.value.points)
    ensures r.1.success && r.1.isGuest
    ensures r.0.offline == s.offline
  {
    var g := GuestRecord("guest-" + stamp, GuestEmail, NewGuestProfile(createdAt));
    (AuthState(GuestAccount(g.id, g.email), Some(g.profile), Some(g), s.offline), AuthResult(true, true, None, None))
  }

  /** The message shown for a failed sign-in: the backend's wording for bad credentials is
      never shown, any other message (the empty one included) is shown as it came. */
  function LoginErrorText(message: string): (r: string)
    ensures r != "Invalid login credentials"
    ensures r != message ==> r == "Invalid email or password"
    ensures message != "Invalid login credentials" ==> r == message
    ensures r == "" <==> message == ""
  {
    if message == "Invalid login credentials" then "Invalid email or password" else message
  }

  /** The message shown for a failed sign-up: the backend's wording for a taken address is
      never shown, any other message is shown as it came. */
  function RegisterErrorText(message: string): (r: string)
    ensures r != "User already registered"
    ensures r != message ==> r == "This email is already registered"
    ensures message != "User already registered" ==> r == message
    ensures r == "" <==> message == ""
  {
    if message == "User already registered" then "This email is already registered" else message
  }

  /** Mapping an error text twice is mapping it once: a shown text is already in its final
      wording. */
  lemma ErrorTextsSettled(message: string)
    ensures LoginErrorText(LoginErrorText(message)) == LoginErrorText(message)
    ensures RegisterErrorText(RegisterErrorText(message)) == RegisterErrorText(message)
  {
  }

  function Failure(error: string): AuthResult {
    AuthResult(false, false, Some(error), None)
  }

  /** `login`: offline fails at once; a backend failure reports the mapped message; success
      drops the stored guest and makes the user a member. */
  function Login(s: AuthState, email: string, password: string, outcome: SignIn): (r: (AuthState, AuthResult))
    ensures s.offline ==> r == (s, Failure(OfflineMessage))
    ensures !s.offline && outcome.SignInFailed? ==> r == (s, Failure(LoginErrorText(outcome.message)))
    ensures r.1.success <==> !s.offline && outcome.SignedIn?
    ensures r.1.success ==> r.0.account == MemberAccount(outcome.user) && r.0.storedGuest.None?
  {
    if s.offline then (s, Failure(OfflineMessage))
    else
      match outcome
      case SignInFailed(m) => (s, Failure(LoginErrorText(m)))
      case SignedIn(u, fetched) =>
        (s.(account := MemberAccount(u), storedGuest := None, profile := FetchProfile(s.profile, fetched)),
         AuthResult(true, false, None, None))
  }

  /** `register`: like `login`, except that a sign-up awaiting e-mail confirmation succeeds
      with a message and changes nothing. */
  function Register(s: AuthState, name: string, email: string, password: string, outcome: SignUp): (r: (AuthState, AuthResult))
    ensures s.offline ==> r == (s, Failure(OfflineMessage))
    ensures !s.offline && outcome.SignUpFailed? ==> r == (s, Failure(RegisterErrorText(outcome.message)))
    ensures !s.offline && outcome.AwaitingConfirmation? ==> r == (s, AuthResult(true, false, None, Some(ConfirmEmailMessage)))
    ensures r.1.success <==> !s.offline && !outcome.SignUpFailed?
    ensures !s.offline && outcome.SignedUp? ==> r.0.account == MemberAccount(outcome.user) && r.0.storedGuest.None?
  {
    if s.offline then (s, Failure(OfflineMessage))
    else
      match outcome
      case SignUpFailed(m) => (s, Failure(RegisterErrorText(m)))
      case AwaitingConfirmation => (s, AuthResult(true, false, None, Some(ConfirmEmailMessage)))
      case SignedUp(u, fetched) =>
        (s.(account := MemberAccount(u), storedGuest := None, profile := FetchProfile(s.profile, fetched)),
         AuthResult(true, false, None, None))
  }

  /** Offline, `login` and `register` never look at the backend: any outcome gives the same answer. */
  lemma OfflineIgnoresBackend(s: AuthState, email: string, password: string, name: string,
                              a: SignIn, b: SignIn, c: SignUp, d: SignUp)
    requires s.offline
    ensures Login(s, email, password, a) == Login(s, email, password, b)
    ensures Register(s, name, email, password, c) == Register(s, name, email, password, d)
  {
  }

  /** `logout`: a guest is dropped together with the stored record; a member is signed out
      (if the sign-out call throws, the catch leaves the state as it was). */
  function Logout(s: AuthState, outcome: SignOut): (t: AuthState)
    ensures s.IsGuest() || outcome.SignedOut? ==>
      t.account == NoAccount && t.profile == None && !t.IsGuest() && !t.IsAuthenticated()
    ensures s.IsGuest() ==> t.storedGuest == None
    ensures !s.IsGuest() && outcome.SignOutThrew? ==> t == s
  {
    if s.IsGuest() then s.(account := NoAccount, profile := None, storedGuest := None)
    else if outcome.SignedOut? then s.(account := NoAccount, profile := None)
    else s
  }

  /** `{ ...profile, ...updates }`. */
  function Merge(p: Profile, u: ProfileUpdate): (q: Profile)
    ensures q.name == u.name.GetOr(p.name)
    ensures q.points == u.points.GetOr(p.points)
    ensures q.badge == u.badge.GetOr(p.badge)
    ensures q.completedChallenges == u.completedChallenges.GetOr(p.completedChallenges)
    ensures q.createdAt == u.createdAt.GetOr(p.createdAt)
  {
    Profile(u.name.GetOr(p.name), u.points.GetOr(p.points), u.badge.GetOr(p.badge),
            u.completedChallenges.GetOr(p.completedChallenges), u.createdAt.GetOr(p.createdAt))
  }

  /** An update that names no key changes nothing. */
  lemma MergeNothing(p: Profile)
    ensures Merge(p, ProfileUpdate(None, None, None, None, None)) == p
  {
  }

  /** `{ ...u, ...v }`: the keys of `v`, and those of `u` that `v` does not name. */
  function Combine(u: ProfileUpdate, v: ProfileUpdate): ProfileUpdate {
    ProfileUpdate(
      if v.name.Some? then v.name else u.name,
      if v.points.Some? then v.points else u.points,
      if v.badge.Some? then v.badge else u.badge,
      if v.completedChallenges.Some? then v.completedChallenges else u.completedChallenges,
      if v.createdAt.Some? then v.createdAt else u.createdAt)
  }

  /** Two updates in a row are one update by their combination, and repeating an update
      changes nothing more. */
  lemma MergeCompose(p: Profile, u: ProfileUpdate, v: ProfileUpdate)
    ensures Merge(Merge(p, u), v) == Merge(p, Combine(u, v))
    ensures Merge(Merge(p, u), u) == Merge(p, u)
  {
  }

  /** A key the update does not name keeps its old value: only named keys can change. */
  lemma MergeChangesOnlyNamed(p: Profile, u: ProfileUpdate)
    ensures Merge(p, u).name != p.name ==> u.name.Some?
    ensures Merge(p, u).points != p.points ==> u.points.Some?
    ensures Merge(p, u).badge != p.badge ==> u.badge.Some?
    ensures Merge(p, u).completedChallenges != p.completedChallenges ==> u.completedChallenges.Some?
    ensures Merge(p, u).createdAt != p.createdAt ==> u.createdAt.Some?
  {
  }

  /** `updateGuestProfile`: outside guest mode it only warns; in guest mode it merges the
      update into the stored record and shows the result. `None` stands for the exception
      raised when the stored record has disappeared. */
  function UpdateGuestProfile(s: AuthState, u: ProfileUpdate): (r: Option<AuthState>)
    ensures !s.IsGuest() ==> r == Some(s)
    ensures s.IsGuest() && s.storedGuest.Some? ==>
      var g := s.storedGuest.value;
      r == Some(s.(storedGuest := Some(g.(profile := Merge(g.profile, u))), profile := Some(Merge(g.profile, u))))
    ensures Valid(s) ==> r.Some? && Valid(r.value)
  {
    if !s.IsGuest() then Some(s)
    else if s.storedGuest.None? then None
    else
      var g := s.storedGuest.value;
      var merged := Merge(g.profile, u);
      Some(s.(storedGuest := Some(g.(profile := merged)), profile := Some(merged)))
  }

  /** Every operation keeps the context in agreement with storage. */
  lemma OperationsKeepValid(s: AuthState, email: string, password: string, name: string,
                            a: SignIn, c: SignUp, o: SignOut)
    requires Valid(s)
    ensures Valid(Login(s, email, password, a).0)
    ensures Valid(Register(s, name, email, password, c).0)
    ensures Valid(Logout(s, o))
  {
  }
}
