# DevRank client core in Dafny

DevRank is a coding-challenge site: a challenge list with search and filters, a challenge
page with a small code editor and a Submit button, favourites, a task history with badges,
and sign-in through a backend or as an offline "guest" whose account and submissions live
in browser storage. This project models the client logic behind those pages as pure Dafny
functions and proves what the pages promise about it.

- `wrappers.dfy` (`Wrappers`): `Option` and JavaScript's `x || fallback` on strings.
- `strings.dfy` (`Strings`): the string operations the pages rely on, with JavaScript's meaning.
  These are `trim` and `\s` over the ECMAScript whitespace set, `split` and `join` on one character,
  `includes`, `indexOf` and ASCII `toLowerCase`.
- `seqs.dfy` (`Seqs`): `filter`, subsequences, `indexOf` on lists, and `[...new Set(xs)]`.
- `editor.dfy` (`CodeEditor`): the editor's key handler is a function. It maps the text, the
  selection and the key to either "browser default" or a new text and selection. `Press`
  combines it with the browser's own behaviour.
- `challenges.dfy` (`Challenges`): the challenge record, list filtering, the category menu and
  clearing the filters.
- `favorites.dfy` (`Favorites`): the favourites list in storage, the heart toggle and the
  favourites page.
- `badges.dfy` (`Badges`): badge thresholds, the task-history badge card and the points total.
- `auth.dfy` (`Auth`): the session context for nobody, a guest or a member. Each backend call
  is a parameter: the operation receives the outcome the backend would report.
- `forms.dfy` (`Forms`): the sign-in and sign-up forms, their field checks, and the return
  path after signing in.
- `detail.dfy` (`ChallengeDetail`): starter-code cleanup, the Submit gate, the points earned,
  and the guest submission log with its profile update.
- `app.dfy` (`GuestApp`): the whole session as a sequence of events, with the invariant that a
  guest's profile summarises the guest's submission log.

Storage (`localStorage`) is modelled as plain values: the stored guest record inside the
auth state, and the submission log next to it. The challenge page computes "already
completed" from the log when it loads. When the flag is set, the page renders no Submit
button at all: "View Your Submission" takes its place. Otherwise Submit is disabled once a
submission went through. The model reads the flag from the log at the moment Submit is
pressed, which agrees with a single open page. The confirmation dialog for a re-submission
is kept as the source writes it, although the page does not offer Submit in that case.

## Model

| member | source | states |
|---|---|---|
| CodeEditor.HandleKeyDown | src/components/CodeEditor.jsx:26-141 | The selection it installs lies inside the new text. The browser default is kept exactly for other keys, for Backspace outside an empty pair, and for a typed character that opens no pair and is not a listed closer sitting right after the cursor. |
| CodeEditor.TabInsertsTwoSpaces | src/components/CodeEditor.jsx:32-43 | Tab replaces the selection by two spaces. The cursor ends after them and the text on both sides is kept. |
| CodeEditor.OpenerInsertsPair | src/components/CodeEditor.jsx:45-72 | With no selection, each of the six openers inserts itself and its closer. The cursor ends between them and the rest of the text is unchanged. |
| CodeEditor.OpenerWrapsSelection | src/components/CodeEditor.jsx:45-61 | An opener typed over a selection wraps it in the pair. The new selection covers exactly the old selected text. |
| CodeEditor.SkipOverIff | src/components/CodeEditor.jsx:76-88 | A typed key only moves the cursor iff it is `)`, `]` or `}` and the same character follows the cursor. Quotes never get there. |
| CodeEditor.EnterKeepsIndent | src/components/CodeEditor.jsx:90-121 | Enter outside brackets inserts a line break plus the current line's leading whitespace. The new line's indentation equals the old one. |
| CodeEditor.EnterBetweenBrackets | src/components/CodeEditor.jsx:98-109 | Enter between an opening and a closing bracket opens a line indented two more spaces with the cursor on it. The closing side moves to a line with the original indentation. |
| CodeEditor.IndentIsBlank | src/components/CodeEditor.jsx:93-94 | The indentation taken from the cursor's line is whitespace without a line break. |
| CodeEditor.BackspaceDeletesPairIff | src/components/CodeEditor.jsx:123-140 | Backspace deletes two characters iff there is no selection and the cursor sits between an opener and its own closer. Those two characters are what it deletes. |
| CodeEditor.BackspaceUndoesPair | src/components/CodeEditor.jsx:62-72 | Typing an opener and then Backspace gives back the original text and cursor. |
| CodeEditor.BracketPairTransparent | src/components/CodeEditor.jsx:45-88 | Typing `(` then `)` (likewise `[]` and `{}`) gives the same text and cursor as plain typing of both characters. |
| CodeEditor.LineCount | src/components/CodeEditor.jsx:179 | The gutter shows as many rows as the text has line breaks plus one, but at least 20. |
| CodeEditor.QuoteDoublesAsWritten | src/components/CodeEditor.jsx:45-88 | Typing `"` twice into an empty editor leaves four quotes, where plain typing leaves two. The corrected handler leaves two. |
| CodeEditor.SkipOverIffFixed | src/components/CodeEditor.jsx:76-88 | Corrected handler: a key only moves the cursor iff it is one of the six listed closers, the same character follows, and for a quote nothing is selected. |
| CodeEditor.PairTransparentFixed | src/components/CodeEditor.jsx:45-88 | Corrected handler: auto-closing is transparent for all six openers, quotes included. |
| Strings.TrimEmptyIffBlank | src/pages/ChallengeDetailPage.jsx:202 | `!s.trim()` holds exactly for strings made only of whitespace. |
| Strings.ContainsIffOccurs | src/pages/ChallengesPage.jsx:51-53 | `includes` holds iff the needle occurs at some position. |
| Strings.JoinSplit | src/pages/ChallengeDetailPage.jsx:61-75 | Joining the pieces of a split gives back the text. |
| Strings.SplitJoin | src/pages/ChallengeDetailPage.jsx:61-75 | Splitting the joined lines gives the lines back when none holds the separator. |
| Strings.SplitLength | src/components/CodeEditor.jsx:179 | `split` gives one more piece than there are separators. |
| Strings.LastPieceIsSuffix | src/components/CodeEditor.jsx:93 | `split('\n').pop()` is a suffix without line breaks that begins the text or follows a line break. |
| Seqs.Dedup | src/pages/ChallengesPage.jsx:35 | `[...new Set(xs)]` holds each element of `xs` once, nothing else, in order of first occurrence. |
| Seqs.DistinctCountIsDedup | src/pages/ChallengesPage.jsx:35 | The recursive distinct count equals the size of the de-duplicated list. |
| Seqs.FilterKeeps | src/pages/ChallengesPage.jsx:45-68 | A filtered list keeps order and holds exactly the elements that pass. Each passing element keeps its number of copies, and no failing one remains. |
| Challenges.FilterChallenges | src/pages/ChallengesPage.jsx:45-68 | A challenge is listed iff it was loaded and passes the reference tests `Shown` for search, difficulty and category. |
| Challenges.FilterIsConjunction | src/pages/ChallengesPage.jsx:45-68 | The three successive filters equal one filter by the conjunction of search, difficulty and category. An empty query or `'All'` switches its test off. |
| Challenges.FilteredIsOrderedSelection | src/pages/ChallengesPage.jsx:45-68 | The shown list keeps the loaded order, and holds exactly the challenges that pass all three tests. |
| Challenges.FilteredMatchesChoices | src/pages/ChallengesPage.jsx:49-65 | Every listed challenge matches the chosen difficulty, the chosen category and the query. |
| Challenges.FilterChallengesIdempotent | src/pages/ChallengesPage.jsx:45-68 | Filtering again with the same criteria changes nothing. |
| Challenges.ClearFilters | src/pages/ChallengesPage.jsx:83-87 | After clearing, every challenge list is shown in full. |
| Challenges.CategoryMenu | src/pages/ChallengesPage.jsx:35 | The menu starts with `'All'`, contains every loaded category, and lists no category twice. |
| Challenges.CategoryMenuOrder | src/pages/ChallengesPage.jsx:35 | After `'All'`, the menu holds only loaded categories, in order of first appearance. |
| Favorites.RemoveById | src/pages/FavoritesPage.jsx:29-33 | The id is gone and the order of the rest is kept. Every entry with another id stays, as many times as it occurred. |
| Favorites.IsFavoriteIffRemovable | src/pages/ChallengeDetailPage.jsx:132-137 | `some` and `filter` agree: the heart is on iff removing the id would change the stored list. |
| Favorites.RemoveTwice | src/pages/FavoritesPage.jsx:29-33 | Removing an id twice is removing it once. |
| Favorites.ToggleFavorite | src/pages/ChallengeDetailPage.jsx:139-153 | The flag flips. Un-favouriting drops every entry with the id and keeps every other entry, with its number of copies, in order. Favouriting appends the challenge and keeps the rest. |
| Favorites.ToggleKeepsFlagTrue | src/pages/ChallengeDetailPage.jsx:132-153 | If the heart matched storage before a toggle, it matches after. |
| Favorites.ToggleTwiceRestores | src/pages/ChallengeDetailPage.jsx:139-153 | Favouriting then un-favouriting a challenge restores the stored list. |
| Favorites.RemoveFavorite | src/pages/FavoritesPage.jsx:29-33 | The page shows and stores the same list. It lacks the removed id and keeps every other entry as many times as before. |
| Favorites.RemovalPersists | src/pages/FavoritesPage.jsx:15-33 | Reloading after a removal shows the same list, and the challenge page no longer marks that id as a favourite. |
| Badges.GetBadge | src/pages/TaskHistoryPage.jsx:46-78 | The card's badge uses the same thresholds as the challenge page. Only Expert has no next level. |
| Badges.BadgeFor | src/pages/ChallengeDetailPage.jsx:298-302 | The badge is on the ladder Beginner, Intermediate, Advanced, Expert. It is the highest badge whose floor the points reach. |
| Badges.BadgeProgress | src/pages/TaskHistoryPage.jsx:46-78 | Below Expert, the next level is above the points and is the floor of the next badge up. Progress is the percentage from the badge's floor to that level, in [0, 100) for non-negative totals. |
| Badges.ExpertIsFull | src/pages/TaskHistoryPage.jsx:47-54 | From 200 points the card is Expert with no next level and a full bar. |
| Badges.ProgressShownIffBelowExpert | src/pages/TaskHistoryPage.jsx:137 | The progress block renders exactly below 200 points. |
| Badges.BadgeMonotone | src/pages/ChallengeDetailPage.jsx:298-302 | More points never give a lower badge. |
| Badges.TotalPointsIsSum | src/pages/TaskHistoryPage.jsx:40-43 | The left fold from 0 is the sum of the tasks' points. |
| Auth.Restore | src/contexts/AuthContext.jsx:48-79 | A stored guest is restored first. Otherwise a backend session makes the user a member. Otherwise nothing changes. Storage is untouched. |
| Auth.RestoreGuestFirst | src/contexts/AuthContext.jsx:52-62 | With a guest stored, the backend's session makes no difference. |
| Auth.RestoreValid | src/contexts/AuthContext.jsx:48-79 | After restoring, the context agrees with storage. |
| Auth.LoginAsGuest | src/contexts/AuthContext.jsx:96-117 | The user becomes a guest whose stored record is the shown profile, with 0 points, 0 completions and the Beginner badge. It always succeeds. |
| Auth.Login | src/contexts/AuthContext.jsx:119-153 | Offline it fails with the offline message. A backend failure reports the mapped message and changes nothing. It succeeds iff online and signed in, and then drops the stored guest. |
| Auth.LoginErrorText | src/contexts/AuthContext.jsx:146-151 | The backend's "Invalid login credentials" is never shown. Only that text is rewritten, to "Invalid email or password". Every other message, the empty one included, passes through. |
| Auth.Register | src/contexts/AuthContext.jsx:155-202 | Like `Login`, except that a sign-up awaiting confirmation succeeds with the confirmation message and changes nothing. |
| Auth.RegisterErrorText | src/contexts/AuthContext.jsx:195-200 | The backend's "User already registered" is never shown. Only that text is rewritten, to "This email is already registered". Every other message passes through. |
| Auth.ErrorTextsSettled | src/contexts/AuthContext.jsx:146-151 | Mapping an error text twice is mapping it once, for sign-in and sign-up alike. |
| Auth.OfflineIgnoresBackend | src/contexts/AuthContext.jsx:121-126 | Offline, sign-in and sign-up give the same answer whatever the backend would say. |
| Auth.Logout | src/contexts/AuthContext.jsx:204-224 | A guest and a member signed out successfully both end unauthenticated, and a guest's stored record is removed. A throwing sign-out leaves everything as it was. |
| Auth.MergeNothing | src/contexts/AuthContext.jsx:233 | An update naming no key changes nothing. |
| Auth.MergeCompose | src/contexts/AuthContext.jsx:233 | Two updates in a row equal one update by their spread combination. Repeating an update changes nothing more. |
| Auth.MergeChangesOnlyNamed | src/contexts/AuthContext.jsx:233 | A key the update does not name keeps its old value. |
| Auth.UpdateGuestProfile | src/contexts/AuthContext.jsx:226-239 | Outside guest mode nothing changes. In guest mode the stored record and the shown profile both become the merged profile. It keeps the context in agreement with storage. |
| Auth.OperationsKeepValid | src/contexts/AuthContext.jsx:119-224 | Login, register and logout keep the context in agreement with storage. |
| Forms.ReturnPath | src/pages/LoginPage.jsx:27 | A non-empty origin path is returned as given. A missing or empty one gives `/`. The result is never empty. |
| Forms.CheckRegister | src/pages/RegisterPage.jsx:32-45 | Any empty field gives the fill-in error. `register` is called iff all fields are filled, the passwords match and it has at least 6 characters. |
| Forms.RegisterCheckOrder | src/pages/RegisterPage.jsx:37-45 | A mismatch is reported before a short password. Six characters are enough. |
| Forms.SubmitLogin | src/pages/LoginPage.jsx:29-47 | Empty fields show the fill-in error with nothing changed. Offline shows the offline message. Navigating means the user is now a member. |
| Forms.LoginOutcomes | src/pages/LoginPage.jsx:29-47 | The page navigates iff both fields are filled, the browser is online and the backend signs in. Otherwise it shows a non-empty reason and the context is unchanged. |
| Forms.FailedLoginShows | src/pages/LoginPage.jsx:42-46 | A rejected sign-in never shows the backend's raw credentials text. It shows the fallback iff the backend said nothing, said that, or used the fallback's words, and otherwise the backend's message. |
| Forms.EmptyFieldsNeverReachBackend | src/pages/LoginPage.jsx:33-36 | With an empty field, the backend's answer makes no difference. |
| Forms.SubmitRegister | src/pages/RegisterPage.jsx:27-60 | Rejected fields show that error with nothing changed. A sign-up awaiting confirmation shows the confirmation text. Navigating means the user is now a member. |
| Forms.RegisterOutcomes | src/pages/RegisterPage.jsx:27-60 | The page navigates iff the fields pass the checks, the browser is online and the backend signs up at once. Every error leaves the context unchanged and shows a non-empty text. |
| Forms.FailedRegisterShows | src/pages/RegisterPage.jsx:51-59 | A rejected sign-up never shows the raw "User already registered". It shows the registered-address text for that case only, the fallback iff the backend said nothing or used the fallback's words, and otherwise the backend's message. |
| Forms.GuestLogin | src/pages/LoginPage.jsx:49-52 | The user becomes a valid guest and is sent to the return path. |
| ChallengeDetail.CleanStarterCodeLines | src/pages/ChallengeDetailPage.jsx:59-80 | The cleaned code is the kept lines joined by line breaks, and splitting it gives those lines back. The first line is kept cut after its first `{`, or dropped when it is marked or empty. Later lines are kept iff non-empty and unmarked. |
| ChallengeDetail.CleanStarterCode | src/pages/ChallengeDetailPage.jsx:59-80 | Missing or empty starter code gives an empty editor. The cleaned text has no empty line unless it is empty. |
| ChallengeDetail.CleanedAreKept | src/pages/ChallengeDetailPage.jsx:61-75 | Cleaning each line and dropping empty ones equals the reference selection of kept lines. |
| ChallengeDetail.FirstLineKept | src/pages/ChallengeDetailPage.jsx:64-67 | A first line with a `{` survives, cut just after the first `{`. |
| ChallengeDetail.LaterLinesKept | src/pages/ChallengeDetailPage.jsx:59-80 | In the cleaned code, the lines after the cut first line are exactly the original later lines that are non-empty and unmarked, in their original order. |
| ChallengeDetail.SubmitGate | src/pages/ChallengeDetailPage.jsx:189-226 | Login is required iff signed out. An empty solution is reported iff signed in with a blank solution. Confirmation is asked iff a non-blank solution was already completed. Otherwise it submits. |
| ChallengeDetail.SubmissionNeedsUserAndCode | src/pages/ChallengeDetailPage.jsx:189-226 | A submission runs iff the user is signed in, the solution is not blank, and the challenge is new or the user confirmed. |
| ChallengeDetail.FindCompleted | src/pages/ChallengeDetailPage.jsx:103-106 | A record is found iff the log has a completed record for the challenge. The record found is the first such record, as `find` returns. |
| ChallengeDetail.HandleGuestSubmission | src/pages/ChallengeDetailPage.jsx:267-310 | The log grows by one record, which earns 0 if the challenge was completed before. A repeat leaves the profile alone. A first completion adds the points, counts one more completion and recomputes the badge. |
| ChallengeDetail.SecondSubmissionAwardsNothing | src/pages/ChallengeDetailPage.jsx:267-310 | Submitting the same challenge a second time changes no profile and logs 0 points. |
| ChallengeDetail.SubmitSolution | src/pages/ChallengeDetailPage.jsx:228-265 | A member's state is untouched. It succeeds iff the guest or member path finished, and then reports 0 points for a repeat and the challenge's points otherwise. |
| GuestApp.LogSubmissionKeepsLog | src/pages/ChallengeDetailPage.jsx:273-288 | Logging keeps every record completed and awards a challenge's points at most once. |
| GuestApp.LogSubmissionSummary | src/pages/ChallengeDetailPage.jsx:273-308 | The logged points and the number of distinct challenges grow by the challenge exactly when it is new to the log. |
| GuestApp.CompletedIffLogged | src/pages/ChallengeDetailPage.jsx:94-110 | On a log of completed records, a challenge counts as completed iff its id was logged. |
| GuestApp.Submit | src/pages/ChallengeDetailPage.jsx:189-226 | Pressing Submit never changes who is signed in. Only a guest's submission touches the log, and it appends at most one record. |
| GuestApp.Step | src/contexts/AuthContext.jsx:96-224 | No event shortens the submission log. Every event other than Submit leaves it as it is. |
| GuestApp.GuestSubmitKeepsConsistent | src/pages/ChallengeDetailPage.jsx:267-310 | A guest submission keeps the guest's profile equal to the log's summary. |
| GuestApp.SubmitKeepsConsistent | src/pages/ChallengeDetailPage.jsx:189-310 | Pressing Submit keeps the invariant, whatever the gate decides. |
| GuestApp.StepFixedKeepsConsistent | src/contexts/AuthContext.jsx:96-117 | With a guest login that starts an empty log, every event keeps the invariant. |
| GuestApp.RunFixedConsistent | src/pages/ChallengeDetailPage.jsx:267-310 | With the correction, any event history keeps the invariant: points are awarded once per challenge and a guest's profile totals the log. |
| GuestApp.FreshBrowserConsistent | src/contexts/AuthContext.jsx:48-79 | From a fresh browser, every corrected history ends consistent. |
| GuestApp.RunKeepsLog | src/pages/ChallengeDetailPage.jsx:267-310 | As written, over every history, records stay completed and each challenge's points are logged at most once. |
| GuestApp.SessionFromStart | src/pages/ChallengeDetailPage.jsx:267-310 | Counted from an empty log, the within-session invariant is the full one. |
| GuestApp.StepKeepsSession | src/contexts/AuthContext.jsx:96-117 | Every event keeps the within-session invariant. A guest login restarts the count at the end of the log. |
| GuestApp.RunKeepsSession | src/pages/ChallengeDetailPage.jsx:267-310 | As written, over every history, a guest's profile totals the points and the distinct challenges logged since the last guest login, and its badge follows its points. |
| GuestApp.FreshBrowserSession | src/contexts/AuthContext.jsx:48-79 | From a fresh browser, every history as written keeps the within-session invariant. |
| GuestApp.GuestRelogin | src/contexts/AuthContext.jsx:96-117 | Logging out and in again as a guest gives a zero-point profile. The log is kept as written, and is empty with the correction. |
| GuestApp.NewGuestInheritsLog | src/pages/ChallengeDetailPage.jsx:94-110 | As written, after a guest completes a challenge and logs out and a new guest logs in, the challenge already counts as completed, so its page shows no Submit button. The new profile holds 0 points while the log credits the challenge. The full invariant fails; the one counted from the second login holds. |
| GuestApp.NewGuestEarnsWhenFixed | src/contexts/AuthContext.jsx:96-117 | With the correction, the same history followed by the new guest's Submit gives that guest the challenge's points. |

## Left out

- `highlightSyntax` and the editor's scroll sync are presentation only. The cursor placement via `setTimeout` is modelled as the selection the handler installs.
- Time-based values (`Date.now()`, ISO timestamps, locale date formatting) are parameters or dropped from the records.
- The backend is not modelled. Sign-in, sign-up, sign-out, session lookup and the profile read are outcome parameters. A member's submission insert and their earlier completion are booleans.
- The backend's auth-change listener (src/contexts/AuthContext.jsx:28-37) is left out as an event. It never acts while a guest record is stored. With a session it sets the member and fetches the profile, as `Restore`'s member branch does. With a null session it clears the user and the profile, which is `Auth.Logout(_, SignedOut)` for a member. The model reaches that transition only through the explicit logout event, so a sign-out coming from the backend (token expiry, another tab) is not an event of `GuestApp.Step`.
- Points, `totalPoints` and `completedChallenges` are JavaScript doubles in the source and unbounded `int` here. `SumPoints`, `LogSubmission` and `HandleGuestSubmission` rely on exact addition, which the doubles give only below 2^53.
- Challenges.Challenge: loaded challenges are assumed to have non-null `title`, `description` and `category`. In the source a row with a null `description` or `category` throws in the search filter (ChallengesPage.jsx:50-52) whenever the title does not match, and the model has no such throw.
- The challenge and submission service modules, the mock pages (easy, medium, hard, home, profile) and the presentational components are not part of this model.
- Colours and icons of badges and difficulties are left out as presentation.
- Malformed JSON in storage is left out. The stored values are modelled as already parsed.
- `parseInt(id)` on the route is left out: the route id is taken to equal the loaded challenge's id.
- Online and offline browser events are left out; `offline` is a field of the state.
- Strings.Lower: lower-cases ASCII letters only, while JavaScript's `toLowerCase` covers all of Unicode.
- Strings.IsSpace: a `char` is a Unicode scalar value, so a surrogate pair is one character here and two code units in JavaScript. The whitespace set itself is exact.
- CodeEditor.HandleKeyDown: offsets count Unicode scalar values, while the browser's selection offsets count UTF-16 code units. The two agree only on text without characters outside the Basic Multilingual Plane.
- Forms.CheckRegister: `password.length` counts UTF-16 code units in JavaScript and scalar values here. A password of three characters outside the Basic Multilingual Plane passes the page's check but not the model's.
- CodeEditor.BrowserDefault: named keys other than Tab, Enter and Backspace (arrows, Delete, Home) leave the text and selection unchanged. Their browser behaviour is not modelled.
- GuestApp.Submit: reads "already completed" from the log when Submit is pressed, while the page reads it once on load. Two pages open on the same challenge can both show Submit and both award the points; that race between pages is not modelled.
- Badges.GetBadge: progress is an exact rational, not a floating-point number.
- ChallengeDetail.SubmitSolution: a member's submission is reduced to the two booleans the backend would report.

## Findings

| source | as written | input that shows it | evidently intended | confidence | as-written member | corrected member |
|---|---|---|---|---|---|---|
| src/components/CodeEditor.jsx:45-88 | Quotes are both openers and skip keys. The opener branch runs first, so a quote never steps over an existing closing quote. | In an empty editor type `"` then `"`: the text is `""""` with the cursor at 2, not `""` | A quote typed right before the same quote, with nothing selected, only moves the cursor, as the skip list says | high (proved; not executed) | CodeEditor.QuoteDoublesAsWritten | CodeEditor.PairTransparentFixed |
| src/pages/ChallengeDetailPage.jsx:94-110 | The guest submission log is neither cleared on logout nor on a new guest login. A new guest sees the old guest's challenges as already completed. The page offers no Submit for them, so the new guest can never earn their points. | Guest logs in and completes a 10-point challenge, logs out, and a new guest logs in: the challenge shows as completed with no Submit button, and the new profile holds 0 points while the log credits 10 | Each guest's completions and points start from nothing, and the profile totals the log | medium (proved; not executed) | GuestApp.NewGuestInheritsLog | GuestApp.RunFixedConsistent |
