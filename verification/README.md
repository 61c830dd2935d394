# NextTick core in Dafny

NextTick is a React Native to-do app for one local user. The user registers, logs in, and keeps a list of time-bounded tasks. Everything lives on the device in AsyncStorage. The app stores two things: a JSON array under `"tasks"` and one user record under `"user"`.

This project models the rules behind the screens. The persisted state is a two-slot key/value store. Next to it sit the current navigation route and the in-memory copies each screen keeps. Every handler is a pure transition on that state (`AppState.State`). Each AsyncStorage call gets a success flag, because any of them can throw.

- `Text`: the JavaScript whitespace class, shared by `String.prototype.trim` and the regex class `\s`, and `trim` itself.
- `Email`: the email and password checks. The login and registration screens define them word for word the same, so they are modelled once. `isEmailValid` is the unanchored regular expression `\S+@\S+\.\S+`. It is modelled as "some slice matches", and a linear scan is proved to decide it.
- `AppState`: tasks, the user record, routes, the new-task form, the store and the state record.
- `NewTask`: the ordered validation chain, then a read-append-write of the whole task list.
- `AllTasks`: loading the list into the screen's view, and deleting by filtering that view on `id !==` and writing it back.
- `Register`: the full-name sanitiser (filter to `[a-zA-Z ]`, then truncate to 30), the Register button's enablement, and the handler that writes `{fullName, email, password}`.
- `Login`: the Login button's enablement, and the two navigation handlers. Credentials are never checked against the stored record.
- `Info`: reading the user into the profile view, and logout.
- `Flows`: properties of handler sequences across screens.

Where the intended design and the code differ, the model follows the code:
- The title length limit is measured on the untrimmed title. Only the blankness test uses `trim`.
- Registration stores only `fullName`, `email` and `password`. Phone number, extension and date of birth are not stored.
- Deletion filters the screen's in-memory list, not the stored list. That list is loaded once, when the screen mounts. A task submitted later is therefore missing from it, and the next successful delete erases it from storage (`Flows.DeleteAfterSubmitDropsUnseenTask`).
- The handler's second `endTime < startTime` check repeats the first one. It can never fire (`NewTask.Validate`).

## Model

| member | source | states |
|---|---|---|
| Text.Trim | src/components/NewTask.tsx:37 | `trim` returns a contiguous slice of the title with only whitespace cut from either end, and the slice neither starts nor ends with whitespace |
| Text.TrimEmptyIffBlank | src/components/NewTask.tsx:37 | `!taskTitle.trim()` holds exactly when every character of the title is whitespace (the empty title included) |
| NewTask.Validate | src/components/NewTask.tsx:37-59 | the checks run in order and the first failure wins. A title that is blank or longer than 100 raw characters always gets the title message. The description message comes exactly when the title passes and the description exceeds 300. The end-before-start message comes exactly when both texts pass and end < start. The draft is accepted exactly when all three rules hold. The second end-before-start message is never produced |
| NewTask.SubmitTask | src/components/NewTask.tsx:61-89 | a rejection only sets the modal message. The store changes only when the draft is accepted and both the read and the write succeed. Then the stored list (empty if the key was absent) gains exactly one task at the end, earlier tasks keep their positions and values, the new task has the draft's untrimmed title, description and times and the supplied clock id, and the user slot is untouched. Navigation to the task list and the form reset happen only when the read-back also succeeds. An accepted draft never opens the modal, and the views never change |
| NewTask.SubmitKeepsIdsUnique | src/components/NewTask.tsx:61-75 | when no stored task carries the clock reading, the stored ids stay unique after a submit, whatever its outcome |
| NewTask.Message | src/components/NewTask.tsx:37-59 | the modal text of each check, exactly as the handler writes it, including the second end-before-start check's differently worded text |
| NewTask.MessagesDistinct | src/components/NewTask.tsx:37-59 | different rejections show different texts, so the modal names the check that failed |
| NewTask.PickStartTime | src/components/NewTask.tsx:117-121 | a picked time replaces the start time and a dismissed picker keeps it. No other field or part of the state changes |
| NewTask.PickEndTime | src/components/NewTask.tsx:123-127 | the same for the end time, leaving the start time alone |
| NewTask.TitleOfMaxLengthPasses | src/components/NewTask.tsx:37-41 | a non-blank title of exactly 100 characters passes the title check, whatever else the draft holds |
| NewTask.TitleOverMaxLengthRejected | src/components/NewTask.tsx:37-41 | a title of 101 characters is rejected with the title message even when it is not blank |
| NewTask.BlankTitleRejected | src/components/NewTask.tsx:37-41 | an empty or whitespace-only title is rejected with the title message, whatever the other fields hold |
| NewTask.DescriptionBoundary | src/components/NewTask.tsx:43-47 | once the title passes, a 300-character description passes and a 301-character one is rejected |
| NewTask.EqualTimesAccepted | src/components/NewTask.tsx:49-53 | equal start and end times are accepted when both texts pass |
| AllTasks.RemoveId | src/components/AllTasks.tsx:33 | no remaining task carries the id, and the length drops by exactly the number of tasks carrying it, so duplicates all go |
| AllTasks.RemoveIdCounts | src/components/AllTasks.tsx:33 | every task with another id survives as often as it occurred, and no task with the id survives |
| AllTasks.RemoveIdConcat | src/components/AllTasks.tsx:33 | filtering a concatenation gives the concatenation of the filtered parts |
| AllTasks.RemoveIdKeepsOrder | src/components/AllTasks.tsx:33 | two surviving tasks keep their relative order in the filtered list |
| AllTasks.RemoveIdUnchangedIff | src/components/AllTasks.tsx:33 | the filter returns the list unchanged exactly when no task carries the id |
| AllTasks.RemoveIdIdempotent | src/components/AllTasks.tsx:33 | filtering twice by the same id equals filtering once |
| AllTasks.RemoveIdFromInput | src/components/AllTasks.tsx:33 | every task the filter keeps is a task of the input |
| AllTasks.RemoveIdKeepsUnique | src/components/AllTasks.tsx:33 | if no two tasks shared an id before the filter, none do after it |
| AllTasks.CountIdOnlyAt | src/components/AllTasks.tsx:33 | with unique ids, a present id is carried by exactly one task |
| AllTasks.RemoveUniqueIdDropsOne | src/components/AllTasks.tsx:33 | with unique ids, deleting a present id removes exactly one task |
| AllTasks.LoadTasks | src/components/AllTasks.tsx:21-30 | a present "tasks" key replaces the view with the stored list. An absent key or a failed read leaves the state as it was. Nothing but the view ever changes: not storage, the route, the modal, the form or the profile view |
| AllTasks.DeleteTask | src/components/AllTasks.tsx:32-44 | after a successful write, the store and the view hold the same list: the old view filtered by `RemoveId`, so every task with another id is kept in its original order and every task with the id is gone. The modal, route, form and profile view never change. After a failed write the state is unchanged, the view included |
| AllTasks.LoadAbsentKeepsEmptyView | src/components/AllTasks.tsx:13-26 | right after launch the view is empty, and loading with the key absent keeps it empty |
| Email.IsEmailValid | src/screens/Login.tsx:27-30 | `emailRegex.test(input)` for the unanchored pattern `\S+@\S+\.\S+`: some slice of the input is a run of non-whitespace, an `@`, a run of non-whitespace, a `.` and a run of non-whitespace. The Register screen's copy is identical |
| Email.IsPasswordValid | src/screens/Register.tsx:48-50 | a password is valid when it has at least 8 characters. The Login screen's copy is identical |
| Email.EmailValidIffAtDot | src/screens/Register.tsx:43-46 | the unanchored pattern matches exactly when some `@` has a non-blank character before it, at least one non-blank character and then a `.` after it, and a non-blank character after that `.` |
| Email.EmailValidNeedsAtThenDot | src/screens/Register.tsx:43-46 | a valid email has at least five characters and contains an `@` followed, somewhere later, by a `.` |
| Email.NoAtNotValid | src/screens/Register.tsx:43-46 | a string without `@` is never valid |
| Email.NoDotAfterAtNotValid | src/screens/Register.tsx:43-46 | a string in which no `.` follows any `@` is never valid |
| Email.ValidExamples | src/screens/Register.tsx:43-46 | `"a@b.com"` is valid, and so is `"x a@b.c"`, because the pattern is not anchored |
| Email.InvalidExamples | src/screens/Register.tsx:43-46 | `"a @b.c"` and `"a@ b.c"` are invalid: whitespace next to the `@` breaks the only candidate match |
| Email.ScanEmail | src/screens/Login.tsx:27-30 | a single left-to-right pass returns true exactly when the pattern matches. It is a decision procedure of the model, proved to agree with the regular expression the screens test on every input |
| Register.KeepNameChars | src/screens/Register.tsx:82 | the filter leaves only letters and spaces and never lengthens the input |
| Register.KeepNameCharsCounts | src/screens/Register.tsx:82 | each letter and space of the input is kept as often as it occurs, and every other character disappears |
| Register.KeepNameCharsConcat | src/screens/Register.tsx:82 | the filter distributes over concatenation, so kept characters stay in input order |
| Register.KeepNameCharsIdentityIff | src/screens/Register.tsx:82 | the filter leaves a string unchanged exactly when it holds only letters and spaces |
| Register.KeepNameCharsDropsFront | src/screens/Register.tsx:82 | a leading character outside `[a-zA-Z ]` disappears without affecting the rest |
| Register.SanitizeFullName | src/screens/Register.tsx:80-84 | the sanitised name holds only ASCII letters and spaces and is at most 30 long. It is a prefix of the filtered input, and all of it when shorter than 30 |
| Register.SanitizeIdempotent | src/screens/Register.tsx:82 | sanitising twice equals sanitising once |
| Register.SanitizeIdentityIff | src/screens/Register.tsx:82 | the sanitiser is the identity exactly on strings of at most 30 letters and spaces |
| Register.FilterBeforeTruncate | src/screens/Register.tsx:82 | filtering happens before truncating. A stray character in front of 30 letters leaves all 30, where truncating first would keep only 29 |
| Register.EditFullName | src/screens/Register.tsx:80-84 | after an edit the full-name field holds the filtered input cut to its first 30 characters: a prefix of the filtered input, all of it when shorter than 30, only letters and spaces. Every other field of the form is untouched |
| Register.RegisterEnabled | src/screens/Register.tsx:251-255 | the Register button is enabled exactly when the email is valid, the password is valid and the confirmation equals the password |
| Register.HandleRegister | src/screens/Register.tsx:52-74 | a successful write overwrites the "user" slot with exactly `{fullName, email, password}` and routes to the login screen. A failed write keeps store and route and shows the error message. The tasks slot and the views never change |
| Register.PressRegister | src/screens/Register.tsx:250-255 | the button changes nothing unless the email is valid, the password has at least 8 characters and the confirmation equals it. When all three hold and the write succeeds, the record is stored and the route is the login screen, with the tasks slot, modal, form and views unchanged. When they hold and the write fails, only the error message is shown |
| Register.RegisterIgnoresContactFields | src/screens/Register.tsx:62-68 | phone number, extension and date of birth make no difference to registering |
| Register.StoredUserIsClean | src/screens/Register.tsx:64-68 | a user stored through the button from the sanitised name field has a clean name of at most 30 characters, a valid email and a password of at least 8 characters |
| Login.LoginEnabled | src/screens/Login.tsx:130 | the Login button is enabled exactly when the email is valid and the password is valid |
| Login.HandleLogin | src/screens/Login.tsx:36-39 | login always routes to the home tab and changes nothing else |
| Login.GoToRegister | src/screens/Login.tsx:41-43 | the register link always routes to the registration screen and leaves storage and views untouched |
| Login.PressLogin | src/screens/Login.tsx:124-130 | the Login button reaches the home tab exactly when the email matches the pattern and the password has at least 8 characters. Nothing but the route ever changes, and a disabled press changes nothing |
| Login.LoginIgnoresStoredUser | src/screens/Login.tsx:36-39 | the outcome of pressing Login is the same whatever user record is stored, or none |
| Info.FetchUser | src/components/Info.tsx:16-25 | a stored record becomes the view's user. An absent slot or a failed read leaves the state unchanged. Nothing but the profile view ever changes |
| Info.Logout | src/components/Info.tsx:27-35 | a successful removal empties the "user" slot, clears the view's user and routes to the login screen, keeping the tasks. The modal, form and task view never change. A failed removal changes nothing |
| Info.LogoutIdempotentOnStore | src/components/Info.tsx:29 | logging out twice leaves the store as logging out once |
| Info.FetchAfterLogoutFindsNobody | src/components/Info.tsx:16-35 | after a logout, no fetch brings a user back into the view |
| Flows.SubmitThenLoadShowsTask | src/components/NewTask.tsx:69-75 | after a successful submit, the next load shows a list one longer whose last task is the submitted one |
| Flows.DeleteAfterSubmitDropsUnseenTask | src/components/AllTasks.tsx:17-40 | a task submitted after the task-list view was loaded is missing from that view, so any later successful delete erases it from storage |
| Flows.DeleteAbsentIdKeepsList | src/components/AllTasks.tsx:32-44 | deleting an id no task carries leaves the view unchanged |
| Flows.DeleteTwiceSameAsOnce | src/components/AllTasks.tsx:32-44 | deleting the same id twice with successful writes ends in the same state as deleting it once |
| Flows.RegisterEnabledImpliesLoginEnabled | src/screens/Login.tsx:130 | any email and password that enable Register also enable Login |
| Flows.RegisterThenLogin | src/screens/Register.tsx:55 | registering lands on the login screen, not the home tab. Logging in with the same fields then reaches the home tab with the record stored |
| Flows.LoginAcceptsWrongPassword | src/screens/Login.tsx:36-39 | a stored user with a different password does not stop well-shaped fields from reaching the home tab |
| Flows.RegisterThenLogout | src/components/Info.tsx:27-35 | logging out after registering leaves the store as it was before, with the "user" slot empty, and routes to the login screen |

## Left out

- String lengths: JavaScript counts UTF-16 code units, while the model counts characters. A title with characters outside the Basic Multilingual Plane is therefore longer in the app than in the model.
- AsyncStorage and JSON: both are foreign code. A slot holds the decoded value, and a failed call is a `false` flag. A stored value that fails to parse is not modelled.
- Time: `Date.now()` and `new Date()` become integer parameters (`id`, `now`). Invalid dates (NaN) are not modelled.
- Interleaving: handlers run one at a time in the model, so the lost update between overlapping read-modify-write calls is not modelled. It is a concurrency effect.
- Lifecycle: the effects that run on mount (loading tasks, fetching the user) are explicit transitions that the caller invokes.
- Logs: the `console.log`/`console.error` output is not modelled.
- Field messages: the on-blur modals of the email, password and confirmation fields are presentation only. So are closing a modal, the password visibility toggle, animations and styles.
- Password reset: the link opens an external URL, a foreign call with no effect on the state.
- Logout button: it is only rendered while a user is shown. `Info.Logout` itself does not require that.
- Profile display: phone number, extension and date of birth are rendered by the profile screen but never stored, so those fields render empty.
- Navigation: `navigate(name)` is taken to reach the screen of that name. As wired, `src/App.tsx` registers only "Login" in its stack navigator and mounts no tab navigator, so `navigate('Home')` and `navigate('Register')` from the login screen have no registered target. `Login.HandleLogin`, `Login.GoToRegister`, `NewTask.SubmitTask`, `Flows.RegisterThenLogin` and the other flows rely on this assumption.
- Startup: no handler in `src/App.tsx` or the screens chooses the starting route from the stored user. The home screen's greeting only reads `fullName`. `src/App.tsx` and `src/navigation/TabBase.tsx` only wire up navigators.
- Not modelled: date formatting and day-count helpers, and deleting all tasks.
- Task ids: they are not forced to be unique. Two tasks created within the same millisecond share an id, and deletion removes both. Uniqueness is proved only for a clock reading that no stored task carries (`NewTask.SubmitKeepsIdsUnique`).
