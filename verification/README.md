# Task board client — a verified model of its screen logic

This project models, in Dafny, the pure logic inside the React client of a small
task-board application. The client has workspaces, boards and tasks, an admin
screen, and a login page with sign-up. Five pieces are modelled:

- **Board screen.** The board screen (`BoardViewWithCRUD.tsx`) covers:
  - the past-due flag;
  - the three-level task sort: past due first, then priority rank, then due date;
  - the list-view filters;
  - the status and category columns, including "Uncategorized";
  - the preferred order of the status columns;
  - the decision to scroll the columns;
  - the task form's category toggle, and the calls a save makes: the task, then the categories added and removed, stopping at the first failure;
  - the cap on category chips shown on a card;
  - the date input's pass-through of `YYYY-MM-DD` strings.
- **Admin screen.** The admin screen (`AdminManagement.tsx`) covers:
  - looking users up by username;
  - the workspace and board access dialogs: checkbox toggles, the username diff, and the "nothing changed" shortcut;
  - the local lists after a board is deleted;
  - the user form's ordered checks and the payload it sends;
  - the self-delete guard;
  - a user's status change.
- **Sign-up tab.** The sign-up tab of the login page (`LoginPage.tsx`) covers:
  - the nine checks, of which the first failure wins;
  - the request a valid form sends;
  - the classification of a server refusal into a message;
  - the screen after the attempt.
- **Top-level view switch.** The view switch in `App.tsx` covers:
  - the three browser-storage keys;
  - `persistView` and `restoreView`;
  - the start-up session check;
  - sign-in, sign-out, opening a board and going back;
  - the render decision.
- **HTTP helper.** The shared helper `ApiClient.ts` covers:
  - the base address and `buildUrl`;
  - which body is sent;
  - the `detail || message || default` error message, and the status an error carries.

Everything is modelled as immutable datatypes and pure functions:

- Time is an integer `now`.
- A due date is `Option<int>`, with `None` for a missing or unparseable date.
- Browser storage is a `map<string, string>`.
- Every server call is reduced to the request it would send and whether it succeeded, or to the reply it received. Calls awaited one after another stop at the first that throws.

Modules, in dependency order:

| file | module | contents |
|---|---|---|
| `options.dfy` | `Options` | `Option` |
| `seqs.dfy` | `Seqs` | filter, subsequence, dedup, toggle, set difference, calls made until the first failure |
| `sorting.dfy` | `Sorting` | insertion sort by a total preorder, with permutation and idempotence |
| `text.dfy` | `Text` | whitespace, `trim`, lower case, `includes`, decimal integers, `Number`, code-point order |
| `form_rules.dfy` | `FormRules` | the e-mail regular expression and the handle normalisation shared by both forms |
| `tasks.dfy` | `Tasks` | tasks, priorities, past-due flags, the sort comparator |
| `board_view.dfy` | `BoardView` | board screen derivations |
| `admin_access.dfy` | `AdminAccess` | admin screen |
| `sign_up.dfy` | `SignUp` | sign-up tab |
| `app_view.dfy` | `AppView` | view switch and storage |
| `api_client.dfy` | `ApiClient` | HTTP helper |

### Two different past-due tests

The board screen tests "past due" in two places, and the two tests differ. The sort compares the status with `'completed'` exactly (`react-client/src/components/BoardViewWithCRUD.tsx` lines 186-187). The card's red flag uses the case-insensitive `isCompletedStatus` (line 540). The model keeps both:

- `Tasks.PastDueForSort` is case-sensitive.
- `Tasks.PastDueOnCard` is case-insensitive.
- `Tasks.CapitalCompletedOnlyExemptOnCard` shows the consequence: an overdue task in status "Completed" sorts as past due but is not flagged on its card.

## Model

| member | source | states |
|---|---|---|
| `Seqs.SentUntilFailure` | react-client/src/components/AdminManagement.tsx:420-437 | Calls awaited in turn in one `try` are made up to and including the first that throws. Every call before the last one made succeeded, and all calls made succeed exactly when all planned ones would |
| `Tasks.ParsePriority` | react-client/src/components/BoardViewWithCRUD.tsx:192-193 | A priority string has a rank exactly when it is one of the four keys of the rank table; anything else is `Unknown` |
| `Tasks.Rank` | react-client/src/components/BoardViewWithCRUD.tsx:192-193 | The rank lookup yields no number (JavaScript's NaN) exactly for `Unknown`; known ranks lie below 4 |
| `Tasks.CardFlagImpliesSortFlag` | react-client/src/components/BoardViewWithCRUD.tsx:180-187 | A task flagged past due on its card is also past due for the sort |
| `Tasks.CapitalCompletedOnlyExemptOnCard` | react-client/src/components/BoardViewWithCRUD.tsx:180-187 | An overdue task whose status is "Completed" with a capital C is past due for the sort, yet not flagged on its card |
| `Tasks.MissingDateNeverPastDue` | react-client/src/components/BoardViewWithCRUD.tsx:176-178 | A missing or invalid due date is never past due, for the sort or on the card |
| `Tasks.Compare` | react-client/src/components/BoardViewWithCRUD.tsx:184-197 | A past-due task precedes a task that is not past due (-1), and the reverse gives 1. The comparator yields NaN exactly when both tasks share a past-due class and either priority is unknown, or the priorities are equal and either date is invalid |
| `Tasks.SortLeqAgreesWithCompare` | react-client/src/components/BoardViewWithCRUD.tsx:184-197 | The total order the model sorts by never puts a pair in the order the comparator numerically rejects |
| `Tasks.CompareAgreesWithSortLeq` | react-client/src/components/BoardViewWithCRUD.tsx:184-197 | Conversely, a pair the comparator numerically accepts is in the model's order. Where no NaN arises, the two orders are therefore the same |
| `Tasks.SortTasks` | react-client/src/components/BoardViewWithCRUD.tsx:184-199 | The sorted copy is a permutation of the input (same multiset, same length), ordered by the model's total order. That order extends the comparator: it is the comparator's order wherever a number comes back, and it places an unknown priority after low and a missing date after every date |
| `Tasks.SortTasksOrdered` | react-client/src/components/BoardViewWithCRUD.tsx:184-199 | When every two entries at different positions compare to a number, the sorted copy holds the same tasks and the comparator gives a number of at most 0 for every pair in it |
| `Tasks.SortTasksComparable` | react-client/src/components/BoardViewWithCRUD.tsx:184-199 | Sorting keeps every two entries comparable, since it only rearranges them |
| `Tasks.PastDueFirst` | react-client/src/components/BoardViewWithCRUD.tsx:186-190 | In the sorted list, every task before a past-due task is itself past due |
| `Tasks.PriorityOrderWithinClass` | react-client/src/components/BoardViewWithCRUD.tsx:192-195 | When every two entries compare to a number, the tasks of one past-due class have known priorities, in the order critical, high, medium, low |
| `Tasks.DueDateOrderWithinPriority` | react-client/src/components/BoardViewWithCRUD.tsx:195-197 | When every two entries compare to a number, the tasks of one past-due class and one priority all have valid dates, and the dates ascend |
| `Tasks.SortTasksIdempotent` | react-client/src/components/BoardViewWithCRUD.tsx:184-199 | Sorting an already sorted list gives the same list |
| `BoardView.ApplyListFilters` | react-client/src/components/BoardViewWithCRUD.tsx:217-233 | A task survives exactly when it passes the status filter ("all" or an equal status) and the category filter (an empty id list, or a category of the task whose id is listed). Survivors keep their multiplicity and order. With "all" and no ids, the input is returned unchanged |
| `BoardView.AnyCategoryIffPasses` | react-client/src/components/BoardViewWithCRUD.tsx:224-229 | Mapping the categories to ids and testing `some` is the same as asking whether the task has a category whose id is listed |
| `BoardView.ListView` | react-client/src/components/BoardViewWithCRUD.tsx:214-235 | The list view holds exactly the tasks passing the filters, each as often as on the board, and it stays in sorted order |
| `BoardView.TasksForStatus` | react-client/src/components/BoardViewWithCRUD.tsx:691-694 | A status column holds exactly the tasks whose status equals the column name, each as often as on the board, in sorted order |
| `BoardView.TasksForCategory` | react-client/src/components/BoardViewWithCRUD.tsx:696-707 | The "Uncategorized" column holds exactly the tasks with no or an empty category list. A category column holds exactly the tasks having a category with that id. Both keep multiplicities and are sorted |
| `BoardView.HasCategoryIdIff` | react-client/src/components/BoardViewWithCRUD.tsx:703-705 | The `some` test on the task's categories agrees with membership in the category column |
| `BoardView.CategoryFanOut` | react-client/src/components/BoardViewWithCRUD.tsx:703-706 | A task appears in the column of every category it has |
| `BoardView.UncategorizedExclusive` | react-client/src/components/BoardViewWithCRUD.tsx:697-706 | A task in the "Uncategorized" column is in no category column |
| `BoardView.CategoryColumnsCover` | react-client/src/components/BoardViewWithCRUD.tsx:696-707 | Every task of the board shows in some category column: "Uncategorized" when it has no categories, otherwise the column of its first category |
| `BoardView.StatusColumnsDisjoint` | react-client/src/components/BoardViewWithCRUD.tsx:691-694 | Status columns with different names share no task |
| `BoardView.PreferredIndexFrom` | react-client/src/components/BoardViewWithCRUD.tsx:300-305 | `findIndex` returns the first position of the preferred list that matches the name ignoring case, or -1 when none does |
| `BoardView.StatusLeqTotalPreorder` | react-client/src/components/BoardViewWithCRUD.tsx:299-312 | The status comparator is total and transitive, so the sort of the status columns is well defined |
| `BoardView.SortStatuses` | react-client/src/components/BoardViewWithCRUD.tsx:299-312 | The sorted statuses are a permutation of the board's statuses, and no adjacent or distant pair is out of the comparator's order |
| `BoardView.SortedStatusesLayout` | react-client/src/components/BoardViewWithCRUD.tsx:299-312 | Names matching "To Do", "In Progress" or "Completed" ignoring case come first, in that order; all other names come after, in code-point order |
| `Text.LexCompare` | react-client/src/components/BoardViewWithCRUD.tsx:308 | The `localeCompare` sign is zero exactly for equal names, and is non-positive exactly when the first name sorts no later than the second |
| `BoardView.StatusColumnsScroll` | react-client/src/components/BoardViewWithCRUD.tsx:709-711 | The status columns scroll exactly when there are four or more |
| `BoardView.CategoryColumnsScroll` | react-client/src/components/BoardViewWithCRUD.tsx:713-714 | The category columns scroll exactly when the board has three or more categories, because "Uncategorized" adds one column |
| `BoardView.ColumnViewsScrollAlike` | react-client/src/components/BoardViewWithCRUD.tsx:709-714 | The two column views share one threshold: `n` categories scroll exactly when `n + 1` statuses do, and adding columns never stops a view from scrolling |
| `BoardView.ToggleTaskFormCategory` | react-client/src/components/BoardViewWithCRUD.tsx:347-354 | Toggling flips the membership of the given id and of no other id |
| `BoardView.CategoryDeltaFor` | react-client/src/components/BoardViewWithCRUD.tsx:391-398 | `toAdd` holds exactly the form's ids not on the edited task. `toRemove` holds exactly the task's ids no longer in the form. A new task has no old ids |
| `BoardView.CategoryDeltaApplies` | react-client/src/components/BoardViewWithCRUD.tsx:391-398 | Applying the delta to the old ids gives exactly the form's ids, and the two lists never share an id |
| `BoardView.PlannedTaskCalls` | react-client/src/components/BoardViewWithCRUD.tsx:358-406 | The task is updated (when editing) or created first. Then come the added ids, if any, and then the removed ids, if any, each as the form's delta |
| `BoardView.SaveTask` | react-client/src/components/BoardViewWithCRUD.tsx:356-415 | A blank title makes no call and keeps the dialog. Otherwise the task call comes first. A category call is made only after every earlier call succeeded, and its ids are the form's delta. The dialog closes exactly when every call made and the reload succeed |
| `BoardView.FailedTaskStoreSendsNoCategories` | react-client/src/components/BoardViewWithCRUD.tsx:358-411 | When storing the task throws, no category call is made and the dialog stays open |
| `BoardView.SuccessfulTaskSaveAppliesForm` | react-client/src/components/BoardViewWithCRUD.tsx:391-409 | When every call succeeds, the dialog closes and the ids attached and detached turn the task's old categories into exactly the form's |
| `BoardView.CardChips` | react-client/src/components/BoardViewWithCRUD.tsx:541-544 | A card shows at most two chips, taken from the front of the category list. The hidden count is the total minus the shown, and it is positive exactly when there are more than two categories |
| `BoardView.CardChipsPartition` | react-client/src/components/BoardViewWithCRUD.tsx:541-544 | The chips followed by the hidden categories give back the task's category list, and the "+N more" count is exactly the number hidden. A count appears only when both chip slots are used |
| `BoardView.DateInputValue` | react-client/src/components/BoardViewWithCRUD.tsx:201-206 | A missing or empty value gives the empty string, a `YYYY-MM-DD` value passes through unchanged, and any other value goes to the platform's date parser |
| `BoardView.DateTextShown` | react-client/src/components/BoardViewWithCRUD.tsx:201-206 | Every zero-padded `YYYY-MM-DD` date has the input's shape and is shown exactly as given, whatever the date parser would do |
| `BoardView.DateInputShapeIsDateText` | react-client/src/components/BoardViewWithCRUD.tsx:204 | Every string of the input's shape is a zero-padded date with a year below 10000 and month and day below 100, so the shape test admits only such dates |
| `AdminAccess.FindByName` | react-client/src/components/AdminManagement.tsx:165-167 | The lookup finds nothing exactly when no user has the name; a found user is in the list and has the name |
| `AdminAccess.FindByNameFirst` | react-client/src/components/AdminManagement.tsx:165-167 | The lookup returns the first user with the name |
| `AdminAccess.KnownNames` | react-client/src/components/AdminManagement.tsx:169-171 | The reference for the access list: the names that belong to some user, an order-preserving subsequence of the input |
| `AdminAccess.UsersWithAccess` | react-client/src/components/AdminManagement.tsx:169-171 | The result is no longer than the name list, and each user in it is what the lookup returns for its own name |
| `AdminAccess.UsersWithAccessNames` | react-client/src/components/AdminManagement.tsx:169-171 | The usernames of the result are exactly the known names, in their order and with their repeats |
| `AdminAccess.UsersWithAccessOrder` | react-client/src/components/AdminManagement.tsx:169-171 | Unknown names are dropped, the rest keep their order, and every known name stays |
| `AdminAccess.OpenAccessDialog` | react-client/src/components/AdminManagement.tsx:389-398 | Opening a dialog selects the current members and snapshots them as the original |
| `AdminAccess.ToggleAccessUser` | react-client/src/components/AdminManagement.tsx:453-464 | Without a target the dialog is unchanged. Otherwise only the selection changes, by toggling the name |
| `AdminAccess.ToggleAccessUserFlips` | react-client/src/components/AdminManagement.tsx:482-493 | A toggle flips the given username's membership and no one else's |
| `AdminAccess.ComputeAccessDiff` | react-client/src/components/AdminManagement.tsx:405-411 | `toAdd` is the selected names not originally present, and `toRemove` the original names no longer selected; neither list has duplicates |
| `AdminAccess.AccessDiffApplies` | react-client/src/components/AdminManagement.tsx:500-509 | Granting `toAdd` and revoking `toRemove` turns the original members into the selected ones, and the two lists are disjoint |
| `AdminAccess.AccessDiffEmptyIff` | react-client/src/components/AdminManagement.tsx:413-417 | The diff is empty exactly when the selection holds the same usernames as the original |
| `AdminAccess.DiffCalls` | react-client/src/components/AdminManagement.tsx:421-426 | The add call comes before the remove call, each is made only for a non-empty list, and there is no call exactly when both lists are empty |
| `AdminAccess.DiffCallsFit` | react-client/src/components/AdminManagement.tsx:524-529 | Every call a save sends is for the dialog's target, with a non-empty duplicate-free list of exactly the added or exactly the dropped users |
| `AdminAccess.SaveAccess` | react-client/src/components/AdminManagement.tsx:401-441 | Without a target nothing happens. With unchanged membership the dialog resets and no call is made. Otherwise one or two fitting calls are made, adds first. The remove call is made only after the add call succeeded. The dialog resets exactly when every call and the reload succeed, and is otherwise kept as it was |
| `AdminAccess.SaveAccessCallsIff` | react-client/src/components/AdminManagement.tsx:496-520 | A save issues a call exactly when a target is set and the membership changed |
| `AdminAccess.OpenThenSaveNoCalls` | react-client/src/components/AdminManagement.tsx:470-520 | Opening a dialog and saving it untouched makes no call and resets the dialog |
| `AdminAccess.FailedAddSendsNoRemove` | react-client/src/components/AdminManagement.tsx:420-437 | When the add call throws, only that call is made, and the dialog stays as it was |
| `AdminAccess.SuccessfulSaveSendsDiff` | react-client/src/components/AdminManagement.tsx:496-538 | When every call and the reload succeed, the whole difference is sent and the dialog resets |
| `AdminAccess.DecrementFloor` | react-client/src/components/AdminManagement.tsx:327 | `Math.max(0, n - 1)` is never negative; it is `n - 1` for positive `n` and 0 otherwise |
| `AdminAccess.DecrementBoardCount` | react-client/src/components/AdminManagement.tsx:325-329 | Only the matching workspace changes, and only its board count, which drops by one, floored at 0 |
| `AdminAccess.DeleteBoard` | react-client/src/components/AdminManagement.tsx:317-334 | A failed delete changes nothing. A successful one removes exactly the boards with that id, keeps every other board with its multiplicity and in order, and decrements the workspace's count |
| `AdminAccess.RemainingBoards` | react-client/src/components/AdminManagement.tsx:322 | The remaining boards are exactly those with another id, each as often as before, in their original order |
| `AdminAccess.RemoveOneBoardCount` | react-client/src/components/AdminManagement.tsx:322-329 | With unique board ids, removing one board lowers the board count of its own workspace by one and leaves every other count |
| `AdminAccess.DeleteBoardKeepsCountsInSync` | react-client/src/components/AdminManagement.tsx:322-330 | If each workspace's `boardCount` matched its boards before, it still does after deleting a board of that workspace |
| `AdminAccess.FirstUserRejection` | react-client/src/components/AdminManagement.tsx:600-629 | The chain reports a failed test, and every test before it passed; no report means every test passed |
| `AdminAccess.UserTestsAgree` | react-client/src/components/AdminManagement.tsx:593-621 | Each handler test on the trimmed, `@`-prefixed fields agrees with its check stated on the form as typed (blank field, pattern mismatch, whitespace in the username, a bare `@`, a missing password on create) |
| `AdminAccess.UserFormFirstErrorIsFirstFailure` | react-client/src/components/AdminManagement.tsx:593-629 | The reported check fails, no earlier check fails, and nothing is reported exactly when no check fails |
| `AdminAccess.CheckUserForm` | react-client/src/components/AdminManagement.tsx:590-654 | The form is rejected exactly when a check fails, and then with the first failing check. An accepted form creates a user exactly when no user is being edited |
| `AdminAccess.CheckUserFormPayload` | react-client/src/components/AdminManagement.tsx:633-654 | The payload carries the trimmed fields and a handle that starts with `@` and has something after it. A new user's password is sent as typed and is non-empty. An edit sends a new password exactly when one was typed |
| `AdminAccess.CheckUserFormFirstFailure` | react-client/src/components/AdminManagement.tsx:593-629 | A rejection names the earliest failing check; the form is accepted exactly when no check fails |
| `AdminAccess.SaveUser` | react-client/src/components/AdminManagement.tsx:590-674 | A rejected form shows its check's message and stays open. An accepted form that saves closes the dialog and clears the form. A failed save shows the generic failure message |
| `AdminAccess.PasswordOnlyRequiredOnCreate` | react-client/src/components/AdminManagement.tsx:623-643 | When every other check passes, an edit is accepted, and a create is accepted exactly when a password was typed. An edit without a password sends no new password |
| `AdminAccess.DeleteUser` | react-client/src/components/AdminManagement.tsx:571-575 | Deleting one's own id is refused with the fixed message and no call; any other id is sent for deletion |
| `AdminAccess.SentDeletesSparesSelf` | react-client/src/components/AdminManagement.tsx:571-578 | Over any series of delete requests, the administrator's own id is never sent. Every other requested id is sent for deletion, in the order requested; the call itself may still fail |
| `AdminAccess.SetUserStatus` | react-client/src/components/AdminManagement.tsx:683-687 | Users with the given id get the new status and nothing else changes; all other users are untouched |
| `AdminAccess.SetUserStatusOverrides` | react-client/src/components/AdminManagement.tsx:683-687 | A later status change to the same user overrides an earlier one completely |
| `SignUp.FirstRejection` | react-client/src/components/LoginPage.tsx:83-121 | The chain reports a failed test, and every test before it passed; no report means every test passed |
| `SignUp.HandlerTestsAgree` | react-client/src/components/LoginPage.tsx:74-121 | Each handler test on the trimmed fields agrees with its check stated on the form as typed |
| `SignUp.EmailTestAgrees` | react-client/src/components/LoginPage.tsx:91-94 | "Empty, or failing the regular expression" is the same as "failing the regular expression" |
| `SignUp.HandleTestAgrees` | react-client/src/components/LoginPage.tsx:103-113 | For a non-blank handle, the `@`-prefixed handle is bare exactly when the trimmed handle is `@` |
| `SignUp.SignUpFirstErrorIsFirstFailure` | react-client/src/components/LoginPage.tsx:83-121 | The reported check fails, no earlier check fails, and the form passes exactly when no check fails |
| `SignUp.CheckSignUp` | react-client/src/components/LoginPage.tsx:74-132 | The form is rejected exactly when a check fails, and then with the first failing one |
| `SignUp.CheckSignUpFirstFailure` | react-client/src/components/LoginPage.tsx:83-121 | A rejection names the earliest failing check in the order first name, last name, email, username present, username without spaces, handle present, handle not bare, password length, confirmation. A request is sent exactly when no check fails |
| `SignUp.CheckSignUpRequest` | react-client/src/components/LoginPage.tsx:125-132 | The request carries the trimmed fields, non-empty names and username, and a username without whitespace. The handle starts with `@` and has something after it. The password is as typed, at least six characters, and equal to the confirmation |
| `SignUp.SurroundingSpaceIgnored` | react-client/src/components/LoginPage.tsx:74-80 | Surrounding whitespace in the text fields never changes the outcome; only the passwords are taken as typed |
| `SignUp.StatusOf` | react-client/src/components/LoginPage.tsx:149 | The error's own status is used when present, otherwise the response's |
| `SignUp.DetailOf` | react-client/src/components/LoginPage.tsx:150-153 | The detail is the response's detail when present, else the error's detail, else the raw message |
| `SignUp.DetailOr` | react-client/src/components/LoginPage.tsx:169 | A falsy detail gives the fallback; a truthy string detail is shown as text; any other truthy value is shown as it is |
| `SignUp.ClassifySignUpFailure` | react-client/src/components/LoginPage.tsx:145-173 | A duplicate-username error gives the "already taken" message. Otherwise status 409 or 400 gives the detail or "Could not create account.", and any other status gives the raw message or "Failed to create account." |
| `SignUp.RefusalNeverBlank` | react-client/src/components/LoginPage.tsx:155-173 | Every refusal shows something: never an empty string and never a falsy value |
| `SignUp.DuplicateIgnoresStatus` | react-client/src/components/LoginPage.tsx:155-166 | A duplicate-username error wins, whatever status came with it |
| `SignUp.ErrorStatusFirst` | react-client/src/components/LoginPage.tsx:149 | When the error has its own status, the response's status cannot change the message |
| `SignUp.SubmitSignUp` | react-client/src/components/LoginPage.tsx:70-173 | A request is sent exactly when the checks pass. A rejected form shows its check's message. A created account clears the form, shows the success message and switches to the login tab. A refusal shows the classified message |
| `SignUp.SubmitSignUpResets` | react-client/src/components/LoginPage.tsx:134-144 | Only a created account clears the form and switches to the login tab; any other outcome keeps what was typed and shows an error |
| `SignUp.EmptyEmailFailsPattern` | react-client/src/components/LoginPage.tsx:91 | The regular expression rejects the empty string by itself |
| `FormRules.ScanAcceptsPattern` | react-client/src/components/LoginPage.tsx:91 | The left-to-right scan accepts exactly the strings of the form local part, `@`, domain, `.`, rest, each part non-empty and free of `@` and whitespace |
| `FormRules.IsValidEmailMatchesPattern` | react-client/src/components/AdminManagement.tsx:605 | The e-mail test used by both forms accepts exactly what `^[^@\s]+@[^@\s]+\.[^@\s]+$` matches |
| `FormRules.NormalizeHandle` | react-client/src/components/LoginPage.tsx:107-109 | The result always starts with `@`. A handle that already starts with `@` is kept, and any other handle gets `@` in front |
| `FormRules.NormalizeHandleIdempotent` | react-client/src/components/LoginPage.tsx:107-109 | Normalising twice is the same as normalising once |
| `FormRules.NormalizedHandleShape` | react-client/src/components/AdminManagement.tsx:615-621 | A handle that passes the bare-`@` check is `@` followed by at least one character |
| `FormRules.NormalizedHandleBare` | react-client/src/components/LoginPage.tsx:107-113 | The normalised handle is the bare `@` exactly for the empty handle and for `@` itself |
| `Text.Trim` | react-client/src/components/LoginPage.tsx:74-78 | The trimmed string neither starts nor ends with whitespace, and it is empty exactly when the input is all whitespace |
| `Text.TrimIsSlice` | react-client/src/components/LoginPage.tsx:74-78 | Trimming removes whitespace from the two ends only: the result is a slice whose cut-off prefix and suffix are all whitespace |
| `Text.TrimIdempotent` | react-client/src/components/AdminManagement.tsx:593-597 | Trimming twice is the same as trimming once |
| `Text.ContainsIffOccurs` | react-client/src/components/LoginPage.tsx:158-161 | `includes` holds exactly when the needle occurs at some position |
| `AppView.StoreId` | react-client/src/App.tsx:27-36 | The key is present exactly when an id is given, holds the id's decimal text, and no other key changes |
| `AppView.PersistView` | react-client/src/App.tsx:25-37 | The view key is always written. Each id key is present exactly when its id is given, and then holds `String(id)`. No other key changes |
| `AppView.PersistViewRepeat` | react-client/src/App.tsx:25-37 | Persisting the same view and ids again leaves storage as it was |
| `AppView.ClearView` | react-client/src/App.tsx:121-123 | The three keys are gone and every other key is untouched |
| `AppView.StoredBoard` | react-client/src/App.tsx:57-60 | A board is found only when the stored view is "board" and both ids are non-empty and read as numbers. When both ids are present but none is found, one of them is NaN |
| `AppView.RestoreView` | react-client/src/App.tsx:39-73 | The restored view is never login. It is admin only for an administrator, and the board only with a readable stored board. Every other case falls back to the role's home view. Storage is rewritten with the chosen view and its ids |
| `AppView.RestoreAdminOnlyForAdmins` | react-client/src/App.tsx:51-55 | A stored admin view comes back for an administrator; anyone else lands on the dashboard |
| `AppView.RestoreAfterBoardClick` | react-client/src/App.tsx:57-66 | What a board click stored comes back on the next start, with the same ids, and storage is left as it was |
| `AppView.HomeViewRestores` | react-client/src/App.tsx:39-73 | Storage holding a role's home view and no ids restores to that view, and is left as it was |
| `AppView.RestoreViewStable` | react-client/src/App.tsx:39-73 | Restoring twice gives the same result as restoring once |
| `Text.NumberOfIntToString` | react-client/src/App.tsx:28-60 | `Number(String(n))` gives back `n` for every integer, so a stored id reads back as itself |
| `AppView.Bootstrap` | react-client/src/App.tsx:75-97 | Loading always ends. A failed session check clears the three keys, shows login and keeps the selection. A successful one signs the user in with their admin flag, and takes the view and storage from `restoreView`. It selects the restored board's ids when a board was restored, and otherwise keeps the selection |
| `AppView.SignIn` | react-client/src/App.tsx:99-105 | The user and flag are set, the view is the role's home, and storage records it with no ids |
| `AppView.SignInSurvivesReload` | react-client/src/App.tsx:75-105 | After sign-in, a reload with the same session restores the same home view, leaves storage as it was and selects no board |
| `AppView.SignOut` | react-client/src/App.tsx:107-124 | No user, no admin flag, the login view and no selection remain. The three keys are gone and other keys are untouched |
| `AppView.OpenBoard` | react-client/src/App.tsx:126-131 | The board view opens with both ids selected and stored |
| `AppView.BackToDashboard` | react-client/src/App.tsx:133-139 | The selection is dropped, the view is the role's home, and storage records it with no ids |
| `AppView.BackToDashboardSurvivesReload` | react-client/src/App.tsx:133-139 | Going back is remembered: a reload restores the home view and no board, and storage stays as it was |
| `AppView.Render` | react-client/src/App.tsx:141-176 | Loading shows exactly while bootstrapping, and the login page exactly when the view is login or no user is set. The board renders only for the board view with both ids truthy (0 counts as absent), and the admin screen only for an administrator |
| `AppView.RenderFallsBackToDashboard` | react-client/src/App.tsx:150-176 | A signed-in view that cannot be honoured shows the dashboard |
| `AppView.SignOutShowsLogin` | react-client/src/App.tsx:107-124 | After sign-out the login page shows, and a later restore finds no stored view and no board |
| `AppView.ReloadReopensBoard` | react-client/src/App.tsx:39-164 | Starting with a session and a stored board with non-zero ids renders that board |
| `AppView.AdminScreenNeedsAdmin` | react-client/src/App.tsx:166-168 | The admin screen is rendered only when the admin flag is set |
| `ApiClient.BaseUrl` | react-client/src/api/ApiClient.ts:4-6 | The base address is the argument if given, else the build-time setting, else `http://localhost:5001` |
| `ApiClient.BaseUrlChoiceReachesServer` | react-client/src/api/ApiClient.ts:4-13 | The default client sends relative paths to `http://localhost:5001/...`. A given empty base is kept, because `??` skips only a missing value, and then sends them to the page's own origin as `/...` |
| `ApiClient.BuildUrl` | react-client/src/api/ApiClient.ts:8-13 | An absolute path is kept. A path starting with `/` is appended to the base, and any other path is appended after an added `/` |
| `ApiClient.RelativeUrlShape` | react-client/src/api/ApiClient.ts:12 | A relative URL starts with the base, ends with the path, and has a `/` right after the base |
| `ApiClient.LeadingSlashOptional` | react-client/src/api/ApiClient.ts:12 | A path with and without a leading `/` gives the same URL |
| `ApiClient.BuildUrlSettles` | react-client/src/api/ApiClient.ts:8-13 | With an absolute base, building a URL from a built URL changes nothing |
| `ApiClient.SentBody` | react-client/src/api/ApiClient.ts:37-71 | GET and DELETE send no body. POST sends one exactly when the given body is truthy. PUT and PATCH send one exactly when a body is given. What is sent is the body's JSON |
| `ApiClient.SentBodyAcrossMethods` | react-client/src/api/ApiClient.ts:37-71 | POST sends what PUT sends except a falsy body. PUT and PATCH always agree. GET and DELETE never send one |
| `ApiClient.DefaultMessage` | react-client/src/api/ApiClient.ts:22 | The fallback message starts with the method and path and ends with the status |
| `ApiClient.FailureMessage` | react-client/src/api/ApiClient.ts:22-25 | A truthy `detail` wins, then a truthy `message`, then the fallback; an empty string counts as absent |
| `ApiClient.TextReasonNeverBlank` | react-client/src/api/ApiClient.ts:47-51 | When the reasons are strings, the error message is never empty |
| `ApiClient.Complete` | react-client/src/api/ApiClient.ts:89-113 | A call throws an error carrying the chosen message and the status exactly for a status outside 200-299. An unreadable 2xx body also rejects, with no status, for every method but DELETE, which then returns nothing |
| `ApiClient.ReasonIndependentOfMethod` | react-client/src/api/ApiClient.ts:73-77 | When the body names a reason, the error is the same for every method |

## Left out

- Rendering (JSX), React hooks, the `saving` flags, the handlers that open dialogs, and the delete-confirmation dialog: presentation only. That dialog is closed after each delete and stays open when a self-delete is refused. The outcome of the access, user and task dialogs on save is modelled.
- The `services/*.ts` wrappers, `authService.ts`, `fetch` itself, and the Python server and database (`src/server.py`, `src/db/taskmaster.py`): these are transport and storage. A server call appears only as its request and whether it succeeded, or as the reply it received.
- The reload after a save (`refreshWorkspacesAndBoards`, `loadTasks`) appears only as whether it succeeded. What it loads, and the `Promise.all` loading, are asynchronous I/O.
- The id of a newly created task, which the category calls of `handleSaveTask` address, comes from the server. `BoardView.TaskCall` leaves it out.
- The user status change is modelled as it applies after a successful call. A failed call leaves the list unchanged and is not represented separately.
- Dates:
  - `Date` parsing, `toLocaleDateString`, `toISOString`, `formatDate`, `formatTimestamp` and `makeTodayLocalDateString` are not modelled, because they are platform date and locale behaviour.
  - Time is the integer `now`, and a due date is `Option<int>`.
  - `BoardView.DateInputValue` leaves the non-`YYYY-MM-DD` branch to a parser passed in as a parameter, including its empty result for an invalid date.
- `Text.LexCompare`: `localeCompare` is approximated by lexicographic code-point order, because the locale's collation is platform behaviour.
- `Tasks.SortTasks`: once any two tasks compare to NaN (an unknown priority, or a missing date at equal priority in one past-due class), the comparator is inconsistent. ECMAScript then leaves the whole order of `sort` to the engine, and V8 may leave such a list unsorted even between pairs that compare to numbers. The model sorts every list by its total order. That is one order the language permits, not necessarily the one a browser produces.
- `Tasks.SortTasksOrdered`, `Tasks.PriorityOrderWithinClass`, `Tasks.DueDateOrderWithinPriority`: these hold only for lists in which every two tasks at different positions compare to a number. ECMAScript asks more of a consistent comparator, a number even for a task compared with itself, so a lone task without a date is admitted here although the language leaves such a list's order to the engine.
- `Tasks.SortTasks`: the model does not claim the stability of `Array.prototype.sort` for pairs the comparator calls equal.
- `Text.Trim`: `\s`, `trim()` and `toLowerCase()` are modelled on ASCII. Whitespace is space, tab, line feed, vertical tab, form feed and carriage return, and only `A`-`Z` are lowered. Unicode spaces and non-ASCII letters are not modelled.
- `Text.NumberOf`: `Number()` is modelled for optionally signed decimal integers with surrounding whitespace, and for the blank string, which reads as 0. Hexadecimal, exponent, fractional and `Infinity` forms read as NaN here, although JavaScript reads them as numbers. Ids written by `persistView` are always decimal integers, so restoring what the application stored is unaffected.
- `SignUp.CheckSignUpRequest`: the password length is counted in characters. JavaScript counts UTF-16 code units, so characters outside the Basic Multilingual Plane count once here and twice in the source.
- `ApiClient.Complete`: a response body is abstracted to its `detail` and `message` fields, with each field's truthiness and displayed text. The JSON parser is not modelled.
- Console logging, Python tests under `tests/`, the pydantic schemas in `src/models/*.py`, `utils/tools.py` (a SHA-256 call), the mock data in `react-client/src/data/mock.ts`, `Dashboard.tsx` and the TypeScript model interfaces: no logic beyond I/O, types or rendering.
