/**
 The admin screen's list logic: looking users up by username, the access dialogs
 of workspaces and boards (checkbox toggles and the username diff sent on save),
 the local lists after a board is deleted, the user form's ordered checks and
 the payload it sends, the self-delete guard, and a user's status change.
 Every server call is reduced to its request and a `succeeded` flag.
 */
module AdminAccess {
  import opened Options
  import opened Seqs
  import opened Text
  import opened FormRules

  // ----- users -----

  datatype UserStatus = Active | Suspended

  datatype User = User(id: int, username: string, status: UserStatus)

  predicate HasUser(users: seq<User>, name: string) {
    exists u :: u in users && u.username == name
  }

  /** `users.find(u => u.username === name)` */
  function FindByName(users: seq<User>, name: string): (r: Option<User>)
    ensures r.None? <==> !HasUser(users, name)
    ensures r.Some? ==> r.value in users && r.value.username == name
  {
    if |users| == 0 then None
    else if users[0].username == name then Some(users[0])
    else
      assert forall u :: u in users ==> u == users[0] || u in users[1..];
      FindByName(users[1..], name)
  }

  /** The lookup returns the first user with the name, whatever comes after it. */
  lemma {:induction false} FindByNameFirst(users: seq<User>, name: string, k: int)
    requires 0 <= k < |users| && users[k].username == name
    requires forall m :: 0 <= m < k ==> users[m].username != name
    ensures FindByName(users, name) == Some(users[k])
  {
    if k > 0 {
      assert users[0].username != name;
      FindByNameFirst(users[1..], name, k - 1);
    }
  }

  function UsernamesOf(us: seq<User>): (r: seq<string>)
    ensures |r| == |us|
    ensures forall k :: 0 <= k < |us| ==> r[k] == us[k].username
  {
    seq(|us|, k requires 0 <= k < |us| => us[k].username)
  }

  /** The names among `names` that belong to some user, in their order. */
  function KnownNames(users: seq<User>, names: seq<string>): (r: seq<string>)
    ensures forall n :: n in r <==> n in names && HasUser(users, n)
    ensures SubseqOf(r, names)
  {
    var known := (n: string) => HasUser(users, n);
    FilterSubseq(names, known);
    Filter(names, known)
  }

  lemma KnownNamesCons(users: seq<User>, names: seq<string>)
    requires |names| > 0
    ensures KnownNames(users, names)
         == (if HasUser(users, names[0]) then [names[0]] else []) + KnownNames(users, names[1..])
  {
  }

  /** `names.map(getUserByName).filter(Boolean)`: the users behind the known names, unknown names dropped. */
  function UsersWithAccess(users: seq<User>, names: seq<string>): (r: seq<User>)
    ensures |r| <= |names|
    ensures forall k :: 0 <= k < |r| ==> FindByName(users, r[k].username) == Some(r[k])
  {
    if |names| == 0 then []
    else
      var rest := UsersWithAccess(users, names[1..]);
      var found := FindByName(users, names[0]);
      if found.Some? then [found.value] + rest else rest
  }

  lemma UsersWithAccessCons(users: seq<User>, names: seq<string>)
    requires |names| > 0
    ensures UsernamesOf(UsersWithAccess(users, names))
         == (if HasUser(users, names[0]) then [names[0]] else []) + UsernamesOf(UsersWithAccess(users, names[1..]))
  {
    var rest := UsersWithAccess(users, names[1..]);
    var found := FindByName(users, names[0]);
    if found.Some? {
      assert UsernamesOf([found.value] + rest) == [names[0]] + UsernamesOf(rest);
    }
  }

  /** The result lists exactly the known names, in their order and with their repeats. */
  lemma {:induction false} UsersWithAccessNames(users: seq<User>, names: seq<string>)
    ensures UsernamesOf(UsersWithAccess(users, names)) == KnownNames(users, names)
  {
    if |names| > 0 {
      UsersWithAccessNames(users, names[1..]);
      KnownNamesCons(users, names);
      UsersWithAccessCons(users, names);
    }
  }

  /** Dropping unknown names keeps the rest in order, and every known name stays. */
  lemma UsersWithAccessOrder(users: seq<User>, names: seq<string>)
    ensures SubseqOf(UsernamesOf(UsersWithAccess(users, names)), names)
    ensures forall n :: n in names && HasUser(users, n) <==> n in UsernamesOf(UsersWithAccess(users, names))
  {
    UsersWithAccessNames(users, names);
  }

  // ----- the access dialogs -----

  /** The workspace or board whose members the dialog edits. */
  datatype AccessTarget = WorkspaceTarget(workspaceId: int) | BoardTarget(workspaceId: int, boardId: int)

  /** `selected` is what the checkboxes show; `original` the usernames when the dialog opened. */
  datatype AccessDialog = AccessDialog(open: bool, target: Option<AccessTarget>, selected: seq<string>, original: seq<string>)

  const ClosedDialog := AccessDialog(false, None, [], [])

  function OpenAccessDialog(target: AccessTarget, usernames: seq<string>): (d: AccessDialog)
    ensures d.open && d.target == Some(target)
    ensures d.selected == usernames && d.original == usernames
  {
    AccessDialog(true, Some(target), usernames, usernames)
  }

  /** Ticking or unticking a user; nothing happens while the dialog has no target. */
  function ToggleAccessUser(d: AccessDialog, name: string): (r: AccessDialog)
    ensures d.target.None? ==> r == d
    ensures d.target.Some? ==> r.selected == Toggle(d.selected, name)
    ensures r.open == d.open && r.target == d.target && r.original == d.original
  {
    if d.target.None? then d else d.(selected := Toggle(d.selected, name))
  }

  /** A toggle flips the given user's membership and no one else's. */
  lemma ToggleAccessUserFlips(d: AccessDialog, name: string)
    requires d.target.Some?
    ensures name in ToggleAccessUser(d, name).selected <==> name !in d.selected
    ensures forall y :: y != name ==> (y in ToggleAccessUser(d, name).selected <==> y in d.selected)
  {
  }

  /** The usernames to grant and to revoke on save. */
  datatype AccessDiff = AccessDiff(toAdd: seq<string>, toRemove: seq<string>)

  /** `[...selectedSet].filter(not in originalSet)` and `[...originalSet].filter(not in selectedSet)`. */
  function ComputeAccessDiff(original: seq<string>, selected: seq<string>): (d: AccessDiff)
    ensures forall x :: x in d.toAdd <==> x in selected && x !in original
    ensures forall x :: x in d.toRemove <==> x in original && x !in selected
    ensures NoDuplicates(d.toAdd) && NoDuplicates(d.toRemove)
  {
    var toAdd := Without(Dedup(selected), original);
    var toRemove := Without(Dedup(original), selected);
    SubseqNoDuplicates(toAdd, Dedup(selected));
    SubseqNoDuplicates(toRemove, Dedup(original));
    AccessDiff(toAdd, toRemove)
  }

  /** Granting `toAdd` and revoking `toRemove` turns the original members into the selected ones; the two never overlap. */
  lemma AccessDiffApplies(original: seq<string>, selected: seq<string>)
    ensures var d := ComputeAccessDiff(original, selected);
      && (forall x :: x in selected <==> (x in original && x !in d.toRemove) || x in d.toAdd)
      && (forall x :: !(x in d.toAdd && x in d.toRemove))
  {
  }

  /** The diff is empty exactly when the selection holds the same usernames as before. */
  lemma AccessDiffEmptyIff(original: seq<string>, selected: seq<string>)
    ensures var d := ComputeAccessDiff(original, selected);
      d.toAdd == [] && d.toRemove == [] <==> (forall x :: x in selected <==> x in original)
  {
    var d := ComputeAccessDiff(original, selected);
    assert |d.toAdd| > 0 ==> d.toAdd[0] in d.toAdd;
    assert |d.toRemove| > 0 ==> d.toRemove[0] in d.toRemove;
    if !(forall x :: x in selected <==> x in original) {
      var x :| !(x in selected <==> x in original);
      if x in selected {
        assert x in d.toAdd;
      } else {
        assert x in d.toRemove;
      }
    }
  }

  datatype AccessCall = AddUsers(target: AccessTarget, names: seq<string>) | RemoveUsers(target: AccessTarget, names: seq<string>)

  /** The calls a save issues and the dialog afterwards. */
  datatype AccessSave = AccessSave(calls: seq<AccessCall>, dialog: AccessDialog)

  /** `a` and `b` hold the same usernames, ignoring order and repeats. */
  ghost predicate SameMembers(a: seq<string>, b: seq<string>) {
    forall x :: x in a <==> x in b
  }

  /** A call the dialog `d` may issue: for its target, with a non-empty duplicate-free list of exactly the added or the dropped users. */
  ghost predicate CallFitsDialog(d: AccessDialog, c: AccessCall) {
    && Some(c.target) == d.target
    && c.names != [] && NoDuplicates(c.names)
    && (c.AddUsers? ==> forall x :: x in c.names <==> x in d.selected && x !in d.original)
    && (c.RemoveUsers? ==> forall x :: x in c.names <==> x in d.original && x !in d.selected)
  }

  /** The add call, then the remove call, each only when its list is non-empty. */
  function DiffCalls(target: AccessTarget, diff: AccessDiff): (r: seq<AccessCall>)
    ensures r == [] <==> diff.toAdd == [] && diff.toRemove == []
    ensures |r| <= 2 && (|r| == 2 ==> r[0].AddUsers? && r[1].RemoveUsers?)
    ensures forall c :: c in r ==> c.target == target && c.names != []
    ensures forall c :: c in r ==> c.names == if c.AddUsers? then diff.toAdd else diff.toRemove
  {
    (if diff.toAdd != [] then [AddUsers(target, diff.toAdd)] else [])
      + (if diff.toRemove != [] then [RemoveUsers(target, diff.toRemove)] else [])
  }

  lemma DiffCallsFit(d: AccessDialog)
    requires d.target.Some?
    ensures forall c :: c in DiffCalls(d.target.value, ComputeAccessDiff(d.original, d.selected)) ==> CallFitsDialog(d, c)
  {
    var diff := ComputeAccessDiff(d.original, d.selected);
    forall c | c in DiffCalls(d.target.value, diff)
      ensures CallFitsDialog(d, c)
    {
      if c.AddUsers? {
        assert c.names == diff.toAdd;
      } else {
        assert c.names == diff.toRemove;
      }
    }
  }

  /**
   Saving the workspace or board access dialog. Without a target nothing happens;
   with no change the dialog resets and no call is made; otherwise the additions
   are awaited, then the removals, and the first call that throws skips the rest.
   `ok` says which calls the server accepts and `refreshOk` whether the reload of
   the workspace and board lists that follows succeeds; the dialog resets only
   when every call and the reload succeed, and stays as it was otherwise.
   */
  function SaveAccess(d: AccessDialog, ok: AccessCall -> bool, refreshOk: bool): (r: AccessSave)
    ensures d.target.None? ==> r == AccessSave([], d)
    ensures d.target.Some? && SameMembers(d.selected, d.original) ==> r == AccessSave([], ClosedDialog)
    ensures d.target.Some? && !SameMembers(d.selected, d.original) ==>
      && 1 <= |r.calls| <= 2
      && r.dialog == (if AllOk(r.calls, ok) && refreshOk then ClosedDialog else d)
    ensures forall c :: c in r.calls ==> CallFitsDialog(d, c)
    ensures |r.calls| == 2 ==> r.calls[0].AddUsers? && ok(r.calls[0]) && r.calls[1].RemoveUsers?
  {
    if d.target.None? then AccessSave([], d)
    else
      var diff := ComputeAccessDiff(d.original, d.selected);
      AccessDiffEmptyIff(d.original, d.selected);
      DiffCallsFit(d);
      if diff.toAdd == [] && diff.toRemove == [] then AccessSave([], ClosedDialog)
      else
        var planned := DiffCalls(d.target.value, diff);
        var sent := SentUntilFailure(planned, ok);
        assert forall c :: c in sent ==> c in planned;
        AccessSave(sent, if AllOk(planned, ok) && refreshOk then ClosedDialog else d)
  }

  /** A save issues a call exactly when a target is set and the selection changed. */
  lemma SaveAccessCallsIff(d: AccessDialog, ok: AccessCall -> bool, refreshOk: bool)
    ensures SaveAccess(d, ok, refreshOk).calls != [] <==> d.target.Some? && !SameMembers(d.selected, d.original)
  {
  }

  /** Opening a dialog and saving it untouched makes no call. */
  lemma OpenThenSaveNoCalls(target: AccessTarget, usernames: seq<string>, ok: AccessCall -> bool, refreshOk: bool)
    ensures SaveAccess(OpenAccessDialog(target, usernames), ok, refreshOk) == AccessSave([], ClosedDialog)
  {
  }

  /** When the add call throws, the remove call is never sent and the dialog stays open as it was. */
  lemma FailedAddSendsNoRemove(d: AccessDialog, ok: AccessCall -> bool, refreshOk: bool, x: string)
    requires d.target.Some? && x in d.selected && x !in d.original
    requires !ok(AddUsers(d.target.value, ComputeAccessDiff(d.original, d.selected).toAdd))
    ensures SaveAccess(d, ok, refreshOk) == AccessSave([AddUsers(d.target.value, ComputeAccessDiff(d.original, d.selected).toAdd)], d)
  {
    var diff := ComputeAccessDiff(d.original, d.selected);
    assert x in diff.toAdd;
    var planned := DiffCalls(d.target.value, diff);
    assert planned[0] == AddUsers(d.target.value, diff.toAdd);
  }

  /** When every call and the reload succeed, the whole difference is sent and the dialog resets. */
  lemma SuccessfulSaveSendsDiff(d: AccessDialog, ok: AccessCall -> bool)
    requires d.target.Some?
    requires forall c :: ok(c)
    ensures SaveAccess(d, ok, true) == AccessSave(DiffCalls(d.target.value, ComputeAccessDiff(d.original, d.selected)), ClosedDialog)
  {
    var diff := ComputeAccessDiff(d.original, d.selected);
    AccessDiffEmptyIff(d.original, d.selected);
    assert AllOk(DiffCalls(d.target.value, diff), ok);
  }

  // ----- deleting a board -----

  datatype WorkspaceSummary = WorkspaceSummary(id: int, name: string, boardCount: int)

  datatype BoardSummary = BoardSummary(id: int, workspaceId: int, name: string)

  /** `Math.max(0, n - 1)` */
  function DecrementFloor(n: int): (r: int)
    ensures r >= 0
    ensures n >= 1 ==> r == n - 1
    ensures n < 1 ==> r == 0
  {
    if n - 1 > 0 then n - 1 else 0
  }

  /** The workspace list after one of `workspaceId`'s boards is gone. */
  function DecrementBoardCount(ws: seq<WorkspaceSummary>, workspaceId: int): (r: seq<WorkspaceSummary>)
    ensures |r| == |ws|
    ensures forall k :: 0 <= k < |ws| && ws[k].id != workspaceId ==> r[k] == ws[k]
    ensures forall k :: 0 <= k < |ws| && ws[k].id == workspaceId ==>
      r[k].id == ws[k].id && r[k].name == ws[k].name && r[k].boardCount == DecrementFloor(ws[k].boardCount)
  {
    seq(|ws|, k requires 0 <= k < |ws| =>
      if ws[k].id == workspaceId then ws[k].(boardCount := DecrementFloor(ws[k].boardCount)) else ws[k])
  }

  datatype BoardLists = BoardLists(workspaces: seq<WorkspaceSummary>, boards: seq<BoardSummary>)

  /** After the delete call: boards with that id leave the list and the workspace's count drops, floored at 0. */
  function DeleteBoard(l: BoardLists, workspaceId: int, boardId: int, succeeded: bool): (r: BoardLists)
    ensures !succeeded ==> r == l
    ensures succeeded ==> forall b :: b in r.boards <==> b in l.boards && b.id != boardId
    ensures succeeded ==> SubseqOf(r.boards, l.boards)
    ensures succeeded ==> forall b :: multiset(r.boards)[b] == if b.id != boardId then multiset(l.boards)[b] else 0
    ensures succeeded ==> r.workspaces == DecrementBoardCount(l.workspaces, workspaceId)
  {
    if !succeeded then l
    else BoardLists(DecrementBoardCount(l.workspaces, workspaceId), RemainingBoards(l.boards, boardId))
  }

  /** `boards.filter(b => b.id !== boardId)` */
  function RemainingBoards(boards: seq<BoardSummary>, boardId: int): (r: seq<BoardSummary>)
    ensures forall b :: b in r <==> b in boards && b.id != boardId
    ensures SubseqOf(r, boards)
    ensures forall b :: multiset(r)[b] == if b.id != boardId then multiset(boards)[b] else 0
  {
    var kept := (b: BoardSummary) => b.id != boardId;
    FilterSubseq(boards, kept);
    FilterCounts(boards, kept);
    Filter(boards, kept)
  }

  lemma RemainingBoardsAllKept(boards: seq<BoardSummary>, boardId: int)
    requires forall k :: 0 <= k < |boards| ==> boards[k].id != boardId
    ensures RemainingBoards(boards, boardId) == boards
  {
    FilterAllPass(boards, (b: BoardSummary) => b.id != boardId);
  }

  /** How many of `boards` belong to workspace `w`. */
  function BoardsIn(boards: seq<BoardSummary>, w: int): nat {
    if |boards| == 0 then 0
    else (if boards[0].workspaceId == w then 1 else 0) + BoardsIn(boards[1..], w)
  }

  /** Every workspace's `boardCount` is the number of its boards in the list. */
  predicate CountsInSync(l: BoardLists) {
    forall k :: 0 <= k < |l.workspaces| ==> l.workspaces[k].boardCount == BoardsIn(l.boards, l.workspaces[k].id)
  }

  predicate UniqueBoardIds(boards: seq<BoardSummary>) {
    forall i, j :: 0 <= i < j < |boards| ==> boards[i].id != boards[j].id
  }

  lemma BoardsInCons(b: BoardSummary, rest: seq<BoardSummary>, w: int)
    ensures BoardsIn([b] + rest, w) == (if b.workspaceId == w then 1 else 0) + BoardsIn(rest, w)
  {
    assert ([b] + rest)[1..] == rest;
  }

  lemma RemainingBoardsCons(boards: seq<BoardSummary>, boardId: int)
    requires |boards| > 0
    ensures RemainingBoards(boards, boardId)
         == (if boards[0].id != boardId then [boards[0]] else []) + RemainingBoards(boards[1..], boardId)
  {
  }

  lemma UniqueBoardIdsTail(boards: seq<BoardSummary>)
    requires |boards| > 0 && UniqueBoardIds(boards)
    ensures UniqueBoardIds(boards[1..])
    ensures forall k :: 0 <= k < |boards[1..]| ==> boards[1..][k].id != boards[0].id
  {
  }

  /** With unique ids, removing the first board's id removes that board alone. */
  lemma RemoveHeadBoard(boards: seq<BoardSummary>, w: int)
    requires |boards| > 0 && UniqueBoardIds(boards)
    ensures BoardsIn(RemainingBoards(boards, boards[0].id), w)
         == BoardsIn(boards, w) - (if boards[0].workspaceId == w then 1 else 0)
  {
    UniqueBoardIdsTail(boards);
    RemainingBoardsCons(boards, boards[0].id);
    BoardsInCons(boards[0], boards[1..], w);
    assert boards == [boards[0]] + boards[1..];
    RemainingBoardsAllKept(boards[1..], boards[0].id);
  }

  lemma {:induction false} RemoveOneBoardCount(boards: seq<BoardSummary>, k: int, w: int)
    requires UniqueBoardIds(boards)
    requires 0 <= k < |boards|
    ensures BoardsIn(RemainingBoards(boards, boards[k].id), w)
         == BoardsIn(boards, w) - (if boards[k].workspaceId == w then 1 else 0)
  {
    if k == 0 {
      RemoveHeadBoard(boards, w);
    } else {
      var b0, tail, id := boards[0], boards[1..], boards[k].id;
      UniqueBoardIdsTail(boards);
      assert tail[k - 1] == boards[k];
      RemoveOneBoardCount(tail, k - 1, w);
      var rest := RemainingBoards(tail, id);
      assert RemainingBoards(boards, id) == [b0] + rest by {
        RemainingBoardsCons(boards, id);
      }
      BoardsInCons(b0, rest, w);
    }
  }

  /** When the deleted board was listed under `workspaceId` and board ids are unique, counts stay in sync with the list. */
  lemma DeleteBoardKeepsCountsInSync(l: BoardLists, workspaceId: int, boardId: int)
    requires CountsInSync(l)
    requires UniqueBoardIds(l.boards)
    requires exists b :: b in l.boards && b.id == boardId && b.workspaceId == workspaceId
    ensures CountsInSync(DeleteBoard(l, workspaceId, boardId, true))
  {
    var r := DeleteBoard(l, workspaceId, boardId, true);
    var b :| b in l.boards && b.id == boardId && b.workspaceId == workspaceId;
    var i :| 0 <= i < |l.boards| && l.boards[i] == b;
    forall k | 0 <= k < |r.workspaces|
      ensures r.workspaces[k].boardCount == BoardsIn(r.boards, r.workspaces[k].id)
    {
      RemoveOneBoardCount(l.boards, i, l.workspaces[k].id);
    }
  }

  // ----- the user form -----

  datatype UserForm = UserForm(firstName: string, lastName: string, email: string, username: string, handle: string, password: string)

  const EmptyUserForm := UserForm("", "", "", "", "", "")

  /** The user form's checks, in the order they run. */
  datatype UserFormError = MissingFields | InvalidEmail | UsernameHasSpaces | BareHandle | PasswordRequired

  function UserFormOrder(e: UserFormError): nat {
    match e
    case MissingFields => 0
    case InvalidEmail => 1
    case UsernameHasSpaces => 2
    case BareHandle => 3
    case PasswordRequired => 4
  }

  function UserFormMessage(e: UserFormError): string {
    match e
    case MissingFields => "All fields except password are required."
    case InvalidEmail => "Please enter a valid email address."
    case UsernameHasSpaces => "Username must not contain spaces."
    case BareHandle => "Handle must contain characters after \"@\"."
    case PasswordRequired => "Password is required for new users."
  }

  /** What each check objects to, stated on the untrimmed form. */
  ghost predicate UserFormFails(f: UserForm, isEdit: bool, e: UserFormError) {
    match e
    case MissingFields =>
      AllSpace(f.firstName) || AllSpace(f.lastName) || AllSpace(f.email) || AllSpace(f.username) || AllSpace(f.handle)
    case InvalidEmail => !MatchesEmailPattern(Trim(f.email))
    case UsernameHasSpaces => HasSpace(Trim(f.username))
    case BareHandle => Trim(f.handle) == "@"
    case PasswordRequired => !isEdit && f.password == ""
  }

  /** The request a valid form sends: create with a password, or update with an optional new one. */
  datatype UserPayload =
    | CreateUser(firstName: string, lastName: string, email: string, username: string, handle: string, password: string)
    | UpdateUser(userId: int, firstName: string, lastName: string, email: string, username: string, handle: string, newPassword: Option<string>)

  datatype UserCheck = UserRejected(error: UserFormError) | UserAccepted(payload: UserPayload)

  /**
   The outcome of each of `handleSaveUser`'s tests, taken on the trimmed
   fields; the handle is `@`-prefixed before the bare-`@` test.
   */
  datatype UserTests = UserTests(
    fieldBlank: bool,
    emailRejected: bool,
    usernameSpaced: bool,
    handleBare: bool,
    passwordMissing: bool)

  function RunUserTests(f: UserForm, isEdit: bool): UserTests {
    var email := Trim(f.email);
    var handle := Trim(f.handle);
    UserTests(
      Trim(f.firstName) == "" || Trim(f.lastName) == "" || email == "" || Trim(f.username) == "" || handle == "",
      !IsValidEmail(email),
      HasSpace(Trim(f.username)),
      NormalizeHandle(handle) == "@",
      !isEdit && f.password == "")
  }

  /** The outcome of the test behind check `e`. */
  predicate UserRejects(t: UserTests, e: UserFormError) {
    match e
    case MissingFields => t.fieldBlank
    case InvalidEmail => t.emailRejected
    case UsernameHasSpaces => t.usernameSpaced
    case BareHandle => t.handleBare
    case PasswordRequired => t.passwordMissing
  }

  /** Which field of the record each check reads. */
  lemma UserRejectsFields(t: UserTests)
    ensures UserRejects(t, MissingFields) == t.fieldBlank
    ensures UserRejects(t, InvalidEmail) == t.emailRejected
    ensures UserRejects(t, UsernameHasSpaces) == t.usernameSpaced
    ensures UserRejects(t, BareHandle) == t.handleBare
    ensures UserRejects(t, PasswordRequired) == t.passwordMissing
  {
  }

  /** The earliest check, in running order, whose test failed: every earlier test passed. */
  function FirstUserRejection(t: UserTests): (r: Option<UserFormError>)
    ensures r.Some? ==> UserRejects(t, r.value)
    ensures forall e :: (r.None? || UserFormOrder(e) < UserFormOrder(r.value)) ==> !UserRejects(t, e)
  {
    if t.fieldBlank then Some(MissingFields)
    else if t.emailRejected then Some(InvalidEmail)
    else if t.usernameSpaced then Some(UsernameHasSpaces)
    else if t.handleBare then Some(BareHandle)
    else if t.passwordMissing then Some(PasswordRequired)
    else None
  }

  /** The first check `handleSaveUser` rejects the form on, if any. */
  function UserFormFirstError(f: UserForm, isEdit: bool): Option<UserFormError> {
    FirstUserRejection(RunUserTests(f, isEdit))
  }

  lemma BlankFieldsAgree(f: UserForm)
    ensures Trim(f.firstName) == "" || Trim(f.lastName) == "" || Trim(f.email) == "" || Trim(f.username) == "" || Trim(f.handle) == ""
            <==> AllSpace(f.firstName) || AllSpace(f.lastName) || AllSpace(f.email) || AllSpace(f.username) || AllSpace(f.handle)
  {
  }

  /** Each of the handler's tests agrees with its check, given that the handle was not blank for the bare-`@` test. */
  lemma UserTestsAgree(f: UserForm, isEdit: bool, e: UserFormError)
    requires e == BareHandle ==> !UserRejects(RunUserTests(f, isEdit), MissingFields)
    ensures UserRejects(RunUserTests(f, isEdit), e) <==> UserFormFails(f, isEdit, e)
  {
    UserRejectsFields(RunUserTests(f, isEdit));
    match e
    case MissingFields => BlankFieldsAgree(f);
    case InvalidEmail => IsValidEmailMatchesPattern(Trim(f.email));
    case UsernameHasSpaces =>
    case BareHandle =>
      assert Trim(f.handle) != "";
      NormalizedHandleBare(Trim(f.handle));
    case PasswordRequired =>
  }

  /** Every check up to the reported one agrees with the handler's test for it. */
  lemma UserAgreesBeforeFirst(f: UserForm, isEdit: bool, e: UserFormError)
    requires var r := UserFormFirstError(f, isEdit); r.None? || UserFormOrder(e) <= UserFormOrder(r.value)
    ensures UserRejects(RunUserTests(f, isEdit), e) <==> UserFormFails(f, isEdit, e)
  {
    if e == BareHandle {
      assert !UserRejects(RunUserTests(f, isEdit), MissingFields);
    }
    UserTestsAgree(f, isEdit, e);
  }

  /** The chain reports the earliest check, in the form's order, whose condition holds. */
  lemma UserFormFirstErrorIsFirstFailure(f: UserForm, isEdit: bool)
    ensures var r := UserFormFirstError(f, isEdit);
      && (r.Some? ==> UserFormFails(f, isEdit, r.value))
      && (r.Some? ==> forall e :: UserFormOrder(e) < UserFormOrder(r.value) ==> !UserFormFails(f, isEdit, e))
      && (r.None? <==> forall e :: !UserFormFails(f, isEdit, e))
  {
    var r := UserFormFirstError(f, isEdit);
    if r.Some? {
      UserAgreesBeforeFirst(f, isEdit, r.value);
      forall e | UserFormOrder(e) < UserFormOrder(r.value)
        ensures !UserFormFails(f, isEdit, e)
      {
        UserAgreesBeforeFirst(f, isEdit, e);
      }
    } else {
      forall e
        ensures !UserFormFails(f, isEdit, e)
      {
        UserAgreesBeforeFirst(f, isEdit, e);
      }
    }
  }

  /** `handleSaveUser` up to the request it sends; `editing` is the user being edited, if any. */
  function CheckUserForm(f: UserForm, editing: Option<User>): (r: UserCheck)
    ensures r.UserRejected? <==> UserFormFirstError(f, editing.Some?).Some?
    ensures r.UserRejected? ==> r.error == UserFormFirstError(f, editing.Some?).value
    ensures r.UserAccepted? ==> (r.payload.CreateUser? <==> editing.None?)
  {
    match UserFormFirstError(f, editing.Some?)
    case Some(e) => UserRejected(e)
    case None =>
      var handle := NormalizeHandle(Trim(f.handle));
      if editing.Some? then
        UserAccepted(UpdateUser(editing.value.id, Trim(f.firstName), Trim(f.lastName), Trim(f.email), Trim(f.username),
                                handle, if f.password != "" then Some(f.password) else None))
      else UserAccepted(CreateUser(Trim(f.firstName), Trim(f.lastName), Trim(f.email), Trim(f.username), handle, f.password))
  }

  /**
   An accepted form sends the trimmed fields and the `@`-prefixed handle, which has
   something after its `@`. A new user's password is sent as typed and is never
   empty; an edit sends `new_password` only when one was typed.
   */
  lemma CheckUserFormPayload(f: UserForm, editing: Option<User>)
    requires CheckUserForm(f, editing).UserAccepted?
    ensures var p := CheckUserForm(f, editing).payload;
      && p.firstName == Trim(f.firstName) && p.lastName == Trim(f.lastName)
      && p.email == Trim(f.email) && p.username == Trim(f.username)
      && p.handle == NormalizeHandle(Trim(f.handle)) && |p.handle| >= 2 && p.handle[0] == '@'
      && (p.CreateUser? ==> p.password == f.password && p.password != "")
      && (p.UpdateUser? ==> p.userId == editing.value.id && (p.newPassword.Some? <==> f.password != "")
                            && (p.newPassword.Some? ==> p.newPassword.value == f.password))
  {
    UserRejectsFields(RunUserTests(f, editing.Some?));
    assert !UserRejects(RunUserTests(f, editing.Some?), BareHandle);
    NormalizedHandleShape(Trim(f.handle));
  }

  /** A rejected form names the first check that objects; a form is accepted exactly when no check objects. */
  lemma CheckUserFormFirstFailure(f: UserForm, editing: Option<User>)
    ensures var r := CheckUserForm(f, editing);
      && (r.UserRejected? ==> UserFormFails(f, editing.Some?, r.error))
      && (r.UserRejected? ==> forall e :: UserFormOrder(e) < UserFormOrder(r.error) ==> !UserFormFails(f, editing.Some?, e))
      && (r.UserAccepted? <==> forall e :: !UserFormFails(f, editing.Some?, e))
  {
    UserFormFirstErrorIsFirstFailure(f, editing.Some?);
  }

  /** The user dialog's visible state after a save attempt. */
  datatype UserDialogState = UserDialogState(open: bool, form: UserForm, error: Option<string>)

  /**
   The full save handler: a rejected form shows its check's message and stays
   open; an accepted one is sent, and on success the dialog closes and the form
   clears, on failure a generic message is shown.
   */
  function SaveUser(s: UserDialogState, editing: Option<User>, succeeded: bool): (r: UserDialogState)
    ensures CheckUserForm(s.form, editing).UserRejected? ==>
      r == s.(error := Some(UserFormMessage(CheckUserForm(s.form, editing).error)))
    ensures CheckUserForm(s.form, editing).UserAccepted? && succeeded ==>
      r == UserDialogState(false, EmptyUserForm, None)
    ensures CheckUserForm(s.form, editing).UserAccepted? && !succeeded ==>
      r == s.(error := Some("Failed to save user. Please try again."))
  {
    match CheckUserForm(s.form, editing)
    case UserRejected(e) => s.(error := Some(UserFormMessage(e)))
    case UserAccepted(_) =>
      if succeeded then UserDialogState(false, EmptyUserForm, None)
      else s.(error := Some("Failed to save user. Please try again."))
  }

  /** A form that passes every other check is accepted for an edit, and for a new user exactly when a password was typed. */
  lemma PasswordOnlyRequiredOnCreate(f: UserForm, u: User)
    requires UserFormFirstError(f, true).None?
    ensures CheckUserForm(f, None).UserAccepted? <==> f.password != ""
    ensures CheckUserForm(f, Some(u)).UserAccepted?
    ensures f.password == "" ==> CheckUserForm(f, Some(u)).payload.newPassword.None?
  {
  }

  // ----- deleting a user, changing a status -----

  datatype DeleteUserOutcome = RefusedSelfDelete(message: string) | DeleteUserCall(userId: int)

  /** The guard in front of the delete call. */
  function DeleteUser(userId: int, currentUserId: int): (r: DeleteUserOutcome)
    ensures r.RefusedSelfDelete? <==> userId == currentUserId
    ensures r.RefusedSelfDelete? ==> r.message == "You cannot delete your own admin account."
    ensures r.DeleteUserCall? ==> r.userId == userId && r.userId != currentUserId
  {
    if userId == currentUserId then RefusedSelfDelete("You cannot delete your own admin account.")
    else DeleteUserCall(userId)
  }

  /** The ids actually sent for deletion when each of `requests` is confirmed in turn. */
  function SentDeletes(requests: seq<int>, currentUserId: int): (r: seq<int>)
    ensures |r| <= |requests|
  {
    if |requests| == 0 then []
    else
      var rest := SentDeletes(requests[1..], currentUserId);
      match DeleteUser(requests[0], currentUserId)
      case DeleteUserCall(id) => [id] + rest
      case RefusedSelfDelete(_) => rest
  }

  /** Whatever is asked for, an administrator never deletes their own account, and every other requested id is sent for deletion, in order; the call itself may still fail. */
  lemma {:induction false} SentDeletesSparesSelf(requests: seq<int>, currentUserId: int)
    ensures currentUserId !in SentDeletes(requests, currentUserId)
    ensures forall x :: x in SentDeletes(requests, currentUserId) <==> x in requests && x != currentUserId
    ensures SubseqOf(SentDeletes(requests, currentUserId), requests)
  {
    if |requests| > 0 {
      SentDeletesSparesSelf(requests[1..], currentUserId);
      assert requests == [requests[0]] + requests[1..];
    }
  }

  /** The user list after a status change: only users with that id change, and only their status. */
  function SetUserStatus(users: seq<User>, userId: int, status: UserStatus): (r: seq<User>)
    ensures |r| == |users|
    ensures forall k :: 0 <= k < |users| ==> r[k].id == users[k].id && r[k].username == users[k].username
    ensures forall k :: 0 <= k < |users| && users[k].id != userId ==> r[k] == users[k]
    ensures forall k :: 0 <= k < |users| && users[k].id == userId ==> r[k].status == status
  {
    seq(|users|, k requires 0 <= k < |users| => if users[k].id == userId then users[k].(status := status) else users[k])
  }

  /** Repeating a status change changes nothing more, and a later change to the same user overrides it. */
  lemma SetUserStatusOverrides(users: seq<User>, userId: int, s1: UserStatus, s2: UserStatus)
    ensures SetUserStatus(SetUserStatus(users, userId, s1), userId, s2) == SetUserStatus(users, userId, s2)
  {
  }
}
