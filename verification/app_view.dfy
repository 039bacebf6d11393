/**
 The top-level screen switch: which view is showing, what is remembered in
 browser storage across reloads, and which screen is rendered. Storage is a
 map from keys to strings; the session check at start-up is a parameter.
 */
module AppView {
  import opened Options
  import opened Text

  datatype View = Login | Dashboard | Board | Admin

  /** The string each view is stored under. */
  function ViewName(v: View): string {
    match v
    case Login => "login"
    case Dashboard => "dashboard"
    case Board => "board"
    case Admin => "admin"
  }

  type Store = map<string, string>

  const ViewKey := "tm_view"
  const WorkspaceKey := "tm_workspace_id"
  const BoardKey := "tm_board_id"

  predicate IsViewKey(k: string) {
    k == ViewKey || k == WorkspaceKey || k == BoardKey
  }

  /** `r` agrees with `store` on every key other than the three this screen switch owns. */
  ghost predicate OthersUnchanged(store: Store, r: Store) {
    forall k :: !IsViewKey(k) ==> (k in r <==> k in store) && (k in r ==> r[k] == store[k])
  }

  /** Sets `key` to the decimal text of `id`, or removes it when there is no id. */
  function StoreId(store: Store, key: string, id: Option<int>): (r: Store)
    ensures key in r <==> id.Some?
    ensures id.Some? ==> r[key] == IntToString(id.value)
    ensures forall k :: k != key ==> (k in r <==> k in store) && (k in r ==> r[k] == store[k])
  {
    match id
    case Some(n) => store[key := IntToString(n)]
    case None => store - {key}
  }

  /** `persistView`: the view is always written; each id is written when given and removed when not. */
  function PersistView(store: Store, view: View, workspace: Option<int>, board: Option<int>): (r: Store)
    ensures ViewKey in r && r[ViewKey] == ViewName(view)
    ensures WorkspaceKey in r <==> workspace.Some?
    ensures workspace.Some? ==> r[WorkspaceKey] == IntToString(workspace.value)
    ensures BoardKey in r <==> board.Some?
    ensures board.Some? ==> r[BoardKey] == IntToString(board.value)
    ensures OthersUnchanged(store, r)
  {
    StoreId(StoreId(store[ViewKey := ViewName(view)], WorkspaceKey, workspace), BoardKey, board)
  }

  /** Writing the same view and ids again leaves storage as it was. */
  lemma PersistViewRepeat(store: Store, view: View, workspace: Option<int>, board: Option<int>)
    ensures var s := PersistView(store, view, workspace, board);
      PersistView(s, view, workspace, board) == s
  {
    var s := PersistView(store, view, workspace, board);
    var t := PersistView(s, view, workspace, board);
    forall k
      ensures k in t <==> k in s
      ensures k in t ==> t[k] == s[k]
    {
      if !IsViewKey(k) {
        assert OthersUnchanged(s, t);
      }
    }
    assert t.Keys == s.Keys;
  }

  /** Removes the three keys, as logout and a failed session check do. */
  function ClearView(store: Store): (r: Store)
    ensures forall k :: IsViewKey(k) ==> k !in r
    ensures OthersUnchanged(store, r)
  {
    store - {ViewKey, WorkspaceKey, BoardKey}
  }

  /** A stored string that JavaScript treats as true: present and non-empty. */
  predicate StoredTruthy(store: Store, key: string) {
    key in store && store[key] != ""
  }

  /** The view a signed-in user lands on when nothing more specific applies. */
  function HomeView(isAdmin: bool): View {
    if isAdmin then Admin else Dashboard
  }

  /** What `restoreView` decides: the view, the board selection it sets (if any), and storage afterwards. */
  datatype Restored = Restored(view: View, selection: Option<(int, int)>, store: Store)

  /** The stored board view with both ids readable as numbers, if that is what storage holds. */
  function StoredBoard(store: Store): (r: Option<(int, int)>)
    ensures r.Some? ==> ViewKey in store && store[ViewKey] == "board"
    ensures r.Some? ==> StoredTruthy(store, WorkspaceKey) && NumberOf(store[WorkspaceKey]) == Some(r.value.0)
    ensures r.Some? ==> StoredTruthy(store, BoardKey) && NumberOf(store[BoardKey]) == Some(r.value.1)
    ensures r.None? && ViewKey in store && store[ViewKey] == "board"
            && StoredTruthy(store, WorkspaceKey) && StoredTruthy(store, BoardKey)
            ==> NumberOf(store[WorkspaceKey]).None? || NumberOf(store[BoardKey]).None?
  {
    if ViewKey in store && store[ViewKey] == "board" && StoredTruthy(store, WorkspaceKey) && StoredTruthy(store, BoardKey) then
      match (NumberOf(store[WorkspaceKey]), NumberOf(store[BoardKey]))
      case (Some(w), Some(b)) => Some((w, b))
      case _ => None
    else None
  }

  /**
   `restoreView`: a missing, empty or `login` entry sends the user home; a
   stored `admin` view is kept only for an administrator; a stored board is
   reopened only when both ids read as numbers; anything else sends the user
   home. The chosen view is written back with its ids.
   */
  function RestoreView(store: Store, isAdmin: bool): (r: Restored)
    ensures r.view != Login
    ensures r.view == Admin ==> isAdmin
    ensures r.view == Board <==> r.selection.Some?
    ensures r.selection.Some? <==> StoredBoard(store).Some?
    ensures r.selection.Some? ==> r.selection == StoredBoard(store)
    ensures r.view != Board ==> r.view == HomeView(isAdmin)
    ensures r.selection.None? ==> r.store == PersistView(store, r.view, None, None)
    ensures r.selection.Some? ==> r.store == PersistView(store, Board, Some(r.selection.value.0), Some(r.selection.value.1))
  {
    var home := HomeView(isAdmin);
    if !StoredTruthy(store, ViewKey) || store[ViewKey] == "login" then
      Restored(home, None, PersistView(store, home, None, None))
    else if store[ViewKey] == "admin" && isAdmin then
      Restored(Admin, None, PersistView(store, Admin, None, None))
    else
      match StoredBoard(store)
      case Some((w, b)) => Restored(Board, Some((w, b)), PersistView(store, Board, Some(w), Some(b)))
      case None => Restored(home, None, PersistView(store, home, None, None))
  }

  /** A stored `admin` view comes back for an administrator and never for anyone else. */
  lemma RestoreAdminOnlyForAdmins(store: Store, isAdmin: bool)
    requires ViewKey in store && store[ViewKey] == "admin"
    ensures RestoreView(store, isAdmin).view == (if isAdmin then Admin else Dashboard)
  {
  }

  /** Whatever a board click stored comes back on the next start, ids included, and storage is left as it was. */
  lemma RestoreAfterBoardClick(store: Store, isAdmin: bool, workspace: int, board: int)
    ensures var s := PersistView(store, Board, Some(workspace), Some(board));
      && RestoreView(s, isAdmin) == Restored(Board, Some((workspace, board)), s)
  {
    var s := PersistView(store, Board, Some(workspace), Some(board));
    NumberOfIntToString(workspace);
    NumberOfIntToString(board);
    assert StoredBoard(s) == Some((workspace, board));
    PersistViewRepeat(store, Board, Some(workspace), Some(board));
  }

  /** Storage holding a home view and no ids restores to that same view, with storage left as it was. */
  lemma HomeViewRestores(store: Store, isAdmin: bool)
    ensures var s := PersistView(store, HomeView(isAdmin), None, None);
      RestoreView(s, isAdmin) == Restored(HomeView(isAdmin), None, s)
  {
    var s := PersistView(store, HomeView(isAdmin), None, None);
    assert s[ViewKey] == ViewName(HomeView(isAdmin));
    assert StoredBoard(s).None?;
    PersistViewRepeat(store, HomeView(isAdmin), None, None);
  }

  /** Restoring a second time changes nothing: the first restore leaves storage that restores to itself. */
  lemma RestoreViewStable(store: Store, isAdmin: bool)
    ensures var r := RestoreView(store, isAdmin);
      RestoreView(r.store, isAdmin) == r
  {
    var r := RestoreView(store, isAdmin);
    match r.selection
    case Some((w, b)) =>
      RestoreAfterBoardClick(store, isAdmin, w, b);
    case None =>
      HomeViewRestores(store, isAdmin);
  }

  // ----- the application state -----

  datatype LoginUser = LoginUser(memberId: int, username: string, email: string, isAdmin: bool)

  datatype AppState = AppState(
    view: View,
    user: Option<LoginUser>,
    isAdmin: bool,
    workspace: Option<int>,
    board: Option<int>,
    bootstrapping: bool,
    store: Store)

  /** The state before the session check has answered. */
  function Start(store: Store): AppState {
    AppState(Login, None, false, None, None, true, store)
  }

  /**
   The start-up session check: on success the user is signed in and the view
   restored; on failure the three keys are removed and the login view shown.
   Either way loading ends.
   */
  function Bootstrap(s: AppState, me: Option<LoginUser>): (r: AppState)
    ensures !r.bootstrapping
    ensures me.None? ==> r.view == Login && r.user == s.user && r.store == ClearView(s.store)
    ensures me.Some? ==> r.user == me && r.isAdmin == me.value.isAdmin
    ensures me.Some? ==> var rv := RestoreView(s.store, me.value.isAdmin);
      r.view == rv.view && r.store == rv.store
    ensures me.Some? ==> var rv := RestoreView(s.store, me.value.isAdmin);
      if rv.selection.Some? then r.workspace == Some(rv.selection.value.0) && r.board == Some(rv.selection.value.1)
      else r.workspace == s.workspace && r.board == s.board
    ensures me.None? ==> r.workspace == s.workspace && r.board == s.board
  {
    match me
    case None => s.(view := Login, bootstrapping := false, store := ClearView(s.store))
    case Some(u) =>
      var rv := RestoreView(s.store, u.isAdmin);
      var selected := match rv.selection
        case Some((w, b)) => s.(workspace := Some(w), board := Some(b))
        case None => s;
      selected.(view := rv.view, user := Some(u), isAdmin := u.isAdmin, bootstrapping := false, store := rv.store)
  }

  /** `handleLogin`: home view for the user's role, with no remembered ids. */
  function SignIn(s: AppState, user: LoginUser, admin: bool): (r: AppState)
    ensures r.user == Some(user) && r.isAdmin == admin
    ensures r.view == HomeView(admin)
    ensures r.store == PersistView(s.store, r.view, None, None)
    ensures r.workspace == s.workspace && r.board == s.board
  {
    var home := HomeView(admin);
    s.(user := Some(user), isAdmin := admin, view := home, store := PersistView(s.store, home, None, None))
  }

  /** `handleLogout`: whatever the server answered, the user is signed out and the three keys removed. */
  function SignOut(s: AppState): (r: AppState)
    ensures r.user.None? && !r.isAdmin && r.view == Login
    ensures r.workspace.None? && r.board.None?
    ensures forall k :: IsViewKey(k) ==> k !in r.store
    ensures OthersUnchanged(s.store, r.store)
  {
    s.(user := None, isAdmin := false, view := Login, workspace := None, board := None, store := ClearView(s.store))
  }

  /** `handleBoardClick`: open the board and remember both ids. */
  function OpenBoard(s: AppState, workspaceId: int, boardId: int): (r: AppState)
    ensures r.view == Board && r.workspace == Some(workspaceId) && r.board == Some(boardId)
    ensures r.store == PersistView(s.store, Board, Some(workspaceId), Some(boardId))
    ensures r.user == s.user && r.isAdmin == s.isAdmin
  {
    s.(workspace := Some(workspaceId), board := Some(boardId), view := Board,
       store := PersistView(s.store, Board, Some(workspaceId), Some(boardId)))
  }

  /** `handleBackToDashboard`: drop the selection and go home for the current role. */
  function BackToDashboard(s: AppState): (r: AppState)
    ensures r.view == HomeView(s.isAdmin)
    ensures r.workspace.None? && r.board.None?
    ensures r.store == PersistView(s.store, r.view, None, None)
    ensures r.user == s.user && r.isAdmin == s.isAdmin
  {
    var home := HomeView(s.isAdmin);
    s.(workspace := None, board := None, view := home, store := PersistView(s.store, home, None, None))
  }

  // ----- what is rendered -----

  datatype Screen = Loading | LoginScreen | BoardScreen(workspaceId: int, boardId: int) | AdminScreen | DashboardScreen

  /** A selected id as a JavaScript condition: absent and 0 both count as false. */
  predicate IdTruthy(id: Option<int>) {
    id.Some? && id.value != 0
  }

  /** The render decision, in the order the component tests it. */
  function Render(s: AppState): (r: Screen)
    ensures s.bootstrapping <==> r == Loading
    ensures !s.bootstrapping && (s.view == Login || s.user.None?) <==> r == LoginScreen
    ensures r.BoardScreen? ==> s.view == Board && IdTruthy(s.workspace) && IdTruthy(s.board)
    ensures r.BoardScreen? ==> r.workspaceId == s.workspace.value && r.boardId == s.board.value
    ensures r == AdminScreen ==> s.view == Admin && s.isAdmin && s.user.Some?
    ensures r == DashboardScreen ==> s.user.Some? && s.view != Login
  {
    if s.bootstrapping then Loading
    else if s.view == Login || s.user.None? then LoginScreen
    else if s.view == Board && IdTruthy(s.board) && IdTruthy(s.workspace) then BoardScreen(s.workspace.value, s.board.value)
    else if s.view == Admin && s.isAdmin then AdminScreen
    else DashboardScreen
  }

  /** A view that cannot be honoured falls back to the dashboard rather than to an empty screen. */
  lemma RenderFallsBackToDashboard(s: AppState)
    requires !s.bootstrapping && s.user.Some? && s.view != Login
    requires s.view == Board ==> !IdTruthy(s.workspace) || !IdTruthy(s.board)
    requires s.view == Admin ==> !s.isAdmin
    ensures Render(s) == DashboardScreen
  {
  }

  /** After signing out the login page shows, and the next start shows it again until a session exists. */
  lemma SignOutShowsLogin(s: AppState)
    ensures Render(SignOut(s)) == LoginScreen || SignOut(s).bootstrapping
    ensures var r := RestoreView(SignOut(s).store, false);
      r.view == Dashboard && r.selection.None?
  {
    var c := SignOut(s).store;
    assert ViewKey !in c;
  }

  /** Starting up with a session and a remembered board reopens that board on screen. */
  lemma ReloadReopensBoard(store: Store, me: LoginUser, workspace: int, board: int)
    requires workspace != 0 && board != 0
    ensures var s := PersistView(store, Board, Some(workspace), Some(board));
      Render(Bootstrap(Start(s), Some(me))) == BoardScreen(workspace, board)
  {
    var s := PersistView(store, Board, Some(workspace), Some(board));
    RestoreAfterBoardClick(store, me.isAdmin, workspace, board);
  }

  /** After signing in, a reload with the same session lands on the same home view with no board selected. */
  lemma SignInSurvivesReload(s: AppState, user: LoginUser)
    ensures var t := SignIn(s, user, user.isAdmin);
      var b := Bootstrap(Start(t.store), Some(user));
      && RestoreView(t.store, user.isAdmin) == Restored(t.view, None, t.store)
      && b.view == t.view && b.store == t.store && b.workspace.None? && b.board.None?
  {
    HomeViewRestores(s.store, user.isAdmin);
  }

  /** Going back to the dashboard is remembered: a reload returns to the home view, not to the board left. */
  lemma BackToDashboardSurvivesReload(s: AppState)
    ensures var t := BackToDashboard(s);
      RestoreView(t.store, s.isAdmin) == Restored(t.view, None, t.store)
  {
    HomeViewRestores(s.store, s.isAdmin);
  }

  /** No sequence of events puts a non-administrator on the admin screen. */
  lemma AdminScreenNeedsAdmin(s: AppState)
    requires Render(s) == AdminScreen
    ensures s.isAdmin
  {
  }
}
