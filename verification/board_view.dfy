/**
 What the board screen derives from a task list: the list-view filters, the status
 and category columns of the column view, the order of the status columns, the
 scroll decision, the task-form category toggle and save delta, the chips on a
 task card, and the date input's pass-through of `YYYY-MM-DD` strings.
 */
module BoardView {
  import opened Options
  import opened Text
  import opened Seqs
  import opened Tasks
  import Sorting

  // ----- list view -----

  function CategoryIds(t: Task): (r: seq<int>)
    ensures |r| == |CategoriesOf(t)|
    ensures forall k :: 0 <= k < |r| ==> r[k] == CategoriesOf(t)[k].id
  {
    var cats := CategoriesOf(t);
    seq(|cats|, k requires 0 <= k < |cats| => cats[k].id)
  }

  /** Some category of `t` has its id in `ids` (`taskCatIds.some(id => ids.includes(id))`). */
  predicate HasAnyCategory(t: Task, ids: seq<int>) {
    exists k :: 0 <= k < |CategoryIds(t)| && CategoryIds(t)[k] in ids
  }

  /** The condition a task must meet to stay in the list view. */
  predicate PassesListFilters(t: Task, statusFilter: string, categoryFilterIds: seq<int>) {
    && (statusFilter == "all" || t.status == statusFilter)
    && (|categoryFilterIds| == 0 || exists c :: c in CategoriesOf(t) && c.id in categoryFilterIds)
  }

  /** The status filter, then the category filter, each applied only when set. */
  function ApplyListFilters(ts: seq<Task>, statusFilter: string, categoryFilterIds: seq<int>): (r: seq<Task>)
    ensures forall t :: t in r <==> t in ts && PassesListFilters(t, statusFilter, categoryFilterIds)
    ensures forall t :: multiset(r)[t] == if PassesListFilters(t, statusFilter, categoryFilterIds) then multiset(ts)[t] else 0
    ensures SubseqOf(r, ts)
    ensures statusFilter == "all" && |categoryFilterIds| == 0 ==> r == ts
  {
    var statusMatches := (t: Task) => t.status == statusFilter;
    var categoryMatches := (t: Task) => HasAnyCategory(t, categoryFilterIds);
    var byStatus := if statusFilter != "all" then Filter(ts, statusMatches) else ts;
    var r := if |categoryFilterIds| > 0 then Filter(byStatus, categoryMatches) else byStatus;
    FilterCounts(ts, statusMatches);
    FilterSubseq(ts, statusMatches);
    FilterCounts(byStatus, categoryMatches);
    FilterSubseq(byStatus, categoryMatches);
    AnyCategoryIffPasses(categoryFilterIds);
    SubseqOfSelf(ts);
    SubseqOfSelf(byStatus);
    SubseqTransitive(r, byStatus, ts);
    r
  }

  lemma AnyCategoryIffPasses(ids: seq<int>)
    ensures forall t :: |ids| > 0 ==> (HasAnyCategory(t, ids) <==> exists c :: c in CategoriesOf(t) && c.id in ids)
  {
    forall t | |ids| > 0
      ensures HasAnyCategory(t, ids) <==> exists c :: c in CategoriesOf(t) && c.id in ids
    {
      if exists c :: c in CategoriesOf(t) && c.id in ids {
        var c :| c in CategoriesOf(t) && c.id in ids;
        var k :| 0 <= k < |CategoriesOf(t)| && CategoriesOf(t)[k] == c;
        assert CategoryIds(t)[k] in ids;
      }
    }
  }

  /** The list view: the sorted board, filtered. Each passing task stays as often as on the board, in sorted order. */
  function ListView(ts: seq<Task>, statusFilter: string, categoryFilterIds: seq<int>, now: int): (r: seq<Task>)
    ensures forall t :: t in r <==> t in ts && PassesListFilters(t, statusFilter, categoryFilterIds)
    ensures forall t :: multiset(r)[t] == if PassesListFilters(t, statusFilter, categoryFilterIds) then multiset(ts)[t] else 0
    ensures forall i, j :: 0 <= i < j < |r| ==> SortLeq(r[i], r[j], now)
  {
    var sorted := SortTasks(ts, now);
    var r := ApplyListFilters(sorted, statusFilter, categoryFilterIds);
    Sorting.SubseqOfSortedIsSorted(r, sorted, (a, b) => SortLeq(a, b, now));
    r
  }

  // ----- column view -----

  /** The tasks in one status column: exactly those whose status string is `name`, sorted. */
  function TasksForStatus(ts: seq<Task>, name: string, now: int): (r: seq<Task>)
    ensures forall t :: multiset(r)[t] == if t.status == name then multiset(ts)[t] else 0
    ensures forall i, j :: 0 <= i < j < |r| ==> SortLeq(r[i], r[j], now)
  {
    var inColumn := (t: Task) => t.status == name;
    FilterCounts(ts, inColumn);
    SortTasks(Filter(ts, inColumn), now)
  }

  datatype CategoryColumn = Uncategorized | CategoryColumn(id: int)

  /** No category list, or an empty one. */
  predicate IsUncategorized(t: Task) {
    t.categories.None? || |t.categories.value| == 0
  }

  predicate InCategoryColumn(t: Task, col: CategoryColumn) {
    match col
    case Uncategorized => IsUncategorized(t)
    case CategoryColumn(id) => exists c :: c in CategoriesOf(t) && c.id == id
  }

  predicate HasCategoryId(t: Task, id: int) {
    exists k :: 0 <= k < |CategoriesOf(t)| && CategoriesOf(t)[k].id == id
  }

  /** The tasks in one category column, sorted. */
  function TasksForCategory(ts: seq<Task>, col: CategoryColumn, now: int): (r: seq<Task>)
    ensures forall t :: multiset(r)[t] == if InCategoryColumn(t, col) then multiset(ts)[t] else 0
    ensures forall i, j :: 0 <= i < j < |r| ==> SortLeq(r[i], r[j], now)
  {
    match col
    case Uncategorized =>
      var inColumn := (t: Task) => t.categories.None? || (t.categories.Some? && |t.categories.value| == 0);
      FilterCounts(ts, inColumn);
      SortTasks(Filter(ts, inColumn), now)
    case CategoryColumn(id) =>
      var inColumn := (t: Task) => HasCategoryId(t, id);
      HasCategoryIdIff(id);
      FilterCounts(ts, inColumn);
      SortTasks(Filter(ts, inColumn), now)
  }

  lemma HasCategoryIdIff(id: int)
    ensures forall t :: HasCategoryId(t, id) <==> InCategoryColumn(t, CategoryColumn(id))
  {
    forall t
      ensures HasCategoryId(t, id) <==> InCategoryColumn(t, CategoryColumn(id))
    {
      if InCategoryColumn(t, CategoryColumn(id)) {
        var c :| c in CategoriesOf(t) && c.id == id;
        var k :| 0 <= k < |CategoriesOf(t)| && CategoriesOf(t)[k] == c;
      }
    }
  }

  /** A task with several categories appears in the column of each of them. */
  lemma CategoryFanOut(ts: seq<Task>, t: Task, c: Category, now: int)
    requires t in ts && c in CategoriesOf(t)
    ensures t in TasksForCategory(ts, CategoryColumn(c.id), now)
  {
    var r := TasksForCategory(ts, CategoryColumn(c.id), now);
    assert multiset(r)[t] == multiset(ts)[t];
  }

  /** A task in the "Uncategorized" column is in no category column, and vice versa. */
  lemma UncategorizedExclusive(ts: seq<Task>, t: Task, id: int, now: int)
    requires t in TasksForCategory(ts, Uncategorized, now)
    ensures t !in TasksForCategory(ts, CategoryColumn(id), now)
  {
    var u := TasksForCategory(ts, Uncategorized, now);
    var r := TasksForCategory(ts, CategoryColumn(id), now);
    assert multiset(u)[t] > 0;
    assert IsUncategorized(t);
    assert multiset(r)[t] == 0;
  }

  /** Every task of the board shows in some category column. */
  lemma CategoryColumnsCover(ts: seq<Task>, t: Task, now: int)
    requires t in ts
    ensures IsUncategorized(t) ==> t in TasksForCategory(ts, Uncategorized, now)
    ensures !IsUncategorized(t) ==> t in TasksForCategory(ts, CategoryColumn(CategoriesOf(t)[0].id), now)
  {
    if IsUncategorized(t) {
      var u := TasksForCategory(ts, Uncategorized, now);
      assert multiset(u)[t] == multiset(ts)[t];
    } else {
      CategoryFanOut(ts, t, CategoriesOf(t)[0], now);
    }
  }

  /** Status columns with different names share no task. */
  lemma StatusColumnsDisjoint(ts: seq<Task>, a: string, b: string, t: Task, now: int)
    requires a != b
    requires t in TasksForStatus(ts, a, now)
    ensures t !in TasksForStatus(ts, b, now)
  {
    var ra := TasksForStatus(ts, a, now);
    var rb := TasksForStatus(ts, b, now);
    assert multiset(ra)[t] > 0;
    assert multiset(rb)[t] == 0;
  }

  // ----- order of the status columns -----

  datatype Status = Status(id: int, name: string)

  const StatusDisplayOrder: seq<string> := ["To Do", "In Progress", "Completed"]

  /** `findIndex` of the preferred name equal to `name` ignoring case, from position `k` on. */
  function PreferredIndexFrom(name: string, k: nat): (r: int)
    requires k <= |StatusDisplayOrder|
    ensures r == -1 || k <= r < |StatusDisplayOrder|
    ensures r >= 0 ==> Lower(StatusDisplayOrder[r]) == Lower(name)
    ensures forall m :: k <= m < |StatusDisplayOrder| && (r == -1 || m < r) ==> Lower(StatusDisplayOrder[m]) != Lower(name)
    decreases |StatusDisplayOrder| - k
  {
    if k == |StatusDisplayOrder| then -1
    else if Lower(StatusDisplayOrder[k]) == Lower(name) then k
    else PreferredIndexFrom(name, k + 1)
  }

  /** Position of `name` in the preferred list ignoring case, or -1. */
  function PreferredIndex(name: string): int {
    PreferredIndexFrom(name, 0)
  }

  /** The comparator of the status sort, with `localeCompare` read as code-point order. */
  function StatusCompare(a: Status, b: Status): int {
    var ia := PreferredIndex(a.name);
    var ib := PreferredIndex(b.name);
    if ia == -1 && ib == -1 then LexCompare(a.name, b.name)
    else if ia == -1 then 1
    else if ib == -1 then -1
    else ia - ib
  }

  predicate StatusLeq(a: Status, b: Status) {
    StatusCompare(a, b) <= 0
  }

  lemma StatusLeqTotalPreorder()
    ensures Sorting.TotalPreorder(StatusLeq)
  {
    forall a: Status, b: Status
      ensures StatusLeq(a, b) || StatusLeq(b, a)
    {
      LexLeqTotal(a.name, b.name);
    }
    forall a: Status, b: Status, c: Status | StatusLeq(a, b) && StatusLeq(b, c)
      ensures StatusLeq(a, c)
    {
      if PreferredIndex(a.name) == -1 && PreferredIndex(b.name) == -1 && PreferredIndex(c.name) == -1 {
        LexLeqTransitive(a.name, b.name, c.name);
      }
    }
  }

  /** `[...statuses].sort(...)` by the preferred order. */
  function SortStatuses(statuses: seq<Status>): (r: seq<Status>)
    ensures multiset(r) == multiset(statuses)
    ensures forall i, j :: 0 <= i < j < |r| ==> StatusCompare(r[i], r[j]) <= 0
  {
    StatusLeqTotalPreorder();
    Sorting.SortBy(statuses, StatusLeq)
  }

  /** Names from the preferred list come first, in that list's order; the rest follow in code-point order. */
  lemma SortedStatusesLayout(statuses: seq<Status>, i: int, j: int)
    requires 0 <= i < j < |SortStatuses(statuses)|
    ensures var r := SortStatuses(statuses);
      && (PreferredIndex(r[j].name) != -1 ==> PreferredIndex(r[i].name) != -1)
      && (PreferredIndex(r[i].name) != -1 && PreferredIndex(r[j].name) != -1 ==> PreferredIndex(r[i].name) <= PreferredIndex(r[j].name))
      && (PreferredIndex(r[i].name) == -1 && PreferredIndex(r[j].name) == -1 ==> LexLeq(r[i].name, r[j].name))
  {
    var r := SortStatuses(statuses);
    assert StatusCompare(r[i], r[j]) <= 0;
  }

  // ----- scrolling -----

  /** More than three columns scroll horizontally; up to three sit in a grid. */
  function ShouldScroll(columnCount: int): bool {
    columnCount > 3
  }

  function StatusColumnsScroll(statuses: seq<Status>): (r: bool)
    ensures r <==> |statuses| >= 4
  {
    ShouldScroll(|statuses|)
  }

  /** The category view adds an "Uncategorized" column to the board's categories. */
  function CategoryColumnsScroll(categories: seq<Category>): (r: bool)
    ensures r <==> |categories| >= 3
  {
    ShouldScroll(|categories| + 1)
  }

  /**
   The two views of one board scroll alike: the category view's extra column makes
   `n` categories scroll exactly when `n + 1` statuses would, and a view that
   scrolls keeps scrolling as columns are added.
   */
  lemma ColumnViewsScrollAlike(statuses: seq<Status>, categories: seq<Category>, more: seq<Status>)
    ensures |statuses| == |categories| + 1 ==> StatusColumnsScroll(statuses) == CategoryColumnsScroll(categories)
    ensures StatusColumnsScroll(statuses) ==> StatusColumnsScroll(statuses + more)
  {
  }

  // ----- the task form's categories -----

  /** Ticking or unticking one category in the task form. */
  function ToggleTaskFormCategory(ids: seq<int>, id: int): (r: seq<int>)
    ensures id in r <==> id !in ids
    ensures forall x :: x != id ==> (x in r <==> x in ids)
  {
    Toggle(ids, id)
  }

  /** The category calls a task save issues after the task itself is stored. */
  datatype CategoryDelta = CategoryDelta(toAdd: seq<int>, toRemove: seq<int>)

  /**
   The ids to attach and detach when the form is saved: the form's ids not on the
   edited task, and the task's ids no longer in the form. A new task has no ids yet.
   */
  function CategoryDeltaFor(editing: Option<Task>, formIds: seq<int>): (d: CategoryDelta)
    ensures var old_ := if editing.Some? then CategoryIds(editing.value) else [];
      && (forall x :: x in d.toAdd <==> x in formIds && x !in old_)
      && (forall x :: x in d.toRemove <==> x in old_ && x !in formIds)
  {
    var oldIds := if editing.Some? then CategoryIds(editing.value) else [];
    CategoryDelta(Without(formIds, oldIds), Without(oldIds, formIds))
  }

  /** Applying the delta to the task's old ids gives exactly the form's ids, and the two lists never overlap. */
  lemma CategoryDeltaApplies(editing: Option<Task>, formIds: seq<int>)
    ensures var d := CategoryDeltaFor(editing, formIds);
      var old_ := if editing.Some? then CategoryIds(editing.value) else [];
      && (forall x :: x in formIds <==> (x in old_ && x !in d.toRemove) || x in d.toAdd)
      && (forall x :: !(x in d.toAdd && x in d.toRemove))
  {
  }

  /** A server call made by a task save: storing the task itself, then attaching and detaching categories. */
  datatype TaskCall = UpdateTask(id: int) | CreateTask | AttachCategories(ids: seq<int>) | DetachCategories(ids: seq<int>)

  /** The calls a task save makes and whether the task dialog closes afterwards. */
  datatype TaskSave = TaskSave(calls: seq<TaskCall>, dialogClosed: bool)

  /** The calls a save plans: the task itself, then the non-empty halves of the category delta. */
  function PlannedTaskCalls(editing: Option<Task>, formIds: seq<int>): (r: seq<TaskCall>)
    ensures 1 <= |r| <= 3
    ensures r[0] == if editing.Some? then UpdateTask(editing.value.id) else CreateTask
    ensures forall c :: c in r && c.AttachCategories? ==> c.ids == CategoryDeltaFor(editing, formIds).toAdd && c.ids != []
    ensures forall c :: c in r && c.DetachCategories? ==> c.ids == CategoryDeltaFor(editing, formIds).toRemove && c.ids != []
    ensures |r| == 3 ==> r[1].AttachCategories? && r[2].DetachCategories?
  {
    var d := CategoryDeltaFor(editing, formIds);
    [if editing.Some? then UpdateTask(editing.value.id) else CreateTask]
      + (if d.toAdd != [] then [AttachCategories(d.toAdd)] else [])
      + (if d.toRemove != [] then [DetachCategories(d.toRemove)] else [])
  }

  /**
   Saving the task dialog. A title that is blank after trimming does nothing.
   Otherwise the task is updated or created, then the ids the form added are
   attached and those it dropped detached; each call is awaited and the first
   that throws skips the rest. `ok` says which calls the server accepts and
   `reloadOk` whether the task list reload succeeds; the dialog closes only when
   all of them succeed.
   */
  function SaveTask(title: string, editing: Option<Task>, formIds: seq<int>, ok: TaskCall -> bool, reloadOk: bool): (r: TaskSave)
    ensures AllSpace(title) ==> r == TaskSave([], false)
    ensures !AllSpace(title) ==> 1 <= |r.calls| && r.calls[0] == (if editing.Some? then UpdateTask(editing.value.id) else CreateTask)
    ensures |r.calls| > 1 ==> ok(r.calls[0])
    ensures forall c :: c in r.calls && c.AttachCategories? ==> c.ids == CategoryDeltaFor(editing, formIds).toAdd && c.ids != []
    ensures forall c :: c in r.calls && c.DetachCategories? ==> c.ids == CategoryDeltaFor(editing, formIds).toRemove && c.ids != []
    ensures |r.calls| == 3 ==> r.calls[1].AttachCategories? && ok(r.calls[1]) && r.calls[2].DetachCategories?
    ensures r.dialogClosed <==> !AllSpace(title) && AllOk(r.calls, ok) && reloadOk
  {
    if Trim(title) == [] then TaskSave([], false)
    else
      var planned := PlannedTaskCalls(editing, formIds);
      var sent := SentUntilFailure(planned, ok);
      assert forall c :: c in sent ==> c in planned;
      assert |sent| == 3 ==> sent == planned;
      TaskSave(sent, AllOk(planned, ok) && reloadOk)
  }

  /** When storing the task throws, no category call is made and the dialog stays open. */
  lemma FailedTaskStoreSendsNoCategories(title: string, editing: Option<Task>, formIds: seq<int>, ok: TaskCall -> bool, reloadOk: bool)
    requires !AllSpace(title)
    requires !ok(if editing.Some? then UpdateTask(editing.value.id) else CreateTask)
    ensures SaveTask(title, editing, formIds, ok, reloadOk)
      == TaskSave([if editing.Some? then UpdateTask(editing.value.id) else CreateTask], false)
  {
  }

  /**
   When every call and the reload succeed, the saved task ends up with exactly the
   form's categories: the ids it lacked are attached and the dropped ones detached.
   */
  lemma SuccessfulTaskSaveAppliesForm(title: string, editing: Option<Task>, formIds: seq<int>, ok: TaskCall -> bool)
    requires !AllSpace(title)
    requires forall c :: ok(c)
    ensures var r := SaveTask(title, editing, formIds, ok, true);
      var old_ := if editing.Some? then CategoryIds(editing.value) else [];
      var added := if |r.calls| > 1 && r.calls[1].AttachCategories? then r.calls[1].ids else [];
      var dropped := if r.calls[|r.calls| - 1].DetachCategories? then r.calls[|r.calls| - 1].ids else [];
      && r.dialogClosed
      && forall x :: x in formIds <==> (x in old_ && x !in dropped) || x in added
  {
    var planned := PlannedTaskCalls(editing, formIds);
    assert AllOk(planned, ok);
    CategoryDeltaApplies(editing, formIds);
  }

  // ----- the task card -----

  const MaxVisibleCategories: nat := 2

  datatype Chips = Chips(visible: seq<Category>, hiddenCount: int)

  /** The first two categories become chips; the rest are counted in a "+N more" chip. */
  function CardChips(t: Task): (c: Chips)
    ensures |c.visible| <= MaxVisibleCategories && |c.visible| <= |CategoriesOf(t)|
    ensures c.visible == CategoriesOf(t)[..|c.visible|]
    ensures c.hiddenCount == |CategoriesOf(t)| - |c.visible|
    ensures c.hiddenCount > 0 <==> |CategoriesOf(t)| > MaxVisibleCategories
    ensures c.hiddenCount >= 0
  {
    var cats := CategoriesOf(t);
    var visible := if |cats| <= MaxVisibleCategories then cats else cats[..MaxVisibleCategories];
    Chips(visible, |cats| - |visible|)
  }

  /** The chips and the "+N more" count split the task's categories: the shown ones first, then exactly the counted rest. */
  lemma CardChipsPartition(t: Task)
    ensures var c := CardChips(t);
      && c.visible + CategoriesOf(t)[|c.visible|..] == CategoriesOf(t)
      && c.hiddenCount == |CategoriesOf(t)[|c.visible|..]|
      && (c.hiddenCount > 0 ==> |c.visible| == MaxVisibleCategories)
  {
    var c := CardChips(t);
    assert CategoriesOf(t) == CategoriesOf(t)[..|c.visible|] + CategoriesOf(t)[|c.visible|..];
  }

  // ----- the date input -----

  /** `/^\d{4}-\d{2}-\d{2}$/`: four digits, dash, two digits, dash, two digits, nothing else. */
  predicate IsDateInputShape(s: string) {
    && |s| == 10
    && IsDigit(s[0]) && IsDigit(s[1]) && IsDigit(s[2]) && IsDigit(s[3])
    && s[4] == '-' && IsDigit(s[5]) && IsDigit(s[6])
    && s[7] == '-' && IsDigit(s[8]) && IsDigit(s[9])
  }

  /**
   The value put in the form's date input. Strings of any other shape go through
   the platform's date parser, passed in as `viaDateParser`.
   */
  function DateInputValue(value: Option<string>, viaDateParser: string -> string): (r: string)
    ensures value.None? || value == Some("") ==> r == ""
    ensures value.Some? && IsDateInputShape(value.value) ==> r == value.value
    ensures value.Some? && value.value != "" && !IsDateInputShape(value.value) ==> r == viaDateParser(value.value)
  {
    if value.None? || value.value == "" then ""
    else if IsDateInputShape(value.value) then value.value
    else viaDateParser(value.value)
  }

  /** The last `width` decimal digits of `n`, zero-padded. */
  function Padded(n: nat, width: nat): (r: string)
    ensures |r| == width && AllDigits(r)
  {
    if width == 0 then [] else Padded(n / 10, width - 1) + [DigitChar(n % 10)]
  }

  /** Reading a digit string and padding it back to its length gives the string again. */
  lemma {:induction false} PaddedDigitsValue(t: string)
    requires AllDigits(t)
    ensures Padded(DigitsValue(t), |t|) == t
  {
    if |t| > 0 {
      var init := t[..|t| - 1];
      assert AllDigits(init);
      var v := DigitsValue(init) * 10 + (t[|t| - 1] as int - '0' as int);
      assert v / 10 == DigitsValue(init) && v % 10 == t[|t| - 1] as int - '0' as int;
      PaddedDigitsValue(init);
      assert t == init + [t[|t| - 1]];
    }
  }

  /** A calendar date written `YYYY-MM-DD` with zero padding, as the date input produces it. */
  function DateText(year: nat, month: nat, day: nat): (r: string)
    ensures |r| == 10
  {
    Padded(year, 4) + "-" + Padded(month, 2) + "-" + Padded(day, 2)
  }

  /** Every zero-padded date has the input's shape and is shown exactly as given, whatever the platform parser does. */
  lemma DateTextShown(year: nat, month: nat, day: nat, viaDateParser: string -> string)
    ensures IsDateInputShape(DateText(year, month, day))
    ensures DateInputValue(Some(DateText(year, month, day)), viaDateParser) == DateText(year, month, day)
  {
    var y, m, d := Padded(year, 4), Padded(month, 2), Padded(day, 2);
    var s := DateText(year, month, day);
    assert s[0] == y[0] && s[1] == y[1] && s[2] == y[2] && s[3] == y[3];
    assert s[5] == m[0] && s[6] == m[1] && s[8] == d[0] && s[9] == d[1];
  }

  /** Conversely, every string of the input's shape is some zero-padded date, so the shape admits nothing else. */
  lemma DateInputShapeIsDateText(s: string) returns (year: nat, month: nat, day: nat)
    requires IsDateInputShape(s)
    ensures year < 10000 && month < 100 && day < 100
    ensures s == DateText(year, month, day)
  {
    var y, m, d := DateInputParts(s);
    year, month, day := DigitsValue(y), DigitsValue(m), DigitsValue(d);
    DateTextOfDigits(y, m, d);
    DigitsValueBound(y);
    DigitsValueBound(m);
    DigitsValueBound(d);
  }

  /** A string of the input's shape is three digit runs joined by dashes. */
  lemma DateInputParts(s: string) returns (y: string, m: string, d: string)
    requires IsDateInputShape(s)
    ensures |y| == 4 && |m| == 2 && |d| == 2
    ensures AllDigits(y) && AllDigits(m) && AllDigits(d)
    ensures s == y + "-" + m + "-" + d
  {
    y, m, d := s[..4], s[5..7], s[8..];
    assert s[4..5] == "-" && s[7..8] == "-";
    assert s == s[..4] + s[4..5] + s[5..7] + s[7..8] + s[8..];
  }

  /** Zero-padding the values of three digit runs back to their lengths gives the runs again. */
  lemma DateTextOfDigits(y: string, m: string, d: string)
    requires |y| == 4 && |m| == 2 && |d| == 2
    requires AllDigits(y) && AllDigits(m) && AllDigits(d)
    ensures DateText(DigitsValue(y), DigitsValue(m), DigitsValue(d)) == y + "-" + m + "-" + d
  {
    PaddedDigitsValue(y);
    PaddedDigitsValue(m);
    PaddedDigitsValue(d);
  }

  function Pow10(n: nat): (r: nat)
    ensures r >= 1
  {
    if n == 0 then 1 else 10 * Pow10(n - 1)
  }

  lemma {:induction false} DigitsValueBound(t: string)
    requires AllDigits(t)
    ensures DigitsValue(t) < Pow10(|t|)
  {
    if |t| > 0 {
      var init := t[..|t| - 1];
      assert AllDigits(init);
      DigitsValueBound(init);
    }
  }
}
