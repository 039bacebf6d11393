/**
 A board's tasks and the order the board screen shows them in: the past-due flag,
 the priority rank table, the three-level comparator, and the sort of a copy of
 the task list. Time is the integer `now`; a due date is `None` when it is
 missing or does not parse.
 */
module Tasks {
  import opened Options
  import opened Text
  import opened Seqs
  import Sorting

  /** The priority strings with a rank; every other string looks up nothing (`Unknown`). */
  datatype Priority = Critical | High | Medium | Low | Unknown

  function ParsePriority(s: string): (p: Priority)
    ensures p.Unknown? <==> s !in {"critical", "high", "medium", "low"}
  {
    if s == "critical" then Critical
    else if s == "high" then High
    else if s == "medium" then Medium
    else if s == "low" then Low
    else Unknown
  }

  /** The rank table `{critical: 0, high: 1, medium: 2, low: 3}`; `None` is the NaN of a missing key. */
  function Rank(p: Priority): (r: Option<nat>)
    ensures r.None? <==> p.Unknown?
    ensures r.Some? ==> r.value < 4
  {
    match p
    case Critical => Some(0)
    case High => Some(1)
    case Medium => Some(2)
    case Low => Some(3)
    case Unknown => None
  }

  datatype Category = Category(id: int, value: string, color: string)

  /**
   The fields of a task the board logic reads. `categories` is `None` when the
   server sent no list at all.
   */
  datatype Task = Task(
    id: int,
    title: string,
    priority: Priority,
    due: Option<int>,
    status: string,
    categories: Option<seq<Category>>)

  /** `task.categories ?? []` */
  function CategoriesOf(t: Task): seq<Category> {
    t.categories.GetOr([])
  }

  /** `new Date(dueDate) < new Date()`: false for a missing or unparseable date. */
  predicate IsPastDue(due: Option<int>, now: int) {
    due.Some? && due.value < now
  }

  /** The case-insensitive test the task card uses. */
  predicate IsCompletedStatus(status: string) {
    Lower(status) == "completed"
  }

  /** The sort's past-due flag: its status test is case-sensitive. */
  predicate PastDueForSort(t: Task, now: int) {
    IsPastDue(t.due, now) && t.status != "completed"
  }

  /** The card's red "Past Due" flag: its status test ignores case. */
  predicate PastDueOnCard(t: Task, now: int) {
    IsPastDue(t.due, now) && !IsCompletedStatus(t.status)
  }

  lemma CardFlagImpliesSortFlag(t: Task, now: int)
    ensures PastDueOnCard(t, now) ==> PastDueForSort(t, now)
  {
    if t.status == "completed" {
      assert Lower(t.status) == "completed";
    }
  }

  /** An overdue task in status "Completed" is not flagged on its card, yet the sort treats it as past due. */
  lemma CapitalCompletedOnlyExemptOnCard(t: Task, now: int)
    requires t.status == "Completed" && t.due == Some(now - 1)
    ensures PastDueForSort(t, now)
    ensures !PastDueOnCard(t, now)
  {
    assert Lower(t.status) == "completed";
  }

  lemma MissingDateNeverPastDue(t: Task, now: int)
    requires t.due.None?
    ensures !PastDueForSort(t, now) && !PastDueOnCard(t, now)
  {
  }

  /**
   The sort comparator: negative when `a` goes first. `None` stands for NaN,
   which arises when either priority has no rank or, on equal ranks, either
   date is invalid.
   */
  function Compare(a: Task, b: Task, now: int): (r: Option<int>)
    ensures PastDueForSort(a, now) && !PastDueForSort(b, now) ==> r == Some(-1)
    ensures !PastDueForSort(a, now) && PastDueForSort(b, now) ==> r == Some(1)
    ensures r.None? <==> PastDueForSort(a, now) == PastDueForSort(b, now)
                         && (a.priority.Unknown? || b.priority.Unknown?
                             || (a.priority == b.priority && (a.due.None? || b.due.None?)))
  {
    var ap := PastDueForSort(a, now);
    var bp := PastDueForSort(b, now);
    if ap && !bp then Some(-1)
    else if !ap && bp then Some(1)
    else
      match (Rank(a.priority), Rank(b.priority))
      case (Some(ra), Some(rb)) =>
        var diff: int := ra as int - rb as int;
        if diff != 0 then Some(diff)
        else if a.due.Some? && b.due.Some? then Some(a.due.value - b.due.value)
        else None
      case _ => None
  }

  /** Ranks extended to every priority: `Unknown` after `Low`. */
  function FullRank(p: Priority): nat {
    match Rank(p)
    case Some(r) => r
    case None => 4
  }

  /**
   The order the model sorts by: the comparator's order wherever it yields a
   number, extended to a total preorder by putting `Unknown` after `Low` and a
   missing date after every date.
   */
  predicate SortLeq(a: Task, b: Task, now: int) {
    var pa := PastDueForSort(a, now);
    var pb := PastDueForSort(b, now);
    if pa != pb then pa
    else if FullRank(a.priority) != FullRank(b.priority) then FullRank(a.priority) < FullRank(b.priority)
    else match (a.due, b.due)
      case (Some(x), Some(y)) => x <= y
      case (Some(_), None) => true
      case (None, Some(_)) => false
      case (None, None) => true
  }

  lemma SortLeqTotalPreorder(now: int)
    ensures Sorting.TotalPreorder((a, b) => SortLeq(a, b, now))
  {
  }

  /** The extension never contradicts the comparator. */
  lemma SortLeqAgreesWithCompare(a: Task, b: Task, now: int)
    requires SortLeq(a, b, now)
    ensures Compare(a, b, now).None? || Compare(a, b, now).value <= 0
  {
  }

  /** `[...tasks].sort(comparator)`: the input is copied, never reordered in place. */
  function SortTasks(ts: seq<Task>, now: int): (r: seq<Task>)
    ensures multiset(r) == multiset(ts)
    ensures |r| == |ts|
    ensures forall i, j :: 0 <= i < j < |r| ==> SortLeq(r[i], r[j], now)
  {
    SortLeqTotalPreorder(now);
    Sorting.SortBy(ts, (a, b) => SortLeq(a, b, now))
  }

  /** `ts` is in the order the comparator asks for wherever it yields a number. */
  predicate OrderedByCompare(ts: seq<Task>, now: int) {
    forall i, j :: 0 <= i < j < |ts| ==> Compare(ts[i], ts[j], now).None? || Compare(ts[i], ts[j], now).value <= 0
  }

  lemma SortedByLeqIsOrderedByCompare(ts: seq<Task>, now: int)
    requires forall i, j :: 0 <= i < j < |ts| ==> SortLeq(ts[i], ts[j], now)
    ensures OrderedByCompare(ts, now)
  {
    forall i, j | 0 <= i < j < |ts|
      ensures Compare(ts[i], ts[j], now).None? || Compare(ts[i], ts[j], now).value <= 0
    {
      SortLeqAgreesWithCompare(ts[i], ts[j], now);
    }
  }

  /** Where the comparator yields a number, a non-positive one is exactly the model's order. */
  lemma CompareAgreesWithSortLeq(a: Task, b: Task, now: int)
    requires Compare(a, b, now).Some? && Compare(a, b, now).value <= 0
    ensures SortLeq(a, b, now)
  {
  }

  /**
   Every two entries of `ts` at different positions compare to a number. Only then
   is the comparator consistent, so that ECMAScript fixes the order `sort` produces;
   once any pair compares to NaN the whole order is left to the engine.
   */
  predicate Comparable(ts: seq<Task>, now: int) {
    forall i, j :: 0 <= i < |ts| && 0 <= j < |ts| && i != j ==> Compare(ts[i], ts[j], now).Some?
  }

  /** The sorted copy of a list with a consistent comparator is still one. */
  lemma SortTasksComparable(ts: seq<Task>, now: int)
    requires Comparable(ts, now)
    ensures Comparable(SortTasks(ts, now), now)
  {
    var cmp := (a: Task, b: Task) => Compare(a, b, now).Some?;
    assert PairwiseAt(ts, cmp);
    PairwiseAtPermutation(ts, SortTasks(ts, now), cmp);
  }

  /**
   When the comparator is consistent on `ts`, the sorted copy holds the same tasks
   and the comparator rejects no pair in it.
   */
  lemma SortTasksOrdered(ts: seq<Task>, now: int)
    requires Comparable(ts, now)
    ensures multiset(SortTasks(ts, now)) == multiset(ts)
    ensures var r := SortTasks(ts, now);
      forall i, j :: 0 <= i < j < |r| ==> Compare(r[i], r[j], now).Some? && Compare(r[i], r[j], now).value <= 0
  {
    var r := SortTasks(ts, now);
    SortedByLeqIsOrderedByCompare(r, now);
    SortTasksComparable(ts, now);
  }

  /** Past-due tasks come before all others. */
  lemma PastDueFirst(ts: seq<Task>, now: int, i: int, j: int)
    requires 0 <= i < j < |ts|
    requires PastDueForSort(SortTasks(ts, now)[j], now)
    ensures PastDueForSort(SortTasks(ts, now)[i], now)
  {
    var r := SortTasks(ts, now);
    assert SortLeq(r[i], r[j], now);
  }

  /** With a consistent comparator, priorities within one past-due class are known and run critical, high, medium, low. */
  lemma PriorityOrderWithinClass(ts: seq<Task>, now: int, i: int, j: int)
    requires 0 <= i < j < |ts|
    requires Comparable(ts, now)
    requires PastDueForSort(SortTasks(ts, now)[i], now) == PastDueForSort(SortTasks(ts, now)[j], now)
    ensures var r := SortTasks(ts, now);
      && Rank(r[i].priority).Some? && Rank(r[j].priority).Some?
      && Rank(r[i].priority).value <= Rank(r[j].priority).value
  {
    var r := SortTasks(ts, now);
    SortTasksComparable(ts, now);
    assert Compare(r[i], r[j], now).Some?;
    assert SortLeq(r[i], r[j], now);
  }

  /** With a consistent comparator, tasks of one past-due class and one priority all have dates, and the dates ascend. */
  lemma DueDateOrderWithinPriority(ts: seq<Task>, now: int, i: int, j: int)
    requires 0 <= i < j < |ts|
    requires Comparable(ts, now)
    requires var r := SortTasks(ts, now);
      && PastDueForSort(r[i], now) == PastDueForSort(r[j], now)
      && r[i].priority == r[j].priority
    ensures var r := SortTasks(ts, now);
      && r[i].due.Some? && r[j].due.Some?
      && r[i].due.value <= r[j].due.value
  {
    var r := SortTasks(ts, now);
    SortTasksComparable(ts, now);
    assert Compare(r[i], r[j], now).Some?;
    assert SortLeq(r[i], r[j], now);
  }

  lemma SortTasksIdempotent(ts: seq<Task>, now: int)
    ensures SortTasks(SortTasks(ts, now), now) == SortTasks(ts, now)
  {
    SortLeqTotalPreorder(now);
    Sorting.SortIdempotent(ts, (a, b) => SortLeq(a, b, now));
  }
}
