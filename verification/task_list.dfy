/** The task list (task/static/task/js/components/TaskList.js): the list of
    tasks it holds, the counts and the visible subset it derives from them,
    the updates its cards report, and which screen it renders. */
module TaskList {
  import opened Wrappers
  import opened Text
  import opened Wire

  // ---------------------------------------------------------------------
  // Order-preserving selection
  // ---------------------------------------------------------------------

  /** `a` can be obtained from `b` by dropping elements. */
  predicate IsSubsequence(a: seq<TaskJson>, b: seq<TaskJson>)
    decreases |b|
  {
    if |a| == 0 then true
    else if |b| == 0 then false
    else if a[0] == b[0] then IsSubsequence(a[1..], b[1..])
    else IsSubsequence(a, b[1..])
  }

  /** `Array.prototype.filter`: the tasks that pass `keep`, in their
      original order. */
  function Filter(ts: seq<TaskJson>, keep: TaskJson -> bool): (r: seq<TaskJson>)
    ensures forall t :: t in r <==> t in ts && keep(t)
    ensures forall t :: multiset(r)[t] == if keep(t) then multiset(ts)[t] else 0
    ensures IsSubsequence(r, ts)
    ensures (forall t :: t in ts ==> keep(t)) ==> r == ts
  {
    if |ts| == 0 then []
    else
      var rest := Filter(ts[1..], keep);
      assert ts == [ts[0]] + ts[1..];
      KeptCounts(ts[0], ts[1..], rest, keep);
      if keep(ts[0]) then
        var r := [ts[0]] + rest;
        assert r[1..] == rest;
        r
      else
        assert IsSubsequence(rest, ts) by { SubsequenceOfTail(rest, ts); }
        rest
  }

  /** One step of `Filter`: putting `x` in front of the input adds one copy
      of it to the output exactly when it passes. */
  lemma KeptCounts(x: TaskJson, tail: seq<TaskJson>, rest: seq<TaskJson>, keep: TaskJson -> bool)
    requires forall t :: multiset(rest)[t] == if keep(t) then multiset(tail)[t] else 0
    ensures keep(x) ==> forall t :: multiset([x] + rest)[t] == if keep(t) then multiset([x] + tail)[t] else 0
    ensures !keep(x) ==> forall t :: multiset(rest)[t] == if keep(t) then multiset([x] + tail)[t] else 0
    ensures forall t :: t in [x] + tail <==> t == x || t in tail
  {
    assert multiset([x] + tail) == multiset{x} + multiset(tail);
    assert multiset([x] + rest) == multiset{x} + multiset(rest);
  }

  lemma {:induction false} SubsequenceOfTail(a: seq<TaskJson>, b: seq<TaskJson>)
    requires |b| > 0 && IsSubsequence(a, b[1..])
    ensures IsSubsequence(a, b)
    decreases |b|, 0
  {
    if |a| > 0 && a[0] == b[0] {
      SubsequenceDropHead(a, b[1..]);
    }
  }

  lemma {:induction false} SubsequenceDropHead(a: seq<TaskJson>, b: seq<TaskJson>)
    requires |a| > 0 && IsSubsequence(a, b)
    ensures IsSubsequence(a[1..], b)
    decreases |b|, 1
  {
    if a[0] != b[0] {
      SubsequenceDropHead(a, b[1..]);
    }
    SubsequenceOfTail(a[1..], b);
  }

  // ---------------------------------------------------------------------
  // Counts and the hide-completed filter
  // ---------------------------------------------------------------------

  predicate IsActive(t: TaskJson) {
    !t.status
  }

  predicate IsCompleted(t: TaskJson) {
    t.status
  }

  /** The number of tasks whose status is true. */
  function CompletedCount(ts: seq<TaskJson>): (n: nat)
    ensures n == |Filter(ts, IsCompleted)|
    ensures n <= |ts|
    ensures n == 0 <==> forall t :: t in ts ==> !t.status
    ensures n == |ts| <==> forall t :: t in ts ==> t.status
  {
    if |ts| == 0 then 0
    else
      assert forall t :: t in ts <==> t == ts[0] || t in ts[1..];
      assert Filter(ts, IsCompleted) == (if ts[0].status then [ts[0]] else []) + Filter(ts[1..], IsCompleted);
      (if ts[0].status then 1 else 0) + CompletedCount(ts[1..])
  }

  /** The tasks not yet completed, in their original order. */
  function ActiveTasks(ts: seq<TaskJson>): (r: seq<TaskJson>)
    ensures forall t :: t in r <==> t in ts && !t.status
    ensures forall t :: multiset(r)[t] == if !t.status then multiset(ts)[t] else 0
    ensures IsSubsequence(r, ts)
  {
    Filter(ts, IsActive)
  }

  /** Completed and active tasks together make up the whole list. */
  lemma {:induction false} ActivePlusCompleted(ts: seq<TaskJson>)
    ensures |ActiveTasks(ts)| + CompletedCount(ts) == |ts|
  {
    if |ts| > 0 {
      ActivePlusCompleted(ts[1..]);
      assert ActiveTasks(ts) == (if IsActive(ts[0]) then [ts[0]] else []) + ActiveTasks(ts[1..]);
    }
  }

  datatype Stats = Stats(total: nat, completed: nat, active: nat)

  /** `updateStats`: the counts of a list. */
  function ComputeStats(ts: seq<TaskJson>): (s: Stats)
    ensures s.total == |ts|
    ensures s.completed == CompletedCount(ts) && s.completed <= s.total
    ensures s.active + s.completed == s.total
    ensures s.active == |ActiveTasks(ts)|
  {
    ActivePlusCompleted(ts);
    Stats(|ts|, CompletedCount(ts), |ts| - CompletedCount(ts))
  }

  /** The tasks on screen: the active ones in order when completed tasks are
      hidden, all of them otherwise. */
  function Visible(ts: seq<TaskJson>, hideCompleted: bool): (r: seq<TaskJson>)
    ensures hideCompleted ==> (forall t :: t in r <==> t in ts && !t.status) && IsSubsequence(r, ts)
    ensures hideCompleted ==> forall t :: multiset(r)[t] == if !t.status then multiset(ts)[t] else 0
    ensures !hideCompleted ==> r == ts
  {
    if hideCompleted then ActiveTasks(ts) else ts
  }

  // ---------------------------------------------------------------------
  // Updates reported by the cards
  // ---------------------------------------------------------------------

  /** `handleDelete(id)`: every task with that id goes, every other task
      stays, in order; an id not in the list changes nothing. */
  function RemoveTask(ts: seq<TaskJson>, id: int): (r: seq<TaskJson>)
    ensures forall t :: t in r <==> t in ts && t.id != id
    ensures forall t :: multiset(r)[t] == if t.id != id then multiset(ts)[t] else 0
    ensures IsSubsequence(r, ts)
    ensures (forall t :: t in ts ==> t.id != id) ==> r == ts
  {
    Filter(ts, (t: TaskJson) => t.id != id)
  }

  /** `handleToggle(id, status)`: same length and order; tasks with that id
      get the new status and keep every other field; other tasks are
      untouched. */
  function SetStatus(ts: seq<TaskJson>, id: int, status: bool): (r: seq<TaskJson>)
    ensures |r| == |ts|
    ensures forall i :: 0 <= i < |ts| ==>
      r[i] == (if ts[i].id == id then ts[i].(status := status) else ts[i])
  {
    if |ts| == 0 then []
    else [if ts[0].id == id then ts[0].(status := status) else ts[0]] + SetStatus(ts[1..], id, status)
  }

  predicate UniqueIds(ts: seq<TaskJson>) {
    forall i, j :: 0 <= i < j < |ts| ==> ts[i].id != ts[j].id
  }

  /** When ids are unique, setting the status of the task at position `k`
      moves the completed count by exactly that task's change. */
  lemma {:induction false} SetStatusCount(ts: seq<TaskJson>, k: nat, status: bool)
    requires UniqueIds(ts) && k < |ts|
    ensures CompletedCount(SetStatus(ts, ts[k].id, status))
         == CompletedCount(ts) - (if ts[k].status then 1 else 0) + (if status then 1 else 0)
  {
    var id := ts[k].id;
    var r := SetStatus(ts, id, status);
    assert r[1..] == SetStatus(ts[1..], id, status);
    if k == 0 {
      assert forall i :: 0 <= i < |ts| - 1 ==> ts[1..][i].id != id;
      SetStatusElsewhere(ts[1..], id, status);
    } else {
      assert ts[0].id != id;
      assert UniqueIds(ts[1..]) by {
        forall i, j | 0 <= i < j < |ts| - 1 ensures ts[1..][i].id != ts[1..][j].id {
          assert ts[1..][i] == ts[i + 1] && ts[1..][j] == ts[j + 1];
        }
      }
      assert ts[1..][k - 1] == ts[k];
      SetStatusCount(ts[1..], k - 1, status);
    }
  }

  lemma {:induction false} SetStatusElsewhere(ts: seq<TaskJson>, id: int, status: bool)
    requires forall i :: 0 <= i < |ts| ==> ts[i].id != id
    ensures SetStatus(ts, id, status) == ts
  {
  }

  // ---------------------------------------------------------------------
  // What the list renders
  // ---------------------------------------------------------------------

  /** The two empty screens. */
  datatype EmptyState = NoTasksYet | AllCompleted

  function EmptyHeading(e: EmptyState): string {
    match e
    case NoTasksYet => "No tasks yet"
    case AllCompleted => "All tasks are completed!"
  }

  function EmptyHint(e: EmptyState): string {
    match e
    case NoTasksYet => "Create your first task!"
    case AllCompleted => "Great job! All your tasks are done."
  }

  /** The empty screen congratulates exactly when completed tasks are hidden
      and there is at least one. */
  function ChooseEmptyState(hideCompleted: bool, stats: Stats): (e: EmptyState)
    ensures e == AllCompleted <==> hideCompleted && stats.completed > 0
    ensures EmptyHeading(e) == (if e == AllCompleted then "All tasks are completed!" else "No tasks yet")
    ensures EmptyHint(e) == (if e == AllCompleted then "Great job! All your tasks are done." else "Create your first task!")
  {
    if hideCompleted && stats.completed > 0 then AllCompleted else NoTasksYet
  }

  /** The header: the counts, and the hide/show control when there is a
      completed task to hide. */
  datatype Header = Header(summary: string, filterButton: Option<string>)

  function MakeHeader(stats: Stats, hideCompleted: bool): (h: Header)
    ensures h.filterButton.Some? <==> stats.completed > 0
    ensures h.filterButton.Some? ==> h.filterButton.value == (if hideCompleted then "Show Completed" else "Hide Completed")
  {
    Header(IntToString(stats.active) + " active • " + IntToString(stats.completed) + " completed",
           if stats.completed > 0 then Some(if hideCompleted then "Show Completed" else "Hide Completed") else None)
  }

  /** The notice shown under the cards while completed tasks are hidden. */
  function HiddenBanner(completed: nat): (r: string)
    ensures var n := IntToString(completed);
      var tail := if completed > 1 then " completed tasks are hidden." else " completed task is hidden.";
      |r| == |n| + |tail| && r[..|n|] == n && r[|n|..] == tail
  {
    BannerTail(completed > 1);
    IntToString(completed)
      + (" completed task" + (if completed > 1 then "s" else "") + " " + (if completed > 1 then "are" else "is") + " hidden.")
  }

  /** The words after the count, spelled out for each number. */
  lemma BannerTail(plural: bool)
    ensures " completed task" + (if plural then "s" else "") + " " + (if plural then "are" else "is") + " hidden."
            == if plural then " completed tasks are hidden." else " completed task is hidden."
  {
  }

  /** The notice agrees in number with the count: singular for one task. */
  lemma HiddenBannerOne()
    ensures HiddenBanner(1) == "1 completed task is hidden."
  {
    assert IntToString(1) == [DigitChar(1)] == "1";
  }

  /** Plural for more than one. */
  lemma HiddenBannerMany(completed: nat)
    requires completed > 1
    ensures HiddenBanner(completed) == IntToString(completed) + " completed tasks are hidden."
  {
  }

  datatype Screen =
    | Spinner
    | ErrorPanel(message: string)
    | EmptyList(header: Header, state: EmptyState)
    | TaskGrid(header: Header, cards: seq<TaskJson>, banner: Option<string>)

  /** The component's state. The counts and the visible subset are not
      stored: they are recomputed from `tasks` and `hideCompleted`. */
  datatype ListState = ListState(tasks: seq<TaskJson>, hideCompleted: bool, isLoading: bool, error: Option<string>)

  const LoadError: string := "Failed to load tasks. Please refresh."

  const InitialList: ListState := ListState([], false, true, None)

  datatype ListEvent =
    | FetchStarted
    | FetchFinished(outcome: Outcome)
    | TaskDeleted(id: int)
    | TaskToggled(id: int, status: bool)
    | HideToggled

  /** The `tasks` key of a listing, or the empty list when there is none
      (`data.tasks || []`). */
  function TasksField(b: Body): (r: seq<TaskJson>)
    ensures b.Listing? ==> r == b.tasks
    ensures !b.Listing? ==> r == []
  {
    if b.Listing? then b.tasks else []
  }

  /** How the state changes on each event: a fetch clears the error and
      shows the spinner; its answer either replaces the tasks or records the
      load error; the cards' reports update the list in place; the control
      flips the filter. */
  function Apply(st: ListState, ev: ListEvent): (r: ListState)
    ensures ev.FetchStarted? ==> r == st.(isLoading := true, error := None)
    ensures ev.FetchFinished? ==> !r.isLoading && r.hideCompleted == st.hideCompleted
    ensures ev.FetchFinished? && Fetched(ev.outcome) ==>
      r.tasks == TasksField(ev.outcome.response.body) && r.error == st.error
    ensures ev.FetchFinished? && !Fetched(ev.outcome) ==> r.tasks == st.tasks && r.error == Some(LoadError)
    ensures ev.TaskDeleted? ==> r == st.(tasks := RemoveTask(st.tasks, ev.id))
    ensures ev.TaskToggled? ==> r == st.(tasks := SetStatus(st.tasks, ev.id, ev.status))
    ensures ev.HideToggled? ==> r == st.(hideCompleted := !st.hideCompleted)
  {
    match ev
    case FetchStarted => st.(isLoading := true, error := None)
    case FetchFinished(o) =>
      if Fetched(o) then st.(tasks := TasksField(o.response.body), isLoading := false)
      else st.(error := Some(LoadError), isLoading := false)
    case TaskDeleted(id) => st.(tasks := RemoveTask(st.tasks, id))
    case TaskToggled(id, status) => st.(tasks := SetStatus(st.tasks, id, status))
    case HideToggled => st.(hideCompleted := !st.hideCompleted)
  }

  /** The list request succeeded: a 2xx answer whose body parses. */
  predicate Fetched(o: Outcome) {
    o.Responded? && IsOk(o.response.status) && IsJson(o.response.body)
  }

  /** The screen for a state. */
  function Render(st: ListState): (s: Screen)
    ensures st.isLoading ==> s == Spinner
    ensures !st.isLoading && st.error.Some? ==> s == ErrorPanel(st.error.value)
    ensures !st.isLoading && st.error.None? ==> s.EmptyList? || s.TaskGrid?
  {
    if st.isLoading then Spinner
    else if st.error.Some? then ErrorPanel(st.error.value)
    else
      var stats := ComputeStats(st.tasks);
      var header := MakeHeader(stats, st.hideCompleted);
      var shown := Visible(st.tasks, st.hideCompleted);
      if |shown| == 0 then EmptyList(header, ChooseEmptyState(st.hideCompleted, stats))
      else TaskGrid(header, shown,
                    if st.hideCompleted && stats.completed > 0 then Some(HiddenBanner(stats.completed)) else None)
  }

  // ---------------------------------------------------------------------
  // Properties of the rendered list
  // ---------------------------------------------------------------------

  /** The counts in the header are those of the full list, whatever the
      filter; the cards are the visible subset. */
  lemma CountsIgnoreFilter(st: ListState)
    requires !st.isLoading && st.error.None?
    ensures Render(st).header == MakeHeader(ComputeStats(st.tasks), st.hideCompleted)
    ensures MakeHeader(ComputeStats(st.tasks), true).summary == MakeHeader(ComputeStats(st.tasks), false).summary
    ensures Render(st).TaskGrid? ==> Render(st).cards == Visible(st.tasks, st.hideCompleted)
  {
  }

  /** The two empty screens are never confused: nothing to show with no
      tasks at all is "No tasks yet"; nothing to show with some tasks means
      they are all completed and hidden, and the screen says so. */
  lemma EmptyStatesDistinct(st: ListState)
    requires !st.isLoading && st.error.None?
    ensures Render(st).EmptyList? <==> Visible(st.tasks, st.hideCompleted) == []
    ensures Render(st).EmptyList? && st.tasks == [] ==> Render(st).state == NoTasksYet
    ensures Render(st).EmptyList? && st.tasks != [] ==>
      Render(st).state == AllCompleted && st.hideCompleted && forall t :: t in st.tasks ==> t.status
  {
    var shown := Visible(st.tasks, st.hideCompleted);
    if shown == [] && st.tasks != [] {
      assert st.hideCompleted;
      assert forall t :: t in st.tasks ==> t.status;
      assert st.tasks[0] in st.tasks;
    }
  }

  /** The banner under the cards appears exactly while completed tasks are
      hidden and there is one, and gives their number. */
  lemma BannerShownIff(st: ListState)
    requires !st.isLoading && st.error.None?
    requires Render(st).TaskGrid?
    ensures Render(st).banner.Some? <==> st.hideCompleted && CompletedCount(st.tasks) > 0
    ensures Render(st).banner.Some? ==> Render(st).banner.value == HiddenBanner(CompletedCount(st.tasks))
  {
  }

  /** Flipping the filter twice gives back the same state. */
  lemma HideTwiceRestores(st: ListState)
    ensures Apply(Apply(st, HideToggled), HideToggled) == st
  {
  }

  /** Worked example: of three tasks, two completed, hiding completed tasks
      leaves only the active one on screen while the counts stay 3, 2, 1. */
  lemma FilterExample(a: TaskJson, b: TaskJson, c: TaskJson)
    requires a.status && !b.status && c.status
    ensures Visible([a, b, c], true) == [b]
    ensures ComputeStats([a, b, c]) == Stats(3, 2, 1)
  {
    var ts := [a, b, c];
    assert ts[1..] == [b, c] && ts[1..][1..] == [c] && [c][1..] == [];
    assert Filter([c], IsActive) == [];
    assert Filter([b, c], IsActive) == [b];
    assert CompletedCount([c]) == 1;
  }
}
