/** The read-only views: `list_tasks` with its status filter and
    `search_tasks`. Both report each shown task with its 1-based position in
    the whole collection, which is the number mark-completed and delete
    expect back. */
module Views {
  import opened Wrappers
  import opened Text
  import opened Tasks
  import opened Actions

  /** One printed line of a listing: `{position}. [{status}] {description} ({date})`. */
  datatype Entry = Entry(position: nat, task: Task)

  /** The meaning of a `list_tasks` filter name. */
  datatype StatusFilter = ShowAll | ShowPending | ShowCompleted | ShowNothing

  /** The `match show` of `list_tasks`: a name other than the three known
      ones shows nothing. */
  function FilterOf(show: string): (f: StatusFilter)
    ensures f == ShowNothing <==> show != "All" && show != "Pending" && show != "Completed"
  {
    if show == "Pending" then ShowPending
    else if show == "Completed" then ShowCompleted
    else if show == "All" then ShowAll
    else ShowNothing
  }

  /** Which tasks a view shows: by a status filter, or by a `search_tasks`
      query that is already trimmed and lower-cased. */
  datatype Selector = ByStatus(filter: StatusFilter) | ByText(query: string)

  /** `show_it` of `list_tasks`, and the `contains` test of `search_tasks`. */
  predicate Selects(sel: Selector, t: Task) {
    match sel
    case ByStatus(ShowAll) => true
    case ByStatus(ShowPending) => t.status == Pending
    case ByStatus(ShowCompleted) => t.status == Completed
    case ByStatus(ShowNothing) => false
    case ByText(query) => Contains(Lower(t.description), query)
  }

  /** Some entry of `r` carries position `p`. */
  ghost predicate Listed(r: seq<Entry>, p: nat) {
    exists k :: 0 <= k < |r| && r[k].position == p
  }

  /** Every entry is a selected task at its 1-based position. */
  ghost predicate Sound(tasks: seq<Task>, sel: Selector, r: seq<Entry>) {
    forall k :: 0 <= k < |r| ==>
      && 1 <= r[k].position <= |tasks|
      && tasks[r[k].position - 1] == r[k].task
      && Selects(sel, r[k].task)
  }

  /** Positions strictly increase: collection order, no task twice. */
  ghost predicate Ordered(r: seq<Entry>) {
    forall k, m :: 0 <= k < m < |r| ==> r[k].position < r[m].position
  }

  /** Every selected task is listed. */
  ghost predicate Complete(tasks: seq<Task>, sel: Selector, r: seq<Entry>) {
    forall i :: 0 <= i < |tasks| && Selects(sel, tasks[i]) ==> Listed(r, i + 1)
  }

  /** The entries a view prints, built task by task; `EnumerateIsView`
      proves they are every selected task with its original 1-based
      position, in increasing order of position, and nothing else. */
  function Enumerate(tasks: seq<Task>, sel: Selector): (r: seq<Entry>)
    ensures |r| <= |tasks|
    decreases |tasks|
  {
    if |tasks| == 0 then []
    else
      var n := |tasks|;
      Enumerate(tasks[..n - 1], sel) + if Selects(sel, tasks[n - 1]) then [Entry(n, tasks[n - 1])] else []
  }

  /** A view lists the selected tasks, each with its position in the whole
      collection, in collection order, and every selected task is listed. */
  lemma {:induction false} EnumerateIsView(tasks: seq<Task>, sel: Selector)
    ensures Sound(tasks, sel, Enumerate(tasks, sel))
    ensures Ordered(Enumerate(tasks, sel))
    ensures Complete(tasks, sel, Enumerate(tasks, sel))
    decreases |tasks|
  {
    if |tasks| > 0 {
      var n := |tasks|;
      var prefix := Enumerate(tasks[..n - 1], sel);
      var r := Enumerate(tasks, sel);
      EnumerateIsView(tasks[..n - 1], sel);
      StepSound(tasks, sel, prefix, r);
      StepOrdered(tasks, sel, prefix, r);
      StepComplete(tasks, sel, prefix, r);
    }
  }

  /** Extending a sound view of all but the last task by the last task (when
      selected) gives a sound view. */
  lemma StepSound(tasks: seq<Task>, sel: Selector, prefix: seq<Entry>, r: seq<Entry>)
    requires |tasks| > 0 && Sound(tasks[..|tasks| - 1], sel, prefix)
    requires r == prefix + if Selects(sel, tasks[|tasks| - 1]) then [Entry(|tasks|, tasks[|tasks| - 1])] else []
    ensures Sound(tasks, sel, r)
  {
    var n := |tasks|;
    forall k | 0 <= k < |r|
      ensures 1 <= r[k].position <= n && tasks[r[k].position - 1] == r[k].task && Selects(sel, r[k].task)
    {
      if k < |prefix| {
        assert r[k] == prefix[k];
        assert tasks[..n - 1][prefix[k].position - 1] == tasks[prefix[k].position - 1];
      }
    }
  }

  /** The same step keeps positions increasing. */
  lemma StepOrdered(tasks: seq<Task>, sel: Selector, prefix: seq<Entry>, r: seq<Entry>)
    requires |tasks| > 0 && Sound(tasks[..|tasks| - 1], sel, prefix) && Ordered(prefix)
    requires r == prefix + if Selects(sel, tasks[|tasks| - 1]) then [Entry(|tasks|, tasks[|tasks| - 1])] else []
    ensures Ordered(r)
  {
    forall k, m | 0 <= k < m < |r| ensures r[k].position < r[m].position {
      assert r[k] == prefix[k];
      if m < |prefix| { assert r[m] == prefix[m]; }
    }
  }

  /** The same step lists every selected task. */
  lemma StepComplete(tasks: seq<Task>, sel: Selector, prefix: seq<Entry>, r: seq<Entry>)
    requires |tasks| > 0 && Complete(tasks[..|tasks| - 1], sel, prefix)
    requires r == prefix + if Selects(sel, tasks[|tasks| - 1]) then [Entry(|tasks|, tasks[|tasks| - 1])] else []
    ensures Complete(tasks, sel, r)
  {
    var n := |tasks|;
    forall i | 0 <= i < n && Selects(sel, tasks[i]) ensures Listed(r, i + 1) {
      if i == n - 1 {
        assert r[|prefix|].position == n;
      } else {
        assert tasks[..n - 1][i] == tasks[i];
        var k :| 0 <= k < |prefix| && prefix[k].position == i + 1;
        assert r[k] == prefix[k];
      }
    }
  }

  /** The view of a collection one task longer: the old view, plus the new
      last task when it is selected. */
  lemma EnumerateSnoc(tasks: seq<Task>, i: nat, sel: Selector)
    requires i < |tasks|
    ensures Enumerate(tasks[..i + 1], sel)
            == Enumerate(tasks[..i], sel) + if Selects(sel, tasks[i]) then [Entry(i + 1, tasks[i])] else []
  {
    assert tasks[..i + 1][..i] == tasks[..i];
  }

  /** `list_tasks(tasks, show)`. */
  function Filter(tasks: seq<Task>, show: string): seq<Entry> {
    Enumerate(tasks, ByStatus(FilterOf(show)))
  }

  /** `search_tasks` with the typed line `line`: it is trimmed and
      lower-cased, and compared with each lower-cased description. */
  function Search(tasks: seq<Task>, line: string): seq<Entry> {
    Enumerate(tasks, ByText(Lower(Trim(line))))
  }

  /** The tasks of a listing, without their positions. */
  function TasksOf(entries: seq<Entry>): (r: seq<Task>)
    ensures |r| == |entries|
    ensures forall k :: 0 <= k < |r| ==> r[k] == entries[k].task
  {
    seq(|entries|, k requires 0 <= k < |entries| => entries[k].task)
  }

  /** The loop of `list_tasks`: walks the collection once, keeping the
      shown tasks with their positions. */
  method ListTasks(tasks: seq<Task>, show: string) returns (r: seq<Entry>)
    ensures r == Filter(tasks, show)
  {
    r := [];
    var i := 0;
    while i < |tasks|
      invariant 0 <= i <= |tasks|
      invariant r == Enumerate(tasks[..i], ByStatus(FilterOf(show)))
    {
      EnumerateSnoc(tasks, i, ByStatus(FilterOf(show)));
      var showIt := match show
        case "Pending" => tasks[i].status == Pending
        case "Completed" => tasks[i].status == Completed
        case "All" => true
        case _ => false;
      if showIt {
        r := r + [Entry(i + 1, tasks[i])];
      }
      i := i + 1;
    }
    assert tasks[..|tasks|] == tasks;
  }

  /** The loop of `search_tasks`: the matching entries, and whether any was
      found (otherwise "No matching tasks found." is printed). */
  method SearchTasks(tasks: seq<Task>, line: string) returns (r: seq<Entry>, found: bool)
    ensures r == Search(tasks, line)
    ensures found <==> |r| > 0
  {
    var query := Lower(Trim(line));
    r, found := [], false;
    var i := 0;
    while i < |tasks|
      invariant 0 <= i <= |tasks|
      invariant r == Enumerate(tasks[..i], ByText(query))
      invariant found <==> |r| > 0
    {
      EnumerateSnoc(tasks, i, ByText(query));
      if Contains(Lower(tasks[i].description), query) {
        r := r + [Entry(i + 1, tasks[i])];
        found := true;
      }
      i := i + 1;
    }
    assert tasks[..|tasks|] == tasks;
  }


  /** "All" lists every task, numbered 1 to n. */
  lemma {:induction false} FilterAll(tasks: seq<Task>)
    ensures |Filter(tasks, "All")| == |tasks|
    ensures forall k :: 0 <= k < |tasks| ==> Filter(tasks, "All")[k] == Entry(k + 1, tasks[k])
    decreases |tasks|
  {
    assert FilterOf("All") == ShowAll;
    EnumerateAll(tasks);
  }

  lemma {:induction false} EnumerateAll(tasks: seq<Task>)
    ensures |Enumerate(tasks, ByStatus(ShowAll))| == |tasks|
    ensures forall k :: 0 <= k < |tasks| ==> Enumerate(tasks, ByStatus(ShowAll))[k] == Entry(k + 1, tasks[k])
    decreases |tasks|
  {
    if |tasks| > 0 {
      var n := |tasks|;
      var prefix := Enumerate(tasks[..n - 1], ByStatus(ShowAll));
      EnumerateAll(tasks[..n - 1]);
      assert Enumerate(tasks, ByStatus(ShowAll)) == prefix + [Entry(n, tasks[n - 1])];
      forall k | 0 <= k < n - 1 ensures prefix[k] == Entry(k + 1, tasks[k]) {
        assert tasks[..n - 1][k] == tasks[k];
      }
    }
  }

  /** A filter name other than "All", "Pending" and "Completed" lists nothing. */
  lemma FilterUnknown(tasks: seq<Task>, show: string)
    requires show != "All" && show != "Pending" && show != "Completed"
    ensures Filter(tasks, show) == []
  {
    EnumerateNone(tasks, ByStatus(FilterOf(show)));
  }

  /** A view that selects none of the tasks is empty. */
  lemma {:induction false} EnumerateNone(tasks: seq<Task>, sel: Selector)
    requires forall k :: 0 <= k < |tasks| ==> !Selects(sel, tasks[k])
    ensures Enumerate(tasks, sel) == []
    decreases |tasks|
  {
    if |tasks| > 0 {
      var n := |tasks|;
      assert forall k :: 0 <= k < n - 1 ==> tasks[..n - 1][k] == tasks[k];
      EnumerateNone(tasks[..n - 1], sel);
    }
  }

  /** The Pending listing shows exactly the tasks clear-completed keeps, in
      the same order. */
  lemma {:induction false} PendingViewIsClearCompleted(tasks: seq<Task>)
    ensures TasksOf(Filter(tasks, "Pending")) == ClearCompleted(tasks)
    decreases |tasks|
  {
    if |tasks| > 0 {
      var n := |tasks|;
      PendingViewIsClearCompleted(tasks[..n - 1]);
      ClearCompletedAppend(tasks[..n - 1], [tasks[n - 1]]);
      assert tasks == tasks[..n - 1] + [tasks[n - 1]];
      assert [tasks[n - 1]][1..] == [];
    }
  }

  /** Every task is in exactly one of the Pending and Completed listings,
      so between them the two listings hold as many entries as there are
      tasks. */
  lemma StatusViewsPartition(tasks: seq<Task>)
    ensures forall i :: 0 <= i < |tasks| ==>
              && (Listed(Filter(tasks, "Pending"), i + 1) <==> tasks[i].status == Pending)
              && (Listed(Filter(tasks, "Completed"), i + 1) <==> tasks[i].status == Completed)
    ensures |Filter(tasks, "Pending")| + |Filter(tasks, "Completed")| == |tasks|
  {
    forall i | 0 <= i < |tasks|
      ensures Listed(Filter(tasks, "Pending"), i + 1) <==> tasks[i].status == Pending
      ensures Listed(Filter(tasks, "Completed"), i + 1) <==> tasks[i].status == Completed
    {
      ListedIffSelected(tasks, ByStatus(FilterOf("Pending")), i);
      ListedIffSelected(tasks, ByStatus(FilterOf("Completed")), i);
    }
    StatusViewsCount(tasks);
  }

  /** The Pending and Completed listings hold as many entries as there are
      tasks. */
  lemma {:induction false} StatusViewsCount(tasks: seq<Task>)
    ensures |Filter(tasks, "Pending")| + |Filter(tasks, "Completed")| == |tasks|
    decreases |tasks|
  {
    if |tasks| > 0 {
      StatusViewsCount(tasks[..|tasks| - 1]);
    }
  }

  /** An empty (or all-whitespace) query matches every task, so the search
      lists the whole collection. */
  lemma {:induction false} SearchEmptyQuery(tasks: seq<Task>, line: string)
    requires Trim(line) == ""
    ensures Search(tasks, line) == Filter(tasks, "All")
    decreases |tasks|
  {
    if |tasks| > 0 {
      var n := |tasks|;
      SearchEmptyQuery(tasks[..n - 1], line);
      ContainsEmpty(Lower(tasks[n - 1].description));
    }
  }

  /** A search result is exactly a task whose lower-cased description holds
      the trimmed, lower-cased query. */
  lemma SearchMatches(tasks: seq<Task>, line: string, i: nat)
    requires i < |tasks|
    ensures Listed(Search(tasks, line), i + 1)
            <==> IsSubstring(Lower(Trim(line)), Lower(tasks[i].description))
  {
    ListedIffSelected(tasks, ByText(Lower(Trim(line))), i);
    ContainsIsSubstring(Lower(tasks[i].description), Lower(Trim(line)));
  }

  /** A task is listed in a view exactly when the view selects it. */
  lemma ListedIffSelected(tasks: seq<Task>, sel: Selector, i: nat)
    requires i < |tasks|
    ensures Listed(Enumerate(tasks, sel), i + 1) <==> Selects(sel, tasks[i])
  {
    var r := Enumerate(tasks, sel);
    EnumerateIsView(tasks, sel);
    if Listed(r, i + 1) {
      var k :| 0 <= k < |r| && r[k].position == i + 1;
      assert r[k].task == tasks[i];
    }
  }

  /** The search ignores case: "PLAN" finds "Plan weekend trip". */
  lemma SearchIgnoresCase()
    ensures Search([Task("Plan weekend trip", Pending, Today)], "PLAN")
            == [Entry(1, Task("Plan weekend trip", Pending, Today))]
  {
    var t := Task("Plan weekend trip", Pending, Today);
    assert TrimStart("PLAN") == "PLAN";
    assert TrimEnd("PLAN") == "PLAN";
    assert Lower("PLAN") == "plan";
    assert Lower(t.description)[0..4] == "plan";
    assert OccursAt("plan", Lower(t.description), 0);
    assert [t][..0] == [];
  }

  /** A position shown in any listing, typed back to mark-completed,
      completes that very task; so the Pending listing shown before the
      prompt numbers tasks the way mark-completed reads them. */
  lemma MarkShownPosition(tasks: seq<Task>, sel: Selector, e: Entry)
    requires e in Enumerate(tasks, sel)
    ensures 1 <= e.position <= |tasks|
    ensures MarkCompleted(tasks, Some(e.position))[e.position - 1]
            == e.task.(status := Completed)
  {
    ShownPosition(tasks, sel, e);
  }

  /** An entry of a view carries a valid position and the task found there. */
  lemma ShownPosition(tasks: seq<Task>, sel: Selector, e: Entry)
    requires e in Enumerate(tasks, sel)
    ensures 1 <= e.position <= |tasks| && tasks[e.position - 1] == e.task
  {
    var r := Enumerate(tasks, sel);
    EnumerateIsView(tasks, sel);
    var k :| 0 <= k < |r| && r[k] == e;
  }

  /** A position shown in any listing, typed back to delete, removes that
      very task and nothing else. */
  lemma DeleteShownPosition(tasks: seq<Task>, sel: Selector, e: Entry)
    requires e in Enumerate(tasks, sel)
    ensures multiset(Delete(tasks, Some(e.position))) + multiset{e.task} == multiset(tasks)
  {
    ShownPosition(tasks, sel, e);
    DeleteRemovesOne(tasks, Some(e.position));
  }
}
