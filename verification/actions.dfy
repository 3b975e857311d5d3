/** The state changes behind the menu's actions, each a pure function of
    the collection and the already-read input. */
module Actions {
  import opened Wrappers
  import opened Text
  import opened Tasks

  /** `add_task`: the typed line, trimmed, becomes a new Pending task stamped
      with the fixed date, appended at the end. */
  function Add(tasks: seq<Task>, line: string): (r: seq<Task>)
    ensures |r| == |tasks| + 1 && r[..|tasks|] == tasks
    ensures r[|tasks|].status == Pending && r[|tasks|].date == Today
    ensures r[|tasks|].description == Trim(line)
  {
    tasks + [Task(Trim(line), Pending, Today)]
  }

  /** The check shared by mark-completed and delete: the parsed number is a
      1-based position inside the collection. */
  predicate ValidPosition(tasks: seq<Task>, index: Option<nat>) {
    index.Some? && 1 <= index.value <= |tasks|
  }

  /** `mark_completed`: only the addressed task becomes Completed; an
      unparsable or out-of-range number changes nothing. */
  function MarkCompleted(tasks: seq<Task>, index: Option<nat>): (r: seq<Task>)
    ensures |r| == |tasks|
    ensures ValidPosition(tasks, index) ==>
              && r[index.value - 1].status == Completed
              && r[index.value - 1].description == tasks[index.value - 1].description
              && r[index.value - 1].date == tasks[index.value - 1].date
              && forall k :: 0 <= k < |tasks| && k != index.value - 1 ==> r[k] == tasks[k]
    ensures !ValidPosition(tasks, index) ==> r == tasks
  {
    if ValidPosition(tasks, index) then
      var i := index.value - 1;
      tasks[i := tasks[i].(status := Completed)]
    else tasks
  }

  /** `delete_task`: the addressed task is removed and the later ones move
      down one place; an unparsable or out-of-range number changes nothing. */
  function Delete(tasks: seq<Task>, index: Option<nat>): (r: seq<Task>)
    ensures ValidPosition(tasks, index) ==>
              && |r| == |tasks| - 1
              && (forall k :: 0 <= k < index.value - 1 ==> r[k] == tasks[k])
              && (forall k :: index.value - 1 <= k < |r| ==> r[k] == tasks[k + 1])
    ensures !ValidPosition(tasks, index) ==> r == tasks
  {
    if ValidPosition(tasks, index) then
      var i := index.value - 1;
      tasks[..i] + tasks[i + 1..]
    else tasks
  }

  /** Deleting a valid position removes exactly one copy of the task that
      was there: the collection loses that task and nothing else. */
  lemma DeleteRemovesOne(tasks: seq<Task>, index: Option<nat>)
    requires ValidPosition(tasks, index)
    ensures multiset(Delete(tasks, index)) + multiset{tasks[index.value - 1]} == multiset(tasks)
  {
    var i := index.value - 1;
    assert tasks == tasks[..i] + [tasks[i]] + tasks[i + 1..];
  }

  /** `clear_completed`: keeps the Pending tasks, in their order. */
  function ClearCompleted(tasks: seq<Task>): (r: seq<Task>)
    ensures |r| <= |tasks|
    ensures forall k :: 0 <= k < |r| ==> r[k].status == Pending
    decreases |tasks|
  {
    if |tasks| == 0 then []
    else
      var rest := ClearCompleted(tasks[1..]);
      if tasks[0].status == Completed then rest
      else
        assert tasks[0].status == Pending;
        [tasks[0]] + rest
  }

  /** Clearing keeps every Pending task and nothing else. */
  lemma {:induction false} ClearCompletedKeepsPending(tasks: seq<Task>, t: Task)
    ensures t in ClearCompleted(tasks) <==> t in tasks && t.status == Pending
    decreases |tasks|
  {
    if |tasks| > 0 {
      ClearCompletedKeepsPending(tasks[1..], t);
      assert t in tasks <==> t == tasks[0] || t in tasks[1..];
    }
  }

  /** Clearing is done element by element, so the survivors keep their
      relative order: clearing a concatenation clears each part. */
  lemma {:induction false} ClearCompletedAppend(a: seq<Task>, b: seq<Task>)
    ensures ClearCompleted(a + b) == ClearCompleted(a) + ClearCompleted(b)
    decreases |a|
  {
    if |a| == 0 {
      assert a + b == b;
    } else {
      assert (a + b)[0] == a[0];
      assert (a + b)[1..] == a[1..] + b;
      ClearCompletedAppend(a[1..], b);
    }
  }

  /** A collection with no Completed task is left as it is. */
  lemma {:induction false} ClearCompletedNoop(tasks: seq<Task>)
    requires forall k :: 0 <= k < |tasks| ==> tasks[k].status == Pending
    ensures ClearCompleted(tasks) == tasks
    decreases |tasks|
  {
    if |tasks| > 0 {
      ClearCompletedNoop(tasks[1..]);
      assert tasks == [tasks[0]] + tasks[1..];
    }
  }

  /** Clearing twice is clearing once. */
  lemma ClearCompletedIdempotent(tasks: seq<Task>)
    ensures ClearCompleted(ClearCompleted(tasks)) == ClearCompleted(tasks)
  {
    ClearCompletedNoop(ClearCompleted(tasks));
  }

  /** Clearing after marking a task completed is clearing after deleting it:
      the marked task is gone either way and the rest are the same. An
      invalid number leaves both sides at plain clearing. */
  lemma ClearAfterMark(tasks: seq<Task>, index: Option<nat>)
    ensures ClearCompleted(MarkCompleted(tasks, index)) == ClearCompleted(Delete(tasks, index))
  {
    if ValidPosition(tasks, index) {
      var i := index.value - 1;
      var marked := tasks[i].(status := Completed);
      assert MarkCompleted(tasks, index) == tasks[..i] + [marked] + tasks[i + 1..];
      assert Delete(tasks, index) == tasks[..i] + tasks[i + 1..];
      ClearAround(tasks[..i], marked, tasks[i + 1..]);
      ClearCompletedAppend(tasks[..i], tasks[i + 1..]);
    }
  }

  /** A Completed task between two runs of tasks is cleared away. */
  lemma ClearAround(a: seq<Task>, t: Task, b: seq<Task>)
    requires t.status == Completed
    ensures ClearCompleted(a + [t] + b) == ClearCompleted(a) + ClearCompleted(b)
  {
    ClearCompletedAppend(a + [t], b);
    ClearCompletedAppend(a, [t]);
    assert ClearCompleted([t]) == [];
  }

  /** Deleting the task just added gives back the collection before the add. */
  lemma DeleteUndoesAdd(tasks: seq<Task>, line: string)
    ensures Delete(Add(tasks, line), Some(|tasks| + 1)) == tasks
  {
  }

  /** Marking the same position twice is marking it once. */
  lemma MarkCompletedIdempotent(tasks: seq<Task>, index: Option<nat>)
    ensures MarkCompleted(MarkCompleted(tasks, index), index) == MarkCompleted(tasks, index)
  {
  }

  /** Marking the only task of a one-task collection completes it. */
  lemma MarkSingle(t: Task)
    ensures MarkCompleted([t], Some(1)) == [t.(status := Completed)]
  {
    var r := MarkCompleted([t], Some(1));
    assert r == [r[0]];
  }
}
