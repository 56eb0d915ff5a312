/**
 * The React to-do application: every handler computes a new task list from the previous one, the
 * visible list and the two counters are expressions over it, and the stored list is accepted only
 * when it parses to an array.
 */
module TodoEnhanced {
  import opened Text
  import opened TaskList

  /** What `JSON.parse(localStorage.getItem('tasks'))` produced: an array of tasks, null, or something else. */
  datatype Stored = StoredArray(items: seq<Task>) | StoredNull | StoredOther

  /**
   * The loaded task list. `None` is a parse that threw: the list then keeps its initial value `[]`.
   * Null falls back to `[]` through `|| []`, and a value that is not an array is replaced by `[]`.
   */
  function Load(parsed: Option<Stored>): (r: seq<Task>)
    ensures parsed.Some? && parsed.value.StoredArray? ==> r == parsed.value.items
    ensures !(parsed.Some? && parsed.value.StoredArray?) ==> r == []
  {
    match parsed
    case None => []
    case Some(StoredArray(items)) => items
    case Some(_) => []
  }

  /** The three filter names. */
  const All := "All"
  const Active := "Active"
  const Completed := "Completed"

  /**
   * Input whose trim is empty leaves the list alone; otherwise the trimmed text becomes an open task
   * appended at the end, with the current time `now` as id.
   */
  function AddTask(tasks: seq<Task>, input: string, dueDate: string, now: int): (r: seq<Task>)
    ensures Trim(input, JsSpace) == [] ==> r == tasks
    ensures Trim(input, JsSpace) != [] ==>
      |r| == |tasks| + 1 && r[..|tasks|] == tasks && r[|tasks|] == Task(now, Trim(input, JsSpace), false, Due(dueDate))
  {
    if Trim(input, JsSpace) == [] then tasks
    else tasks + [Task(now, Trim(input, JsSpace), false, Due(dueDate))]
  }

  /** `toggleTask`: the tasks with that id change status, every other field and every other task stays. */
  function ToggleTask(tasks: seq<Task>, id: int): (r: seq<Task>)
    ensures |r| == |tasks|
    ensures forall k :: 0 <= k < |tasks| ==> r[k].id == tasks[k].id && r[k].text == tasks[k].text && r[k].due == tasks[k].due
    ensures forall k :: 0 <= k < |tasks| ==> (r[k].completed != tasks[k].completed <==> tasks[k].id == id)
  {
    FlipAll(tasks, id)
  }

  /** `deleteTask`: exactly the tasks with another id remain; an id no task has removes nothing. */
  function DeleteTask(tasks: seq<Task>, id: int): (r: seq<Task>)
    ensures |r| <= |tasks|
    ensures forall t :: t in r <==> t in tasks && t.id != id
    ensures (forall k :: 0 <= k < |tasks| ==> tasks[k].id != id) ==> r == tasks
  {
    if forall k :: 0 <= k < |tasks| ==> tasks[k].id != id then
      WithoutAbsent(tasks, id);
      Without(tasks, id)
    else Without(tasks, id)
  }

  /** The visible tasks: Active keeps the open ones, Completed the done ones, All and any other filter everything. */
  function FilteredTasks(tasks: seq<Task>, filter: string): (r: seq<Task>)
    ensures |r| <= |tasks|
    ensures forall t :: t in r <==> t in tasks && (filter == Active ==> !t.completed) && (filter == Completed ==> t.completed)
    ensures filter != Active && filter != Completed ==> r == tasks
  {
    if filter == All then tasks
    else if filter == Active then Select(tasks, false)
    else if filter == Completed then Select(tasks, true)
    else tasks
  }

  /** The number of done tasks: zero exactly when none is done, the whole length exactly when all are. */
  function CompletedCount(tasks: seq<Task>): (r: nat)
    ensures r <= |tasks|
    ensures r == 0 <==> forall k :: 0 <= k < |tasks| ==> !tasks[k].completed
    ensures r == |tasks| <==> forall k :: 0 <= k < |tasks| ==> tasks[k].completed
  {
    var done, open := Select(tasks, true), Select(tasks, false);
    Partition(tasks);
    assert done == [] ==> forall k :: 0 <= k < |tasks| ==> !tasks[k].completed by {
      if done == [] {
        forall k | 0 <= k < |tasks| ensures !tasks[k].completed {
          assert tasks[k] in tasks;
        }
      }
    }
    assert open == [] ==> forall k :: 0 <= k < |tasks| ==> tasks[k].completed by {
      if open == [] {
        forall k | 0 <= k < |tasks| ensures tasks[k].completed {
          assert tasks[k] in tasks;
        }
      }
    }
    assert done != [] ==> exists k :: 0 <= k < |tasks| && tasks[k].completed by {
      if done != [] {
        assert done[0] in tasks;
      }
    }
    assert open != [] ==> exists k :: 0 <= k < |tasks| && !tasks[k].completed by {
      if open != [] {
        assert open[0] in tasks;
      }
    }
    |done|
  }

  /** `tasks.length - completedCount`, which is the number of open tasks. */
  function ActiveCount(tasks: seq<Task>): (r: int)
    ensures r == |Select(tasks, false)| && r + CompletedCount(tasks) == |tasks|
  {
    Partition(tasks);
    |tasks| - CompletedCount(tasks)
  }

  /** Adding a task under a fresh id and deleting that id gives back the list. */
  lemma AddThenDelete(tasks: seq<Task>, input: string, dueDate: string, now: int)
    requires forall k :: 0 <= k < |tasks| ==> tasks[k].id != now
    ensures DeleteTask(AddTask(tasks, input, dueDate, now), now) == tasks
  {
    WithoutAbsent(tasks, now);
    if Trim(input, JsSpace) != [] {
      var t := Task(now, Trim(input, JsSpace), false, Due(dueDate));
      WithoutAppend(tasks, [t], now);
      assert Without([t], now) == [];
    }
  }

  /** Toggling keeps the list's length, ids and texts, and toggling twice restores it. */
  lemma ToggleTwice(tasks: seq<Task>, id: int)
    ensures |ToggleTask(tasks, id)| == |tasks|
    ensures ToggleTask(ToggleTask(tasks, id), id) == tasks
  {
    FlipAllTwice(tasks, id);
  }

  /** The Active and Completed views split the list between them. */
  lemma FilterPartition(tasks: seq<Task>)
    ensures |FilteredTasks(tasks, Active)| + |FilteredTasks(tasks, Completed)| == |FilteredTasks(tasks, All)|
    ensures multiset(FilteredTasks(tasks, Active)) + multiset(FilteredTasks(tasks, Completed)) == multiset(tasks)
  {
    Partition(tasks);
  }
}
