/**
 * The plain-JavaScript to-do page: the module-level task list, the current filter and the id
 * counter, updated in place by the add, toggle and delete handlers, and the filtered view and the
 * count line read from them.
 */
module TodoApp {
  import opened Text
  import opened TaskList

  /** The count line: `N <kind> task`, with a trailing 's' unless N is 1. */
  function CountText(n: nat, kind: string): (r: string)
    ensures |r| > |NatToString(n)| && r[..|NatToString(n)|] == NatToString(n)
    ensures r[|r| - 1] == 's' <==> n != 1
  {
    NatToString(n) + " " + kind + " task" + (if n != 1 then "s" else "")
  }

  /** The word the count line uses for a filter. */
  function Kind(filter: string): string {
    if filter == "active" then "active"
    else if filter == "completed" then "completed"
    else "total"
  }

  class Todo {
    var tasks: seq<Task>
    var currentFilter: string
    var taskIdCounter: int

    /** Ids strictly increase along the list and all lie below the counter. */
    ghost predicate Valid()
      reads this
    {
      Increasing(tasks) && forall k :: 0 <= k < |tasks| ==> tasks[k].id < taskIdCounter
    }

    /** The page's initial state: no tasks, filter 'all', counter 1. */
    constructor()
      ensures tasks == [] && currentFilter == "all" && taskIdCounter == 1
      ensures Valid()
    {
      tasks := [];
      currentFilter := "all";
      taskIdCounter := 1;
    }

    /**
     * The two sample tasks take the next two counter values; the counter is then set to 3, which
     * keeps the ids below it only when it started at 1 or lower (as it does on a fresh page).
     */
    method InitializeSampleData()
      modifies this
      ensures tasks == [Task(old(taskIdCounter), "Complete project documentation", false, Some("2025-10-10")),
                        Task(old(taskIdCounter) + 1, "Review code changes", true, Some("2025-10-08"))]
      ensures taskIdCounter == 3 && currentFilter == old(currentFilter)
      ensures old(taskIdCounter) <= 1 ==> Valid()
    {
      var first := Task(taskIdCounter, "Complete project documentation", false, Some("2025-10-10"));
      taskIdCounter := taskIdCounter + 1;
      var second := Task(taskIdCounter, "Review code changes", true, Some("2025-10-08"));
      taskIdCounter := taskIdCounter + 1;
      tasks := [first, second];
      taskIdCounter := 3;
    }

    /**
     * Input that trims to nothing is ignored; otherwise the trimmed text becomes a new open task
     * with the counter's value as id, and the counter moves on.
     */
    method AddTask(input: string, dueDate: string)
      modifies this
      ensures old(Valid()) ==> Valid()
      ensures Trim(input, JsSpace) == [] ==> tasks == old(tasks) && taskIdCounter == old(taskIdCounter)
      ensures Trim(input, JsSpace) != [] ==>
        tasks == old(tasks) + [Task(old(taskIdCounter), Trim(input, JsSpace), false, Due(dueDate))]
        && taskIdCounter == old(taskIdCounter) + 1
      ensures currentFilter == old(currentFilter)
    {
      var text := Trim(input, JsSpace);
      if text == [] {
        return;
      }
      var task := Task(taskIdCounter, text, false, Due(dueDate));
      taskIdCounter := taskIdCounter + 1;
      tasks := tasks + [task];
    }

    /** The first task with that id changes status; with unique ids it is the only one. */
    method ToggleTask(taskId: int)
      modifies this
      ensures old(Valid()) ==> Valid()
      ensures tasks == FlipFirst(old(tasks), taskId)
      ensures old(Valid()) ==> tasks == FlipAll(old(tasks), taskId)
      ensures taskIdCounter == old(taskIdCounter) && currentFilter == old(currentFilter)
    {
      if Valid() {
        FlipFirstIsFlipAll(tasks, taskId);
      }
      var k := Find(tasks, taskId);
      if k < |tasks| {
        tasks := tasks[k := Flip(tasks[k])];
      }
    }

    /** Every task with that id goes; the others stay, in order. */
    method DeleteTask(taskId: int)
      modifies this
      ensures old(Valid()) ==> Valid()
      ensures tasks == Without(old(tasks), taskId)
      ensures taskIdCounter == old(taskIdCounter) && currentFilter == old(currentFilter)
    {
      if Increasing(tasks) {
        WithoutIncreasing(tasks, taskId);
      }
      tasks := Without(tasks, taskId);
    }

    method SetFilter(filter: string)
      modifies this
      ensures currentFilter == filter && tasks == old(tasks) && taskIdCounter == old(taskIdCounter)
    {
      currentFilter := filter;
    }

    /** 'active' shows the open tasks, 'completed' the done ones, anything else every task. */
    function FilteredTasks(): (r: seq<Task>)
      reads this
      ensures forall t :: t in r <==>
        t in tasks && (currentFilter == "active" ==> !t.completed) && (currentFilter == "completed" ==> t.completed)
    {
      if currentFilter == "active" then Select(tasks, false)
      else if currentFilter == "completed" then Select(tasks, true)
      else tasks
    }

    /** The count line counts exactly the tasks the current filter shows. */
    function TaskCountText(): (r: string)
      reads this
      ensures r == CountText(|FilteredTasks()|, Kind(currentFilter))
    {
      var total := |tasks|;
      var active := |Select(tasks, false)|;
      var completed := |Select(tasks, true)|;
      if currentFilter == "active" then CountText(active, "active")
      else if currentFilter == "completed" then CountText(completed, "completed")
      else CountText(total, "total")
    }
  }

  /** A new task never has blank text, nor white space at either end. */
  lemma AddedText(input: string)
    requires Trim(input, JsSpace) != []
    ensures !JsSpace(Trim(input, JsSpace)[0]) && !JsSpace(Trim(input, JsSpace)[|Trim(input, JsSpace)| - 1])
    ensures !Spaces(input, 0, |input|, JsSpace)
  {
    TrimEmpty(input, JsSpace);
  }
}
