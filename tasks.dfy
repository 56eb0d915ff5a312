/**
 * The task list shared by the two to-do applications: a task record, the status filters, removal
 * by id and the two ways of flipping a task's status (the first match, or every match).
 */
module TaskList {

  datatype Option<T> = None | Some(value: T)

  /** A to-do item `{id, text, completed, due}`; `due` is null when no date was picked. */
  datatype Task = Task(id: int, text: string, completed: bool, due: Option<string>)

  /** `dueDate || null`: the empty date field means no due date. */
  function Due(date: string): Option<string> {
    if date == "" then None else Some(date)
  }

  function Flip(t: Task): Task {
    t.(completed := !t.completed)
  }

  /** `filter(t => t.completed == done)`: the tasks with that status, in list order. */
  function Select(ts: seq<Task>, done: bool): (r: seq<Task>)
    ensures |r| <= |ts|
    ensures forall t :: t in r <==> t in ts && t.completed == done
  {
    if ts == [] then []
    else (if ts[0].completed == done then [ts[0]] else []) + Select(ts[1..], done)
  }

  /** `filter(t => t.id !== id)`: the tasks with another id, in list order. */
  function Without(ts: seq<Task>, id: int): (r: seq<Task>)
    ensures |r| <= |ts|
    ensures forall t :: t in r <==> t in ts && t.id != id
  {
    if ts == [] then []
    else (if ts[0].id != id then [ts[0]] else []) + Without(ts[1..], id)
  }

  /** Filtering keeps the order: it distributes over concatenation. */
  lemma {:induction false} SelectAppend(a: seq<Task>, b: seq<Task>, done: bool)
    ensures Select(a + b, done) == Select(a, done) + Select(b, done)
  {
    if a != [] {
      assert (a + b)[0] == a[0] && (a + b)[1..] == a[1..] + b;
      SelectAppend(a[1..], b, done);
    } else {
      assert a + b == b;
    }
  }

  lemma {:induction false} WithoutAppend(a: seq<Task>, b: seq<Task>, id: int)
    ensures Without(a + b, id) == Without(a, id) + Without(b, id)
  {
    if a != [] {
      assert (a + b)[0] == a[0] && (a + b)[1..] == a[1..] + b;
      WithoutAppend(a[1..], b, id);
    } else {
      assert a + b == b;
    }
  }

  /** Removing an id no task has changes nothing. */
  lemma {:induction false} WithoutAbsent(ts: seq<Task>, id: int)
    requires forall k :: 0 <= k < |ts| ==> ts[k].id != id
    ensures Without(ts, id) == ts
  {
    if ts != [] {
      WithoutAbsent(ts[1..], id);
    }
  }

  /** The open and the done tasks split the list: together they are exactly its tasks. */
  lemma {:induction false} Partition(ts: seq<Task>)
    ensures multiset(Select(ts, false)) + multiset(Select(ts, true)) == multiset(ts)
    ensures |Select(ts, false)| + |Select(ts, true)| == |ts|
  {
    if ts != [] {
      Partition(ts[1..]);
      assert ts == [ts[0]] + ts[1..];
    }
  }

  /** Ids strictly increase along the list (so no two tasks share one). */
  ghost predicate Increasing(ts: seq<Task>) {
    forall i, j :: 0 <= i < j < |ts| ==> ts[i].id < ts[j].id
  }

  lemma {:induction false} WithoutIncreasing(ts: seq<Task>, id: int)
    requires Increasing(ts)
    ensures Increasing(Without(ts, id))
  {
    if ts != [] {
      WithoutIncreasing(ts[1..], id);
      var rest := Without(ts[1..], id);
      forall t | t in rest ensures ts[0].id < t.id {
        var k :| 0 <= k < |ts[1..]| && ts[1..][k] == t;
        assert ts[k + 1] == t;
      }
    }
  }

  /** `find(t => t.id === id)`: the index of the first task with that id, or |ts| if none. */
  function Find(ts: seq<Task>, id: int): (k: nat)
    ensures k <= |ts|
    ensures k < |ts| ==> ts[k].id == id
    ensures forall j :: 0 <= j < k ==> ts[j].id != id
  {
    if ts == [] then 0
    else if ts[0].id == id then 0
    else 1 + Find(ts[1..], id)
  }

  /**
   * Flipping the first task with that id in place (`task.completed = !task.completed`): every id, and
   * every task but that one, stays as it was.
   */
  function FlipFirst(ts: seq<Task>, id: int): (r: seq<Task>)
    ensures |r| == |ts|
    ensures forall k :: 0 <= k < |ts| ==> r[k].id == ts[k].id
    ensures forall k :: 0 <= k < |ts| && k != Find(ts, id) ==> r[k] == ts[k]
    ensures Find(ts, id) < |ts| ==> r[Find(ts, id)] == ts[Find(ts, id)].(completed := !ts[Find(ts, id)].completed)
  {
    var k := Find(ts, id);
    if k < |ts| then ts[k := Flip(ts[k])] else ts
  }

  /** Flipping every task with that id (`map` with a conditional spread). */
  function FlipAll(ts: seq<Task>, id: int): (r: seq<Task>)
    ensures |r| == |ts|
    ensures forall k :: 0 <= k < |ts| ==> r[k].id == ts[k].id && r[k].text == ts[k].text && r[k].due == ts[k].due
    ensures forall k :: 0 <= k < |ts| ==> (r[k].completed != ts[k].completed <==> ts[k].id == id)
  {
    seq(|ts|, k requires 0 <= k < |ts| => if ts[k].id == id then Flip(ts[k]) else ts[k])
  }

  /** Toggling the same id twice restores the list. */
  lemma FlipFirstTwice(ts: seq<Task>, id: int)
    ensures FlipFirst(FlipFirst(ts, id), id) == ts
  {
    var r := FlipFirst(ts, id);
    FindSameIds(ts, r, id);
  }

  lemma {:induction false} FindSameIds(a: seq<Task>, b: seq<Task>, id: int)
    requires |a| == |b| && forall k :: 0 <= k < |a| ==> a[k].id == b[k].id
    ensures Find(a, id) == Find(b, id)
  {
    if a != [] && a[0].id != id {
      FindSameIds(a[1..], b[1..], id);
    }
  }

  lemma FlipAllTwice(ts: seq<Task>, id: int)
    ensures FlipAll(FlipAll(ts, id), id) == ts
  {
  }

  /** With unique ids, flipping the first match and flipping every match agree. */
  lemma FlipFirstIsFlipAll(ts: seq<Task>, id: int)
    requires Increasing(ts)
    ensures FlipFirst(ts, id) == FlipAll(ts, id)
  {
    var k := Find(ts, id);
    var f, g := FlipFirst(ts, id), FlipAll(ts, id);
    forall j | 0 <= j < |ts|
      ensures f[j] == g[j]
    {
      if k < j {
        assert ts[k].id < ts[j].id;
      }
    }
  }
}
