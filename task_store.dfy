/**
 * The task records of the time tracker and the invariants the store keeps:
 * identifiers are unique and at most one task is running.
 */
module TaskStore {
  import opened Options
  import Lookup

  /**
   * One task record.  id is the creation instant in milliseconds, date a
   * "YYYY-MM-DD" string, elapsedTime the accumulated seconds, startTime the
   * instant the current run began (None unless running) and startHour the
   * first start of the day (kept as an instant in milliseconds).
   */
  datatype Task = Task(
    id: int,
    name: string,
    das: string,
    date: string,
    elapsedTime: int,
    initialElapsedTime: int,
    isRunning: bool,
    startTime: Option<int>,
    startHour: Option<int>)

  ghost predicate UniqueIds(tasks: seq<Task>) {
    forall j, k :: 0 <= j < |tasks| && 0 <= k < |tasks| && tasks[j].id == tasks[k].id ==> j == k
  }

  ghost predicate AtMostOneRunning(tasks: seq<Task>) {
    forall j, k :: 0 <= j < |tasks| && 0 <= k < |tasks| && tasks[j].isRunning && tasks[k].isRunning ==> j == k
  }

  /** A stopped task carries no start instant. */
  ghost predicate StoppedHaveNoStart(tasks: seq<Task>) {
    forall k :: 0 <= k < |tasks| && !tasks[k].isRunning ==> tasks[k].startTime.None?
  }

  ghost predicate Consistent(tasks: seq<Task>) {
    UniqueIds(tasks) && AtMostOneRunning(tasks) && StoppedHaveNoStart(tasks)
  }

  /** tasks.findIndex(t => t.id === id): the first position holding id, or -1. */
  function IndexOfId(tasks: seq<Task>, id: int): (k: int)
    ensures -1 <= k < |tasks|
    ensures k >= 0 ==> tasks[k].id == id && forall j :: 0 <= j < k ==> tasks[j].id != id
    ensures k == -1 ==> forall j :: 0 <= j < |tasks| ==> tasks[j].id != id
  {
    Lookup.FirstWithKey(tasks, TaskId, id)
  }

  function TaskId(t: Task): int {
    t.id
  }

  /** tasks.splice(k, 1). */
  function RemoveAt(tasks: seq<Task>, k: nat): (r: seq<Task>)
    requires k < |tasks|
    ensures |r| == |tasks| - 1
    ensures forall j :: 0 <= j < k ==> r[j] == tasks[j]
    ensures forall j :: k <= j < |r| ==> r[j] == tasks[j + 1]
  {
    tasks[..k] + tasks[k + 1..]
  }

  /** Removing a record keeps the store consistent. */
  lemma RemoveAtConsistent(tasks: seq<Task>, k: nat)
    requires k < |tasks| && Consistent(tasks)
    ensures Consistent(RemoveAt(tasks, k))
  {
    var r := RemoveAt(tasks, k);
    assert forall j :: 0 <= j < |r| ==> r[j] == tasks[if j < k then j else j + 1];
  }
}
