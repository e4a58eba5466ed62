/**
 * The timer state machine of the time tracker as functions on values: which
 * task runs, the per-second credit of the running task, the close marker
 * written when the page is hidden or closed and the credit given when it is
 * shown again, and the changes the task dialog makes to the list.  Instants
 * are milliseconds, elapsed times seconds.
 */
module Tracker {
  import opened Options
  import opened TaskStore
  import opened JsNumbers
  import opened TimeEdit

  /**
   * The state the timer logic reads and writes: the task list, the instant of
   * the last credit (lastUpdateTime), the task the one-second interval credits
   * (None when no interval is set) and the lastCloseTime marker in storage.
   */
  datatype TimerState = TimerState(
    tasks: seq<Task>,
    lastUpdateTime: int,
    timer: Option<int>,
    closeMarker: Option<int>)

  /** The contents of the task dialog (currentTask); startTime is the "HH:MM" text field. */
  datatype Draft = Draft(name: string, das: string, date: string, startTime: string)

  /** The loop body of toggleTimer's forEach: a running task with another id is stopped. */
  function StopIfOther(t: Task, id: int): Task {
    if t.isRunning && t.id != id then t.(isRunning := false, startTime := None) else t
  }

  function StopOthers(tasks: seq<Task>, id: int): seq<Task> {
    seq(|tasks|, k requires 0 <= k < |tasks| => StopIfOther(tasks[k], id))
  }

  /**
   * toggleTimer on the task at position i (a position outside the list is the
   * null task, for which nothing happens).  Starting records the first start
   * of the day, stops every other running task, sets the start instant and
   * arms the interval; stopping clears the start instant and the interval.
   * Both remove the close marker.
   */
  function Toggled(s: TimerState, i: int, now: int): (r: TimerState)
    ensures |r.tasks| == |s.tasks|
    ensures forall k :: 0 <= k < |r.tasks| ==> r.tasks[k].id == s.tasks[k].id && r.tasks[k].elapsedTime == s.tasks[k].elapsedTime
  {
    if !(0 <= i < |s.tasks|) then s
    else if !s.tasks[i].isRunning then
      var t := s.tasks[i];
      var marked := s.tasks[i := t.(startHour := if t.startHour.None? then Some(now) else t.startHour)];
      var stopped := StopOthers(marked, t.id);
      TimerState(stopped[i := stopped[i].(isRunning := true, startTime := Some(now))], now, Some(t.id), None)
    else
      TimerState(s.tasks[i := s.tasks[i].(isRunning := false, startTime := None)], s.lastUpdateTime, None, None)
  }

  /**
   * Starting a task leaves it the only running one, started now, with its
   * start of day set if it had none; every other running task is stopped and
   * otherwise kept as it was, and every stopped task is kept as it was.
   */
  lemma ToggleStartIsOnlyRunning(s: TimerState, i: int, now: int)
    requires 0 <= i < |s.tasks| && !s.tasks[i].isRunning && UniqueIds(s.tasks)
    ensures var r := Toggled(s, i, now);
      && |r.tasks| == |s.tasks|
      && (forall k :: 0 <= k < |r.tasks| ==> (r.tasks[k].isRunning <==> k == i))
      && r.tasks[i] == s.tasks[i].(isRunning := true, startTime := Some(now),
                                  startHour := if s.tasks[i].startHour.None? then Some(now) else s.tasks[i].startHour)
      && (forall k :: 0 <= k < |r.tasks| && k != i ==>
            r.tasks[k] == if s.tasks[k].isRunning then s.tasks[k].(isRunning := false, startTime := None) else s.tasks[k])
      && (forall k :: 0 <= k < |r.tasks| ==> r.tasks[k].elapsedTime == s.tasks[k].elapsedTime)
      && r.timer == Some(s.tasks[i].id) && r.lastUpdateTime == now && r.closeMarker == None
  {
    var r := Toggled(s, i, now);
    forall k | 0 <= k < |r.tasks| && k != i ensures !r.tasks[k].isRunning {
      assert s.tasks[k].id != s.tasks[i].id;
    }
  }

  /**
   * Stopping a running task clears its run and the interval, changes nothing
   * else in its record, touches no other task and leaves lastUpdateTime.
   */
  lemma ToggleStops(s: TimerState, i: int, now: int)
    requires 0 <= i < |s.tasks| && s.tasks[i].isRunning
    ensures var r := Toggled(s, i, now);
      && |r.tasks| == |s.tasks|
      && r.tasks[i] == s.tasks[i].(isRunning := false, startTime := None)
      && (forall k :: 0 <= k < |r.tasks| && k != i ==> r.tasks[k] == s.tasks[k])
      && r.lastUpdateTime == s.lastUpdateTime
      && r.timer == None && r.closeMarker == None
  {
  }

  /** Toggling keeps the store consistent: unique ids, at most one running task, stopped tasks without start. */
  lemma ToggledConsistent(s: TimerState, i: int, now: int)
    requires Consistent(s.tasks)
    ensures Consistent(Toggled(s, i, now).tasks)
  {
    var r := Toggled(s, i, now);
    if 0 <= i < |s.tasks| {
      assert forall k :: 0 <= k < |r.tasks| ==> r.tasks[k].id == s.tasks[k].id;
      if !s.tasks[i].isRunning {
        ToggleStartIsOnlyRunning(s, i, now);
        forall k | 0 <= k < |r.tasks| && !r.tasks[k].isRunning ensures r.tasks[k].startTime.None? {
          assert k != i;
        }
      }
    }
  }

  /**
   * The body of the one-second interval armed for the task with the given
   * id.  If that task is stopped the interval clears itself.  Otherwise the
   * whole seconds since lastUpdateTime, Math.floor((now - lastUpdateTime) / 1000),
   * are credited when positive and lastUpdateTime moves to now.  A task
   * deleted from the list is still credited by the interval, so then only
   * lastUpdateTime moves.
   */
  function Ticked(s: TimerState, now: int): (r: TimerState)
    ensures |r.tasks| == |s.tasks| && r.closeMarker == s.closeMarker
    ensures forall k :: 0 <= k < |r.tasks| ==> r.tasks[k].id == s.tasks[k].id && r.tasks[k].isRunning == s.tasks[k].isRunning
  {
    match s.timer
    case None => s
    case Some(id) =>
      var k := IndexOfId(s.tasks, id);
      if k >= 0 && !s.tasks[k].isRunning then s.(timer := None)
      else
        var elapsed := FloorDiv(now - s.lastUpdateTime, 1000);
        if elapsed <= 0 then s
        else if k >= 0 then
          s.(tasks := s.tasks[k := s.tasks[k].(elapsedTime := s.tasks[k].elapsedTime + elapsed)], lastUpdateTime := now)
        else s.(lastUpdateTime := now)
  }

  /**
   * A tick adds to elapsed times only the positive whole number of seconds
   * since the last credit, never takes any away and changes nothing else in
   * the records; only the task the interval targets can gain, and without an
   * interval nothing changes at all.  With no whole second elapsed it changes
   * neither the records nor lastUpdateTime.  An interval whose task is in the
   * list but stopped clears itself and credits nothing; any other interval
   * stays armed.
   */
  lemma TickedMonotone(s: TimerState, now: int)
    ensures s.timer.None? ==> Ticked(s, now) == s
    ensures var j := if s.timer.Some? then IndexOfId(s.tasks, s.timer.value) else -1;
      if j >= 0 && !s.tasks[j].isRunning then Ticked(s, now) == s.(timer := None)
      else Ticked(s, now).timer == s.timer
    ensures var r := Ticked(s, now);
      && |r.tasks| == |s.tasks|
      && (forall k :: 0 <= k < |s.tasks| && s.timer.Some? && s.tasks[k].id != s.timer.value ==> r.tasks[k] == s.tasks[k])
      && (forall k :: 0 <= k < |r.tasks| ==>
            r.tasks[k] == s.tasks[k].(elapsedTime := r.tasks[k].elapsedTime)
            && (r.tasks[k].elapsedTime == s.tasks[k].elapsedTime
                || (r.tasks[k].elapsedTime == s.tasks[k].elapsedTime + (now - s.lastUpdateTime) / 1000
                    && now - s.lastUpdateTime >= 1000)))
      && (forall k :: 0 <= k < |r.tasks| ==> r.tasks[k].elapsedTime >= s.tasks[k].elapsedTime)
      && (now - s.lastUpdateTime < 1000 ==> r.tasks == s.tasks && r.lastUpdateTime == s.lastUpdateTime)
  {
  }

  /** The task the interval targets, when running, receives exactly the elapsed whole seconds. */
  lemma TickCredits(s: TimerState, now: int, k: int)
    requires s.timer.Some? && 0 <= k < |s.tasks| && s.tasks[k].id == s.timer.value
    requires s.tasks[k].isRunning && UniqueIds(s.tasks)
    requires now - s.lastUpdateTime >= 1000
    ensures Ticked(s, now).tasks[k].elapsedTime == s.tasks[k].elapsedTime + (now - s.lastUpdateTime) / 1000
    ensures Ticked(s, now).lastUpdateTime == now
  {
    assert IndexOfId(s.tasks, s.timer.value) == k;
  }

  lemma TickedConsistent(s: TimerState, now: int)
    requires Consistent(s.tasks)
    ensures Consistent(Ticked(s, now).tasks)
  {
    TickedMonotone(s, now);
  }

  /** Whether some task is running (this.tasks.filter(t => t.isRunning).length > 0). */
  predicate AnyRunning(tasks: seq<Task>) {
    exists k :: 0 <= k < |tasks| && tasks[k].isRunning
  }

  /**
   * The task part of beforeUnload, also run when the page is hidden: with a
   * running task the close instant is stored as the marker.
   */
  function Closed(s: TimerState, now: int): (r: TimerState)
    ensures r.tasks == s.tasks && r.timer == s.timer && r.lastUpdateTime == s.lastUpdateTime
  {
    if AnyRunning(s.tasks) then s.(closeMarker := Some(now)) else s
  }

  /** The marker is written exactly when a task runs, and nothing else changes. */
  lemma ClosedMarks(s: TimerState, now: int)
    ensures Closed(s, now).tasks == s.tasks && Closed(s, now).timer == s.timer
    ensures Closed(s, now).lastUpdateTime == s.lastUpdateTime
    ensures Closed(s, now).closeMarker == Some(now) <==> AnyRunning(s.tasks) || s.closeMarker == Some(now)
    ensures !AnyRunning(s.tasks) ==> Closed(s, now) == s
  {
  }

  /** The loop body of handleReopen for one task: a running task gets the seconds since the close. */
  function CreditIfRunning(t: Task, seconds: int, now: int): Task {
    if t.isRunning then t.(elapsedTime := t.elapsedTime + seconds, startTime := Some(now)) else t
  }

  function CreditRunning(tasks: seq<Task>, seconds: int, now: int): seq<Task> {
    seq(|tasks|, k requires 0 <= k < |tasks| => CreditIfRunning(tasks[k], seconds, now))
  }

  /** The id of the last running task in list order: the task whose interval the loop arms last. */
  function LastRunning(tasks: seq<Task>): (r: Option<int>)
    ensures r.None? <==> !AnyRunning(tasks)
    ensures r.Some? ==> exists k :: 0 <= k < |tasks| && tasks[k].isRunning && tasks[k].id == r.value
  {
    if tasks == [] then None
    else if tasks[|tasks| - 1].isRunning then Some(tasks[|tasks| - 1].id)
    else
      var pre := tasks[..|tasks| - 1];
      assert forall k :: 0 <= k < |pre| ==> pre[k] == tasks[k];
      LastRunning(pre)
  }

  /**
   * handleReopen: when a close marker is stored, every running task is
   * credited Math.floor((now - close) / 1000) seconds when that is positive
   * and restarted (start instant now, lastUpdateTime now, interval armed on
   * it); the marker is removed in any case.
   */
  function Reopened(s: TimerState, now: int): (r: TimerState)
    ensures r.closeMarker == None && |r.tasks| == |s.tasks|
    ensures forall k :: 0 <= k < |r.tasks| ==> r.tasks[k].id == s.tasks[k].id && r.tasks[k].isRunning == s.tasks[k].isRunning
  {
    match s.closeMarker
    case None => s
    case Some(close) =>
      var seconds := FloorDiv(now - close, 1000);
      if seconds > 0 && AnyRunning(s.tasks) then
        TimerState(CreditRunning(s.tasks, seconds, now), now, LastRunning(s.tasks), None)
      else s.(closeMarker := None)
  }

  /** LastRunning read one task further. */
  lemma LastRunningNext(tasks: seq<Task>, j: nat)
    requires j < |tasks|
    ensures LastRunning(tasks[..j + 1])
         == if tasks[j].isRunning then Some(tasks[j].id) else LastRunning(tasks[..j])
  {
    assert tasks[..j + 1][..j] == tasks[..j];
  }

  lemma ReopenedUnfolds(s: TimerState, now: int)
    requires s.closeMarker.Some?
    ensures var seconds := FloorDiv(now - s.closeMarker.value, 1000);
      Reopened(s, now)
        == if seconds > 0 && LastRunning(s.tasks).Some?
           then TimerState(CreditRunning(s.tasks, seconds, now), now, LastRunning(s.tasks), None)
           else s.(closeMarker := None)
  {
  }

  /**
   * Reopening credits each running task with the whole seconds since the
   * close, exactly when there are some, leaves stopped tasks as they were and
   * always clears the marker.  With a credit, lastUpdateTime moves to now and
   * the interval is re-armed on the last running task; without one only the
   * marker changes, so an armed interval keeps running.
   */
  lemma ReopenedCredits(s: TimerState, now: int)
    requires s.closeMarker.Some?
    ensures var r := Reopened(s, now);
      && r.closeMarker == None
      && |r.tasks| == |s.tasks|
      && (forall k :: 0 <= k < |s.tasks| ==>
            if s.tasks[k].isRunning && now - s.closeMarker.value >= 1000
            then r.tasks[k] == s.tasks[k].(elapsedTime := s.tasks[k].elapsedTime + (now - s.closeMarker.value) / 1000,
                                           startTime := Some(now))
            else r.tasks[k] == s.tasks[k])
    ensures var r := Reopened(s, now);
      if now - s.closeMarker.value >= 1000 && AnyRunning(s.tasks) then
        && r.lastUpdateTime == now && r.timer == LastRunning(s.tasks)
        && exists k :: 0 <= k < |s.tasks| && s.tasks[k].isRunning && s.tasks[k].id == r.timer.value
      else r == s.(closeMarker := None)
  {
  }

  /** The only running task is the last running one. */
  lemma {:induction false} LastRunningIsOnly(tasks: seq<Task>, i: int)
    requires 0 <= i < |tasks| && tasks[i].isRunning
    requires forall k :: 0 <= k < |tasks| && tasks[k].isRunning ==> k == i
    ensures LastRunning(tasks) == Some(tasks[i].id)
    decreases |tasks|
  {
    if i < |tasks| - 1 {
      LastRunningIsOnly(tasks[..|tasks| - 1], i);
    }
  }

  /**
   * Closing the page while one task runs and showing it again at least a
   * second later credits that task exactly the whole seconds in between,
   * restarts it now and re-arms the interval on it; no other task changes.
   */
  lemma CloseThenReopen(s: TimerState, i: int, close: int, now: int)
    requires Consistent(s.tasks) && 0 <= i < |s.tasks| && s.tasks[i].isRunning
    requires now - close >= 1000
    ensures var r := Reopened(Closed(s, close), now);
      && |r.tasks| == |s.tasks|
      && r.tasks[i] == s.tasks[i].(elapsedTime := s.tasks[i].elapsedTime + (now - close) / 1000, startTime := Some(now))
      && (forall k :: 0 <= k < |s.tasks| && k != i ==> r.tasks[k] == s.tasks[k])
      && r.timer == Some(s.tasks[i].id) && r.lastUpdateTime == now && r.closeMarker == None
  {
    assert AnyRunning(s.tasks);
    LastRunningIsOnly(s.tasks, i);
    ReopenedCredits(Closed(s, close), now);
  }

  /** A second showing without a close in between credits nothing more. */
  lemma ReopenTwiceCreditsOnce(s: TimerState, now: int, later: int)
    ensures Reopened(Reopened(s, now), later) == Reopened(s, now)
  {
  }

  lemma ReopenedConsistent(s: TimerState, now: int)
    requires Consistent(s.tasks)
    ensures Consistent(Reopened(s, now).tasks)
  {
    var r := Reopened(s, now);
    assert forall k :: 0 <= k < |r.tasks| ==> r.tasks[k].id == s.tasks[k].id && r.tasks[k].isRunning == s.tasks[k].isRunning;
  }

  /**
   * deleteTask's change to the list: the first task with the edited task's id
   * is spliced out; without one the list is unchanged.
   */
  function Deleted(tasks: seq<Task>, id: int): (r: seq<Task>)
    ensures multiset(r) <= multiset(tasks)
  {
    var k := IndexOfId(tasks, id);
    if k == -1 then tasks
    else
      assert tasks == tasks[..k] + [tasks[k]] + tasks[k + 1..];
      RemoveAt(tasks, k)
  }

  /**
   * With unique ids no task with that id remains and every other task stays,
   * in order: the task at the id's position is cut out, and without the id
   * the list is unchanged.
   */
  lemma DeletedRemovesOnly(tasks: seq<Task>, id: int)
    requires UniqueIds(tasks)
    ensures forall t :: t in Deleted(tasks, id) ==> t.id != id
    ensures forall t :: t in tasks && t.id != id ==> t in Deleted(tasks, id)
    ensures |Deleted(tasks, id)| == |tasks| - (if exists t :: t in tasks && t.id == id then 1 else 0)
    ensures forall k :: 0 <= k < |tasks| && tasks[k].id == id ==> Deleted(tasks, id) == tasks[..k] + tasks[k + 1..]
    ensures (forall t :: t in tasks ==> t.id != id) ==> Deleted(tasks, id) == tasks
  {
    var k := IndexOfId(tasks, id);
    if k != -1 {
      var r := RemoveAt(tasks, k);
      forall t | t in r ensures t.id != id {
        var j :| 0 <= j < |r| && r[j] == t;
        assert r[j] == tasks[if j < k then j else j + 1];
      }
      forall t | t in tasks && t.id != id ensures t in r {
        var j :| 0 <= j < |tasks| && tasks[j] == t;
        assert j != k;
        if j < k { assert r[j] == t; } else { assert r[j - 1] == t; }
      }
      forall j | 0 <= j < |tasks| && tasks[j].id == id ensures Deleted(tasks, id) == tasks[..j] + tasks[j + 1..] {
        assert j == k;
      }
    } else {
      assert forall t :: t in tasks ==> t.id != id;
    }
  }

  lemma DeletedConsistent(tasks: seq<Task>, id: int)
    requires Consistent(tasks)
    ensures Consistent(Deleted(tasks, id))
  {
    var k := IndexOfId(tasks, id);
    if k != -1 {
      RemoveAtConsistent(tasks, k);
    }
  }

  /**
   * The edit branch of saveTask on the record with the given id (Object.assign):
   * name, category, date and start of day come from the dialog and both
   * elapsed fields from the time fields.  A NaN total is not modelled: the
   * two elapsed fields are then kept.
   */
  function EditedTask(t: Task, d: Draft, total: Option<int>, startHour: Option<int>): (r: Task)
    ensures r.id == t.id && r.isRunning == t.isRunning && r.startTime == t.startTime
  {
    var e := if total.Some? then total.value else t.elapsedTime;
    var e0 := if total.Some? then total.value else t.initialElapsedTime;
    t.(name := d.name, das := d.das, elapsedTime := e, initialElapsedTime := e0, date := d.date, startHour := startHour)
  }

  function Edited(tasks: seq<Task>, id: int, d: Draft, total: Option<int>, startHour: Option<int>): (r: seq<Task>)
    ensures |r| == |tasks|
    ensures forall k :: 0 <= k < |r| ==>
      r[k].id == tasks[k].id && r[k].isRunning == tasks[k].isRunning && r[k].startTime == tasks[k].startTime
  {
    var k := IndexOfId(tasks, id);
    if k == -1 then tasks else tasks[k := EditedTask(tasks[k], d, total, startHour)]
  }

  /** The record saveTask appends for a new task, created now and dated today. */
  function NewTask(now: int, today: string, d: Draft): Task {
    Task(now, d.name, d.das, today, 0, 0, false, None, None)
  }

  /**
   * The list saveTask leaves, or None when it changes nothing: an empty name
   * or category returns early, and a start text that makes an invalid date
   * (startStamp None: toISOString throws) aborts the edit.  startStamp is the
   * instant the browser derives from the dialog's date and "HH:MM" text.
   */
  function Saved(tasks: seq<Task>, editing: Option<int>, d: Draft, fields: TimeFields,
                 now: int, today: string, startStamp: Option<int>): (r: Option<seq<Task>>)
    ensures r.Some? ==> d.name != "" && d.das != "" && |r.value| >= |tasks|
  {
    if d.name == "" || d.das == "" then None
    else match editing
      case Some(id) =>
        if d.startTime != "" && startStamp.None? then None
        else Some(Edited(tasks, id, d, Compose(fields), if d.startTime != "" then startStamp else None))
      case None => Some(tasks + [NewTask(now, today, d)])
  }

  /**
   * Saving never touches the running state: ids, isRunning and start
   * instants are those of the old list, and so the store stays consistent
   * (a new task needs an id above the existing ones, which creation instants give).
   */
  lemma SavedConsistent(tasks: seq<Task>, editing: Option<int>, d: Draft, fields: TimeFields,
                        now: int, today: string, startStamp: Option<int>)
    requires Consistent(tasks)
    requires editing.None? ==> forall t :: t in tasks ==> t.id < now
    ensures var r := Saved(tasks, editing, d, fields, now, today, startStamp);
      r.Some? ==>
        && Consistent(r.value)
        && |r.value| >= |tasks|
        && (forall k :: 0 <= k < |tasks| ==>
              r.value[k].id == tasks[k].id && r.value[k].isRunning == tasks[k].isRunning
              && r.value[k].startTime == tasks[k].startTime)
  {
    var r := Saved(tasks, editing, d, fields, now, today, startStamp);
    if r.Some? && editing.None? {
      var n := NewTask(now, today, d);
      assert r.value == tasks + [n];
      assert forall k :: 0 <= k < |tasks| ==> tasks[k] in tasks;
    }
  }

  /**
   * Saving a new task appends one record after the existing ones: its id is
   * the creation instant, it is dated today (not the dialog's date), holds
   * the dialog's name and category, has no time recorded and is stopped.
   */
  lemma SaveNewAppends(tasks: seq<Task>, d: Draft, fields: TimeFields, now: int, today: string, startStamp: Option<int>)
    requires d.name != "" && d.das != ""
    ensures var r := Saved(tasks, None, d, fields, now, today, startStamp);
      && r.Some? && |r.value| == |tasks| + 1 && r.value[..|tasks|] == tasks
      && var t := r.value[|tasks|];
      && t.id == now && t.date == today && t.name == d.name && t.das == d.das
      && t.elapsedTime == 0 && t.initialElapsedTime == 0
      && !t.isRunning && t.startTime.None? && t.startHour.None?
  {
    assert (tasks + [NewTask(now, today, d)])[..|tasks|] == tasks;
  }

  /**
   * Saving the dialog of an edited task writes it into that task's record:
   * name, category, date and start of day come from the dialog, both elapsed
   * times become the fields' total, and id, run flag and start instant stay.
   * Opening the saved record again gives back the same dialog (its start of
   * day shown as the text typed) and, for validated fields, the same time
   * fields.  No other task changes, and a start text that gives no valid
   * instant aborts the save.
   */
  lemma EditSaveWrites(tasks: seq<Task>, k: int, d: Draft, f: TimeFields,
                       now: int, today: string, startStamp: Option<int>)
    requires UniqueIds(tasks) && 0 <= k < |tasks|
    requires d.name != "" && d.das != ""
    ensures var r := Saved(tasks, Some(tasks[k].id), d, f, now, today, startStamp);
      && (r.Some? <==> d.startTime == "" || startStamp.Some?)
      && (r.Some? ==>
            var e := r.value[k].elapsedTime;
            && |r.value| == |tasks|
            && r.value[k] == tasks[k].(name := d.name, das := d.das, date := d.date,
                                       elapsedTime := e, initialElapsedTime := r.value[k].initialElapsedTime,
                                       startHour := if d.startTime != "" then startStamp else None)
            && (Compose(f).Some? ==> e == r.value[k].initialElapsedTime == Compose(f).value)
            && DraftOf(r.value[k], d.startTime) == d
            && (Validate(f) == f ==> EditFields(e) == f)
            && (forall j :: 0 <= j < |tasks| && j != k ==> r.value[j] == tasks[j]))
  {
    assert IndexOfId(tasks, tasks[k].id) == k;
    if d.startTime == "" || startStamp.Some? {
      var st := if d.startTime != "" then startStamp else None;
      var t := EditedTask(tasks[k], d, Compose(f), st);
      assert Edited(tasks, tasks[k].id, d, Compose(f), st) == tasks[k := t];
      assert Saved(tasks, Some(tasks[k].id), d, f, now, today, startStamp) == Some(tasks[k := t]);
      EditedTaskWrites(tasks[k], d, f, st);
    }
  }

  /**
   * The record the edit writes, read back through the dialog (its start of
   * day shown as the text typed) and the time fields.
   */
  lemma EditedTaskWrites(t: Task, d: Draft, f: TimeFields, st: Option<int>)
    requires st.Some? <==> d.startTime != ""
    ensures var r := EditedTask(t, d, Compose(f), st);
      && (Compose(f).Some? ==>
            r == t.(name := d.name, das := d.das, date := d.date, elapsedTime := Compose(f).value,
                    initialElapsedTime := Compose(f).value, startHour := st))
      && (Compose(f).None? ==> r == t.(name := d.name, das := d.das, date := d.date, startHour := st))
      && DraftOf(r, d.startTime) == d
      && (Validate(f) == f ==> EditFields(r.elapsedTime) == f)
  {
    if Validate(f) == f {
      ValidatedRoundTrip(f);
    }
  }

  /** The dialog a task is opened with (editTask); startText is the local "HH:MM" of its start of day. */
  function DraftOf(t: Task, startText: string): Draft {
    Draft(t.name, t.das, t.date, if t.startHour.Some? then startText else "")
  }

  /**
   * Opening a task without a start of day for editing and saving the dialog
   * as it was gives the task back, except that its initial elapsed time is
   * reset to its elapsed time.
   */
  lemma EditUnchangedRoundTrip(tasks: seq<Task>, k: int, now: int, today: string, startStamp: Option<int>)
    requires 0 <= k < |tasks| && UniqueIds(tasks)
    requires tasks[k].startHour.None? && tasks[k].elapsedTime >= 0
    requires tasks[k].name != "" && tasks[k].das != ""
    ensures Saved(tasks, Some(tasks[k].id), DraftOf(tasks[k], ""), EditFields(tasks[k].elapsedTime), now, today, startStamp)
         == Some(tasks[k := tasks[k].(initialElapsedTime := tasks[k].elapsedTime)])
  {
    assert IndexOfId(tasks, tasks[k].id) == k;
    EditSaveRoundTrip(tasks[k].elapsedTime);
  }

  /** The events that drive the timer state. */
  datatype Event =
    | Toggle(index: int, at: int)
    | Tick(at: int)
    | Close(at: int)
    | Reopen(at: int)
    | Delete(id: int)

  function Step(s: TimerState, e: Event): TimerState {
    match e
    case Toggle(i, at) => Toggled(s, i, at)
    case Tick(at) => Ticked(s, at)
    case Close(at) => Closed(s, at)
    case Reopen(at) => Reopened(s, at)
    case Delete(id) => s.(tasks := Deleted(s.tasks, id))
  }

  function Run(s: TimerState, events: seq<Event>): TimerState
    decreases |events|
  {
    if events == [] then s else Run(Step(s, events[0]), events[1..])
  }

  /** After any sequence of events the store is still consistent; in particular at most one task runs. */
  lemma {:induction false} RunConsistent(s: TimerState, events: seq<Event>)
    requires Consistent(s.tasks)
    ensures Consistent(Run(s, events).tasks)
    ensures AtMostOneRunning(Run(s, events).tasks)
    decreases |events|
  {
    if events != [] {
      var e := events[0];
      match e {
        case Toggle(i, at) => ToggledConsistent(s, i, at);
        case Tick(at) => TickedConsistent(s, at);
        case Close(at) =>
        case Reopen(at) => ReopenedConsistent(s, at);
        case Delete(id) => DeletedConsistent(s.tasks, id);
      }
      RunConsistent(Step(s, e), events[1..]);
    }
  }

  /** A stopped task used by the timelines below. */
  function Sample(id: int): Task {
    Task(id, "Report", "Support", "2024-03-04", 0, 0, false, None, None)
  }

  /** Start at 0, ticks at 1000, 2000 and 3000 ms, stop at 3500 ms: three seconds recorded. */
  lemma StartTickStopTimeline()
    ensures var s := Run(TimerState([Sample(7)], 0, None, None),
                         [Toggle(0, 0), Tick(1000), Tick(2000), Tick(3000), Toggle(0, 3500)]);
      s.tasks[0].elapsedTime == 3 && !s.tasks[0].isRunning && s.timer == None
  {
    var s0 := TimerState([Sample(7)], 0, None, None);
    var s1 := Toggled(s0, 0, 0);
    assert s1.tasks[0].isRunning && s1.timer == Some(7) && s1.lastUpdateTime == 0;
    assert IndexOfId(s1.tasks, 7) == 0;
    var s2 := Ticked(s1, 1000);
    assert s2.tasks[0].elapsedTime == 1 && s2.lastUpdateTime == 1000;
    var s3 := Ticked(s2, 2000);
    assert s3.tasks[0].elapsedTime == 2;
    var s4 := Ticked(s3, 3000);
    assert s4.tasks[0].elapsedTime == 3;
    var events := [Toggle(0, 0), Tick(1000), Tick(2000), Tick(3000), Toggle(0, 3500)];
    assert Run(s0, events) == Run(s1, events[1..]);
    assert Run(s1, events[1..]) == Run(s2, events[2..]);
    assert Run(s2, events[2..]) == Run(s3, events[3..]);
    assert Run(s3, events[3..]) == Run(s4, events[4..]);
  }

  /**
   * Each credit drops the fraction of a second after the last whole one:
   * two ticks 1999 ms apart record two seconds for almost four.
   */
  lemma TickDropsFraction()
    ensures var s := TimerState([Sample(7).(isRunning := true, startTime := Some(0))], 0, Some(7), None);
      Ticked(Ticked(s, 1999), 3998).tasks[0].elapsedTime == 2
  {
    var s := TimerState([Sample(7).(isRunning := true, startTime := Some(0))], 0, Some(7), None);
    assert IndexOfId(s.tasks, 7) == 0;
    var s1 := Ticked(s, 1999);
    assert s1.tasks[0].elapsedTime == 1 && s1.lastUpdateTime == 1999;
    assert IndexOfId(s1.tasks, 7) == 0;
  }

  /**
   * The close marker is also written when the page is only hidden, while the
   * interval goes on crediting; reopening then credits the whole span from
   * the marker again.  Started at 0, hidden at 1000, ticked at 61000 and
   * shown at 62000 ms, the task holds 122 seconds for 62 seconds of running.
   */
  lemma ReopenAfterHiddenTicks()
    ensures var s := Run(TimerState([Sample(7)], 0, None, None),
                         [Toggle(0, 0), Close(1000), Tick(61000), Reopen(62000)]);
      s.tasks[0].elapsedTime == 122 && s.closeMarker == None
  {
    var s0 := TimerState([Sample(7)], 0, None, None);
    var s1 := Toggled(s0, 0, 0);
    assert s1.tasks[0].isRunning && s1.timer == Some(7);
    var s2 := Closed(s1, 1000);
    assert AnyRunning(s1.tasks);
    assert s2.closeMarker == Some(1000);
    assert IndexOfId(s2.tasks, 7) == 0;
    var s3 := Ticked(s2, 61000);
    assert s3.tasks[0].elapsedTime == 61 && s3.closeMarker == Some(1000);
    assert AnyRunning(s3.tasks);
    var s4 := Reopened(s3, 62000);
    assert s4.tasks[0].elapsedTime == 122;
    var events := [Toggle(0, 0), Close(1000), Tick(61000), Reopen(62000)];
    assert Run(s0, events) == Run(s1, events[1..]);
    assert Run(s1, events[1..]) == Run(s2, events[2..]);
    assert Run(s2, events[2..]) == Run(s3, events[3..]);
  }
}
