/**
 * The application object: the task list and timer fields the component
 * updates in place, and the dialog fields the edit form binds.  Each method
 * is the body of one handler with the current instant passed in, and is
 * proved to make exactly the change its specification function describes:
 * the timer and list handlers follow the matching function of Tracker, the
 * dialog handlers Tracker.DraftOf, TimeEdit.EditFields and TimeEdit.Validate.
 */
module TrackerApp {
  import opened Options
  import opened TaskStore
  import opened JsNumbers
  import opened TimeEdit
  import opened Tracker

  class TimeTracker {
    var tasks: seq<Task>
    /** Instant (ms) of the last credit; 0 stands for the initial null, never read before a start. */
    var lastUpdateTime: int
    /** The id of the task the one-second interval credits; None when no interval is set. */
    var timer: Option<int>
    /** The lastCloseTime entry of storage, as an instant in ms. */
    var closeMarker: Option<int>
    /** The id of the task the dialog edits (editingTask); None for a new task. */
    var editingTask: Option<int>
    var currentTask: Draft
    var timeEdit: TimeFields
    var showTaskDialog: bool

    function State(): TimerState
      reads this
    {
      TimerState(tasks, lastUpdateTime, timer, closeMarker)
    }

    /** The initial data: no task, no interval, no marker, an empty dialog dated today. */
    constructor (today: string)
      ensures State() == TimerState([], 0, None, None)
      ensures editingTask == None && currentTask == Draft("", "", today, "")
      ensures timeEdit == ZeroFields && !showTaskDialog
    {
      tasks := [];
      lastUpdateTime := 0;
      timer := None;
      closeMarker := None;
      editingTask := None;
      currentTask := Draft("", "", today, "");
      timeEdit := ZeroFields;
      showTaskDialog := false;
    }

    /** toggleTimer on the task at position i. */
    method ToggleTimer(i: int, now: int)
      modifies this
      ensures State() == Toggled(old(State()), i, now)
      ensures editingTask == old(editingTask) && currentTask == old(currentTask)
      ensures timeEdit == old(timeEdit) && showTaskDialog == old(showTaskDialog)
    {
      if !(0 <= i < |tasks|) {
        return;
      }
      timer := None;
      if !tasks[i].isRunning {
        var task := tasks[i];
        if task.startHour.None? {
          tasks := tasks[i := task.(startHour := Some(now))];
        }
        assert tasks == old(tasks)[i := task.(startHour := if task.startHour.None? then Some(now) else task.startHour)];
        ghost var marked := tasks;
        var j := 0;
        while j < |tasks|
          invariant 0 <= j <= |tasks| == |marked|
          invariant forall k :: 0 <= k < j ==> tasks[k] == StopIfOther(marked[k], task.id)
          invariant forall k :: j <= k < |tasks| ==> tasks[k] == marked[k]
          invariant timer == None && closeMarker == old(closeMarker) && lastUpdateTime == old(lastUpdateTime)
          invariant editingTask == old(editingTask) && currentTask == old(currentTask)
          invariant timeEdit == old(timeEdit) && showTaskDialog == old(showTaskDialog)
        {
          if tasks[j].isRunning && tasks[j].id != task.id {
            tasks := tasks[j := tasks[j].(isRunning := false, startTime := None)];
          }
          j := j + 1;
        }
        assert tasks == StopOthers(marked, task.id);
        tasks := tasks[i := tasks[i].(isRunning := true, startTime := Some(now))];
        lastUpdateTime := now;
        timer := Some(task.id);
      } else {
        tasks := tasks[i := tasks[i].(isRunning := false, startTime := None)];
      }
      closeMarker := None;
    }

    /** One run of the interval's callback. */
    method Tick(now: int)
      modifies this
      ensures State() == Ticked(old(State()), now)
      ensures editingTask == old(editingTask) && currentTask == old(currentTask)
      ensures timeEdit == old(timeEdit) && showTaskDialog == old(showTaskDialog)
    {
      if timer.None? {
        return;
      }
      var k := IndexOfId(tasks, timer.value);
      if k >= 0 && !tasks[k].isRunning {
        timer := None;
        return;
      }
      var elapsed := FloorDiv(now - lastUpdateTime, 1000);
      if elapsed > 0 {
        if k >= 0 {
          tasks := tasks[k := tasks[k].(elapsedTime := tasks[k].elapsedTime + elapsed)];
        }
        lastUpdateTime := now;
      }
    }

    /** The task part of beforeUnload: look for a running task, and if there is one store the marker. */
    method BeforeUnload(now: int)
      modifies this
      ensures State() == Closed(old(State()), now)
      ensures editingTask == old(editingTask) && currentTask == old(currentTask)
      ensures timeEdit == old(timeEdit) && showTaskDialog == old(showTaskDialog)
    {
      var running := false;
      var j := 0;
      while j < |tasks|
        invariant 0 <= j <= |tasks|
        invariant running <==> exists k :: 0 <= k < j && tasks[k].isRunning
        invariant State() == old(State())
        invariant editingTask == old(editingTask) && currentTask == old(currentTask)
        invariant timeEdit == old(timeEdit) && showTaskDialog == old(showTaskDialog)
      {
        if tasks[j].isRunning {
          running := true;
        }
        j := j + 1;
      }
      if running {
        closeMarker := Some(now);
      }
    }

    /** handleReopen: credit every running task with the time since the marker, then drop the marker. */
    method HandleReopen(now: int)
      modifies this
      ensures State() == Reopened(old(State()), now)
      ensures editingTask == old(editingTask) && currentTask == old(currentTask)
      ensures timeEdit == old(timeEdit) && showTaskDialog == old(showTaskDialog)
    {
      if closeMarker.None? {
        return;
      }
      var close := closeMarker.value;
      var elapsedSeconds := FloorDiv(now - close, 1000);
      if elapsedSeconds > 0 {
        var ts, armed, last := CreditRunningTasks(tasks, elapsedSeconds, now, timer, lastUpdateTime);
        ReopenedUnfolds(State(), now);
        tasks, timer, lastUpdateTime := ts, armed, last;
      }
      closeMarker := None;
    }

    /**
     * editTask: open the dialog on the task at position i.  startText is the
     * browser's local "HH:MM" rendering of the task's start of day.
     */
    method EditTask(i: int, startText: string)
      modifies this
      ensures State() == old(State())
      ensures 0 <= i < |tasks| ==>
        && editingTask == Some(tasks[i].id)
        && currentTask == DraftOf(tasks[i], startText)
        && timeEdit == EditFields(tasks[i].elapsedTime)
        && showTaskDialog
      ensures !(0 <= i < |tasks|) ==>
        editingTask == old(editingTask) && currentTask == old(currentTask)
        && timeEdit == old(timeEdit) && showTaskDialog == old(showTaskDialog)
    {
      if !(0 <= i < |tasks|) {
        return;
      }
      var task := tasks[i];
      editingTask := Some(task.id);
      currentTask := Draft(task.name, task.das, task.date, if task.startHour.Some? then startText else "");
      var h := FloorDiv(task.elapsedTime, 3600);
      var m := FloorDiv(JsRem(task.elapsedTime, 3600), 60);
      var s := JsRem(task.elapsedTime, 60);
      timeEdit := TimeFields(IntToString(h), IntToString(m), IntToString(s));
      showTaskDialog := true;
    }

    /** validateTimeInput: rewrite the three fields clamped to their ranges. */
    method ValidateTimeInput()
      modifies this
      ensures State() == old(State())
      ensures timeEdit == Validate(old(timeEdit))
      ensures ParseInt(timeEdit.hours).Some? && ParseInt(timeEdit.hours).value >= 0
      ensures ParseInt(timeEdit.minutes).Some? && 0 <= ParseInt(timeEdit.minutes).value <= 59
      ensures ParseInt(timeEdit.seconds).Some? && 0 <= ParseInt(timeEdit.seconds).value <= 59
      ensures editingTask == old(editingTask) && currentTask == old(currentTask) && showTaskDialog == old(showTaskDialog)
    {
      var hours := Max(0, ParsedOrZero(timeEdit.hours));
      var minutes := Min(59, Max(0, ParsedOrZero(timeEdit.minutes)));
      var seconds := Min(59, Max(0, ParsedOrZero(timeEdit.seconds)));
      timeEdit := TimeFields(IntToString(hours), IntToString(minutes), IntToString(seconds));
      ValidatedInRange(old(timeEdit));
    }

    /**
     * saveTask: apply the dialog to the edited task (or append a new task
     * created now and dated today), then reset the dialog.  startStamp is the
     * instant the browser derives from the dialog's date and start text.
     */
    method SaveTask(now: int, today: string, startStamp: Option<int>)
      modifies this
      ensures var r := Saved(old(tasks), old(editingTask), old(currentTask), old(timeEdit), now, today, startStamp);
        r.None? ==>
          tasks == old(tasks) && editingTask == old(editingTask) && currentTask == old(currentTask)
          && timeEdit == old(timeEdit) && showTaskDialog == old(showTaskDialog)
      ensures var r := Saved(old(tasks), old(editingTask), old(currentTask), old(timeEdit), now, today, startStamp);
        r.Some? ==>
          tasks == r.value && editingTask == None && currentTask == Draft("", "", today, "")
          && timeEdit == ZeroFields && !showTaskDialog
      ensures lastUpdateTime == old(lastUpdateTime) && timer == old(timer) && closeMarker == old(closeMarker)
    {
      if currentTask.name == "" || currentTask.das == "" {
        return;
      }
      if editingTask.Some? {
        var total := Combine(ParseInt(timeEdit.hours), ParseInt(timeEdit.minutes), ParseInt(timeEdit.seconds));
        var startHour: Option<int> := None;
        if currentTask.startTime != "" {
          if startStamp.None? {
            return;
          }
          startHour := startStamp;
        }
        var k := IndexOfId(tasks, editingTask.value);
        if k != -1 {
          tasks := tasks[k := EditedTask(tasks[k], currentTask, total, startHour)];
        }
      } else {
        tasks := tasks + [NewTask(now, today, currentTask)];
      }
      showTaskDialog := false;
      editingTask := None;
      currentTask := Draft("", "", today, "");
      timeEdit := ZeroFields;
    }

    /** deleteTask: splice the edited task out of the list and reset the dialog. */
    method DeleteTask(today: string)
      modifies this
      ensures old(editingTask).None? ==>
        tasks == old(tasks) && currentTask == old(currentTask) && timeEdit == old(timeEdit)
        && showTaskDialog == old(showTaskDialog) && editingTask == None
      ensures old(editingTask).Some? ==>
        tasks == Deleted(old(tasks), old(editingTask).value) && editingTask == None
        && currentTask == Draft("", "", today, "") && timeEdit == ZeroFields && !showTaskDialog
      ensures lastUpdateTime == old(lastUpdateTime) && timer == old(timer) && closeMarker == old(closeMarker)
    {
      if editingTask.None? {
        return;
      }
      var index := IndexOfId(tasks, editingTask.value);
      if index != -1 {
        tasks := RemoveAt(tasks, index);
      }
      showTaskDialog := false;
      editingTask := None;
      currentTask := Draft("", "", today, "");
      timeEdit := ZeroFields;
    }
  }

  /**
   * The forEach of handleReopen over the running tasks: each is credited the
   * seconds and restarted; the interval and lastUpdateTime follow the last one.
   */
  method CreditRunningTasks(tasks: seq<Task>, seconds: int, now: int, timer: Option<int>, lastUpdate: int)
    returns (ts: seq<Task>, armed: Option<int>, last: int)
    ensures ts == CreditRunning(tasks, seconds, now)
    ensures LastRunning(tasks).Some? ==> armed == LastRunning(tasks) && last == now
    ensures LastRunning(tasks).None? ==> armed == timer && last == lastUpdate
  {
    ts, armed, last := tasks, timer, lastUpdate;
    var j := 0;
    while j < |ts|
      invariant 0 <= j <= |ts| == |tasks|
      invariant forall k :: 0 <= k < j ==> ts[k] == CreditIfRunning(tasks[k], seconds, now)
      invariant forall k :: j <= k < |ts| ==> ts[k] == tasks[k]
      invariant LastRunning(tasks[..j]).Some? ==> armed == LastRunning(tasks[..j]) && last == now
      invariant LastRunning(tasks[..j]).None? ==> armed == timer && last == lastUpdate
    {
      LastRunningNext(tasks, j);
      if ts[j].isRunning {
        ts := ts[j := ts[j].(elapsedTime := ts[j].elapsedTime + seconds, startTime := Some(now))];
        last := now;
        armed := Some(ts[j].id);
      }
      j := j + 1;
    }
    assert tasks[..j] == tasks;
  }
}
