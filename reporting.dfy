/**
 * The statistics derived from the task list: the period filter (the cases
 * that compare date strings), per-category totals, the grand total, the
 * number of distinct days, the two overtime figures and the three longest
 * tasks.
 */
module Reporting {
  import opened Options
  import opened TaskStore
  import opened DateStrings
  import StableSort

  /**
   * The periods whose filter only compares date strings.  All also stands
   * for any period name the filter does not know (its default case).
   */
  datatype Period = Today(today: string) | Custom(startDate: string, endDate: string) | All

  predicate InPeriod(t: Task, p: Period) {
    match p
    case Today(d) => t.date == d
    case Custom(s, e) => StrLe(s, t.date) && StrLe(t.date, e)
    case All => true
  }

  /**
   * filteredTasks: the tasks of the period, in list order; each task of the
   * period occurs as often as in the list.
   */
  function FilterTasks(tasks: seq<Task>, p: Period): (r: seq<Task>)
    ensures |r| <= |tasks|
    ensures forall t :: multiset(r)[t] == if InPeriod(t, p) then multiset(tasks)[t] else 0
    ensures forall t :: t in r <==> t in tasks && InPeriod(t, p)
  {
    if tasks == [] then []
    else
      var pre, t := tasks[..|tasks| - 1], tasks[|tasks| - 1];
      assert tasks == pre + [t];
      FilterTasks(pre, p) + (if InPeriod(t, p) then [t] else [])
  }

  /** Filtering keeps list order: a task appended to the list is kept after the earlier ones, or dropped. */
  lemma FilterKeepsOrder(tasks: seq<Task>, t: Task, p: Period)
    ensures FilterTasks(tasks + [t], p) == FilterTasks(tasks, p) + (if InPeriod(t, p) then [t] else [])
  {
    assert (tasks + [t])[..|tasks|] == tasks;
  }

  /** The custom range keeps both of its end dates, and only dates between them. */
  lemma CustomRangeInclusive(tasks: seq<Task>, startDate: string, endDate: string, t: Task)
    requires t in tasks && StrLe(startDate, endDate)
    ensures t.date == startDate ==> t in FilterTasks(tasks, Custom(startDate, endDate))
    ensures t.date == endDate ==> t in FilterTasks(tasks, Custom(startDate, endDate))
  {
    StrLeReflexive(startDate);
    StrLeReflexive(endDate);
  }

  /** On well-formed dates the custom range is the calendar interval between its ends. */
  lemma CustomRangeIsCalendarRange(tasks: seq<Task>, startDate: string, endDate: string, t: Task)
    requires IsIsoDate(startDate) && IsIsoDate(endDate) && IsIsoDate(t.date)
    ensures t in FilterTasks(tasks, Custom(startDate, endDate))
        <==> t in tasks && DateKey(startDate) <= DateKey(t.date) <= DateKey(endDate)
  {
    IsoDateOrder(startDate, t.date);
    IsoDateOrder(t.date, endDate);
  }

  /** Seconds recorded over a list of tasks. */
  function TimeOf(tasks: seq<Task>): int {
    if tasks == [] then 0 else TimeOf(tasks[..|tasks| - 1]) + tasks[|tasks| - 1].elapsedTime
  }

  /** Seconds recorded over the tasks of one category. */
  function TimeIn(tasks: seq<Task>, das: string): int {
    if tasks == [] then 0
    else
      var t := tasks[|tasks| - 1];
      TimeIn(tasks[..|tasks| - 1], das) + (if t.das == das then t.elapsedTime else 0)
  }

  function Categories(tasks: seq<Task>): set<string> {
    set t | t in tasks :: t.das
  }

  lemma {:induction false} TimeInAbsent(tasks: seq<Task>, das: string)
    requires das !in Categories(tasks)
    ensures TimeIn(tasks, das) == 0
  {
    if tasks != [] {
      var pre := tasks[..|tasks| - 1];
      assert forall t :: t in pre ==> t in tasks;
      assert tasks[|tasks| - 1] in tasks;
      TimeInAbsent(pre, das);
    }
  }

  /** The per-category dictionary, built task by task (see CategoryTotalsMeaning). */
  function CategoryTotals(tasks: seq<Task>): map<string, int> {
    if tasks == [] then map[]
    else
      var m := CategoryTotals(tasks[..|tasks| - 1]);
      var t := tasks[|tasks| - 1];
      m[t.das := EntryOr0(m, t.das) + t.elapsedTime]
  }

  /**
   * The dictionary has one key per category present, holding the time of
   * that category's tasks.
   */
  lemma {:induction false} CategoryTotalsMeaning(tasks: seq<Task>)
    ensures CategoryTotals(tasks).Keys == Categories(tasks)
    ensures forall das :: das in CategoryTotals(tasks) ==> CategoryTotals(tasks)[das] == TimeIn(tasks, das)
  {
    if tasks != [] {
      var pre, t := tasks[..|tasks| - 1], tasks[|tasks| - 1];
      CategoryTotalsMeaning(pre);
      var m := CategoryTotals(pre);
      assert Categories(tasks) == Categories(pre) + {t.das} by {
        assert forall x :: x in tasks <==> x in pre || x == t;
      }
      if t.das !in m {
        TimeInAbsent(pre, t.das);
      }
    }
  }

  /** The entry a dictionary holds for a key, 0 when it has none. */
  function EntryOr0(m: map<string, int>, das: string): int {
    if das in m then m[das] else 0
  }

  lemma CategoryTotalsSnoc(tasks: seq<Task>, i: nat)
    requires i < |tasks|
    ensures CategoryTotals(tasks[..i + 1])
         == CategoryTotals(tasks[..i])[tasks[i].das := EntryOr0(CategoryTotals(tasks[..i]), tasks[i].das) + tasks[i].elapsedTime]
  {
    assert tasks[..i + 1][..i] == tasks[..i];
  }

  /**
   * The accumulation loop behind todayDasSummary and filteredDasStats: a
   * missing (or zero) entry starts at 0, then the task's time is added.
   */
  method DasSummary(tasks: seq<Task>) returns (summary: map<string, int>)
    ensures summary == CategoryTotals(tasks)
  {
    summary := map[];
    var i := 0;
    while i < |tasks|
      invariant 0 <= i <= |tasks|
      invariant summary == CategoryTotals(tasks[..i])
    {
      var t := tasks[i];
      CategoryTotalsSnoc(tasks, i);
      ghost var before := summary;
      if t.das !in summary || summary[t.das] == 0 {
        summary := summary[t.das := 0];
      }
      assert summary[t.das] == EntryOr0(before, t.das);
      summary := summary[t.das := summary[t.das] + t.elapsedTime];
      assert summary == before[t.das := EntryOr0(before, t.das) + t.elapsedTime];
      i := i + 1;
    }
    assert tasks[..|tasks|] == tasks;
  }

  /** Some key of a non-empty dictionary. */
  ghost function AnyKey(m: map<string, int>): (k: string)
    requires |m| > 0
    ensures k in m
  {
    assert exists k :: k in m.Keys by { assert m.Keys != {}; }
    var k :| k in m; k
  }

  /** The sum of a dictionary's values (Object.values(...).reduce((a, b) => a + b, 0)). */
  ghost function SumValues(m: map<string, int>): int
    decreases |m|
  {
    if |m| == 0 then 0
    else
      var k := AnyKey(m);
      assert |m - {k}| < |m| by { assert (m - {k}).Keys == m.Keys - {k}; }
      m[k] + SumValues(m - {k})
  }

  /** The sum does not depend on which key is taken out first. */
  lemma {:induction false} SumValuesRemove(m: map<string, int>, k: string)
    requires k in m
    ensures SumValues(m) == m[k] + SumValues(m - {k})
    decreases |m|
  {
    var j := AnyKey(m);
    if j != k {
      var mj, mk := m - {j}, m - {k};
      assert mj.Keys == m.Keys - {j} && mk.Keys == m.Keys - {k};
      assert |mj| < |m| && |mk| < |m|;
      SumValuesRemove(mj, k);
      SumValuesRemove(mk, j);
      assert mj - {k} == mk - {j};
    }
  }

  lemma SumValuesUpdate(m: map<string, int>, k: string, v: int)
    ensures SumValues(m[k := v]) == SumValues(m - {k}) + v
    ensures k in m ==> SumValues(m) == SumValues(m - {k}) + m[k]
  {
    SumValuesRemove(m[k := v], k);
    assert m[k := v] - {k} == m - {k};
    if k in m {
      SumValuesRemove(m, k);
    }
  }

  /** The grand total of the category dictionary is the time of all the tasks it was built from. */
  lemma {:induction false} SummaryTotal(tasks: seq<Task>)
    ensures SumValues(CategoryTotals(tasks)) == TimeOf(tasks)
  {
    if tasks != [] {
      var pre, t := tasks[..|tasks| - 1], tasks[|tasks| - 1];
      SummaryTotal(pre);
      SumValuesAdd(CategoryTotals(pre), t.das, t.elapsedTime);
    }
  }

  /** Adding to one entry (created at 0 when missing) adds the same amount to the sum. */
  lemma SumValuesAdd(m: map<string, int>, k: string, e: int)
    ensures SumValues(m[k := EntryOr0(m, k) + e]) == SumValues(m) + e
  {
    SumValuesUpdate(m, k, EntryOr0(m, k) + e);
    if k !in m {
      assert m - {k} == m;
    }
  }

  /** todayTasks: the tasks dated today (today's "YYYY-MM-DD" is a parameter). */
  function TodayTasks(tasks: seq<Task>, today: string): (r: seq<Task>)
    ensures forall t :: t in r <==> t in tasks && t.date == today
  {
    FilterTasks(tasks, Today(today))
  }

  /** todayTotalTime: the sum of today's category totals, which is the time of today's tasks. */
  ghost function TodayTotalTime(tasks: seq<Task>, today: string): (r: int)
    ensures r == TimeOf(TodayTasks(tasks, today))
  {
    SummaryTotal(TodayTasks(tasks, today));
    SumValues(CategoryTotals(TodayTasks(tasks, today)))
  }

  /**
   * overtimeHours: today's time beyond the expected daily seconds, never
   * negative.  dailySeconds is settings.dailyWorkHours * 3600.
   */
  ghost function OvertimeHours(tasks: seq<Task>, today: string, dailySeconds: int): (r: int)
    ensures r >= 0
    ensures r >= TimeOf(TodayTasks(tasks, today)) - dailySeconds
    ensures r == 0 || r == TimeOf(TodayTasks(tasks, today)) - dailySeconds
  {
    var total := TodayTotalTime(tasks, today);
    if 0 < total - dailySeconds then total - dailySeconds else 0
  }

  /** The distinct dates of a list of tasks. */
  function Dates(tasks: seq<Task>): set<string> {
    set t | t in tasks :: t.date
  }

  /** filteredWorkDays: the number of distinct dates among the filtered tasks. */
  function WorkDays(tasks: seq<Task>): nat {
    |Dates(tasks)|
  }

  /** There are no more work days than tasks, and at least one as soon as there is a task. */
  lemma {:induction false} WorkDaysBounds(tasks: seq<Task>)
    ensures WorkDays(tasks) <= |tasks|
    ensures tasks != [] ==> WorkDays(tasks) >= 1
  {
    if tasks != [] {
      var pre, t := tasks[..|tasks| - 1], tasks[|tasks| - 1];
      WorkDaysBounds(pre);
      assert tasks == pre + [t];
      DatesSnoc(pre, t);
    }
  }

  /** Adding a task adds its date to the distinct dates. */
  lemma DatesSnoc(pre: seq<Task>, t: Task)
    ensures Dates(pre + [t]) == Dates(pre) + {t.date}
  {
    assert forall x :: x in pre + [t] <==> x in pre || x == t;
  }

  /** filteredTotalTime: the sum of the period's category totals, which is the time of its tasks. */
  ghost function FilteredTotalTime(tasks: seq<Task>, p: Period): (r: int)
    ensures r == TimeOf(FilterTasks(tasks, p))
  {
    SummaryTotal(FilterTasks(tasks, p));
    SumValues(CategoryTotals(FilterTasks(tasks, p)))
  }

  /**
   * filteredOvertimeHours: the period's time minus the expected seconds of
   * each distinct day worked (dailySeconds, settings.dailyWorkHours * 3600);
   * unlike overtimeHours it is not clamped at zero.
   */
  ghost function FilteredOvertime(tasks: seq<Task>, p: Period, dailySeconds: int): (r: int)
    ensures r == TimeOf(FilterTasks(tasks, p)) - WorkDays(FilterTasks(tasks, p)) * dailySeconds
  {
    FilteredTotalTime(tasks, p) - WorkDays(FilterTasks(tasks, p)) * dailySeconds
  }

  /** A short day gives a negative period overtime while the daily overtime stays at zero. */
  lemma ShortDayOvertime()
    ensures var tasks := [Task(1, "Rapport", "Support", "2024-03-04", 3600, 3600, false, None, None)];
      FilteredOvertime(tasks, All, 28800) == 3600 - 28800
      && OvertimeHours(tasks, "2024-03-04", 28800) == 0
  {
    var tasks := [Task(1, "Rapport", "Support", "2024-03-04", 3600, 3600, false, None, None)];
    assert FilterTasks(tasks, All) == tasks by {
      assert tasks[..0] == [];
    }
    assert TodayTasks(tasks, "2024-03-04") == tasks;
    assert Dates(tasks) == {"2024-03-04"};
    assert TimeOf(tasks) == 3600 by { assert tasks[..0] == []; }
  }

  /** The order of topTasks: longer elapsed time first (a smaller key sorts first). */
  function LongestFirst(t: Task): int {
    -t.elapsedTime
  }

  /**
   * topTasks: a copy of the filtered tasks sorted by decreasing elapsed time
   * (stably) and cut to its first three.
   */
  function TopTasks(filtered: seq<Task>): seq<Task> {
    StableSort.SortedTop(filtered, LongestFirst, 3)
  }

  /** The filtered tasks topTasks does not show, in sorted order. */
  function LeftOut(filtered: seq<Task>): seq<Task> {
    StableSort.SortedRest(filtered, LongestFirst, 3)
  }

  /**
   * topTasks keeps min(3, n) tasks, longest first; together with the ones it
   * leaves out they are exactly the filtered tasks, and every task left out
   * is no longer than the last one kept.
   */
  lemma TopTasksShape(filtered: seq<Task>)
    ensures |TopTasks(filtered)| == if |filtered| < 3 then |filtered| else 3
    ensures multiset(TopTasks(filtered)) + multiset(LeftOut(filtered)) == multiset(filtered)
    ensures forall i, j :: 0 <= i < j < |TopTasks(filtered)| ==> TopTasks(filtered)[i].elapsedTime >= TopTasks(filtered)[j].elapsedTime
    ensures TopTasks(filtered) != [] ==>
      forall i :: 0 <= i < |LeftOut(filtered)| ==> LeftOut(filtered)[i].elapsedTime <= TopTasks(filtered)[|TopTasks(filtered)| - 1].elapsedTime
  {
    var r, rest := TopTasks(filtered), LeftOut(filtered);
    StableSort.SortedTopLeftOut(filtered, LongestFirst, 3);
    forall i, j | 0 <= i < j < |r| ensures r[i].elapsedTime >= r[j].elapsedTime {
      assert LongestFirst(r[i]) <= LongestFirst(r[j]);
    }
    if r != [] {
      forall i | 0 <= i < |rest| ensures rest[i].elapsedTime <= r[|r| - 1].elapsedTime {
        assert LongestFirst(r[|r| - 1]) <= LongestFirst(rest[i]);
      }
    }
  }

  /**
   * Ties keep list order: for every sort key k, that is for the tasks whose
   * elapsed time is -k, the filtered tasks with that key are the kept ones
   * followed by the left-out ones, each part in list order.
   */
  lemma TopTasksKeepTies(filtered: seq<Task>, k: int)
    ensures StableSort.WithKey(filtered, LongestFirst, k)
         == StableSort.WithKey(TopTasks(filtered), LongestFirst, k)
          + StableSort.WithKey(LeftOut(filtered), LongestFirst, k)
  {
    StableSort.SortedTopTies(filtered, LongestFirst, 3, k);
  }

  /** The category totals of three sample tasks: A holds 5400 seconds, B 900, 6300 in all. */
  lemma ThreeTaskSummary()
    ensures var tasks := [
        Task(1, "Meeting", "A", "2024-03-04", 3600, 3600, false, None, None),
        Task(2, "Review", "A", "2024-03-04", 1800, 1800, false, None, None),
        Task(3, "Call", "B", "2024-03-04", 900, 900, false, None, None)];
      CategoryTotals(tasks) == map["A" := 5400, "B" := 900]
      && SumValues(CategoryTotals(tasks)) == 6300
  {
    var t1 := Task(1, "Meeting", "A", "2024-03-04", 3600, 3600, false, None, None);
    var t2 := Task(2, "Review", "A", "2024-03-04", 1800, 1800, false, None, None);
    var t3 := Task(3, "Call", "B", "2024-03-04", 900, 900, false, None, None);
    var tasks := [t1, t2, t3];
    assert [t1, t2][..1] == [t1] && [t1][..0] == [] && tasks[..2] == [t1, t2];
    assert CategoryTotals([t1]) == map["A" := 3600];
    assert TimeOf([t1]) == 3600;
    assert CategoryTotals([t1, t2]) == map["A" := 5400];
    assert TimeOf([t1, t2]) == 5400;
    assert CategoryTotals(tasks) == map["A" := 5400, "B" := 900];
    assert TimeOf(tasks) == 6300;
    SummaryTotal(tasks);
  }
}
