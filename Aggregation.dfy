/**
 * The view filter and the totals the tracker shows: `getFilteredRecords`,
 * `getFilteredTotalTime` and the grand total over all tasks. The cutoff dates that
 * the source reads from the clock are passed in, which makes every function here
 * deterministic.
 */
module Aggregation {
  import opened JsText
  import opened Seqs
  import opened UtcDates
  import opened Entities

  /** Today's date and the dates one week and one month back, each as `YYYY-MM-DD`. */
  datatype Cutoffs = Cutoffs(today: string, weekAgo: string, monthAgo: string)

  predicate KnownView(view: string) { view == "today" || view == "week" || view == "month" }

  /** Whether a record dated `date` is shown in `view`; a view other than the three shows everything. */
  predicate InView(date: string, view: string, c: Cutoffs) {
    if view == "today" then date == c.today
    else if view == "week" then StrLe(c.weekAgo, date)
    else if view == "month" then StrLe(c.monthAgo, date)
    else true
  }

  /** How many of the records are in view. */
  function CountInView(rs: seq<Record>, view: string, c: Cutoffs): nat {
    if rs == [] then 0 else (if InView(rs[0].date, view, c) then 1 else 0) + CountInView(rs[1..], view, c)
  }

  /**
   * `getFilteredRecords(records)`: the records shown in `view`, in their original order.
   * Being a subsequence of exactly that many records, all in view, it keeps every copy
   * of every record in view.
   */
  function FilterRecords(rs: seq<Record>, view: string, c: Cutoffs): (r: seq<Record>)
    ensures IsSubsequence(r, rs)
    ensures forall i :: 0 <= i < |r| ==> InView(r[i].date, view, c)
    ensures forall i :: 0 <= i < |rs| && InView(rs[i].date, view, c) ==> rs[i] in r
    ensures |r| == CountInView(rs, view, c)
  {
    if rs == [] then []
    else
      var rest := FilterRecords(rs[1..], view, c);
      assert forall i :: 1 <= i < |rs| ==> rs[i] == rs[1..][i - 1];
      if InView(rs[0].date, view, c) then
        assert ([rs[0]] + rest)[1..] == rest;
        [rs[0]] + rest
      else rest
  }

  /** Any view other than today, week and month leaves the records as they are. */
  lemma {:induction false} FilterUnknownView(rs: seq<Record>, view: string, c: Cutoffs)
    requires !KnownView(view)
    ensures FilterRecords(rs, view, c) == rs
  {
    if rs != [] {
      FilterUnknownView(rs[1..], view, c);
      assert rs == [rs[0]] + rs[1..];
    }
  }

  /** Filtering what is already filtered changes nothing. */
  lemma {:induction false} FilterIdempotent(rs: seq<Record>, view: string, c: Cutoffs)
    ensures FilterRecords(FilterRecords(rs, view, c), view, c) == FilterRecords(rs, view, c)
  {
    if rs != [] {
      FilterIdempotent(rs[1..], view, c);
      var rest := FilterRecords(rs[1..], view, c);
      if InView(rs[0].date, view, c) {
        assert ([rs[0]] + rest)[1..] == rest;
      }
    }
  }

  /**
   * Records dated 2024-06-01, 2024-06-05 and 2024-06-10, seen on 2024-06-10: the week
   * view (cutoff 2024-06-03) keeps the last two, the today view the last one.
   */
  lemma FilterExample(r0: Record, r1: Record, r2: Record, c: Cutoffs)
    requires r0.date == "2024-06-01" && r1.date == "2024-06-05" && r2.date == "2024-06-10"
    requires c.today == "2024-06-10" && c.weekAgo == "2024-06-03"
    ensures FilterRecords([r0, r1, r2], "week", c) == [r1, r2]
    ensures FilterRecords([r0, r1, r2], "today", c) == [r2]
  {
    assert !InView(r0.date, "week", c) && InView(r1.date, "week", c) && InView(r2.date, "week", c) by {
      ExampleDateOrder();
    }
    assert [r0, r1, r2][1..] == [r1, r2] && [r1, r2][1..] == [r2] && [r2][1..] == [];
    assert FilterRecords([r2], "week", c) == [r2];
    assert FilterRecords([r1, r2], "week", c) == [r1, r2];
    assert FilterRecords([r2], "today", c) == [r2];
    assert FilterRecords([r1, r2], "today", c) == [r2];
  }

  lemma ExampleDateOrder()
    ensures !StrLe("2024-06-03", "2024-06-01") && StrLe("2024-06-03", "2024-06-05") && StrLe("2024-06-03", "2024-06-10")
  {
    assert !StrLe("2024-06-03", "2024-06-01") by {
      assert "2024-06-03" == "2024-06-0" + "3" && "2024-06-01" == "2024-06-0" + "1";
      StrLeConcat("2024-06-0", "3", "2024-06-0", "1");
    }
    assert StrLe("2024-06-03", "2024-06-05") by {
      assert "2024-06-03" == "2024-06-0" + "3" && "2024-06-05" == "2024-06-0" + "5";
      StrLeConcat("2024-06-0", "3", "2024-06-0", "5");
    }
    assert StrLe("2024-06-03", "2024-06-10") by {
      assert "2024-06-03" == "2024-06-" + "03" && "2024-06-10" == "2024-06-" + "10";
      StrLeConcat("2024-06-", "03", "2024-06-", "10");
    }
  }

  /** The filter works record by record, so it splits over concatenation. */
  lemma {:induction false} FilterAppend(a: seq<Record>, b: seq<Record>, view: string, c: Cutoffs)
    ensures FilterRecords(a + b, view, c) == FilterRecords(a, view, c) + FilterRecords(b, view, c)
  {
    if a == [] {
      assert a + b == b;
    } else {
      assert (a + b)[0] == a[0] && (a + b)[1..] == a[1..] + b;
      FilterAppend(a[1..], b, view, c);
    }
  }

  /**
   * In the week view, with the cutoff written as `toISOString` writes dates, a
   * well-formed record is shown exactly when it started on or after the cutoff's
   * calendar day (UTC), for dates of years 0..9999.
   */
  lemma WeekViewIsCalendarOrder(r: Record, cutoff: CivilDate, c: Cutoffs)
    requires WellFormedRecord(r) && 0 <= UtcDate(r.startTime).year <= 9999
    requires 0 <= cutoff.year <= 9999 && 1 <= cutoff.month <= 12 && 1 <= cutoff.day <= 31
    requires c.weekAgo == DateString(cutoff)
    ensures InView(r.date, "week", c) <==> CivilLe(cutoff, UtcDate(r.startTime))
  {
    DateStringOrder(cutoff, UtcDate(r.startTime));
  }

  /** The same for the month view and its cutoff. */
  lemma MonthViewIsCalendarOrder(r: Record, cutoff: CivilDate, c: Cutoffs)
    requires WellFormedRecord(r) && 0 <= UtcDate(r.startTime).year <= 9999
    requires 0 <= cutoff.year <= 9999 && 1 <= cutoff.month <= 12 && 1 <= cutoff.day <= 31
    requires c.monthAgo == DateString(cutoff)
    ensures InView(r.date, "month", c) <==> CivilLe(cutoff, UtcDate(r.startTime))
  {
    DateStringOrder(cutoff, UtcDate(r.startTime));
  }

  /** `getFilteredTotalTime(task)`: the durations of the task's records in view, summed by `reduce` from 0. */
  function FilteredTotalTime(t: Task, view: string, c: Cutoffs): int {
    FoldDurations(0, FilterRecords(t.records, view, c))
  }

  /** The filtered total is the sum of the durations of the filtered records; 0 when there are none. */
  lemma FilteredTotalIsSum(t: Task, view: string, c: Cutoffs)
    ensures FilteredTotalTime(t, view, c) == SumDurations(FilterRecords(t.records, view, c))
    ensures t.records == [] ==> FilteredTotalTime(t, view, c) == 0
  {
    FoldDurationsIsSum(0, FilterRecords(t.records, view, c));
  }

  /** Dropping records of non-negative duration cannot increase the sum. */
  lemma {:induction false} FilteredSumBounds(rs: seq<Record>, view: string, c: Cutoffs)
    requires NonNegativeDurations(rs)
    ensures 0 <= SumDurations(FilterRecords(rs, view, c)) <= SumDurations(rs)
  {
    if rs != [] {
      FilteredSumBounds(rs[1..], view, c);
    }
  }

  /** With no negative durations, a task's filtered total lies between 0 and its `totalTime`. */
  lemma FilteredTotalAtMostTotal(t: Task, view: string, c: Cutoffs)
    requires ConsistentTask(t) && NonNegativeDurations(t.records)
    ensures 0 <= FilteredTotalTime(t, view, c) <= t.totalTime
  {
    FilteredTotalIsSum(t, view, c);
    FilteredSumBounds(t.records, view, c);
  }

  /** Outside the three views the filtered total is the task's `totalTime`. */
  lemma FilteredTotalUnknownView(t: Task, view: string, c: Cutoffs)
    requires ConsistentTask(t) && !KnownView(view)
    ensures FilteredTotalTime(t, view, c) == t.totalTime
  {
    FilteredTotalIsSum(t, view, c);
    FilterUnknownView(t.records, view, c);
  }

  /** Committing a record raises the filtered total by its duration exactly when the record is in view. */
  lemma FilteredTotalAfterAddRecord(t: Task, r: Record, view: string, c: Cutoffs)
    ensures FilteredTotalTime(AddRecord(t, r), view, c)
         == FilteredTotalTime(t, view, c) + (if InView(r.date, view, c) then r.duration else 0)
  {
    FilteredTotalIsSum(t, view, c);
    FilteredTotalIsSum(AddRecord(t, r), view, c);
    FilterAppend(t.records, [r], view, c);
    SumDurationsAppend(FilterRecords(t.records, view, c), FilterRecords([r], view, c));
    assert FilterRecords([r], view, c) == if InView(r.date, view, c) then [r] else [];
  }

  // ---------------------------------------------------------------------------
  // Grand total

  /** `tasks.reduce((total, task) => total + getFilteredTotalTime(task), acc)`. */
  function GrandTotalFrom(acc: int, tasks: seq<Task>, view: string, c: Cutoffs): int
    decreases |tasks|
  {
    if tasks == [] then acc else GrandTotalFrom(acc + FilteredTotalTime(tasks[0], view, c), tasks[1..], view, c)
  }

  /** The grand total the summary shows, a reduce from 0. */
  function GrandTotal(tasks: seq<Task>, view: string, c: Cutoffs): int {
    GrandTotalFrom(0, tasks, view, c)
  }

  /** The per-task filtered totals added up, the reference definition. */
  function SumOfTaskTotals(tasks: seq<Task>, view: string, c: Cutoffs): int {
    if tasks == [] then 0 else FilteredTotalTime(tasks[0], view, c) + SumOfTaskTotals(tasks[1..], view, c)
  }

  /** Every record of every task, task by task. */
  function AllRecords(tasks: seq<Task>): seq<Record> {
    if tasks == [] then [] else tasks[0].records + AllRecords(tasks[1..])
  }

  lemma {:induction false} GrandTotalFromIsSum(acc: int, tasks: seq<Task>, view: string, c: Cutoffs)
    ensures GrandTotalFrom(acc, tasks, view, c) == acc + SumOfTaskTotals(tasks, view, c)
    decreases |tasks|
  {
    if tasks != [] {
      GrandTotalFromIsSum(acc + FilteredTotalTime(tasks[0], view, c), tasks[1..], view, c);
    }
  }

  /** The grand total is the sum of the per-task filtered totals. */
  lemma GrandTotalIsSumOfTaskTotals(tasks: seq<Task>, view: string, c: Cutoffs)
    ensures GrandTotal(tasks, view, c) == SumOfTaskTotals(tasks, view, c)
  {
    GrandTotalFromIsSum(0, tasks, view, c);
  }

  /** Equivalently, it is the total of the view's filter applied to all records at once. */
  lemma {:induction false} GrandTotalFiltersAllRecords(tasks: seq<Task>, view: string, c: Cutoffs)
    ensures GrandTotal(tasks, view, c) == SumDurations(FilterRecords(AllRecords(tasks), view, c))
  {
    GrandTotalIsSumOfTaskTotals(tasks, view, c);
    SumOfTaskTotalsFilters(tasks, view, c);
  }

  lemma {:induction false} SumOfTaskTotalsFilters(tasks: seq<Task>, view: string, c: Cutoffs)
    ensures SumOfTaskTotals(tasks, view, c) == SumDurations(FilterRecords(AllRecords(tasks), view, c))
  {
    if tasks != [] {
      SumOfTaskTotalsFilters(tasks[1..], view, c);
      FilteredTotalIsSum(tasks[0], view, c);
      FilterAppend(tasks[0].records, AllRecords(tasks[1..]), view, c);
      SumDurationsAppend(FilterRecords(tasks[0].records, view, c), FilterRecords(AllRecords(tasks[1..]), view, c));
    }
  }

  /** Outside the three views, and with consistent tasks, the grand total is the sum of the `totalTime` fields. */
  lemma {:induction false} GrandTotalUnknownView(tasks: seq<Task>, view: string, c: Cutoffs)
    requires !KnownView(view)
    requires forall i :: 0 <= i < |tasks| ==> ConsistentTask(tasks[i])
    ensures GrandTotal(tasks, view, c) == SumOfTotalTimes(tasks)
  {
    GrandTotalIsSumOfTaskTotals(tasks, view, c);
    UnknownViewTaskTotals(tasks, view, c);
  }

  function SumOfTotalTimes(tasks: seq<Task>): int {
    if tasks == [] then 0 else tasks[0].totalTime + SumOfTotalTimes(tasks[1..])
  }

  lemma {:induction false} UnknownViewTaskTotals(tasks: seq<Task>, view: string, c: Cutoffs)
    requires !KnownView(view)
    requires forall i :: 0 <= i < |tasks| ==> ConsistentTask(tasks[i])
    ensures SumOfTaskTotals(tasks, view, c) == SumOfTotalTimes(tasks)
  {
    if tasks != [] {
      FilteredTotalUnknownView(tasks[0], view, c);
      UnknownViewTaskTotals(tasks[1..], view, c);
    }
  }
}
