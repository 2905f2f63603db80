/**
 * The tracking engine of the `TimeTracker` component: the task list and the one
 * session (`isTracking`, `activeTask`, `startTime`), with the handlers that change
 * them. Each handler's React state updates are applied in order; the clock reading
 * and the ids the source takes from `Date.now()` are parameters.
 */
module Tracker {
  import opened Optional
  import opened Seqs
  import opened JsText
  import opened UtcDates
  import opened Entities

  /** `tasks.find(t => t.id === id)`: the first task with the id, if there is one. */
  function FindTask(tasks: seq<Task>, id: TaskId): (r: Option<Task>)
    ensures r.None? <==> forall i :: 0 <= i < |tasks| ==> tasks[i].id != id
    ensures r.Some? ==> r.value.id == id && r.value in tasks
    ensures forall i :: 0 <= i < |tasks| && tasks[i].id == id && NoneBefore(tasks, id, i) ==> r == Some(tasks[i])
  {
    if tasks == [] then None
    else if tasks[0].id == id then Some(tasks[0])
    else
      var r := FindTask(tasks[1..], id);
      assert forall i :: 1 <= i < |tasks| && NoneBefore(tasks, id, i) ==> NoneBefore(tasks[1..], id, i - 1);
      r
  }

  /** No task before position `i` has the id. */
  predicate NoneBefore(tasks: seq<Task>, id: TaskId, i: int)
    requires 0 <= i <= |tasks|
  {
    forall j :: 0 <= j < i ==> tasks[j].id != id
  }

  /**
   * The `tasks.map` of `stopTracking`: every task with the id gets the record at the
   * end of its records and the record's duration added to its total; every other
   * task, and the order of the list, stay as they were.
   */
  function CommitSession(tasks: seq<Task>, id: TaskId, rec: Record): (r: seq<Task>)
    ensures |r| == |tasks|
    ensures forall i :: 0 <= i < |tasks| ==> r[i] == if tasks[i].id == id then AddRecord(tasks[i], rec) else tasks[i]
  {
    if tasks == [] then []
    else
      var rest := CommitSession(tasks[1..], id, rec);
      var head := if tasks[0].id == id then AddRecord(tasks[0], rec) else tasks[0];
      assert forall i :: 1 <= i < |tasks| ==> ([head] + rest)[i] == rest[i - 1] && tasks[i] == tasks[1..][i - 1];
      [head] + rest
  }

  /**
   * The `tasks.filter(task => task.id !== id)` of `deleteTask`: the tasks without the id,
   * in their order. Being a subsequence of exactly that many tasks, none with the id,
   * it keeps every copy of every other task.
   */
  function RemoveTask(tasks: seq<Task>, id: TaskId): (r: seq<Task>)
    ensures IsSubsequence(r, tasks)
    ensures forall i :: 0 <= i < |r| ==> r[i].id != id
    ensures forall i :: 0 <= i < |tasks| && tasks[i].id != id ==> tasks[i] in r
    ensures |r| == |tasks| - CountWithId(tasks, id)
  {
    if tasks == [] then []
    else
      var rest := RemoveTask(tasks[1..], id);
      assert forall i :: 1 <= i < |tasks| ==> tasks[i] == tasks[1..][i - 1];
      if tasks[0].id != id then
        assert ([tasks[0]] + rest)[1..] == rest;
        [tasks[0]] + rest
      else rest
  }

  predicate AllConsistent(tasks: seq<Task>) {
    forall i :: 0 <= i < |tasks| ==> ConsistentTask(tasks[i])
  }

  /** Committing a well-formed record keeps every task's `totalTime` equal to the sum of its durations. */
  lemma CommitPreservesConsistency(tasks: seq<Task>, id: TaskId, rec: Record)
    requires AllConsistent(tasks) && WellFormedRecord(rec)
    ensures AllConsistent(CommitSession(tasks, id, rec))
  {
    var r := CommitSession(tasks, id, rec);
    forall i | 0 <= i < |r| ensures ConsistentTask(r[i]) {
      if tasks[i].id == id {
        AddRecordConsistent(tasks[i], rec);
      }
    }
  }

  /** Removing tasks keeps the others consistent. */
  lemma RemovePreservesConsistency(tasks: seq<Task>, id: TaskId)
    requires AllConsistent(tasks)
    ensures AllConsistent(RemoveTask(tasks, id))
  {
    var r := RemoveTask(tasks, id);
    SubsequenceMembers(r, tasks);
    forall i | 0 <= i < |r| ensures ConsistentTask(r[i]) {
      assert r[i] in tasks;
    }
  }

  /** Deleting an id that no task has leaves the list as it is. */
  lemma {:induction false} RemoveAbsent(tasks: seq<Task>, id: TaskId)
    requires forall i :: 0 <= i < |tasks| ==> tasks[i].id != id
    ensures RemoveTask(tasks, id) == tasks
  {
    if tasks != [] {
      RemoveAbsent(tasks[1..], id);
      assert tasks == [tasks[0]] + tasks[1..];
    }
  }

  /** A record committed to the tasks that are then deleted leaves no trace: deleting after the commit is deleting alone. */
  lemma {:induction false} RemoveAfterCommit(tasks: seq<Task>, id: TaskId, rec: Record)
    ensures RemoveTask(CommitSession(tasks, id, rec), id) == RemoveTask(tasks, id)
  {
    if tasks != [] {
      var c := CommitSession(tasks, id, rec);
      assert c[1..] == CommitSession(tasks[1..], id, rec);
      RemoveAfterCommit(tasks[1..], id, rec);
    }
  }

  /** How many tasks have the id. */
  function CountWithId(tasks: seq<Task>, id: TaskId): nat {
    if tasks == [] then 0 else (if tasks[0].id == id then 1 else 0) + CountWithId(tasks[1..], id)
  }

  /** How many records all tasks hold together. */
  function RecordCount(tasks: seq<Task>): nat {
    if tasks == [] then 0 else |tasks[0].records| + RecordCount(tasks[1..])
  }

  /** A commit adds exactly one record per task with the id, and none elsewhere. */
  lemma {:induction false} CommitAddsOneRecordPerMatch(tasks: seq<Task>, id: TaskId, rec: Record)
    ensures RecordCount(CommitSession(tasks, id, rec)) == RecordCount(tasks) + CountWithId(tasks, id)
  {
    if tasks != [] {
      var c := CommitSession(tasks, id, rec);
      assert c[1..] == CommitSession(tasks[1..], id, rec);
      CommitAddsOneRecordPerMatch(tasks[1..], id, rec);
    }
  }

  /** After a commit, the first task with the id is the one found before, with the record added. */
  lemma {:induction false} FindAfterCommit(tasks: seq<Task>, id: TaskId, rec: Record)
    ensures FindTask(CommitSession(tasks, id, rec), id)
         == match FindTask(tasks, id) { case None => None case Some(t) => Some(AddRecord(t, rec)) }
  {
    if tasks != [] {
      var c := CommitSession(tasks, id, rec);
      assert c[1..] == CommitSession(tasks[1..], id, rec);
      FindAfterCommit(tasks[1..], id, rec);
    }
  }

  class TimeTracker {
    var tasks: seq<Task>
    var activeTask: Option<TaskId>
    var isTracking: bool
    var startTime: Option<int>

    /**
     * The session is either idle (no active task, no start time) or tracking (both
     * set, the start a valid time value), and every task is consistent.
     */
    ghost predicate Valid()
      reads this
    {
      (isTracking <==> activeTask.Some?)
      && (isTracking <==> startTime.Some?)
      && (startTime.Some? ==> ValidTime(startTime.value))
      && AllConsistent(tasks)
    }

    /** A tracker with no saved tasks, idle. */
    constructor ()
      ensures Valid()
      ensures tasks == [] && !isTracking && activeTask == None && startTime == None
    {
      tasks := [];
      activeTask := None;
      isTracking := false;
      startTime := None;
    }

    /** `handleAddTask`: a name that trims to nothing adds nothing; any other name appends one fresh task. */
    method AddTask(name: string, category: Category, id: TaskId, colorIndex: nat)
      requires Valid() && colorIndex < |Palette|
      modifies this
      ensures Valid()
      ensures Trim(name) == [] ==> tasks == old(tasks)
      ensures Trim(name) != [] ==> tasks == old(tasks) + [NewTask(id, name, category, colorIndex)]
      ensures isTracking == old(isTracking) && activeTask == old(activeTask) && startTime == old(startTime)
    {
      if Trim(name) == [] {
        return;
      }
      var task := NewTask(id, name, category, colorIndex);
      tasks := tasks + [task];
    }

    /** `startTracking`: ignored while a session runs; otherwise a session on `taskId` starts at `now`. */
    method StartTracking(taskId: TaskId, now: int)
      requires Valid() && ValidTime(now)
      modifies this
      ensures Valid()
      ensures old(isTracking) ==> unchanged(this)
      ensures !old(isTracking) ==>
        isTracking && activeTask == Some(taskId) && startTime == Some(now) && tasks == old(tasks)
    {
      if isTracking {
        return;
      }
      activeTask := Some(taskId);
      isTracking := true;
      startTime := Some(now);
    }

    /**
     * `stopTracking`: with no session it does nothing. Otherwise it commits one record
     * of the session, ending at `now`, to every task with the active id (to none if
     * no task has it), and the session becomes idle.
     */
    method StopTracking(now: int, recordId: int)
      requires Valid()
      modifies this
      ensures Valid()
      ensures !old(isTracking) || old(activeTask).None? ==> unchanged(this)
      ensures old(isTracking) && old(activeTask).Some? ==>
        !isTracking && activeTask == None && startTime == None
        && tasks == CommitSession(old(tasks), old(activeTask).value, MakeRecord(recordId, old(startTime).value, now))
    {
      if !isTracking || activeTask.None? {
        return;
      }
      var rec := MakeRecord(recordId, startTime.value, now);
      CommitPreservesConsistency(tasks, activeTask.value, rec);
      tasks := CommitSession(tasks, activeTask.value, rec);
      isTracking := false;
      activeTask := None;
      startTime := None;
    }

    /**
     * `deleteTask`: deleting the active task stops its session first; then every task
     * with the id is removed. The list that results is the old list without those
     * tasks, since the record the stop commits goes to the tasks being removed.
     */
    method DeleteTask(taskId: TaskId, now: int, recordId: int)
      requires Valid()
      modifies this
      ensures Valid()
      ensures tasks == RemoveTask(old(tasks), taskId)
      ensures old(activeTask) == Some(taskId) ==> !isTracking && activeTask == None && startTime == None
      ensures old(activeTask) != Some(taskId) ==>
        isTracking == old(isTracking) && activeTask == old(activeTask) && startTime == old(startTime)
    {
      if activeTask == Some(taskId) {
        StopTracking(now, recordId);
        RemoveAfterCommit(old(tasks), taskId, MakeRecord(recordId, old(startTime).value, now));
      }
      RemovePreservesConsistency(tasks, taskId);
      tasks := RemoveTask(tasks, taskId);
    }

    /**
     * `getCurrentTaskTime`: 0 when idle or when no task has the active id; otherwise
     * the committed `totalTime` of the first task with the id plus the whole seconds
     * since the session started, which is never less than that total once `now` has
     * reached the start.
     */
    function CurrentTaskTime(now: int): (r: int)
      reads this
      ensures !isTracking || activeTask.None? || startTime.None? ==> r == 0
      ensures isTracking && activeTask.Some? && startTime.Some? ==>
        match FindTask(tasks, activeTask.value)
        case None => r == 0
        case Some(t) =>
          (r - t.totalTime) * 1000 <= now - startTime.value < (r - t.totalTime) * 1000 + 1000
          && (startTime.value <= now ==> r >= t.totalTime)
    {
      if !isTracking || activeTask.None? || startTime.None? then 0
      else
        var elapsed := ElapsedSeconds(startTime.value, now);
        match FindTask(tasks, activeTask.value)
        case None => 0
        case Some(t) => t.totalTime + elapsed
    }
  }

  /**
   * The live time shown at `now` is the total the active task would have if the
   * session were stopped at `now`.
   */
  lemma LiveTimeIsWhatStopCommits(tt: TimeTracker, now: int, recordId: int)
    requires tt.Valid() && tt.isTracking
    requires FindTask(tt.tasks, tt.activeTask.value).Some?
    ensures var after := CommitSession(tt.tasks, tt.activeTask.value, MakeRecord(recordId, tt.startTime.value, now));
      FindTask(after, tt.activeTask.value).Some?
      && tt.CurrentTaskTime(now) == FindTask(after, tt.activeTask.value).value.totalTime
  {
    FindAfterCommit(tt.tasks, tt.activeTask.value, MakeRecord(recordId, tt.startTime.value, now));
  }

  /**
   * The live time is read at the last one-second tick, which can fall before the
   * start: with `now` less than a second before `startTime`, the live time is one
   * second below the committed total: -1 for a task with no records, which
   * `formatTime` shows as `-1:-1:-1` (`FormatTimeMinusOne`).
   */
  lemma LiveTimeBeforeFirstTick(tt: TimeTracker, now: int)
    requires tt.isTracking && tt.activeTask.Some? && tt.startTime.Some?
    requires FindTask(tt.tasks, tt.activeTask.value).Some?
    requires tt.startTime.value - 1000 <= now < tt.startTime.value
    ensures tt.CurrentTaskTime(now) == FindTask(tt.tasks, tt.activeTask.value).value.totalTime - 1
    ensures FindTask(tt.tasks, tt.activeTask.value).value.totalTime == 0 ==> tt.CurrentTaskTime(now) == -1
  {
    var t := FindTask(tt.tasks, tt.activeTask.value).value;
    var r := tt.CurrentTaskTime(now);
    assert (r - t.totalTime) * 1000 <= now - tt.startTime.value < (r - t.totalTime) * 1000 + 1000;
  }

  /** One task tracked for 125 seconds, from any valid start, ends with one record of 125 seconds. */
  method Scenario(start: int)
    requires ValidTime(start)
  {
    var tt := new TimeTracker();
    tt.AddTask("Write report", Work, 1, 0);
    assert tt.tasks == [NewTask(1, "Write report", Work, 0)];
    tt.StartTracking(1, start);
    tt.StartTracking(2, start);
    assert tt.activeTask == Some(1) && tt.startTime == Some(start);
    tt.StopTracking(start + 125000, 2);
    assert !tt.isTracking;
    assert tt.tasks[0].totalTime == 125 && |tt.tasks[0].records| == 1;
    tt.DeleteTask(1, start + 200000, 3);
    assert tt.tasks == [];
  }
}
