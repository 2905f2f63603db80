/**
 * The tracker's data: tasks, each owning the records of its finished sessions.
 * Times are milliseconds since the epoch; durations are whole seconds.
 */
module Entities {
  import opened UtcDates

  type TaskId = int

  /** The five task categories offered by the category selector (工作, 学习, 娱乐, 健康, 个人). */
  datatype Category = Work | Study | Leisure | Health | Personal

  /** One finished session. */
  datatype Record = Record(id: int, startTime: int, endTime: int, duration: int, date: string)

  datatype Task = Task(id: TaskId, name: string, records: seq<Record>, totalTime: int, category: Category, color: string)

  /** The colour classes a new task draws from. */
  const Palette: seq<string> :=
    ["bg-blue-500", "bg-green-500", "bg-red-500", "bg-yellow-500", "bg-purple-500", "bg-pink-500", "bg-indigo-500"]

  /** `Math.floor((end - start) / 1000)`: the whole seconds elapsed, rounded down, negative if `end` is earlier. */
  function ElapsedSeconds(start: int, end: int): (secs: int)
    ensures secs * 1000 <= end - start < secs * 1000 + 1000
    ensures start <= end ==> secs >= 0
  {
    (end - start) / 1000
  }

  /** The record `stopTracking` builds for a session from `start` to `end`. */
  function MakeRecord(id: int, start: int, end: int): (r: Record)
    requires ValidTime(start)
    ensures WellFormedRecord(r) && r.startTime == start && r.endTime == end && r.id == id
  {
    Record(id, start, end, ElapsedSeconds(start, end), IsoDate(start))
  }

  /** A record as `stopTracking` makes them: its duration and date follow from its start and end. */
  predicate WellFormedRecord(r: Record) {
    ValidTime(r.startTime)
    && r.duration == ElapsedSeconds(r.startTime, r.endTime)
    && r.date == IsoDate(r.startTime)
  }

  /** The sum of the durations, the reference definition of a total. */
  function SumDurations(rs: seq<Record>): int {
    if rs == [] then 0 else rs[0].duration + SumDurations(rs[1..])
  }

  /** `rs.reduce((total, r) => total + r.duration, acc)`: a left fold from `acc`. */
  function FoldDurations(acc: int, rs: seq<Record>): int
    decreases |rs|
  {
    if rs == [] then acc else FoldDurations(acc + rs[0].duration, rs[1..])
  }

  lemma {:induction false} FoldDurationsIsSum(acc: int, rs: seq<Record>)
    ensures FoldDurations(acc, rs) == acc + SumDurations(rs)
    decreases |rs|
  {
    if rs != [] {
      FoldDurationsIsSum(acc + rs[0].duration, rs[1..]);
    }
  }

  lemma {:induction false} SumDurationsAppend(a: seq<Record>, b: seq<Record>)
    ensures SumDurations(a + b) == SumDurations(a) + SumDurations(b)
  {
    if a == [] {
      assert a + b == b;
    } else {
      assert (a + b)[1..] == a[1..] + b;
      SumDurationsAppend(a[1..], b);
    }
  }

  predicate NonNegativeDurations(rs: seq<Record>) {
    forall i :: 0 <= i < |rs| ==> rs[i].duration >= 0
  }

  /** The task invariant: `totalTime` is the sum of the record durations, and each record is well formed. */
  predicate ConsistentTask(t: Task) {
    t.totalTime == SumDurations(t.records)
    && forall i :: 0 <= i < |t.records| ==> WellFormedRecord(t.records[i])
  }

  /** The task `handleAddTask` creates: no records yet and no time. */
  function NewTask(id: TaskId, name: string, category: Category, colorIndex: nat): (t: Task)
    requires colorIndex < |Palette|
    ensures ConsistentTask(t) && t.records == [] && t.totalTime == 0
    ensures t.id == id && t.name == name && t.category == category && t.color in Palette
  {
    Task(id, name, [], 0, category, Palette[colorIndex])
  }

  /** A task after a session is committed to it: the record at the end, its duration added to the total. */
  function AddRecord(t: Task, r: Record): (u: Task)
    ensures u.records == t.records + [r] && u.totalTime == t.totalTime + r.duration
    ensures u.id == t.id && u.name == t.name && u.category == t.category && u.color == t.color
  {
    t.(records := t.records + [r], totalTime := t.totalTime + r.duration)
  }

  /** Committing a well-formed record keeps a task consistent. */
  lemma AddRecordConsistent(t: Task, r: Record)
    requires ConsistentTask(t) && WellFormedRecord(r)
    ensures ConsistentTask(AddRecord(t, r))
  {
    SumDurationsAppend(t.records, [r]);
    assert SumDurations([r]) == r.duration;
  }
}
