/**
 * The row schema of the planner table (app.py, COLUMNS) and the closed value
 * lists of its Progress and Priority columns.
 */
module Rows {
  import opened Wrappers

  datatype Progress = NotStarted | InProgress | Completed

  datatype Priority = Low | Important | Urgent

  /** Calendar dates are opaque: the table only stores them. */
  datatype Date = Date(day: int)

  /**
   * One task of one project: the columns Area, Project, Task, Owner, Progress,
   * Priority, Release Date and Due Date, in storage order. An owner left blank
   * is the empty string.
   */
  datatype Row = Row(
    area: string,
    project: string,
    task: string,
    owner: string,
    progress: Progress,
    priority: Priority,
    releaseDate: Date,
    dueDate: Date)

  /** One task box of a form: task name, owner, status, priority and due date. */
  datatype TaskInput = TaskInput(
    task: string,
    owner: string,
    progress: Progress,
    priority: Priority,
    due: Date)

  /** The texts stored in the Progress column, in the order the status widgets offer them. */
  const ProgressValues: seq<string> := ["Not started", "In progress", "Completed"]

  /** The texts stored in the Priority column, in the order the priority widgets offer them. */
  const PriorityValues: seq<string> := ["Low", "Important", "Urgent"]

  function ProgressLabel(p: Progress): (s: string)
    ensures s in ProgressValues
  {
    match p
    case NotStarted => "Not started"
    case InProgress => "In progress"
    case Completed => "Completed"
  }

  /** The status a stored text stands for; None where the list lookup would fail. */
  function ParseProgress(s: string): (r: Option<Progress>)
    ensures r.Some? <==> s in ProgressValues
    ensures r.Some? ==> ProgressLabel(r.value) == s
  {
    if s == "Not started" then Some(NotStarted)
    else if s == "In progress" then Some(InProgress)
    else if s == "Completed" then Some(Completed)
    else None
  }

  lemma ProgressRoundTrip(p: Progress)
    ensures ParseProgress(ProgressLabel(p)) == Some(p)
  {
  }

  function PriorityLabel(p: Priority): (s: string)
    ensures s in PriorityValues
  {
    match p
    case Low => "Low"
    case Important => "Important"
    case Urgent => "Urgent"
  }

  /** The priority a stored text stands for; None where the list lookup would fail. */
  function ParsePriority(s: string): (r: Option<Priority>)
    ensures r.Some? <==> s in PriorityValues
    ensures r.Some? ==> PriorityLabel(r.value) == s
  {
    if s == "Low" then Some(Low)
    else if s == "Important" then Some(Important)
    else if s == "Urgent" then Some(Urgent)
    else None
  }

  lemma PriorityRoundTrip(p: Priority)
    ensures ParsePriority(PriorityLabel(p)) == Some(p)
  {
  }

  /** The row a filled-in task box becomes in `project` of `area`, released on `today`. */
  function TaskRow(area: string, project: string, t: TaskInput, today: Date): (r: Row)
    ensures r.area == area && r.project == project && r.releaseDate == today
    ensures r.task == t.task && r.owner == t.owner && r.progress == t.progress
    ensures r.priority == t.priority && r.dueDate == t.due
  {
    Row(area, project, t.task, t.owner, t.progress, t.priority, today, t.due)
  }

  /** Some row of `rows` belongs to project `p`. */
  predicate HasProject(rows: seq<Row>, p: string)
  {
    exists i :: 0 <= i < |rows| && rows[i].project == p
  }

  /** Row selectors used as filter masks. */
  function InProject(p: string): Row -> bool
  {
    (r: Row) => r.project == p
  }

  function OutsideProject(p: string): Row -> bool
  {
    (r: Row) => r.project != p
  }

  function IsTask(p: string, t: string): Row -> bool
  {
    (r: Row) => r.project == p && r.task == t
  }

  function OtherThanTask(p: string, t: string): Row -> bool
  {
    (r: Row) => !(r.project == p && r.task == t)
  }
}
