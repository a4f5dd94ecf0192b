/**
 * The "new project" and "add new tasks" forms: which task boxes count as
 * tasks, when a new project is rejected, and the rows the accepted boxes
 * become (app.py lines 101-138 and 291-335).
 */
module Forms {
  import opened Rows
  import opened Seqs

  datatype CreateError = MissingAreaOrName | NoTasks

  datatype CreateOutcome = Created | Rejected(reason: CreateError)

  /** A box counts as a task when its task name is not empty. */
  predicate Named(b: TaskInput)
  {
    b.task != ""
  }

  /** The boxes that count as tasks, in the order of the form. */
  function Entered(boxes: seq<TaskInput>): (tasks: seq<TaskInput>)
    ensures |tasks| <= |boxes|
    ensures forall t :: t in tasks <==> t in boxes && t.task != ""
    // The k-th task is the box at the k-th named position of the form.
    ensures |tasks| == |Selection(boxes, Named)|
    ensures forall k :: 0 <= k < |tasks| ==> tasks[k] == boxes[Selection(boxes, Named)[k]]
  {
    Filter(boxes, Named)
  }

  /**
   * Collects the named boxes one by one, as the form is drawn.
   */
  method CollectTasks(boxes: seq<TaskInput>) returns (tasks: seq<TaskInput>)
    ensures tasks == Entered(boxes)
    ensures forall t :: t in tasks <==> t in boxes && t.task != ""
  {
    tasks := [];
    var i := 0;
    while i < |boxes|
      invariant 0 <= i <= |boxes|
      invariant tasks == Filter(boxes[..i], Named)
    {
      FilterConcat(boxes[..i], [boxes[i]], Named);
      assert boxes[..i + 1] == boxes[..i] + [boxes[i]];
      if boxes[i].task != "" {
        tasks := tasks + [boxes[i]];
      }
      i := i + 1;
    }
    assert boxes[..i] == boxes;
  }

  /**
   * The outcome of pressing "Create project": the area and the project name
   * are checked first, the task list second.
   */
  function Validate(area: string, project: string, tasks: seq<TaskInput>): (o: CreateOutcome)
    ensures o == Created <==> area != "" && project != "" && tasks != []
    ensures o == Rejected(MissingAreaOrName) <==> area == "" || project == ""
    ensures o == Rejected(NoTasks) <==> area != "" && project != "" && tasks == []
  {
    if area == "" || project == "" then Rejected(MissingAreaOrName)
    else if tasks == [] then Rejected(NoTasks)
    else Created
  }

  /**
   * One new row per task, in the order of the tasks, each carrying the given
   * area and project and released on `today`.
   */
  method BuildRows(area: string, project: string, tasks: seq<TaskInput>, today: Date)
    returns (newRows: seq<Row>)
    ensures |newRows| == |tasks|
    ensures forall k :: 0 <= k < |tasks| ==> newRows[k] == TaskRow(area, project, tasks[k], today)
  {
    newRows := [];
    for i := 0 to |tasks|
      invariant |newRows| == i
      invariant forall k :: 0 <= k < i ==> newRows[k] == TaskRow(area, project, tasks[k], today)
    {
      newRows := newRows + [TaskRow(area, project, tasks[i], today)];
    }
  }
}
