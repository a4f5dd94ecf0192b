/**
 * The "Save changes" bulk update of one project (app.py lines 312-321): the
 * project's rows are moved to the new area and the new name, then each edited
 * task box overwrites the task fields of the row at its index.
 */
module Edits {
  import opened Wrappers
  import opened Rows

  /** One edited task box: the row index it belongs to and the values it now shows. */
  datatype TaskEdit = TaskEdit(
    index: nat,
    task: string,
    owner: string,
    progress: Progress,
    priority: Priority,
    due: Date)

  /** Row `r` with the five fields an edit box controls replaced by the box's values. */
  function Edited(r: Row, e: TaskEdit): (edited: Row)
    ensures edited.area == r.area && edited.project == r.project && edited.releaseDate == r.releaseDate
    ensures edited.task == e.task && edited.owner == e.owner && edited.progress == e.progress
    ensures edited.priority == e.priority && edited.dueDate == e.due
  {
    r.(task := e.task, owner := e.owner, progress := e.progress, priority := e.priority, dueDate := e.due)
  }

  /** The first write of a save: every row of `project` moved to `newArea`. */
  function SetArea(rs: seq<Row>, project: string, newArea: string): (r: seq<Row>)
    ensures |r| == |rs|
    ensures forall i :: 0 <= i < |rs| && rs[i].project == project ==> r[i] == rs[i].(area := newArea)
    ensures forall i :: 0 <= i < |rs| && rs[i].project != project ==> r[i] == rs[i]
  {
    seq(|rs|, i requires 0 <= i < |rs| =>
      if rs[i].project == project then rs[i].(area := newArea) else rs[i])
  }

  /** The second write of a save: every row still named `project` renamed to `newName`. */
  function Rename(rs: seq<Row>, project: string, newName: string): (r: seq<Row>)
    ensures |r| == |rs|
    ensures forall i :: 0 <= i < |rs| && rs[i].project == project ==> r[i] == rs[i].(project := newName)
    ensures forall i :: 0 <= i < |rs| && rs[i].project != project ==> r[i] == rs[i]
  {
    seq(|rs|, i requires 0 <= i < |rs| =>
      if rs[i].project == project then rs[i].(project := newName) else rs[i])
  }

  /** Every row of `project` moved to `newArea` and renamed to `newName`; the others as they were. */
  function Relabelled(rs: seq<Row>, project: string, newArea: string, newName: string): (r: seq<Row>)
    ensures |r| == |rs|
    ensures forall i :: 0 <= i < |rs| && rs[i].project == project ==>
      r[i] == rs[i].(area := newArea, project := newName)
    ensures forall i :: 0 <= i < |rs| && rs[i].project != project ==> r[i] == rs[i]
  {
    seq(|rs|, i requires 0 <= i < |rs| =>
      if rs[i].project == project then rs[i].(area := newArea, project := newName) else rs[i])
  }

  predicate InRange(edits: seq<TaskEdit>, n: nat)
  {
    forall e :: e in edits ==> e.index < n
  }

  /** The rows after the edits have been written one after the other. */
  function Overwritten(rs: seq<Row>, edits: seq<TaskEdit>): (r: seq<Row>)
    requires InRange(edits, |rs|)
    ensures |r| == |rs|
    ensures forall i :: 0 <= i < |rs| && (forall e :: e in edits ==> e.index != i) ==> r[i] == rs[i]
    decreases |edits|
  {
    if edits == [] then rs
    else
      var last := edits[|edits| - 1];
      var before := Overwritten(rs, edits[..|edits| - 1]);
      before[last.index := Edited(before[last.index], last)]
  }

  /** The last edit aimed at row `i`, if any. */
  function LastEditAt(edits: seq<TaskEdit>, i: nat): (e: Option<TaskEdit>)
    ensures e.Some? ==> e.value in edits && e.value.index == i
    ensures e.None? <==> forall k :: 0 <= k < |edits| ==> edits[k].index != i
    ensures e.Some? ==>
      exists k :: 0 <= k < |edits| && edits[k] == e.value && (forall m :: k < m < |edits| ==> edits[m].index != i)
  {
    if edits == [] then None
    else if edits[|edits| - 1].index == i then Some(edits[|edits| - 1])
    else LastEditAt(edits[..|edits| - 1], i)
  }

  /**
   * After the edits, a row that no edit aims at is as it was, and a row some
   * edits aim at carries the values of the last of them; area, project and
   * release date are never touched.
   */
  lemma {:induction false} OverwrittenAt(rs: seq<Row>, edits: seq<TaskEdit>, i: nat)
    requires InRange(edits, |rs|) && i < |rs|
    ensures Overwritten(rs, edits)[i] ==
      match LastEditAt(edits, i)
      case None => rs[i]
      case Some(e) => Edited(rs[i], e)
    decreases |edits|
  {
    if edits != [] {
      OverwrittenAt(rs, edits[..|edits| - 1], i);
    }
  }

  /**
   * Save-edits on project `project`, with every edit aimed at a row of that
   * project (as the edit form offers only those), leaves every other row as it
   * was, and leaves every row of the project in `newArea` under `newName` with
   * its release date.
   */
  lemma {:induction false} SaveEditsScope(rs: seq<Row>, project: string, newArea: string, newName: string, edits: seq<TaskEdit>)
    requires InRange(edits, |rs|)
    requires forall e :: e in edits ==> rs[e.index].project == project
    ensures forall i :: 0 <= i < |rs| && rs[i].project != project ==>
      Overwritten(Relabelled(rs, project, newArea, newName), edits)[i] == rs[i]
    ensures forall i :: 0 <= i < |rs| && rs[i].project == project ==>
      var r := Overwritten(Relabelled(rs, project, newArea, newName), edits)[i];
      r.area == newArea && r.project == newName && r.releaseDate == rs[i].releaseDate
  {
    var relabelled := Relabelled(rs, project, newArea, newName);
    forall i | 0 <= i < |rs|
      ensures rs[i].project != project ==> Overwritten(relabelled, edits)[i] == rs[i]
      ensures rs[i].project == project ==>
        var r := Overwritten(relabelled, edits)[i];
        r.area == newArea && r.project == newName && r.releaseDate == rs[i].releaseDate
    {
      OverwrittenAt(relabelled, edits, i);
    }
  }

  /** Edits never move a row to another project or area. */
  lemma {:induction false} OverwrittenKeepsPlacement(rs: seq<Row>, edits: seq<TaskEdit>)
    requires InRange(edits, |rs|)
    ensures forall i :: 0 <= i < |rs| ==>
      Overwritten(rs, edits)[i].project == rs[i].project &&
      Overwritten(rs, edits)[i].area == rs[i].area &&
      Overwritten(rs, edits)[i].releaseDate == rs[i].releaseDate
  {
    forall i | 0 <= i < |rs|
      ensures Overwritten(rs, edits)[i].project == rs[i].project
      ensures Overwritten(rs, edits)[i].area == rs[i].area
      ensures Overwritten(rs, edits)[i].releaseDate == rs[i].releaseDate
    {
      OverwrittenAt(rs, edits, i);
    }
  }
}
