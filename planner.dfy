/**
 * The planner table and the operations that change it (app.py): create a
 * project, delete a project, delete a task, change a task's status, and save
 * the edits of a project. Each operation rebinds or updates the ordered row
 * sequence, as the script does with its data frame.
 */
module Planner {
  import opened Rows
  import opened Seqs
  import opened Forms
  import opened Edits

  class PlannerTable {
    /** The rows of the table, in storage order. */
    var rows: seq<Row>

    /** The table as loaded; an absent file gives the empty table. */
    constructor (loaded: seq<Row>)
      ensures rows == loaded
    {
      rows := loaded;
    }

    /**
     * "Create project" with the given area, name and task boxes. Rejected,
     * with the table unchanged, when the area or the name is empty or no box
     * has a task name; otherwise one row per named box is appended after all
     * existing rows.
     */
    method CreateProject(area: string, project: string, boxes: seq<TaskInput>, today: Date)
      returns (outcome: CreateOutcome)
      modifies this
      ensures outcome == Validate(area, project, Entered(boxes))
      ensures outcome.Rejected? ==> rows == old(rows)
      ensures outcome == Created ==>
        && |rows| == |old(rows)| + |Entered(boxes)|
        && rows[..|old(rows)|] == old(rows)
        && forall k :: 0 <= k < |Entered(boxes)| ==>
             rows[|old(rows)| + k] == TaskRow(area, project, Entered(boxes)[k], today)
    {
      var tasks := CollectTasks(boxes);
      outcome := Validate(area, project, tasks);
      if outcome == Created {
        var newRows := BuildRows(area, project, tasks, today);
        rows := rows + newRows;
      }
    }

    /** Removes every row of project `p`; the other rows keep their order. */
    method DeleteProject(p: string)
      modifies this
      ensures rows == Filter(old(rows), OutsideProject(p))
      ensures |rows| == |old(rows)| - CountWhere(old(rows), InProject(p))
      ensures forall r :: r in rows <==> r in old(rows) && r.project != p
    {
      FilterLength(rows, OutsideProject(p), InProject(p));
      rows := Filter(rows, OutsideProject(p));
    }

    /**
     * Removes every row whose project is `p` and whose task is `t`, duplicates
     * included. Reports whether any row matched; when none does, the table is
     * unchanged.
     */
    method DeleteTask(p: string, t: string) returns (found: bool)
      modifies this
      ensures found <==> exists i :: 0 <= i < |old(rows)| && old(rows)[i].project == p && old(rows)[i].task == t
      ensures rows == Filter(old(rows), OtherThanTask(p, t))
      ensures |rows| == |old(rows)| - CountWhere(old(rows), IsTask(p, t))
      ensures !found ==> rows == old(rows)
    {
      found := exists i :: 0 <= i < |rows| && rows[i].project == p && rows[i].task == t;
      FilterLength(rows, OtherThanTask(p, t), IsTask(p, t));
      if found {
        rows := Filter(rows, OtherThanTask(p, t));
      } else {
        FilterKeepsAll(rows, OtherThanTask(p, t));
      }
    }

    /**
     * The status chosen for row `idx`: written into its Progress field only
     * when it differs from the current one; nothing else changes.
     */
    method SetStatus(idx: nat, status: Progress) returns (changed: bool)
      requires idx < |rows|
      modifies this
      ensures changed <==> old(rows)[idx].progress != status
      ensures |rows| == |old(rows)|
      ensures rows[idx] == old(rows)[idx].(progress := status)
      ensures forall i :: 0 <= i < |rows| && i != idx ==> rows[i] == old(rows)[i]
    {
      changed := status != rows[idx].progress;
      if changed {
        rows := rows[idx := rows[idx].(progress := status)];
      }
    }

    /**
     * "Save changes" on project `project`: its rows move to `newArea`, then are
     * renamed to `newName`; each edit overwrites the task fields of the row at
     * its index; finally the named new-task boxes are appended as rows of
     * `newArea`/`newName` released on `today`.
     */
    method SaveEdits(project: string, newArea: string, newName: string,
                     edits: seq<TaskEdit>, boxes: seq<TaskInput>, today: Date)
      requires InRange(edits, |rows|)
      modifies this
      ensures |rows| == |old(rows)| + |Entered(boxes)|
      ensures rows[..|old(rows)|] == Overwritten(Relabelled(old(rows), project, newArea, newName), edits)
      ensures forall k :: 0 <= k < |Entered(boxes)| ==>
        rows[|old(rows)| + k] == TaskRow(newArea, newName, Entered(boxes)[k], today)
    {
      // Area first, then the name, on the rows still carrying the old name.
      rows := SetArea(rows, project, newArea);
      rows := Rename(rows, project, newName);
      assert rows == Relabelled(old(rows), project, newArea, newName);

      var k := 0;
      while k < |edits|
        invariant 0 <= k <= |edits|
        invariant |rows| == |old(rows)|
        invariant rows == Overwritten(Relabelled(old(rows), project, newArea, newName), edits[..k])
      {
        var e := edits[k];
        assert edits[..k + 1][..k] == edits[..k];
        rows := rows[e.index := Edited(rows[e.index], e)];
        k := k + 1;
      }
      assert edits[..k] == edits;

      var tasks := CollectTasks(boxes);
      var newRows := BuildRows(newArea, newName, tasks, today);
      if newRows != [] {
        rows := rows + newRows;
      }
    }
  }
}
