/**
 * The footer line under the planner (app.py line 360): the number of
 * distinct project names and the number of task rows, and how the table
 * operations change the set of project names.
 */
module Footer {
  import opened Rows
  import opened Seqs
  import opened Edits

  /** The distinct values of the Project column. */
  function ProjectNames(rows: seq<Row>): (names: set<string>)
    ensures forall p :: p in names <==> HasProject(rows, p)
  {
    set r | r in rows :: r.project
  }

  lemma {:induction false} NamesBound(rows: seq<Row>)
    ensures |ProjectNames(rows)| <= |rows|
  {
    if rows != [] {
      NamesBound(rows[1..]);
      assert rows == [rows[0]] + rows[1..];
      assert ProjectNames(rows) == {rows[0].project} + ProjectNames(rows[1..]);
    }
  }

  /**
   * The footer's two counts: distinct projects (0 for an empty table) and
   * total tasks. There are never more projects than tasks, and there are no
   * projects exactly when there are no tasks.
   */
  function FooterCounts(rows: seq<Row>): (counts: (nat, nat))
    ensures counts.1 == |rows|
    ensures counts.0 <= counts.1
    ensures counts.0 == 0 <==> rows == []
    ensures rows != [] ==> counts.0 == |ProjectNames(rows)|
  {
    NamesBound(rows);
    if |rows| > 0 then
      assert rows[0].project in ProjectNames(rows);
      (|ProjectNames(rows)|, |rows|)
    else
      (0, |rows|)
  }

  /** Deleting project `p` removes exactly `p` from the project names. */
  lemma NamesAfterDelete(rows: seq<Row>, p: string)
    ensures ProjectNames(Filter(rows, OutsideProject(p))) == ProjectNames(rows) - {p}
  {
    var kept := Filter(rows, OutsideProject(p));
    forall q | q in ProjectNames(rows) - {p} ensures q in ProjectNames(kept) {
      var i :| 0 <= i < |rows| && rows[i].project == q;
      assert rows[i] in kept;
    }
  }

  /** Deleting a project that has rows lowers the project count by one. */
  lemma CountAfterDelete(rows: seq<Row>, p: string)
    requires HasProject(rows, p)
    ensures |ProjectNames(Filter(rows, OutsideProject(p)))| == |ProjectNames(rows)| - 1
  {
    NamesAfterDelete(rows, p);
  }

  /** Appending a non-empty batch of rows of project `p` adds exactly `p` to the names. */
  lemma NamesAfterAppend(rows: seq<Row>, added: seq<Row>, p: string)
    requires added != []
    requires forall r :: r in added ==> r.project == p
    ensures ProjectNames(rows + added) == ProjectNames(rows) + {p}
  {
    assert added[0] in rows + added;
    forall q | q in ProjectNames(rows) ensures q in ProjectNames(rows + added) {
      var i :| 0 <= i < |rows| && rows[i].project == q;
      assert (rows + added)[i] == rows[i];
    }
  }

  /**
   * Saving edits on an existing project renames it and nothing else: the
   * project names lose the old name and gain the new one.
   */
  lemma NamesAfterSaveEdits(rows: seq<Row>, project: string, newArea: string, newName: string, edits: seq<TaskEdit>)
    requires InRange(edits, |rows|)
    requires HasProject(rows, project)
    ensures ProjectNames(Overwritten(Relabelled(rows, project, newArea, newName), edits)) ==
      ProjectNames(rows) - {project} + {newName}
  {
    var relabelled := Relabelled(rows, project, newArea, newName);
    var after := Overwritten(relabelled, edits);
    OverwrittenKeepsPlacement(relabelled, edits);
    var i :| 0 <= i < |rows| && rows[i].project == project;
    assert after[i].project == newName;
    forall q | q in ProjectNames(rows) - {project} ensures q in ProjectNames(after) {
      var j :| 0 <= j < |rows| && rows[j].project == q;
      assert after[j].project == q;
    }
  }
}
