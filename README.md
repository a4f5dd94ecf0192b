# Team Projects Planner — the planner table

This project models the table logic of the Team Projects Planner, a Streamlit
script (`app.py`) that keeps a team's projects as one table of task rows with
the columns Area, Project, Task, Owner, Progress, Priority, Release Date and
Due Date. Under the widgets, the script changes that table in five ways:

- **create a project** from an area, a name and a list of task boxes. It is
  rejected when the area or the name is empty, or when no box has a task name.
  Otherwise it appends one row per named box;
- **delete a project**, which drops every row of that project;
- **delete a task**, which drops every row of the project whose task name
  matches, duplicates included;
- **change a status**, which writes a new Progress value into one row;
- **save edits** on a project. This moves the project's rows to the new area
  and renames them. Then each edit box overwrites the task fields of its row,
  and the named new-task boxes are appended as rows.

It also computes two things for display. The first is each project's
completion percentage: the mean of the task scores times 100, truncated, with
Not started = 0, In progress = 0.5 and Completed = 1. The second is the footer:
the number of distinct projects and the number of task rows.

The table is the class `Planner.PlannerTable`, with a `seq<Row>` field. Its
methods rebind or update that field, as the script rebinds and updates its data
frame, and their postconditions state the whole new table. Each method is
specified by functions of the old table:

- `Seqs.Filter` is the order-preserving boolean-mask filter followed by
  `reset_index`;
- `Edits.Relabelled` and `Edits.Overwritten` describe the save-edits update;
- `Forms.Entered` and `Rows.TaskRow` give the appended rows.

The contracts of those functions, and lemmas about them, state what they mean.
For example, the postconditions of the function `Seqs.Selection` say that the
filter keeps exactly the matching positions, in increasing order. The footer
and the completion percentage are pure functions with lemmas relating them to
the operations.

Modules: `Wrappers` (Option), `Rows` (schema, status and priority values),
`Seqs` (filtering), `Forms` (task boxes, validation, building rows), `Edits`
(the save-edits update), `Completion`, `Footer`, `Planner` (the table class).

Completion is computed per `groupby("Project")` group, that is, only for a
project that has at least one row (app.py:200-201). Such a group is never empty,
so `Completion.ProjectPercent` requires the project to have a row.

## Model

| member | source | states |
|---|---|---|
| `Rows.ParseProgress` | app.py:62 | a stored text names a status exactly when it is one of the three listed values, and it then names the status whose label it is (the lookup `progress_values.index` fails otherwise) |
| `Rows.ProgressRoundTrip` | app.py:62 | writing a status as text and reading it back gives the same status |
| `Rows.ParsePriority` | app.py:277-278 | a stored text names a priority exactly when it is Low, Important or Urgent, and it is then that priority's label |
| `Rows.PriorityRoundTrip` | app.py:108 | writing a priority as text and reading it back gives the same priority |
| `Seqs.Filter` | app.py:159 | a mask filter keeps at most the input's length, and a row is in the result exactly when it was in the input and passes the mask |
| `Seqs.Selection` | app.py:185 | the kept rows are exactly the input positions that pass the mask, taken in strictly increasing order, so every other row is removed and the kept ones stay in their relative order |
| `Seqs.FilterLength` | app.py:159 | the result's length is the input length minus the number of rows the mask drops |
| `Seqs.FilterKeepsAll` | app.py:180 | a mask that keeps every row leaves the table unchanged |
| `Seqs.FilterIdempotent` | app.py:159 | deleting the same project twice gives the same table as deleting it once |
| `Seqs.FilterUpdateDropped` | app.py:241 | changing a row that a mask drops, into another row it drops, does not change that mask's result |
| `Forms.CollectTasks` | app.py:101-111 | the collected tasks are the boxes with a non-empty task name, in form order |
| `Forms.Validate` | app.py:119-123 | creation succeeds exactly when area, name and task list are all non-empty; an empty area or name is reported first, an empty task list only when both are given |
| `Forms.BuildRows` | app.py:125-136 | one new row per task, in order, each with the given area and project, the task's owner, status, priority and due date, and today as release date |
| `Rows.TaskRow` | app.py:127-136 | a new row carries the given area and project, today as release date, and the box's task, owner, status, priority and due date |
| `Forms.Entered` | app.py:110-111 | the boxes that count as tasks are exactly those with a non-empty task name, and the k-th task is the box at the k-th named position of the form |
| `Edits.Edited` | app.py:317-321 | an edit box sets Task, Owner, Progress, Priority and Due Date of its row to the box's values and keeps the row's area, project and release date |
| `Edits.SetArea` | app.py:312 | every row of the edited project gets the new area; every other row stays as it was |
| `Edits.Rename` | app.py:313 | every row still carrying the old project name gets the new name; every other row stays as it was |
| `Edits.Relabelled` | app.py:312-313 | every row of the edited project gets the new area and the new name; every other row stays as it was |
| `Edits.Overwritten` | app.py:316-321 | the edit loop keeps the table's length, and a row that no edit aims at stays as it was |
| `Edits.LastEditAt` | app.py:316-321 | the edit found for a row is one aimed at it with no later edit aimed at it; none is found exactly when no edit aims at the row |
| `Edits.OverwrittenAt` | app.py:316-321 | after the edit loop, a row no edit aims at is unchanged, and a row some edits aim at carries the values of the last of them in Task, Owner, Progress, Priority and Due Date |
| `Edits.OverwrittenKeepsPlacement` | app.py:316-321 | the edit loop never changes a row's project, area or release date |
| `Edits.SaveEditsScope` | app.py:312-321 | when every edit aims at a row of the edited project, rows of other projects stay exactly as they were, and every row of the project ends in the new area under the new name with its release date kept |
| `Completion.HalfScore` | app.py:63 | a status scores 0, 1 or 2 half points; 2 exactly for Completed and 0 exactly for Not started |
| `Completion.HalfPoints` | app.py:201 | a group's score sum is at most two half points per task; it is the maximum exactly when every task is Completed, and zero exactly when every task is Not started |
| `Completion.Percent` | app.py:201 | the percentage c is floor(100 × mean score), that is n·c <= 50·points < n·(c+1); it lies in [0, 100], is 100 exactly when every task is Completed, and is 0 when every task is Not started |
| `Completion.ProjectPercent` | app.py:200-201 | a project's completion, over that project's rows, lies in [0, 100] and is 100 exactly when every task of the project is Completed |
| `Completion.PercentMonotone` | app.py:240-241 | changing one task to a status scoring at least as much never lowers the percentage |
| `Completion.HalfPointsUpdate` | app.py:241 | changing one status changes the score sum by the difference of the two scores |
| `Completion.OtherProjectPercent` | app.py:241 | a status change in one project leaves every other project's completion unchanged |
| `Completion.PercentExample` | app.py:201 | Not started, In progress, Completed, Completed give 62 |
| `Footer.ProjectNames` | app.py:360 | a name is among the project names exactly when some row carries it |
| `Footer.FooterCounts` | app.py:360 | the footer shows the row count as tasks; the project count is never above it, is 0 exactly for the empty table, and is otherwise the number of distinct project names |
| `Footer.NamesAfterDelete` | app.py:159 | after deleting project p, the project names are the old ones without p |
| `Footer.CountAfterDelete` | app.py:159 | deleting a project that has rows lowers the footer's project count by exactly one |
| `Footer.NamesAfterAppend` | app.py:138 | appending a non-empty batch of rows of project p adds exactly p to the project names |
| `Footer.NamesAfterSaveEdits` | app.py:312-321 | saving edits on an existing project replaces its name by the new name among the project names and changes no other name |
| `Planner.PlannerTable.constructor` | app.py:44-51 | the table starts as the loaded rows |
| `Planner.PlannerTable.CreateProject` | app.py:119-138 | the outcome is the validation of the named boxes; a rejection leaves the table unchanged; a creation keeps every old row in place and appends one row per named box, in order, carrying the area, the project and today as release date |
| `Planner.PlannerTable.DeleteProject` | app.py:159 | the new table is the old one without the project's rows, in order; it is shorter by the number of those rows, and a row is in it exactly when it was before and belongs to another project |
| `Planner.PlannerTable.DeleteTask` | app.py:177-185 | reports whether some row has the project and task name; the new table drops every such row, duplicates included, keeps the others in order, and is unchanged when none matched |
| `Planner.PlannerTable.SetStatus` | app.py:240-242 | reports whether the status differs; only row idx's Progress can change, to the chosen status, and every other row and field stays as it was |
| `Planner.PlannerTable.SaveEdits` | app.py:312-338 | the old rows become the relabelled-then-overwritten rows, in place, and the named new-task boxes follow as rows of the new area and name released today |

## Left out

- The Streamlit widgets, reruns, messages and the session-state mode flags (app.py:28-39, 72-90 and the rendering). Operations are modelled as separate method calls whose inputs are what the widgets would return.
- CSV loading and saving and directory creation (app.py:44-55) are file I/O. When loading, a missing Owner becomes the empty string. The model's Owner field is always a string, and the constructor takes the loaded rows as given.
- `area_color` (app.py:65-67) depends on an MD5 hash, a foreign computation.
- Dates are opaque values. "Today" is a parameter of the operations that stamp a release date.
- The order in which `groupby` lists the projects (app.py:200) is display only. The area of a project's first row (app.py:202) also pre-fills the edit form's Area box (app.py:258). So a "Save changes" that leaves that box untouched moves every row of the project into the first row's area (app.py:312). In the model, this is `Edits.Relabelled` called with that area as `newArea`. It matters when a project's rows carry different areas, for example after "Create project" was used twice with the same name.
- Completion.Percent: computed exactly in half points, as floor(100 × points / (2n)). The script uses floating point (`mean() * 100`), which can land just below an integer and then truncate one point lower. For example, 57 half points over 50 tasks is 57 exactly, but in floating point it can come out as 56.
- Missing values after the CSV round trip are not modelled. Save-edits accepts an empty area, project name or task name without checking (app.py:258-259, 267, 312-317). When the saved table is read back, such empty cells, and texts such as "NA" or "nan", become missing values. The loader fills only Owner (app.py:48). `groupby("Project")` (app.py:200) then leaves rows with a missing project out of the view and out of completion. `nunique()` (app.py:360) does not count them, so a non-empty table can show 0 projects. A task with a missing name can never be deleted, because `df["Task"] == task_name` (app.py:178) never matches it. The model keeps every cell as a string, and "" is an ordinary name. So `Footer.FooterCounts`'s "0 projects exactly for the empty table", and the deletion lemmas, hold for that representation only.
- Progress and Priority are closed enumerations. A CSV holding any other text would make the script's list lookups fail while rendering, and such rows are not representable here.
- Planner.PlannerTable.SetStatus: requires idx to be a row of the table. The script passes row labels taken from the table itself, and these are positions because every rebinding resets the index.
- Planner.PlannerTable.SaveEdits: requires every edit index to be a row of the table, for the same reason. The script's `.loc` would append a row for an unknown label, but it never passes one.
