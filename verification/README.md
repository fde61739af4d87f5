# Task list store

A model of the in-memory task store behind a browser to-do widget. The store
(`TaskListModel` in `src/index.js`) holds an ordered list of records
`{name, text, status}`. It can append a record, look one up by name, negate
the status at a position, remove every record with a given name, and report
the total and completed counts. Three more pieces of store logic sit in the
view (`TaskListView`), and they are modelled too:

- the guard on the new-task form, which adds a task;
- the name-to-position lookup done when a rendered task is clicked, which
  changes nothing itself but feeds toggle-by-name and edit-by-name;
- the edit that overwrites a task's name and text at that position.

The store is a `seq<Task>`, and every operation is a pure function from the
old list to the new one. Indexing a position the list does not have makes
`src/index.js` throw a TypeError. Here that case is an `Err(NoTaskAt(i))`
result, not a precondition. A click whose task identifier is the empty
string also throws there, in the ancestor walk of `findId`; that case is
`Err(NoTaskItem)`.

Files:

- `task_list_model.dfy`: module `TaskListModel` holds the record type, the
  store operations, and lemmas about framing, counts, self-inverse toggling,
  idempotent and order-preserving removal, and name uniqueness.
- `task_list_view.dfy`: module `TaskListView` holds the form guard (as
  written and corrected), the click lookup, the edit, and the handlers that
  toggle or edit by name.

## Model

| member | source | states |
|---|---|---|
| TaskListModel.Add | src/index.js:8-15 | the list grows by exactly one, every earlier record is unchanged, and the new last record is `Task(name, text, status)` |
| TaskListModel.AddSummary | src/index.js:8-15 | after `add` the total rises by one, and the completed count rises by one exactly when the new status is true |
| TaskListModel.AddThenExists | src/index.js:8-24 | a record just added is found by the existence check under its own name |
| TaskListModel.FindIndex | src/index.js:17-19 | the result is -1 exactly when no record's name equals the key; otherwise it is the first position whose name equals the key; a key of `undefined` never matches |
| TaskListModel.CheckTaskExists | src/index.js:21-24 | true exactly when some record's name equals the argument's `.name` |
| TaskListModel.FindIndexUnique | src/index.js:17-19 | when names are unique, the lookup of a present name returns its only position |
| TaskListModel.ChangeStatus | src/index.js:26-28 | a position outside the list is an error; otherwise only the status at `id` is negated, with the same length, the same name and text at `id`, and every other record unchanged |
| TaskListModel.ChangeStatusSelfInverse | src/index.js:26-28 | applying `changeStatus` twice at the same position restores the original list |
| TaskListModel.ChangeStatusSummary | src/index.js:26-39 | `changeStatus` keeps the total; the completed count goes down by one if the record was completed and up by one if it was not |
| TaskListModel.ChangeStatusKeepsUniqueNames | src/index.js:26-28 | toggling keeps names unique |
| TaskListModel.CountCompletedUpdate | src/index.js:37 | replacing one record changes the completed count by the difference between the old and new record's completion |
| TaskListModel.CountNamed | src/index.js:31 | the number of records with a name is zero exactly when no record has it, and never more than the length |
| TaskListModel.CountNamedIsPositions | src/index.js:31 | the number of records with a name equals the size of the set of positions holding that name |
| TaskListModel.Remove | src/index.js:30-32 | no surviving record has the removed name, and the length drops by exactly the number of records that had it |
| TaskListModel.RemoveMembers | src/index.js:30-32 | a record is in the result exactly when it was in the list under a different name |
| TaskListModel.KeptPositions | src/index.js:31 | the positions the filter keeps are increasing and are exactly those whose name differs from the key |
| TaskListModel.RemoveKeepsOrder | src/index.js:30-32 | the result is the list read at the kept positions in increasing order, so survivors keep their relative order |
| TaskListModel.RemoveAbsent | src/index.js:30-32 | removing a name no record has leaves the list unchanged |
| TaskListModel.RemoveIdempotent | src/index.js:30-32 | removing the same name twice gives the same list as removing it once |
| TaskListModel.RemoveUndoesAdd | src/index.js:8-32 | adding a record under a new name and then removing that name gives back the original list |
| TaskListModel.RemoveKeepsUniqueNames | src/index.js:30-32 | removal keeps names unique |
| TaskListModel.UniqueNamesRemoveAtMostOne | src/index.js:30-32 | when names are unique, at most one record has a given name, so `remove` deletes at most one record |
| TaskListModel.RemoveSummary | src/index.js:30-39 | `remove` lowers the total by the number of matching records and never raises the completed count; removing an absent name leaves the summary unchanged |
| TaskListModel.CountCompleted | src/index.js:37 | the completed count is at most the length; it is zero exactly when no record is completed, and it equals the length exactly when every record is |
| TaskListModel.GetSummary | src/index.js:34-39 | the total is the list's length; the completed count is the number of positions holding a completed record, so it is at most the total |
| TaskListModel.CompletedCountIsPositions | src/index.js:37 | the recursive completed count equals the size of the set of completed positions |
| TaskListModel.Scenario | src/index.js:8-39 | add a pending task, then the summary is 1/0; toggle it, then 1/1; remove it, then 0/0 |
| TaskListView.SubmitAsWritten | src/index.js:62-70 | as written, the form adds a pending task exactly when both inputs are non-empty, because the existence check never fires; a rejected form leaves the store untouched |
| TaskListView.DuplicateNameAccepted | src/index.js:62-63 | a second task named "A" is accepted into a store that already has one, and names stop being unique |
| TaskListView.Submit | src/index.js:62-70 | corrected guard: the form adds a pending task exactly when both inputs are non-empty and no record already has that name |
| TaskListView.DuplicateNameRejected | src/index.js:62-63 | the corrected guard turns away a second task named "A" |
| TaskListView.SubmitPreservesUniqueNames | src/index.js:62-63 | the corrected guard keeps names unique |
| TaskListView.FindId | src/index.js:174 | the click lookup returns the first position whose name is the clicked identifier, or -1 exactly when no record has it |
| TaskListView.UniqueNamesClickHitsTask | src/index.js:174 | when names are unique, looking up a record's own name yields that record's position |
| TaskListView.Edit | src/index.js:208-209 | a position outside the list is an error; otherwise name and text at `i` are overwritten, the length and every status are kept, and all other records are unchanged |
| TaskListView.EditRestore | src/index.js:208-209 | editing back to the old name and text restores the original list |
| TaskListView.EditSummary | src/index.js:208-209 | an edit leaves the summary unchanged |
| TaskListView.EditByName | src/index.js:153-209 | the edit click succeeds exactly when the identifier is non-empty and some record has it; an empty identifier fails in the ancestor walk, an absent one fails indexing position -1; the length is kept |
| TaskListView.EditByNameFirstMatch | src/index.js:158-209 | a successful edit by name rewrites the first record with that name, keeping its status, and changes nothing else |
| TaskListView.ToggleByName | src/index.js:153-186 | the checkbox click succeeds exactly when the identifier is non-empty and some record has it; an empty identifier fails in the ancestor walk, an absent one fails indexing position -1; the length is kept |
| TaskListView.ToggleByNameFirstMatch | src/index.js:153-186 | a successful toggle by name negates the status of the first record with that name and changes nothing else, even when a later record with the same name was clicked |

## Left out

- Rendering in `createList` (src/index.js:74-134) is left out: the element tree, the reversed display order, and the CSS classes for completed tasks. It is presentation only.
- Event wiring (`initSubmit`, `openForm`, `closeForm`, `listListener`, `startListen`) is left out. So are the open/closed/error form states and the ancestor walk over `parentElement` in `findId`, except for its one store-relevant outcome: an empty identifier is falsy, so the walk fails and nothing changes (`NoTaskItem`). Each handler is modelled only as the store update it performs, and the form's error state is the `Rejected` outcome.
- The remove button (src/index.js:161-163) is modelled as `remove` of the clicked item's identifier. The ancestor walk that runs first for every click, and its failure on an empty identifier, are modelled only for the checkbox and edit paths.
- The "All : n" and "Ready : n" labels are left out; only the numbers from `getSummary` are modelled.
- Stale positions are left out. The edit form captures a position when it opens, and that position can go stale if other edits or removals happen before the form is submitted. The edit is modelled as one synchronous step at a given position.
- `status` is a `bool`. The program only ever passes `false` to `add`, and toggling negates a boolean, so `status === true` is the same as `status`. Non-boolean statuses passed by other callers are not modelled.
- Edits do not check names, as in `src/index.js`. An edit can therefore give two records the same name, and no lemma claims otherwise.

## Findings

| source | as written | input that shows it | evidently intended | confidence | as-written member | corrected member |
|---|---|---|---|---|---|---|
| src/index.js:62 | `checkTaskExists` is passed the list itself. Its `.name` is `undefined`, so the check is always false and a duplicate name is never rejected | store `[Task("A","x",false)]`, form inputs "A" and "y": accepted, and the store then holds two tasks named "A" | check the new task's name, and reject the form when a task with that name exists | high (not executed) | TaskListView.DuplicateNameAccepted | TaskListView.SubmitPreservesUniqueNames |

The duplicate matters downstream. Clicks locate a task by its name (src/index.js:174), so with two tasks named "A", toggling or editing the second one acts on the first (`TaskListView.ToggleByNameFirstMatch`).
