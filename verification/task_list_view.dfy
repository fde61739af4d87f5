/**
 The store-level logic of the widget's view (`TaskListView`): the guard on
 the new-task form, the name-to-position lookup used by clicks on a rendered
 task, and the edit that overwrites a task's name and text by position.
 Rendering and event wiring are not modelled; each handler is the store
 update it performs.
 */
module TaskListView {
  import opened TaskListModel

  /** Outcome of submitting the new-task form: either the store after the
      task was added, or the form's error state with the store untouched. */
  datatype Submission = Accepted(store: seq<Task>) | Rejected

  /** The submit handler as written: the existence check is handed the list
      itself, whose `.name` is `undefined`. */
  function SubmitAsWritten(list: seq<Task>, nameInput: string, textInput: string): (r: Submission)
    ensures r.Accepted? <==> nameInput != "" && textInput != ""
    ensures r.Accepted? ==> r.store == Add(list, nameInput, textInput, false)
  {
    if !CheckTaskExists(list, Undefined) && nameInput != "" && textInput != "" then
      Accepted(Add(list, nameInput, textInput, false))
    else
      Rejected
  }

  /** The guard as written lets a second task with an existing name in,
      and the store then has a repeated name. */
  lemma DuplicateNameAccepted()
    ensures var list := [Task("A", "x", false)];
      && SubmitAsWritten(list, "A", "y") == Accepted([Task("A", "x", false), Task("A", "y", false)])
      && UniqueNames(list)
      && !UniqueNames(SubmitAsWritten(list, "A", "y").store)
  {
    var list := [Task("A", "x", false)];
    var r := SubmitAsWritten(list, "A", "y").store;
    assert r[0].name == r[1].name;
  }

  /** The submit handler with the existence check asked about the new name. */
  function Submit(list: seq<Task>, nameInput: string, textInput: string): (r: Submission)
    ensures r.Accepted? <==>
      && nameInput != ""
      && textInput != ""
      && forall i :: 0 <= i < |list| ==> list[i].name != nameInput
    ensures r.Accepted? ==> r.store == Add(list, nameInput, textInput, false)
  {
    if !CheckTaskExists(list, Defined(nameInput)) && nameInput != "" && textInput != "" then
      Accepted(Add(list, nameInput, textInput, false))
    else
      Rejected
  }

  /** The corrected guard turns away the same second task named "A". */
  lemma DuplicateNameRejected()
    ensures Submit([Task("A", "x", false)], "A", "y") == Rejected
  {
    assert NameMatches(Task("A", "x", false), Defined("A"));
  }

  /** The corrected guard keeps names unique. */
  lemma SubmitPreservesUniqueNames(list: seq<Task>, nameInput: string, textInput: string)
    requires UniqueNames(list)
    requires Submit(list, nameInput, textInput).Accepted?
    ensures UniqueNames(Submit(list, nameInput, textInput).store)
  {
    var r := Submit(list, nameInput, textInput).store;
    forall i, j | 0 <= i < j < |r|
      ensures r[i].name != r[j].name
    {
      if j == |list| {
        assert r[i] == list[i];
      } else {
        assert r[i] == list[i] && r[j] == list[j];
      }
    }
  }

  /** The lookup behind a click on a rendered task: the first position whose
      name is the clicked item's identifier, or -1. */
  function FindId(list: seq<Task>, id: string): (r: int)
    ensures -1 <= r < |list|
    ensures r == -1 <==> forall i :: 0 <= i < |list| ==> list[i].name != id
    ensures r >= 0 ==> list[r].name == id
    ensures r >= 0 ==> forall j :: 0 <= j < r ==> list[j].name != id
  {
    var r := FindIndex(list, Defined(id));
    assert forall i :: 0 <= i < |list| ==> (NameMatches(list[i], Defined(id)) <==> list[i].name == id);
    r
  }

  /** Overwrite the name and text of the task at position `i`; an index
      outside the list is a TypeError in the program. */
  function Edit(list: seq<Task>, i: int, newName: string, newText: string): (r: Result<seq<Task>>)
    ensures r.Err? <==> !(0 <= i < |list|)
    ensures r.Err? ==> r.error == NoTaskAt(i)
    ensures r.Ok? ==> |r.value| == |list|
    ensures r.Ok? ==> r.value[i].name == newName && r.value[i].text == newText
    ensures r.Ok? ==> forall j :: 0 <= j < |list| ==> r.value[j].status == list[j].status
    ensures r.Ok? ==> forall j :: 0 <= j < |list| && j != i ==> r.value[j] == list[j]
  {
    if 0 <= i < |list| then
      Ok(list[i := list[i].(name := newName, text := newText)])
    else
      Err(NoTaskAt(i))
  }

  /** Editing back to the old name and text restores the list. */
  lemma EditRestore(list: seq<Task>, i: int, newName: string, newText: string)
    requires Edit(list, i, newName, newText).Ok?
    ensures Edit(Edit(list, i, newName, newText).value, i, list[i].name, list[i].text) == Ok(list)
  {
    var once := Edit(list, i, newName, newText).value;
    assert Edit(once, i, list[i].name, list[i].text).value == list;
  }

  /** An edit changes no status, so the summary stays the same. */
  lemma EditSummary(list: seq<Task>, i: int, newName: string, newText: string)
    requires Edit(list, i, newName, newText).Ok?
    ensures GetSummary(Edit(list, i, newName, newText).value) == GetSummary(list)
  {
    var r := Edit(list, i, newName, newText).value;
    assert r == list[i := r[i]];
    CountCompletedUpdate(list, i, r[i]);
    CompletedCountIsPositions(list);
    CompletedCountIsPositions(r);
  }

  /** The edit handler: the clicked item's identifier is looked up, then
      the name and text at the position found are overwritten. An empty
      identifier is falsy, so the ancestor walk never stops at the item and
      fails at the root; an absent name yields -1, which the overwrite
      cannot index. */
  function EditByName(list: seq<Task>, id: string, newName: string, newText: string): (r: Result<seq<Task>>)
    ensures r.Ok? <==> id != "" && exists i :: 0 <= i < |list| && list[i].name == id
    ensures id == "" ==> r == Err(NoTaskItem)
    ensures id != "" && r.Err? ==> r.error == NoTaskAt(-1)
    ensures r.Ok? ==> |r.value| == |list|
  {
    if id == "" then Err(NoTaskItem)
    else Edit(list, FindId(list, id), newName, newText)
  }

  /** A successful edit by name rewrites the first task with that name,
      keeping its status, and nothing else. */
  lemma EditByNameFirstMatch(list: seq<Task>, id: string, newName: string, newText: string)
    requires EditByName(list, id, newName, newText).Ok?
    ensures
      var k := FindId(list, id);
      && 0 <= k < |list|
      && list[k].name == id
      && (forall j :: 0 <= j < k ==> list[j].name != id)
      && EditByName(list, id, newName, newText).value == list[k := Task(newName, newText, list[k].status)]
  {
  }

  /** The checkbox handler: the clicked item's identifier is looked up, then
      the status at the position found is negated. The failure cases are
      those of `EditByName`. */
  function ToggleByName(list: seq<Task>, id: string): (r: Result<seq<Task>>)
    ensures r.Ok? <==> id != "" && exists i :: 0 <= i < |list| && list[i].name == id
    ensures id == "" ==> r == Err(NoTaskItem)
    ensures id != "" && r.Err? ==> r.error == NoTaskAt(-1)
    ensures r.Ok? ==> |r.value| == |list|
  {
    if id == "" then Err(NoTaskItem)
    else ChangeStatus(list, FindId(list, id))
  }

  /** A successful toggle by name negates the status of the first task with
      that name and changes nothing else. With a repeated name that first
      task is toggled, whichever of them was clicked. */
  lemma ToggleByNameFirstMatch(list: seq<Task>, id: string)
    requires ToggleByName(list, id).Ok?
    ensures
      var k := FindId(list, id);
      && 0 <= k < |list|
      && list[k].name == id
      && (forall j :: 0 <= j < k ==> list[j].name != id)
      && ToggleByName(list, id).value == list[k := list[k].(status := !list[k].status)]
  {
  }

  /** With unique names, the click handlers act on the clicked task itself. */
  lemma UniqueNamesClickHitsTask(list: seq<Task>, i: int)
    requires UniqueNames(list)
    requires 0 <= i < |list|
    ensures FindId(list, list[i].name) == i
  {
    FindIndexUnique(list, list[i].name, i);
  }
}
