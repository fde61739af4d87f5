/**
 The in-memory task store of the to-do widget (`TaskListModel`): an ordered
 list of task records with append, lookup by name, status toggle, removal by
 name and a total/completed summary.

 The store is a value of type `seq<Task>`; every mutating operation of
 `src/index.js` becomes a function from the old list to the new one. Recursive
 definitions peel off the LAST entry, because the only way the store grows
 is by appending.
 */
module TaskListModel {

  /** One to-do entry. `name` doubles as the entry's identifier. */
  datatype Task = Task(name: string, text: string, status: bool)

  /** The value of `.name` read off whatever is handed to the existence check:
      a task record yields its name, an object without a `name` property
      (such as the list itself) yields `undefined`. */
  datatype NameField = Defined(value: string) | Undefined

  /** The program's runtime faults, each a TypeError there.
      `NoTaskAt`: indexing a position the list does not have dereferences
      `undefined`. `NoTaskItem`: a click whose ancestors carry no truthy
      task identifier walks past the root element and reads `null.dataset`. */
  datatype StoreError = NoTaskAt(index: int) | NoTaskItem

  datatype Result<T> = Ok(value: T) | Err(error: StoreError)

  /** What `getSummary` reports. */
  datatype Summary = Summary(total: nat, completed: nat)

  /** Strict equality `elem.name === key`: a string never equals `undefined`. */
  predicate NameMatches(t: Task, key: NameField) {
    key.Defined? && t.name == key.value
  }

  /** Every name occurs at most once: the invariant the widget relies on
      when it uses a name to find a task's position. */
  predicate UniqueNames(list: seq<Task>) {
    forall i, j :: 0 <= i < j < |list| ==> list[i].name != list[j].name
  }

  function Last(list: seq<Task>): Task
    requires |list| > 0
  {
    list[|list| - 1]
  }

  function Init(list: seq<Task>): seq<Task>
    requires |list| > 0
  {
    list[..|list| - 1]
  }

  /** `add`: append a new record; every earlier record stays where it was. */
  function Add(list: seq<Task>, name: string, text: string, status: bool): (r: seq<Task>)
    ensures |r| == |list| + 1
    ensures r[..|list|] == list
    ensures Last(r) == Task(name, text, status)
  {
    list + [Task(name, text, status)]
  }

  /** `#getTaskIndex`: the first position whose name equals `key`, or -1. */
  function FindIndex(list: seq<Task>, key: NameField): (r: int)
    ensures -1 <= r < |list|
    ensures r == -1 <==> forall i :: 0 <= i < |list| ==> !NameMatches(list[i], key)
    ensures r >= 0 ==> NameMatches(list[r], key)
    ensures r >= 0 ==> forall j :: 0 <= j < r ==> !NameMatches(list[j], key)
  {
    if |list| == 0 then -1
    else
      var k := FindIndex(Init(list), key);
      if k != -1 then k
      else if NameMatches(Last(list), key) then |list| - 1
      else -1
  }

  /** `checkTaskExists`: whether some record's name equals the argument's `.name`. */
  function CheckTaskExists(list: seq<Task>, key: NameField): (r: bool)
    ensures r <==> exists i :: 0 <= i < |list| && NameMatches(list[i], key)
  {
    FindIndex(list, key) != -1
  }

  /** `changeStatus`: negate the status of the record at `id`; an index
      outside the list is a TypeError in the program. */
  function ChangeStatus(list: seq<Task>, id: int): (r: Result<seq<Task>>)
    ensures r.Err? <==> !(0 <= id < |list|)
    ensures r.Err? ==> r.error == NoTaskAt(id)
    ensures r.Ok? ==> |r.value| == |list|
    ensures r.Ok? ==> r.value[id].status == !list[id].status
    ensures r.Ok? ==> r.value[id].name == list[id].name && r.value[id].text == list[id].text
    ensures r.Ok? ==> forall j :: 0 <= j < |list| && j != id ==> r.value[j] == list[j]
  {
    if 0 <= id < |list| then
      Ok(list[id := list[id].(status := !list[id].status)])
    else
      Err(NoTaskAt(id))
  }

  /** Number of records named `key`. */
  function CountNamed(list: seq<Task>, key: string): (n: nat)
    ensures n <= |list|
    ensures n == 0 <==> forall i :: 0 <= i < |list| ==> list[i].name != key
  {
    if |list| == 0 then 0
    else CountNamed(Init(list), key) + (if Last(list).name == key then 1 else 0)
  }

  /** The positions holding a record named `key`: an independent reference
      for the count of records `remove` drops. */
  function NamedPositions(list: seq<Task>, key: string): set<int> {
    set i | 0 <= i < |list| && list[i].name == key
  }

  /** The recursive count of records named `key` is the number of positions
      holding such a record. */
  lemma {:induction false} CountNamedIsPositions(list: seq<Task>, key: string)
    ensures CountNamed(list, key) == |NamedPositions(list, key)|
  {
    if |list| == 0 {
      assert NamedPositions(list, key) == {};
    } else {
      var p := Init(list);
      CountNamedIsPositions(p, key);
      var extra: set<int> := if Last(list).name == key then {|p|} else {};
      assert NamedPositions(list, key) == NamedPositions(p, key) + extra;
      assert |p| !in NamedPositions(p, key);
    }
  }

  /** `remove`: keep exactly the records whose name differs from `key`. */
  function Remove(list: seq<Task>, key: string): (r: seq<Task>)
    ensures |r| == |list| - CountNamed(list, key)
    ensures forall i :: 0 <= i < |r| ==> r[i].name != key
  {
    if |list| == 0 then []
    else
      var r0 := Remove(Init(list), key);
      if Last(list).name == key then r0 else r0 + [Last(list)]
  }

  /** 1 for a completed record, 0 otherwise. */
  function Done(t: Task): nat {
    if t.status then 1 else 0
  }

  /** Number of completed records. */
  function CountCompleted(list: seq<Task>): (n: nat)
    ensures n <= |list|
    ensures n == 0 <==> forall i :: 0 <= i < |list| ==> !list[i].status
    ensures n == |list| <==> forall i :: 0 <= i < |list| ==> list[i].status
  {
    if |list| == 0 then 0
    else CountCompleted(Init(list)) + Done(Last(list))
  }

  /** The positions holding a completed record: an independent reference for
      the completed count. */
  function CompletedPositions(list: seq<Task>): set<int> {
    set i | 0 <= i < |list| && list[i].status
  }

  /** `getSummary`: the total and the completed counts, recomputed from the list. */
  function GetSummary(list: seq<Task>): (s: Summary)
    ensures s.total == |list|
    ensures s.completed == |CompletedPositions(list)|
    ensures s.completed <= s.total
  {
    CompletedCountIsPositions(list);
    Summary(|list|, CountCompleted(list))
  }

  /** The recursive completed count is the number of completed positions. */
  lemma {:induction false} CompletedCountIsPositions(list: seq<Task>)
    ensures CountCompleted(list) == |CompletedPositions(list)|
  {
    if |list| == 0 {
      assert CompletedPositions(list) == {};
    } else {
      var p := Init(list);
      CompletedCountIsPositions(p);
      var extra: set<int> := if Last(list).status then {|p|} else {};
      assert CompletedPositions(list) == CompletedPositions(p) + extra;
      assert |p| !in CompletedPositions(p);
    }
  }

  /** After `add` the total grows by one, and the completed count grows by
      one exactly when the new record is completed. */
  lemma AddSummary(list: seq<Task>, name: string, text: string, status: bool)
    ensures GetSummary(Add(list, name, text, status)).total == GetSummary(list).total + 1
    ensures GetSummary(Add(list, name, text, status)).completed
         == GetSummary(list).completed + (if status then 1 else 0)
  {
    var r := Add(list, name, text, status);
    CompletedCountIsPositions(list);
    CompletedCountIsPositions(r);
    assert Init(r) == list;
  }

  /** A freshly added record can be found by its name. */
  lemma AddThenExists(list: seq<Task>, name: string, text: string, status: bool)
    ensures CheckTaskExists(Add(list, name, text, status), Defined(name))
  {
    var r := Add(list, name, text, status);
    assert NameMatches(r[|list|], Defined(name));
  }

  /** Replacing one record changes the completed count by the difference of
      the two records' completion. */
  lemma {:induction false} CountCompletedUpdate(list: seq<Task>, i: int, t: Task)
    requires 0 <= i < |list|
    ensures CountCompleted(list[i := t]) + Done(list[i]) == CountCompleted(list) + Done(t)
  {
    var u := list[i := t];
    if i == |list| - 1 {
      assert Init(u) == Init(list);
    } else {
      assert Init(u) == Init(list)[i := t];
      CountCompletedUpdate(Init(list), i, t);
    }
  }

  /** `changeStatus` twice at the same position restores the list. */
  lemma ChangeStatusSelfInverse(list: seq<Task>, id: int)
    requires ChangeStatus(list, id).Ok?
    ensures ChangeStatus(ChangeStatus(list, id).value, id) == Ok(list)
  {
    var once := ChangeStatus(list, id).value;
    var twice := ChangeStatus(once, id).value;
    assert twice == list;
  }

  /** `changeStatus` keeps the total and moves the completed count by one,
      up for a pending record and down for a completed one. */
  lemma ChangeStatusSummary(list: seq<Task>, id: int)
    requires ChangeStatus(list, id).Ok?
    ensures GetSummary(ChangeStatus(list, id).value).total == GetSummary(list).total
    ensures GetSummary(ChangeStatus(list, id).value).completed
         == if list[id].status then GetSummary(list).completed - 1
            else GetSummary(list).completed + 1
  {
    var r := ChangeStatus(list, id).value;
    assert r == list[id := r[id]];
    CountCompletedUpdate(list, id, r[id]);
    CompletedCountIsPositions(list);
    CompletedCountIsPositions(r);
  }

  /** `changeStatus` keeps every name, so it keeps names unique. */
  lemma ChangeStatusKeepsUniqueNames(list: seq<Task>, id: int)
    requires UniqueNames(list)
    requires ChangeStatus(list, id).Ok?
    ensures UniqueNames(ChangeStatus(list, id).value)
  {
  }

  /** Removing a name nobody has leaves the list as it is. */
  lemma {:induction false} RemoveAbsent(list: seq<Task>, key: string)
    requires forall i :: 0 <= i < |list| ==> list[i].name != key
    ensures Remove(list, key) == list
  {
    if |list| > 0 {
      RemoveAbsent(Init(list), key);
      assert Init(list) + [Last(list)] == list;
    }
  }

  /** `remove` is idempotent. */
  lemma RemoveIdempotent(list: seq<Task>, key: string)
    ensures Remove(Remove(list, key), key) == Remove(list, key)
  {
    RemoveAbsent(Remove(list, key), key);
  }

  /** Removing a name that was not present before an `add` of that name
      undoes the `add`. */
  lemma RemoveUndoesAdd(list: seq<Task>, name: string, text: string, status: bool)
    requires !CheckTaskExists(list, Defined(name))
    ensures Remove(Add(list, name, text, status), name) == list
  {
    var r := Add(list, name, text, status);
    assert Init(r) == list;
    assert forall i :: 0 <= i < |list| ==> !NameMatches(list[i], Defined(name));
    RemoveAbsent(list, name);
  }

  /** Positions of the records `remove` keeps: increasing, and exactly the
      positions whose name differs from `key`. */
  function KeptPositions(list: seq<Task>, key: string): (pos: seq<int>)
    ensures forall j :: 0 <= j < |pos| ==> 0 <= pos[j] < |list|
    ensures forall j, k :: 0 <= j < k < |pos| ==> pos[j] < pos[k]
    ensures forall i :: 0 <= i < |list| ==> (i in pos <==> list[i].name != key)
  {
    if |list| == 0 then []
    else
      var p := KeptPositions(Init(list), key);
      if Last(list).name == key then p else p + [|list| - 1]
  }

  /** `remove` keeps the surviving records in their original relative order:
      its result is the list read at the kept positions, in order. */
  lemma {:induction false} RemoveKeepsOrder(list: seq<Task>, key: string)
    ensures |KeptPositions(list, key)| == |Remove(list, key)|
    ensures forall j :: 0 <= j < |KeptPositions(list, key)| ==>
              Remove(list, key)[j] == list[KeptPositions(list, key)[j]]
  {
    if |list| > 0 {
      var p := Init(list);
      RemoveKeepsOrder(p, key);
      var pos0 := KeptPositions(p, key);
      var r0 := Remove(p, key);
      forall j | 0 <= j < |pos0|
        ensures r0[j] == list[pos0[j]]
      {
        assert r0[j] == p[pos0[j]];
      }
      if Last(list).name != key {
        var pos := pos0 + [|list| - 1];
        var r := r0 + [Last(list)];
        assert KeptPositions(list, key) == pos && Remove(list, key) == r;
        forall j | 0 <= j < |pos|
          ensures r[j] == list[pos[j]]
        {
          if j < |pos0| {
            assert r[j] == r0[j] && pos[j] == pos0[j];
          }
        }
      }
    }
  }

  /** A record survives `remove` exactly when it was in the list under a
      different name. */
  lemma RemoveMembers(list: seq<Task>, key: string, t: Task)
    ensures t in Remove(list, key) <==> t in list && t.name != key
  {
    RemoveKeepsOrder(list, key);
    var r := Remove(list, key);
    var pos := KeptPositions(list, key);
    if t in r {
      var j :| 0 <= j < |r| && r[j] == t;
      assert list[pos[j]] == t;
    }
    if t in list && t.name != key {
      var i :| 0 <= i < |list| && list[i] == t;
      assert i in pos;
      var j :| 0 <= j < |pos| && pos[j] == i;
      assert r[j] == t;
    }
  }

  /** `remove` keeps names unique, since it only drops records. */
  lemma RemoveKeepsUniqueNames(list: seq<Task>, key: string)
    requires UniqueNames(list)
    ensures UniqueNames(Remove(list, key))
  {
    RemoveKeepsOrder(list, key);
    var r := Remove(list, key);
    var pos := KeptPositions(list, key);
    forall i, j | 0 <= i < j < |r|
      ensures r[i].name != r[j].name
    {
      assert r[i] == list[pos[i]] && r[j] == list[pos[j]];
      assert pos[i] < pos[j];
    }
  }

  /** With unique names `remove` deletes at most one record. */
  lemma {:induction false} UniqueNamesRemoveAtMostOne(list: seq<Task>, key: string)
    requires UniqueNames(list)
    ensures CountNamed(list, key) <= 1
    ensures |Remove(list, key)| >= |list| - 1
  {
    if |list| > 0 {
      var p := Init(list);
      assert UniqueNames(p);
      UniqueNamesRemoveAtMostOne(p, key);
      if Last(list).name == key {
        assert forall i :: 0 <= i < |p| ==> p[i].name != key by {
          forall i | 0 <= i < |p| ensures p[i].name != key {
            assert list[i].name != list[|list| - 1].name;
          }
        }
      }
    }
  }

  /** `remove` shrinks the total by the number of records it deletes and
      never raises the completed count; removing an absent name changes
      nothing. */
  lemma RemoveSummary(list: seq<Task>, key: string)
    ensures GetSummary(Remove(list, key)).total == GetSummary(list).total - CountNamed(list, key)
    ensures GetSummary(Remove(list, key)).completed <= GetSummary(list).completed
    ensures CountNamed(list, key) == 0 ==> GetSummary(Remove(list, key)) == GetSummary(list)
  {
    RemoveCompleted(list, key);
    CompletedCountIsPositions(list);
    CompletedCountIsPositions(Remove(list, key));
    if CountNamed(list, key) == 0 {
      RemoveAbsent(list, key);
    }
  }

  /** Filtering records out never raises the completed count. */
  lemma {:induction false} RemoveCompleted(list: seq<Task>, key: string)
    ensures CountCompleted(Remove(list, key)) <= CountCompleted(list)
  {
    if |list| > 0 {
      var p := Init(list);
      RemoveCompleted(p, key);
      var r0 := Remove(p, key);
      if Last(list).name != key {
        assert Init(r0 + [Last(list)]) == r0;
      }
    }
  }

  /** With unique names, the index of a present name is its only position. */
  lemma FindIndexUnique(list: seq<Task>, name: string, i: int)
    requires UniqueNames(list)
    requires 0 <= i < |list| && list[i].name == name
    ensures FindIndex(list, Defined(name)) == i
  {
    var k := FindIndex(list, Defined(name));
    assert k != -1 by {
      assert NameMatches(list[i], Defined(name));
    }
  }

  /** The summary scenario: add a pending task, toggle it, remove it. */
  lemma Scenario()
    ensures var l1 := Add([], "Buy milk", "2%", false);
      && GetSummary(l1) == Summary(1, 0)
      && ChangeStatus(l1, 0).Ok?
      && GetSummary(ChangeStatus(l1, 0).value) == Summary(1, 1)
      && GetSummary(Remove(ChangeStatus(l1, 0).value, "Buy milk")) == Summary(0, 0)
  {
    var l1 := Add([], "Buy milk", "2%", false);
    AddSummary([], "Buy milk", "2%", false);
    ChangeStatusSummary(l1, 0);
    var l2 := ChangeStatus(l1, 0).value;
    assert Remove(l2, "Buy milk") == [] by {
      assert Init(l2) == [];
    }
  }
}
