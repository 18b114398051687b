/** The task records of the task-tracking service and the pure functions that
    specify what each repository operation does to the task collection. */
module Tasks {

  datatype Option<T> = None | Some(value: T)

  /** One stored task record. */
  datatype Task = Task(id: int, title: string, description: Option<string>, completed: bool)

  /** The body of a create or a full-replace update request. */
  datatype TaskInput = TaskInput(title: string, description: Option<string>, completed: bool)

  /** The only domain error: no task has the requested id (HTTP 404). */
  datatype Error = NotFound

  datatype Result<T> = Success(value: T) | Failure(error: Error)

  /** The integer part of the statistics reply. */
  datatype Summary = Summary(totalTasks: nat, completedCount: nat, pendingCount: nat)

  /** No two tasks of the collection share an id. */
  predicate UniqueIds(s: seq<Task>) {
    forall i, j :: 0 <= i < j < |s| ==> s[i].id != s[j].id
  }

  /** The largest id of a non-empty collection. */
  function MaxId(s: seq<Task>): (r: int)
    requires |s| > 0
    ensures forall k :: 0 <= k < |s| ==> s[k].id <= r
    ensures exists k :: 0 <= k < |s| && s[k].id == r
  {
    if |s| == 1 then s[0].id
    else
      var m := MaxId(s[1..]);
      assert forall k :: 1 <= k < |s| ==> s[k] == s[1..][k - 1];
      if s[0].id >= m then s[0].id else m
  }

  /** The id the next created task receives: 1 on an empty collection,
      otherwise one more than the largest id present. */
  function NextId(s: seq<Task>): (r: int)
    ensures |s| == 0 ==> r == 1
    ensures forall k :: 0 <= k < |s| ==> s[k].id < r
    ensures |s| > 0 ==> exists k :: 0 <= k < |s| && s[k].id == r - 1
  {
    if |s| == 0 then 1 else MaxId(s) + 1
  }

  /** The index of the first task with the given id, if there is one. */
  function FirstIndex(s: seq<Task>, id: int): (r: Option<nat>)
    ensures r.Some? ==> r.value < |s| && s[r.value].id == id
    ensures r.Some? ==> forall j :: 0 <= j < r.value ==> s[j].id != id
    ensures r.None? <==> forall j :: 0 <= j < |s| ==> s[j].id != id
  {
    if |s| == 0 then None
    else if s[0].id == id then Some(0)
    else
      assert forall j :: 1 <= j < |s| ==> s[j] == s[1..][j - 1];
      match FirstIndex(s[1..], id)
      case None => None
      case Some(k) => Some(k + 1)
  }

  /** The tasks whose completed flag equals the filter, in their original order. */
  function Filtered(s: seq<Task>, completed: bool): (r: seq<Task>)
    ensures |r| <= |s|
    ensures forall k :: 0 <= k < |r| ==> r[k].completed == completed
  {
    if |s| == 0 then []
    else (if s[0].completed == completed then [s[0]] else []) + Filtered(s[1..], completed)
  }

  /** The number of tasks whose completed flag is set. */
  function CountCompleted(s: seq<Task>): (n: nat)
    ensures n <= |s|
  {
    if |s| == 0 then 0
    else (if s[0].completed then 1 else 0) + CountCompleted(s[1..])
  }

  /** The collection after a create: the new task, with a fresh id and not
      completed whatever the request said, is appended at the end. */
  function Appended(s: seq<Task>, input: TaskInput): (r: seq<Task>)
    ensures |r| == |s| + 1 && r[..|s|] == s
    ensures r[|s|].id == NextId(s) && r[|s|].title == input.title
    ensures r[|s|].description == input.description && !r[|s|].completed
    ensures forall k :: 0 <= k < |s| ==> r[k].id < r[|s|].id
    ensures UniqueIds(s) ==> UniqueIds(r)
  {
    s + [Task(NextId(s), input.title, input.description, false)]
  }

  /** The collection after a full-replace update of the task at index i: only
      that element changes, and it keeps its id. */
  function Overwritten(s: seq<Task>, i: nat, input: TaskInput): (r: seq<Task>)
    requires i < |s|
    ensures |r| == |s|
    ensures forall j :: 0 <= j < |s| && j != i ==> r[j] == s[j]
    ensures r[i].id == s[i].id && r[i].title == input.title
    ensures r[i].description == input.description && r[i].completed == input.completed
    ensures UniqueIds(s) ==> UniqueIds(r)
  {
    s[i := Task(s[i].id, input.title, input.description, input.completed)]
  }

  /** The collection with the element at index i removed, the others keeping
      their relative order. */
  function Removed(s: seq<Task>, i: nat): (r: seq<Task>)
    requires i < |s|
    ensures |r| == |s| - 1
    ensures forall j :: 0 <= j < i ==> r[j] == s[j]
    ensures forall j :: i <= j < |r| ==> r[j] == s[j + 1]
    ensures multiset(r) + multiset{s[i]} == multiset(s)
    ensures UniqueIds(s) ==> UniqueIds(r)
  {
    assert s == s[..i] + [s[i]] + s[i + 1..];
    s[..i] + s[i + 1..]
  }

  // ---------------------------------------------------------------------
  // Filtering and counting

  /** Filtering distributes over concatenation: it keeps relative order. */
  lemma {:induction false} FilteredAppend(a: seq<Task>, b: seq<Task>, completed: bool)
    ensures Filtered(a + b, completed) == Filtered(a, completed) + Filtered(b, completed)
  {
    if |a| == 0 {
      assert a + b == b;
    } else {
      assert (a + b)[1..] == a[1..] + b;
      FilteredAppend(a[1..], b, completed);
    }
  }

  /** A task is kept by the filter exactly when it is in the collection and
      its completed flag equals the filter. */
  lemma {:induction false} FilteredMembership(s: seq<Task>, completed: bool, t: Task)
    ensures t in Filtered(s, completed) <==> t in s && t.completed == completed
  {
    if |s| > 0 {
      FilteredMembership(s[1..], completed, t);
      assert s == [s[0]] + s[1..];
    }
  }

  /** The two filters together keep every task exactly once. */
  lemma {:induction false} FilteredPartition(s: seq<Task>)
    ensures multiset(Filtered(s, true)) + multiset(Filtered(s, false)) == multiset(s)
    ensures |Filtered(s, true)| + |Filtered(s, false)| == |s|
  {
    if |s| > 0 {
      FilteredPartition(s[1..]);
      assert s == [s[0]] + s[1..];
    }
  }

  /** Counting distributes over concatenation. */
  lemma {:induction false} CountCompletedAppend(a: seq<Task>, b: seq<Task>)
    ensures CountCompleted(a + b) == CountCompleted(a) + CountCompleted(b)
  {
    if |a| == 0 {
      assert a + b == b;
    } else {
      assert (a + b)[1..] == a[1..] + b;
      CountCompletedAppend(a[1..], b);
    }
  }

  /** The completed count is the length of the completed filter, and the
      pending count the length of the pending filter. */
  lemma {:induction false} CountIsFilteredLength(s: seq<Task>)
    ensures CountCompleted(s) == |Filtered(s, true)|
    ensures |s| - CountCompleted(s) == |Filtered(s, false)|
  {
    if |s| > 0 {
      CountIsFilteredLength(s[1..]);
    }
  }

  // ---------------------------------------------------------------------
  // Lookup, id assignment and the mutations

  /** Under unique ids the first match is the only match. */
  lemma FoundIsOnly(s: seq<Task>, id: int, k: nat)
    requires UniqueIds(s) && k < |s| && s[k].id == id
    ensures FirstIndex(s, id) == Some(k)
  {
    var r := FirstIndex(s, id);
    assert r.Some?;
  }

  /** A created task can be looked up by the id it was given. */
  lemma CreatedIsFound(s: seq<Task>, input: TaskInput)
    ensures FirstIndex(Appended(s, input), NextId(s)) == Some(|s|)
  {
    var r := Appended(s, input);
    assert forall k :: 0 <= k < |s| ==> r[k] == s[k];
  }

  /** A created task is pending, so it adds nothing to the completed count
      and joins the end of the pending list. */
  lemma CreatedIsPending(s: seq<Task>, input: TaskInput)
    ensures CountCompleted(Appended(s, input)) == CountCompleted(s)
    ensures Filtered(Appended(s, input), false) == Filtered(s, false) + [Appended(s, input)[|s|]]
  {
    var r := Appended(s, input);
    var t := r[|s|];
    assert r == s + [t];
    assert CountCompleted([t]) == 0;
    assert Filtered([t], false) == [t];
    CountCompletedAppend(s, [t]);
    FilteredAppend(s, [t], false);
  }

  /** Each create raises the next id by exactly one. */
  lemma NextIdAfterCreate(s: seq<Task>, input: TaskInput)
    ensures NextId(Appended(s, input)) == NextId(s) + 1
  {
    var r := Appended(s, input);
    assert forall k :: 0 <= k < |s| ==> r[k] == s[k];
  }

  /** Ids are not kept by a counter: deleting the task just created (the one
      with the largest id) makes the next create reuse its id. */
  lemma IdReusedAfterDeletingNewest(s: seq<Task>, input: TaskInput)
    ensures NextId(Removed(Appended(s, input), |s|)) == NextId(s)
  {
    var r := Removed(Appended(s, input), |s|);
    assert r == s;
  }

  /** After a delete the next id is one more than the largest remaining id,
      so it never grows while a task remains; deleting a task whose id is
      not the largest leaves it unchanged, and only deleting a task holding
      the largest id can lower it. */
  lemma {:induction false} NextIdAfterDelete(s: seq<Task>, i: nat)
    requires i < |s|
    ensures |s| > 1 ==> NextId(Removed(s, i)) <= NextId(s)
    ensures s[i].id < NextId(s) - 1 ==> NextId(Removed(s, i)) == NextId(s)
  {
    var r := Removed(s, i);
    if |s| > 1 {
      var k :| 0 <= k < |r| && r[k].id == NextId(r) - 1;
      if k < i {
        assert r[k] == s[k];
      } else {
        assert r[k] == s[k + 1];
      }
    }
    if s[i].id < NextId(s) - 1 {
      var m :| 0 <= m < |s| && s[m].id == NextId(s) - 1;
      if m < i {
        assert r[m] == s[m];
      } else {
        assert r[m - 1] == s[m];
      }
    }
  }

  /** An update keeps the task at the same index and findable by its id. */
  lemma UpdatedIsFound(s: seq<Task>, id: int, input: TaskInput)
    requires FirstIndex(s, id).Some?
    ensures FirstIndex(Overwritten(s, FirstIndex(s, id).value, input), id) == FirstIndex(s, id)
  {
    var i := FirstIndex(s, id).value;
    var r := Overwritten(s, i, input);
    assert r[i].id == id;
  }

  /** Under unique ids a deleted task can no longer be found. */
  lemma DeletedIsGone(s: seq<Task>, id: int)
    requires UniqueIds(s) && FirstIndex(s, id).Some?
    ensures FirstIndex(Removed(s, FirstIndex(s, id).value), id).None?
  {
    var i := FirstIndex(s, id).value;
    var r := Removed(s, i);
    forall j | 0 <= j < |r| ensures r[j].id != id {
      if j >= i {
        assert r[j] == s[j + 1];
      }
    }
  }
}
