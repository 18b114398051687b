/** The request handlers of the task-tracking service, as methods of a
    repository object whose `tasks` field is the collection held in the
    store. Each handler reads the collection, scans or changes it, and leaves
    in `tasks` what it would save. */
module Repository {
  import opened Tasks

  class TaskRepository {
    /** The task collection, in stored order. */
    var tasks: seq<Task>

    /** A repository over the collection the store currently holds. */
    constructor (stored: seq<Task>)
      ensures tasks == stored
    {
      tasks := stored;
    }

    /** Scans for the first task with the given id. */
    method FindTaskById(id: int) returns (r: Option<Task>)
      ensures r.None? <==> FirstIndex(tasks, id).None?
      ensures r.Some? ==> r == Some(tasks[FirstIndex(tasks, id).value])
    {
      var i := 0;
      while i < |tasks|
        invariant 0 <= i <= |tasks|
        invariant forall j :: 0 <= j < i ==> tasks[j].id != id
      {
        if tasks[i].id == id {
          return Some(tasks[i]);
        }
        i := i + 1;
      }
      return None;
    }

    /** The single-task lookup endpoint: the task, or NotFound. */
    method GetTask(id: int) returns (r: Result<Task>)
      ensures r == Failure(NotFound) <==> FirstIndex(tasks, id).None?
      ensures r.Success? ==> r.value == tasks[FirstIndex(tasks, id).value] && r.value.id == id
    {
      var found := FindTaskById(id);
      if found.None? {
        return Failure(NotFound);
      }
      return Success(found.value);
    }

    /** The listing endpoint: everything, or only the tasks whose completed
        flag equals the filter, in stored order. */
    method GetAllTasks(completed: Option<bool>) returns (r: seq<Task>)
      ensures completed.None? ==> r == tasks
      ensures completed.Some? ==> r == Filtered(tasks, completed.value)
    {
      if completed.None? {
        return tasks;
      }
      var wanted := completed.value;
      r := [];
      var i := 0;
      while i < |tasks|
        invariant 0 <= i <= |tasks|
        invariant r == Filtered(tasks[..i], wanted)
      {
        var t := tasks[i];
        assert Filtered([t], wanted) == if t.completed == wanted then [t] else [];
        FilteredAppend(tasks[..i], [t], wanted);
        assert tasks[..i + 1] == tasks[..i] + [t];
        if t.completed == wanted {
          r := r + [t];
        }
        i := i + 1;
      }
      assert tasks[..i] == tasks;
    }

    /** The statistics endpoint, without the percentage: the number of tasks,
        how many are completed and how many are pending. */
    method Summarise() returns (r: Summary)
      ensures r.totalTasks == |tasks|
      ensures r.completedCount == CountCompleted(tasks)
      ensures r.completedCount + r.pendingCount == r.totalTasks
    {
      var completedCount := 0;
      var i := 0;
      while i < |tasks|
        invariant 0 <= i <= |tasks|
        invariant completedCount == CountCompleted(tasks[..i])
      {
        var t := tasks[i];
        assert CountCompleted([t]) == if t.completed then 1 else 0;
        CountCompletedAppend(tasks[..i], [t]);
        assert tasks[..i + 1] == tasks[..i] + [t];
        if t.completed {
          completedCount := completedCount + 1;
        }
        i := i + 1;
      }
      assert tasks[..i] == tasks;
      r := Summary(|tasks|, completedCount, |tasks| - completedCount);
    }

    /** The index search shared by update and delete: the first index whose
        task has the given id. */
    method LocateTask(id: int) returns (index: Option<nat>)
      ensures index == FirstIndex(tasks, id)
    {
      index := None;
      var i := 0;
      while i < |tasks|
        invariant 0 <= i <= |tasks|
        invariant forall j :: 0 <= j < i ==> tasks[j].id != id
      {
        if tasks[i].id == id {
          index := Some(i);
          break;
        }
        i := i + 1;
      }
    }

    /** The create endpoint: appends a task with the next id and completed
        cleared, whatever the request said, and returns it. */
    method CreateTask(input: TaskInput) returns (t: Task)
      modifies this
      ensures tasks == Appended(old(tasks), input)
      ensures t == tasks[|old(tasks)|]
      ensures t.id == NextId(old(tasks)) && !t.completed
      ensures UniqueIds(old(tasks)) ==> UniqueIds(tasks)
    {
      t := Task(NextId(tasks), input.title, input.description, false);
      tasks := tasks + [t];
    }

    /** The full-replace update endpoint: NotFound and no change when no task
        has the id; otherwise the first such task takes the new title,
        description and completed flag, keeps its id, and is returned. */
    method UpdateTask(id: int, input: TaskInput) returns (r: Result<Task>)
      modifies this
      ensures FirstIndex(old(tasks), id).None? ==> r == Failure(NotFound) && tasks == old(tasks)
      ensures FirstIndex(old(tasks), id).Some? ==>
        var i := FirstIndex(old(tasks), id).value;
        tasks == Overwritten(old(tasks), i, input) && r == Success(tasks[i]) && r.value.id == id
      ensures UniqueIds(old(tasks)) ==> UniqueIds(tasks)
    {
      var index := LocateTask(id);
      if index.None? {
        return Failure(NotFound);
      }
      var i := index.value;
      tasks := tasks[i := Task(tasks[i].id, input.title, input.description, input.completed)];
      return Success(tasks[i]);
    }

    /** The single-delete endpoint: NotFound and no change when no task has
        the id; otherwise the first such task is removed and returned. */
    method DeleteTask(id: int) returns (r: Result<Task>)
      modifies this
      ensures FirstIndex(old(tasks), id).None? ==> r == Failure(NotFound) && tasks == old(tasks)
      ensures FirstIndex(old(tasks), id).Some? ==>
        var i := FirstIndex(old(tasks), id).value;
        tasks == Removed(old(tasks), i) && r == Success(old(tasks)[i]) && r.value.id == id
      ensures UniqueIds(old(tasks)) ==> UniqueIds(tasks)
    {
      var index := LocateTask(id);
      if index.None? {
        return Failure(NotFound);
      }
      var i := index.value;
      var deleted := tasks[i];
      tasks := tasks[..i] + tasks[i + 1..];
      return Success(deleted);
    }

    /** The delete-all endpoint: the collection becomes empty, so the next
        create is given id 1. */
    method DeleteAllTasks()
      modifies this
      ensures tasks == [] && NextId(tasks) == 1
    {
      tasks := [];
    }
  }

  /** Calls the endpoints in sequence from an empty store and asserts the ids
      handed out: ids 1 and 2 are assigned, deleting id 1 leaves the largest
      id 2 in place, so the next create gets 3 rather than a reused 1. */
  method ClientCreateDeleteCreate() {
    var repo := new TaskRepository([]);
    var a := repo.CreateTask(TaskInput("A", None, false));
    assert a.id == 1 && !a.completed && repo.tasks == [a];
    var b := repo.CreateTask(TaskInput("B", Some("second"), true));
    assert b.id == 2 && !b.completed && repo.tasks == [a, b];
    var d := repo.DeleteTask(1);
    assert FirstIndex([a, b], 1) == Some(0);
    assert d == Success(a) && repo.tasks == [b];
    var c := repo.CreateTask(TaskInput("C", None, false));
    assert c.id == 3;
  }

  /** Calls the endpoints in sequence and asserts the ids handed out: the
      task just created is deleted before any other create, so its id is
      handed out again; an update of a missing id fails. */
  method ClientIdReuse(t: Task) {
    var repo := new TaskRepository([t]);
    var c := repo.CreateTask(TaskInput("C", None, true));
    assert c.id == t.id + 1 && repo.tasks == [t, c];
    var d := repo.DeleteTask(c.id);
    assert FirstIndex([t, c], c.id) == Some(1);
    assert repo.tasks == [t];
    var c2 := repo.CreateTask(TaskInput("D", None, false));
    assert c2.id == c.id;
    var u := repo.UpdateTask(t.id - 1, TaskInput("X", None, true));
    assert u == Failure(NotFound);
    repo.DeleteAllTasks();
    var all := repo.GetAllTasks(None);
    assert all == [];
  }
}
