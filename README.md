# Task repository of a task-tracking HTTP service

The service keeps a collection of task records, each with an integer `id`, a
`title`, an optional `description` and a `completed` flag. Its endpoints list
(optionally filtered by `completed`), summarise, look up, create, fully update,
delete one and delete all tasks. Every endpoint except the root message loads
the whole collection and works on it in memory. The mutating endpoints then
save it back without checking whether anything changed: create and delete-all
always, update and delete once the id is found (main.py:113, 132, 149, 157).

This project models that in-memory logic in Dafny:

- `tasks.dfy`, module `Tasks`: the records (`Task`, the request body
  `TaskInput`, the single error `NotFound`, a `Result`), the id assignment
  `NextId` (the source's `get_next_id`), and pure functions that specify each
  operation: `FirstIndex` (first task with an id), `Filtered`,
  `CountCompleted`, `Appended`, `Overwritten`, `Removed`. Lemmas relate them
  to each other.
- `repository.dfy`, module `Repository`: class `TaskRepository`, whose field
  `tasks` stands for the collection held in the store. Each handler is a
  method with the source's loop: a scan with early return, a filtering loop,
  a counting loop, an index search with `break`, and in-place update, pop,
  append and clear. Each method is proved against the functions of `Tasks`.
  Two client methods call the endpoints in sequence and assert the ids handed
  out (`ClientCreateDeleteCreate`, `ClientIdReuse`).

The source's `find_task_by_id` and `get_next_id` reload the store. Within one
request they see the collection the handler already holds, so the model reads
`tasks`.

Ids are not kept in a counter. The next id is one more than the largest id
present. So after a delete, the next id is one more than the largest
remaining id. While a task remains, a delete never raises the next id, and
deleting a task whose id is not the largest leaves it unchanged
(`NextIdAfterDelete`). Deleting the most recently created task, before any
other create, makes its id the next id again (`IdReusedAfterDeletingNewest`).
Deleting id 1 from tasks with ids 1 and 2 does not free id 1: the next create
gets id 3 (`ClientCreateDeleteCreate`).

## Model

| member | source | states |
|---|---|---|
| Tasks.MaxId | main.py:50 | the result is at least every id in the non-empty collection and is the id of one of its tasks |
| Tasks.NextId | main.py:45-51 | 1 on an empty collection; otherwise strictly greater than every id, and exactly one more than some existing id (the maximum) |
| Tasks.FirstIndex | main.py:38-43 | when some task has the id, the index of the first such task (no earlier task has it); None exactly when no task has the id |
| Tasks.Filtered | main.py:64-69 | every task kept has the requested completed flag, and the result is no longer than the collection |
| Tasks.CountCompleted | main.py:75-78 | the completed count never exceeds the number of tasks |
| Tasks.Appended | main.py:104-113 | the collection grows by one at the end, earlier tasks are unchanged, and the new task has id NextId, the given title and description and completed false; its id exceeds every earlier id; unique ids stay unique |
| Tasks.Overwritten | main.py:129-131 | the length is unchanged, only index i changes, and that task keeps its id and takes the new title, description and completed; unique ids stay unique |
| Tasks.Removed | main.py:148 | the length drops by one, tasks before i keep their place, later tasks shift down by one, the multiset loses exactly the removed task, and unique ids stay unique |
| Tasks.FilteredAppend | main.py:64-67 | filtering distributes over concatenation, so the filter keeps relative order |
| Tasks.FilteredMembership | main.py:65-67 | a task is in the filtered list exactly when it is in the collection and its completed flag equals the filter |
| Tasks.FilteredPartition | main.py:61-69 | the completed and pending filters together hold every task exactly once (as multisets), so their lengths add up to the total |
| Tasks.CountCompletedAppend | main.py:75-78 | the completed count of a concatenation is the sum of the counts |
| Tasks.CountIsFilteredLength | main.py:75-80 | the completed count is the length of the completed filter, and total minus completed is the length of the pending filter |
| Tasks.FoundIsOnly | main.py:38-43 | under unique ids, the task found by id is the only task with that id |
| Tasks.CreatedIsFound | main.py:104-114 | the task just created is found by lookup of its assigned id, at the last index |
| Tasks.CreatedIsPending | main.py:105-112 | a created task leaves the completed count unchanged and appears at the end of the pending list |
| Tasks.NextIdAfterCreate | main.py:45-51 | after a create the next id is exactly one more than before |
| Tasks.IdReusedAfterDeletingNewest | main.py:45-51 | deleting the task just created, before any other create, brings the next id back to that task's id (no persisted counter) |
| Tasks.NextIdAfterDelete | main.py:45-51 | while at least one task remains, a delete never raises the next id; deleting a task whose id is below the largest leaves the next id unchanged (deleting the last task makes it 1, whatever the deleted id was) |
| Tasks.UpdatedIsFound | main.py:120-133 | after an update the same id is still found at the same index |
| Tasks.DeletedIsGone | main.py:139-148 | under unique ids, after a delete no task with that id remains |
| Repository.TaskRepository.FindTaskById | main.py:38-43 | returns None exactly when no task has the id; otherwise the first task with that id |
| Repository.TaskRepository.GetTask | main.py:95-100 | NotFound exactly when no task has the id; otherwise the first task with that id |
| Repository.TaskRepository.GetAllTasks | main.py:57-69 | without a filter the whole collection; with one, exactly the tasks whose completed flag matches, in stored order |
| Repository.TaskRepository.Summarise | main.py:71-90 | the total is the number of tasks, the completed count is the number of completed tasks, and completed plus pending is the total |
| Repository.TaskRepository.LocateTask | main.py:120-124 | the first index whose task has the id, or None when there is none (the same loop is at main.py:139-143) |
| Repository.TaskRepository.CreateTask | main.py:102-114 | the collection becomes the old one with the new task appended; the returned task is that appended task, with id NextId of the old collection and completed false; unique ids stay unique |
| Repository.TaskRepository.UpdateTask | main.py:116-133 | NotFound and no change when no task has the id; otherwise the first match is overwritten in place with its id kept and is returned; unique ids stay unique |
| Repository.TaskRepository.DeleteTask | main.py:135-150 | NotFound and no change when no task has the id; otherwise the first match is removed and returned; unique ids stay unique |
| Repository.TaskRepository.DeleteAllTasks | main.py:152-158 | the collection is empty afterwards, so the next id is 1 |

## Left out

- Persistence (`load_tasks`, `save_tasks`, main.py:21-36) is file I/O and JSON encoding through library calls. The store is the `tasks` field, the constructor stands for a load, and a save is the field's new value. The code does not skip blank lines: it decodes every stripped line, and an empty line would fail to decode. That failure is outside the model.
- HTTP routing, status codes and `HTTPException`: a missing task is the `Failure(NotFound)` result. The fixed reply messages ("Task deleted successfully", "Task not found", the root endpoint's message) are constant strings and are not modelled.
- Request validation by pydantic: `TaskInput` and `Task` are plain datatypes, so the model accepts any title, as the source does.
- Repository.TaskRepository.Summarise: does not compute the completion percentage. It is a floating-point quotient formatted to two decimals (main.py:82-85, 91).
- The lost-update race between concurrent requests, since each request is modelled as running alone.
- The repeated reloads inside `get_next_id` and `find_task_by_id`: in a single request they return the collection already held.
