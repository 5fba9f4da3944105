# Task manager API — the write handlers

A small Flask application (`app2.py`) keeps a list of tasks in a JSON file.
Each task is `{id, text, completed}`. Three handlers change that list:

- `POST /api/tasks` (`add_task`) refuses a body without `text` with 400.
  Otherwise it appends a task numbered `len(tasks) + 1`, holding the text
  with surrounding whitespace stripped and `completed` false, and answers
  201 with that task.
- `PUT /api/tasks/<id>` (`update_task`) finds the first task with the id.
  If the body has a `completed` key, it overwrites that field. It answers
  with the task, or 404 when no task has the id.
- `DELETE /api/tasks/<id>` (`delete_task`) drops every task with the id.
  It answers 200 if the list got shorter and 404 otherwise.

The project models these handlers in five modules:

- `Wrappers` (`wrappers.dfy`): the `Option` datatype, used for absent JSON
  keys, a `null` body and the reply's task, with `GetOr` for a default.
- `PyText` (`pytext.dfy`): Python's `str.strip()` over the `str.isspace()`
  character set. It proves that the result is trimmed, that only
  surrounding whitespace was removed, that the result is the only such
  piece, and that stripping is idempotent.
- `TaskApi` (`taskapi.dfy`): the task record, what a request body can
  carry, and each handler as a function from the stored list to the new
  list and the reply. Lemmas state each handler's contract.
- `TaskStore` (`taskstore.dfy`): a `Store` class whose `tasks` field is the
  loaded list. Its methods run the handlers in place. Each method is proved
  to leave exactly the list and the reply that the `TaskApi` function
  prescribes.
- `TaskHistory` (`taskhistory.dfy`): sequences of requests. Without
  deletes, ids stay `1..n` and distinct. On a list still numbered `1..n`,
  deleting the last task and then creating one keeps them distinct, and
  deleting any other task and then creating one hands out id `n`, which the
  old last task still carries.
  From then on the two tasks share an id, and one delete removes both.

A request body is `Option<Body>`: `None` is a JSON `null`, and a `Body`
records which of the keys `text` and `completed` are present. Flask answers
500 when a handler raises. `update_task` raises on a `null` body when the id
exists, because it evaluates `'completed' in None`; the model answers
`INTERNAL_ERROR` there and leaves the list unchanged.

Three behaviours of `app2.py` are easy to miss; the model follows the
code:

- A PUT body without `completed` is answered 200 and changes nothing.
  (`update_task` in `app.py` answers 400 there.)
- A `text` that is empty or all whitespace is accepted and stored as `""`.
- Ids are `len(tasks) + 1`. On a list still numbered `1..n`, a create that
  follows the deletion of a task other than the last reuses id `n`, which
  the old last task still carries.
  `TaskHistory.DeleteThenCreate` states when the next create collides, and
  `TaskHistory.IdReusedAfterDelete` shows a collision.

## Model

| member | source | states |
|---|---|---|
| PyText.IsSpace | app2.py:58 | No contract of its own: the characters `str.isspace()` accepts, the set `strip()` removes. |
| PyText.LeadingSpaces | app2.py:58 | The count is at most the length, every counted character is whitespace, and the next one is not. |
| PyText.TrailingSpaces | app2.py:58 | The same, counted from the end of the string. |
| PyText.StripBounds | app2.py:58 | The cut points are ordered and in range. Everything before the first and after the second is whitespace. A non-empty kept range starts and ends with non-whitespace. |
| PyText.Strip | app2.py:58 | `str.strip()` is no longer than its input and neither starts nor ends with whitespace. |
| PyText.StripBordered | app2.py:58 | The stripped text is a piece of the input with only whitespace before and after it. |
| PyText.StripUnique | app2.py:58 | Any trimmed piece of the input bordered only by whitespace equals the stripped text. |
| PyText.StripTrimmed | app2.py:58 | Stripping a string that is already trimmed returns it unchanged. |
| PyText.StripIdempotent | app2.py:58 | Stripping twice gives the same result as stripping once. |
| TaskApi.FirstWithId | app2.py:76-77 | The loop's match: None exactly when no task has the id; otherwise a valid index carrying the id, with no earlier task carrying it. |
| TaskApi.Without | app2.py:93 | The filtered list is never longer, and it is strictly shorter exactly when some task had the id. |
| TaskApi.Create | app2.py:43-66 | No contract of its own: `add_task` from the list before to the list after and the reply. CreateRejects and CreateAppends state it. |
| TaskApi.CreateRejects | app2.py:46-50 | The status is 400 exactly when the body is `null` or lacks `text`; then the list is unchanged and no task is returned. |
| TaskApi.CreateAppends | app2.py:52-66 | With `text` present: status 201, and the list is the old list plus the returned task at the end. The task has id `len + 1`, is not completed, and holds the stripped text, which is trimmed. |
| TaskApi.Update | app2.py:69-83 | No contract of its own: `update_task` from the list before to the list after and the reply. UpdateReplies and UpdateChangesOnlyFirstMatch state it. |
| TaskApi.UpdateReplies | app2.py:69-83 | 404 exactly when no task has the id; 500 exactly for a `null` body on a known id; 200 exactly for a body on a known id. Anything but 200 leaves the list unchanged and returns no task. A body without `completed` changes nothing. |
| TaskApi.UpdateChangesOnlyFirstMatch | app2.py:76-81 | Length, every id and every text are kept. Only the first task with the id may change. On 200 the reply is that stored task, with `completed` taken from the body when present and kept otherwise. |
| TaskApi.Delete | app2.py:86-99 | No contract of its own: `delete_task` from the list before to the list after and the reply. DeleteReplies states it. |
| TaskApi.DeleteReplies | app2.py:86-99 | 200 exactly when some task had the id, 404 otherwise. The list left is the filtered list, which on 404 is the old list. No task is returned. |
| TaskApi.WithoutMembers | app2.py:93 | A task survives the filter exactly when it was in the list and its id differs. |
| TaskApi.WithoutAppend | app2.py:93 | The filter keeps order: filtering a concatenation is the concatenation of the filtered parts. |
| TaskApi.WithoutSingle | app2.py:93 | A one-task list keeps its task exactly when the id differs. |
| TaskApi.WithoutAbsent | app2.py:93 | When no task has the id, the filter returns the list unchanged. |
| TaskApi.WithoutDistinct | app2.py:92-95 | When ids are distinct and the id is present, the delete removes exactly one task. |
| TaskStore.Store.constructor | app2.py:53 | The store holds exactly the loaded list. |
| TaskStore.Store.AddTask | app2.py:43-66 | The new list and the reply are those `Create` prescribes. On 201 the list grew by exactly the returned task; on 400 it is unchanged. |
| TaskStore.Store.UpdateTask | app2.py:69-83 | The loop leaves exactly the list and reply `Update` prescribes. On 404 the list is unchanged. |
| TaskStore.Store.DeleteTask | app2.py:86-99 | The list and reply are those `Delete` prescribes, and the list left is the filtered one. |
| TaskHistory.Apply | app2.py:43-99 | No contract of its own: the list left by one request, through Create, Update or Delete. |
| TaskHistory.Replay | app2.py:43-99 | No contract of its own: the list left by a sequence of requests run in order. |
| TaskHistory.ApplyKeepsNumbering | app2.py:55-57 | A create or an update keeps ids equal to positions `1..n`. A create with text adds exactly one task. |
| TaskHistory.NoDeleteHistoryKeepsIdsUnique | app2.py:55-57 | After any request sequence without a delete, ids stay `1..n`, so no two tasks share an id. |
| TaskHistory.CreatesFromEmpty | app2.py:55-57 | Starting from an empty file, n creates store n tasks numbered `1..n`, all distinct. |
| TaskHistory.PostsLength | app2.py:55-63 | Each create appends one task, so n creates add n tasks. |
| TaskHistory.ApplyPostText | app2.py:55-63 | A create with text appends `Task(len + 1, strip(text), false)`. |
| TaskHistory.DeleteFirstOfTwo | app2.py:93-96 | Deleting id 1 from tasks 1 and 2 leaves only task 2. |
| TaskHistory.DeleteCreateFromTwo | app2.py:55-96 | From tasks 1 and 2, deleting id 1 and then creating stores a second task with id 2. |
| TaskHistory.CreateCreateDeleteCreate | app2.py:55-96 | Create, create, delete 1, create from empty leaves two tasks, both with id 2. |
| TaskHistory.NumberedIdsUnique | app2.py:55-57 | Ids numbered from one are distinct. |
| TaskHistory.ReplayDeleteCreate | app2.py:55-63 | A delete and then a create leave the filtered list plus one task numbered one past its length. |
| TaskHistory.DeleteFromNumbered | app2.py:92-96 | On a list numbered `1..n`, deleting a present id leaves `n - 1` tasks: the first `n - 1` when the id was `n`, otherwise a list that still ends with task `n`. |
| TaskHistory.DeleteThenCreate | app2.py:55-96 | On a list numbered `1..n`, a successful delete and then a create leave `n` tasks, and their ids are distinct exactly when the deleted task was the last. |
| TaskHistory.IdReusedAfterDelete | app2.py:55-57 | The "unique ID" breaks after deleting a task other than the last: two tasks share id 2, and one delete of id 2 removes both. |
| TaskHistory.CreateCompleteDeleteRoundTrip | app2.py:43-99 | Creating a task on an empty file, marking it completed and deleting it gives the exact intermediate lists and replies, and leaves the file empty. |

## Left out

- `app.py`, the MySQL-backed variant, is not part of this model.
- Reading and writing `tasks.json` are not modelled. `save_tasks` and
  `load_tasks` are file I/O, and `load_tasks` is not defined in `app2.py`.
  The handlers' state is the loaded list: the `Store` field, or the list
  argument of the functions.
- `app2.py` does not import as written: line 4 is a syntax error, and
  `json` is never imported, so `save_tasks` would always raise. The model
  reads the handlers as if both were fixed.
- A failed save is not modelled. The model always stores the new list.
- The GET routes (`get_tasks`, twice, one querying a database) and the `/`
  page with its HTML and JavaScript front end are not modelled. They do not
  change the list.
- Flask routing, `jsonify` and the `<int:task_id>` converter are not
  modelled. The id arrives as an already parsed integer, and a reply is a
  status plus the task it serialises.
- `TaskApi.Delete`: the `{'message': ...}` and `{'error': ...}` bodies are
  not modelled. Only the status is kept, and no task is returned.
- JSON bodies that are arrays, strings or numbers are not modelled. Neither
  are bodies that `get_json()` rejects. The model covers `null` and objects.
- A `text` that is not a string (`.strip()` raises) and a `completed` that
  is not a boolean (stored as given) are not modelled. The model types
  `text` as a string and `completed` as a boolean.
- Aliasing is not modelled. `update_task` mutates the task dict inside the
  loaded list. The model treats a task as a value and replaces the element
  at its index, which has the same effect because the list is freshly
  loaded on every request.
- Concurrent requests are not modelled. Each request is a single step
  from one list to the next.
