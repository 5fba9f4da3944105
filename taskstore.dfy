/**
 * The handlers as app2.py runs them: the list loaded from the task file is
 * held in a field and changed in place, and each handler is proved to leave
 * the list and the reply that the functions of TaskApi prescribe.
 */
module TaskStore {
  import opened Wrappers
  import opened PyText
  import opened TaskApi

  class Store {
    /** The task list as `load_tasks()` returned it and `save_tasks` writes it back. */
    var tasks: seq<Task>

    constructor (loaded: seq<Task>)
      ensures tasks == loaded
    {
      tasks := loaded;
    }

    /** `add_task`: validate, build the record, `tasks.append(new_task)`. */
    method AddTask(req: Request) returns (reply: Reply)
      modifies this
      ensures Outcome(tasks, reply) == Create(old(tasks), req)
      ensures reply.status == CREATED ==> tasks == old(tasks) + [reply.task.value]
      ensures reply.status == BAD_REQUEST ==> tasks == old(tasks)
    {
      if req.None? || req.value.text.None? {
        return Reply(BAD_REQUEST, None);
      }
      CreateAppends(tasks, req);
      var newTask := Task(|tasks| + 1, Strip(req.value.text.value), false);
      tasks := tasks + [newTask];
      reply := Reply(CREATED, Some(newTask));
    }

    /**
     * `update_task`: walk the list in order and, at the first task with the
     * id, overwrite `completed` when the body has that key and return it.
     */
    method UpdateTask(id: int, req: Request) returns (reply: Reply)
      modifies this
      ensures Outcome(tasks, reply) == Update(old(tasks), id, req)
      ensures reply.status == NOT_FOUND ==> tasks == old(tasks)
    {
      var i := 0;
      while i < |tasks|
        invariant i <= |tasks| && tasks == old(tasks)
        invariant forall k | 0 <= k < i :: tasks[k].id != id
      {
        if tasks[i].id == id {
          if req.None? {
            // `'completed' in None` raises before anything is saved.
            return Reply(INTERNAL_ERROR, None);
          }
          if req.value.completed.Some? {
            tasks := tasks[i := tasks[i].(completed := req.value.completed.value)];
          }
          return Reply(OK, Some(tasks[i]));
        }
        i := i + 1;
      }
      reply := Reply(NOT_FOUND, None);
    }

    /**
     * `delete_task`: filter out the id and keep the result only if the list
     * got shorter.
     */
    method DeleteTask(id: int) returns (reply: Reply)
      modifies this
      ensures Outcome(tasks, reply) == Delete(old(tasks), id)
      ensures tasks == Without(old(tasks), id)
    {
      var originalLength := |tasks|;
      var kept := Without(tasks, id);
      if |kept| < originalLength {
        tasks := kept;
        reply := Reply(OK, None);
      } else {
        DeleteReplies(tasks, id);
        reply := Reply(NOT_FOUND, None);
      }
    }
  }
}
