/**
 * The file-backed task API (app2.py): the task record, what a request body
 * may carry, and the three handlers that change the stored list, each as a
 * function from the list before the request to the list after it and the
 * reply. The class in TaskStore runs the same handlers in place.
 */
module TaskApi {
  import opened Wrappers
  import opened PyText

  /** One stored task: `{id, text, completed}`. */
  datatype Task = Task(id: int, text: string, completed: bool)

  /** The keys of a JSON request object that the handlers look at; an absent key is None. */
  datatype Body = Body(text: Option<string>, completed: Option<bool>)

  /** What `request.get_json()` hands over: None for a JSON `null` body. */
  type Request = Option<Body>

  const OK := 200
  const CREATED := 201
  const BAD_REQUEST := 400
  const NOT_FOUND := 404
  /** Flask's answer to an exception the handler does not catch. */
  const INTERNAL_ERROR := 500

  /** HTTP status and, where the handler returns one, the task it serialises. */
  datatype Reply = Reply(status: int, task: Option<Task>)

  /** The stored list after a request, and the reply to it. */
  datatype Outcome = Outcome(tasks: seq<Task>, reply: Reply)

  predicate HasId(tasks: seq<Task>, id: int) {
    exists k | 0 <= k < |tasks| :: tasks[k].id == id
  }

  /** No two tasks share an id. */
  predicate UniqueIds(tasks: seq<Task>) {
    forall j, k | 0 <= j < k < |tasks| :: tasks[j].id != tasks[k].id
  }

  /** `data` is truthy and has a `text` key. */
  predicate HasText(req: Request) {
    req.Some? && req.value.text.Some?
  }

  /** Index of the first task carrying `id`, if any. */
  function FirstWithId(tasks: seq<Task>, id: int): (r: Option<nat>)
    ensures r.None? <==> !HasId(tasks, id)
    ensures r.Some? ==> r.value < |tasks| && tasks[r.value].id == id
    ensures r.Some? ==> forall k | 0 <= k < r.value :: tasks[k].id != id
    decreases |tasks|
  {
    if tasks == [] then None
    else if tasks[0].id == id then Some(0)
    else
      match FirstWithId(tasks[1..], id)
      case None =>
        assert forall k | 1 <= k < |tasks| :: tasks[k] == tasks[1..][k - 1];
        None
      case Some(k) => Some(k + 1)
  }

  /** The list comprehension `[task for task in tasks if task['id'] != id]`. */
  function Without(tasks: seq<Task>, id: int): (r: seq<Task>)
    ensures |r| <= |tasks|
    ensures |r| < |tasks| <==> HasId(tasks, id)
    decreases |tasks|
  {
    if tasks == [] then []
    else
      var rest := Without(tasks[1..], id);
      assert HasId(tasks, id) <==> tasks[0].id == id || HasId(tasks[1..], id) by {
        if HasId(tasks[1..], id) {
          var k :| 0 <= k < |tasks[1..]| && tasks[1..][k].id == id;
          assert tasks[k + 1].id == id;
        }
        if HasId(tasks, id) && tasks[0].id != id {
          var k :| 0 <= k < |tasks| && tasks[k].id == id;
          assert tasks[1..][k - 1].id == id;
        }
      }
      if tasks[0].id != id then [tasks[0]] + rest else rest
  }

  /**
   * POST /api/tasks: refuse a body without `text`; otherwise append a task
   * numbered one past the current count, holding the stripped text, not
   * completed. CreateRejects and CreateAppends state its contract.
   */
  function Create(tasks: seq<Task>, req: Request): Outcome {
    if !HasText(req) then Outcome(tasks, Reply(BAD_REQUEST, None))
    else
      var t := Task(|tasks| + 1, Strip(req.value.text.value), false);
      Outcome(tasks + [t], Reply(CREATED, Some(t)))
  }

  /** A missing body or one without `text` is answered 400 and nothing is stored. */
  lemma CreateRejects(tasks: seq<Task>, req: Request)
    ensures Create(tasks, req).reply.status == BAD_REQUEST <==> !HasText(req)
    ensures !HasText(req) ==> Create(tasks, req) == Outcome(tasks, Reply(BAD_REQUEST, None))
  {
  }

  /**
   * A body with `text` is answered 201 and the list grows by exactly the
   * returned task, at the end, leaving every earlier task as it was; that
   * task has id |tasks| + 1, is not completed, and holds the text with the
   * surrounding whitespace removed, so stripping it again changes nothing.
   */
  lemma CreateAppends(tasks: seq<Task>, req: Request)
    requires HasText(req)
    ensures var o := Create(tasks, req);
      o.reply.status == CREATED && o.reply.task.Some? &&
      o.tasks == tasks + [o.reply.task.value] &&
      |o.tasks| == |tasks| + 1 && o.tasks[..|tasks|] == tasks
    ensures var t := Create(tasks, req).reply.task.value;
      t.id == |tasks| + 1 && !t.completed &&
      t.text == Strip(req.value.text.value) && Trimmed(t.text) && Strip(t.text) == t.text
  {
    var o := Create(tasks, req);
    StripIdempotent(req.value.text.value);
    assert o.tasks[..|tasks|] == tasks;
  }

  /**
   * PUT /api/tasks/<id>: at the first task carrying `id`, overwrite
   * `completed` when the body has that key and return the task; an unknown
   * id is 404; a `null` body on a known id makes `'completed' in data`
   * raise, so nothing is saved and Flask answers 500. UpdateReplies and
   * UpdateChangesOnlyFirstMatch state its contract.
   */
  function Update(tasks: seq<Task>, id: int, req: Request): Outcome {
    match FirstWithId(tasks, id)
    case None => Outcome(tasks, Reply(NOT_FOUND, None))
    case Some(i) =>
      if req.None? then Outcome(tasks, Reply(INTERNAL_ERROR, None))
      else
        var t := match req.value.completed
          case Some(b) => tasks[i].(completed := b)
          case None => tasks[i];
        Outcome(tasks[i := t], Reply(OK, Some(t)))
  }

  /**
   * Which status `update_task` answers: 404 exactly when no task has the
   * id, 500 for a `null` body on a known id, 200 otherwise; only a 200 may
   * change the list, and not even that when the body lacks `completed`.
   */
  lemma UpdateReplies(tasks: seq<Task>, id: int, req: Request)
    ensures var o := Update(tasks, id, req);
      (o.reply.status == NOT_FOUND <==> !HasId(tasks, id)) &&
      (o.reply.status == INTERNAL_ERROR <==> HasId(tasks, id) && req.None?) &&
      (o.reply.status == OK <==> HasId(tasks, id) && req.Some?) &&
      (o.reply.status != OK ==> o.tasks == tasks && o.reply.task == None) &&
      (req.Some? && req.value.completed.None? ==> o.tasks == tasks)
  {
  }

  /**
   * `update_task` touches the first task with the id and nothing else: the
   * length, every id and every text stay, no other task changes, and the
   * answered task is the stored one with `completed` taken from the body
   * when the body has it.
   */
  lemma UpdateChangesOnlyFirstMatch(tasks: seq<Task>, id: int, req: Request)
    ensures var o := Update(tasks, id, req);
      |o.tasks| == |tasks| &&
      (forall k | 0 <= k < |tasks| ::
        o.tasks[k].id == tasks[k].id && o.tasks[k].text == tasks[k].text) &&
      (forall k | 0 <= k < |tasks| && o.tasks[k] != tasks[k] :: FirstWithId(tasks, id) == Some(k))
    ensures var o := Update(tasks, id, req);
      o.reply.status == OK ==>
        FirstWithId(tasks, id).Some? &&
        var i := FirstWithId(tasks, id).value;
        o.reply.task == Some(o.tasks[i]) &&
        o.tasks[i].completed == req.value.completed.GetOr(tasks[i].completed)
  {
  }

  /**
   * DELETE /api/tasks/<id>: filter the id out and keep the result only if
   * the list got shorter. DeleteReplies states its contract; WithoutMembers
   * and WithoutAppend say what the filter keeps.
   */
  function Delete(tasks: seq<Task>, id: int): Outcome {
    var kept := Without(tasks, id);
    if |kept| < |tasks| then Outcome(kept, Reply(OK, None))
    else Outcome(tasks, Reply(NOT_FOUND, None))
  }

  /**
   * `delete_task` answers 200 exactly when some task had the id and 404
   * otherwise; either way the list left is the filtered one, which on a 404
   * is the list as it was.
   */
  lemma DeleteReplies(tasks: seq<Task>, id: int)
    ensures var o := Delete(tasks, id);
      (o.reply.status == OK <==> HasId(tasks, id)) &&
      (o.reply.status == NOT_FOUND <==> !HasId(tasks, id)) &&
      o.tasks == Without(tasks, id) && o.reply.task == None &&
      (o.reply.status == NOT_FOUND ==> o.tasks == tasks)
  {
    if !HasId(tasks, id) {
      WithoutAbsent(tasks, id);
    }
  }

  /** The filter keeps exactly the tasks whose id differs. */
  lemma {:induction false} WithoutMembers(tasks: seq<Task>, id: int)
    ensures forall t :: t in Without(tasks, id) <==> t in tasks && t.id != id
    decreases |tasks|
  {
    if tasks != [] {
      WithoutMembers(tasks[1..], id);
      assert forall t :: t in tasks <==> t == tasks[0] || t in tasks[1..];
    }
  }

  /** The filter keeps order: filtering a concatenation filters each part. */
  lemma {:induction false} WithoutAppend(a: seq<Task>, b: seq<Task>, id: int)
    ensures Without(a + b, id) == Without(a, id) + Without(b, id)
    decreases |a|
  {
    if a == [] {
      assert a + b == b;
    } else {
      assert (a + b)[1..] == a[1..] + b;
      WithoutAppend(a[1..], b, id);
    }
  }

  /** Filtering a single task keeps it exactly when its id differs. */
  lemma WithoutSingle(t: Task, id: int)
    ensures Without([t], id) == if t.id != id then [t] else []
  {
    assert [t][1..] == [];
  }

  /** With no task carrying `id`, the filter returns the list as it was. */
  lemma {:induction false} WithoutAbsent(tasks: seq<Task>, id: int)
    requires !HasId(tasks, id)
    ensures Without(tasks, id) == tasks
    decreases |tasks|
  {
    if tasks != [] {
      assert tasks[0].id != id;
      forall k | 0 <= k < |tasks[1..]| ensures tasks[1..][k].id != id {
        assert tasks[1..][k] == tasks[k + 1];
      }
      WithoutAbsent(tasks[1..], id);
      assert tasks == [tasks[0]] + tasks[1..];
    }
  }

  /** When ids are distinct, a delete that finds its id removes exactly one task. */
  lemma {:induction false} WithoutDistinct(tasks: seq<Task>, id: int)
    requires UniqueIds(tasks) && HasId(tasks, id)
    ensures |Without(tasks, id)| == |tasks| - 1
    decreases |tasks|
  {
    var rest := tasks[1..];
    if tasks[0].id == id {
      forall k | 0 <= k < |rest| ensures rest[k].id != id {
        assert rest[k] == tasks[k + 1];
      }
      WithoutAbsent(rest, id);
    } else {
      var k :| 0 <= k < |tasks| && tasks[k].id == id;
      assert rest[k - 1].id == id;
      WithoutDistinct(rest, id);
    }
  }
}
