/**
 * Sequences of requests against one task file, and what they do to the
 * "unique ID" that add_task promises: ids stay 1..n and distinct as long as
 * nothing is deleted, and on a list still numbered 1..n, deleting a task
 * other than the last and then creating one hands out an id that is
 * already in use.
 */
module TaskHistory {
  import opened Wrappers
  import opened PyText
  import opened TaskApi

  /** One request: POST a body, PUT a body to an id, DELETE an id. */
  datatype Op = Post(req: Request) | Put(id: int, req: Request) | Del(id: int)

  function Apply(tasks: seq<Task>, op: Op): seq<Task> {
    match op
    case Post(req) => Create(tasks, req).tasks
    case Put(id, req) => Update(tasks, id, req).tasks
    case Del(id) => Delete(tasks, id).tasks
  }

  /** The stored list after running `ops` in order, starting from `tasks`. */
  function Replay(tasks: seq<Task>, ops: seq<Op>): seq<Task>
    decreases |ops|
  {
    if ops == [] then tasks else Replay(Apply(tasks, ops[0]), ops[1..])
  }

  /** The k-th task (from zero) has id k + 1. */
  predicate NumberedFromOne(tasks: seq<Task>) {
    forall k | 0 <= k < |tasks| :: tasks[k].id == k + 1
  }

  predicate NoDeletes(ops: seq<Op>) {
    forall k | 0 <= k < |ops| :: !ops[k].Del?
  }

  /** Test-history builder: a POST carrying `text` for every string of `texts`. */
  function Posts(texts: seq<string>): seq<Op> {
    seq(|texts|, k requires 0 <= k < |texts| => PostText(texts[k]))
  }

  /** Creates and updates keep the ids numbered 1..n. */
  lemma ApplyKeepsNumbering(tasks: seq<Task>, op: Op)
    requires NumberedFromOne(tasks) && !op.Del?
    ensures NumberedFromOne(Apply(tasks, op))
    ensures op.Post? && HasText(op.req) ==> |Apply(tasks, op)| == |tasks| + 1
  {
    var after := Apply(tasks, op);
    if op.Put? {
      UpdateChangesOnlyFirstMatch(tasks, op.id, op.req);
    } else if HasText(op.req) {
      CreateAppends(tasks, op.req);
      forall k | 0 <= k < |after| ensures after[k].id == k + 1 {
        if k < |tasks| { assert after[..|tasks|][k] == after[k]; }
      }
    }
  }

  /**
   * While no request deletes, the ids stay 1..n, so no two tasks share an
   * id: the "unique ID" promise holds for such histories.
   */
  lemma {:induction false} NoDeleteHistoryKeepsIdsUnique(tasks: seq<Task>, ops: seq<Op>)
    requires NumberedFromOne(tasks) && NoDeletes(ops)
    ensures NumberedFromOne(Replay(tasks, ops))
    ensures UniqueIds(Replay(tasks, ops))
    decreases |ops|
  {
    if ops != [] {
      ApplyKeepsNumbering(tasks, ops[0]);
      assert NoDeletes(ops[1..]) by {
        forall k | 0 <= k < |ops[1..]| ensures !ops[1..][k].Del? {
          assert ops[1..][k] == ops[k + 1];
        }
      }
      NoDeleteHistoryKeepsIdsUnique(Apply(tasks, ops[0]), ops[1..]);
    }
  }

  /** From an empty file, n creates store n tasks with ids 1..n, all distinct. */
  lemma {:induction false} CreatesFromEmpty(texts: seq<string>)
    ensures |Replay([], Posts(texts))| == |texts|
    ensures NumberedFromOne(Replay([], Posts(texts)))
    ensures UniqueIds(Replay([], Posts(texts)))
  {
    NoDeleteHistoryKeepsIdsUnique([], Posts(texts));
    PostsLength([], texts);
  }

  lemma {:induction false} PostsLength(tasks: seq<Task>, texts: seq<string>)
    ensures |Replay(tasks, Posts(texts))| == |tasks| + |texts|
    decreases |texts|
  {
    if texts != [] {
      assert Posts(texts)[1..] == Posts(texts[1..]);
      PostsLength(Apply(tasks, Posts(texts)[0]), texts[1..]);
    }
  }

  /** The POST request of the front end's Add button: a body with `text` only. */
  function PostText(text: string): Op {
    Post(Some(Body(Some(text), None)))
  }

  /** A POST with text appends the task numbered one past the count. */
  lemma ApplyPostText(tasks: seq<Task>, text: string)
    ensures Apply(tasks, PostText(text)) == tasks + [Task(|tasks| + 1, Strip(text), false)]
  {
  }

  /** Deleting id 1 from a list of tasks 1 and 2 leaves task 2. */
  lemma DeleteFirstOfTwo(a: Task, b: Task)
    requires a.id == 1 && b.id == 2
    ensures Apply([a, b], Del(1)) == [b]
  {
    WithoutAppend([a], [b], 1);
    WithoutSingle(a, 1);
    WithoutSingle(b, 1);
    assert [a, b] == [a] + [b];
  }

  /** The last three requests of CreateCreateDeleteCreate, from tasks 1 and 2. */
  lemma DeleteCreateFromTwo(a: Task, b: Task, z: string)
    requires a.id == 1 && b.id == 2
    ensures Replay([a, b], [Del(1), PostText(z)]) == [b, Task(2, Strip(z), false)]
  {
    var after := [b, Task(2, Strip(z), false)];
    DeleteFirstOfTwo(a, b);
    ApplyPostText([b], z);
    assert [b] + [after[1]] == after;
    assert [Del(1), PostText(z)][1..] == [PostText(z)];
    assert Replay(after, []) == after;
    assert Replay([b], [PostText(z)]) == after;
  }

  /** Create, create, delete task 1, create: what the file holds afterwards. */
  lemma CreateCreateDeleteCreate(x: string, y: string, z: string)
    ensures Replay([], [PostText(x), PostText(y), Del(1), PostText(z)]) ==
            [Task(2, Strip(y), false), Task(2, Strip(z), false)]
  {
    var a, b := Task(1, Strip(x), false), Task(2, Strip(y), false);
    var after := [b, Task(2, Strip(z), false)];
    var ops := [PostText(x), PostText(y), Del(1), PostText(z)];
    DeleteCreateFromTwo(a, b, z);
    assert ops[1..][1..] == [Del(1), PostText(z)];
    ApplyPostText([a], y);
    assert [a] + [b] == [a, b];
    assert Replay([a], ops[1..]) == after;
    ApplyPostText([], x);
    assert [] + [a] == [a];
    assert Replay([], ops) == after;
  }

  /** Ids numbered from one are distinct. */
  lemma NumberedIdsUnique(tasks: seq<Task>)
    requires NumberedFromOne(tasks)
    ensures UniqueIds(tasks)
  {
  }

  /** A delete followed by a create: the filtered list plus one new task. */
  lemma ReplayDeleteCreate(tasks: seq<Task>, id: int, text: string)
    ensures var kept := Apply(tasks, Del(id));
            Replay(tasks, [Del(id), PostText(text)]) ==
            kept + [Task(|kept| + 1, Strip(text), false)]
  {
    var kept := Apply(tasks, Del(id));
    var after := kept + [Task(|kept| + 1, Strip(text), false)];
    ApplyPostText(kept, text);
    assert [Del(id), PostText(text)][1..] == [PostText(text)];
    assert [PostText(text)][1..] == [];
    assert Replay(after, []) == after;
    assert Replay(kept, [PostText(text)]) == after;
  }

  /**
   * On a list numbered 1..n, a delete that finds its id leaves n - 1 tasks:
   * the first n - 1 when the id was n, and otherwise a list still ending
   * with task n.
   */
  lemma DeleteFromNumbered(tasks: seq<Task>, id: int)
    requires NumberedFromOne(tasks) && 1 <= id <= |tasks|
    ensures var kept := Apply(tasks, Del(id));
            |kept| == |tasks| - 1 &&
            (id == |tasks| ==> kept == tasks[..|tasks| - 1]) &&
            (id < |tasks| ==> kept[|kept| - 1] == tasks[|tasks| - 1])
  {
    var n := |tasks|;
    var pre, last := tasks[..n - 1], tasks[n - 1];
    assert tasks == pre + [last];
    WithoutAppend(pre, [last], id);
    WithoutSingle(last, id);
    DeleteReplies(tasks, id);
    assert HasId(tasks, id) by { assert tasks[id - 1].id == id; }
    NumberedIdsUnique(tasks);
    WithoutDistinct(tasks, id);
    if id == n {
      forall k | 0 <= k < |pre| ensures pre[k].id != id {
        assert pre[k] == tasks[k];
      }
      WithoutAbsent(pre, id);
    }
  }

  /**
   * On a list numbered 1..n, a delete that finds its id followed by a create
   * leaves n tasks again, and their ids are distinct exactly when the
   * deleted task was the last one: otherwise the create hands out id n,
   * which the old last task still carries.
   */
  lemma DeleteThenCreate(tasks: seq<Task>, id: int, text: string)
    requires NumberedFromOne(tasks) && 1 <= id <= |tasks|
    ensures var after := Replay(tasks, [Del(id), PostText(text)]);
            |after| == |tasks| && (UniqueIds(after) <==> id == |tasks|)
  {
    var n := |tasks|;
    var kept := Apply(tasks, Del(id));
    DeleteFromNumbered(tasks, id);
    ReplayDeleteCreate(tasks, id, text);
    var after := kept + [Task(n, Strip(text), false)];
    if id == n {
      forall k | 0 <= k < |after| ensures after[k].id == k + 1 {
        if k < n - 1 { assert after[k] == tasks[k]; }
      }
      NumberedIdsUnique(after);
    } else {
      assert after[n - 2] == tasks[n - 1] && after[n - 1].id == n;
    }
  }

  /**
   * The promise breaks after deleting a task other than the last: whatever
   * the texts, create, create, delete task 1, create leaves two tasks with
   * id 2, and a delete of id 2 then removes both.
   */
  lemma IdReusedAfterDelete(x: string, y: string, z: string)
    ensures var after := Replay([], [PostText(x), PostText(y), Del(1), PostText(z)]);
            |after| == 2 && after[0].id == after[1].id == 2 &&
            !UniqueIds(after) &&
            Delete(after, 2) == Outcome([], Reply(OK, None))
  {
    CreateCreateDeleteCreate(x, y, z);
    var b, c := Task(2, Strip(y), false), Task(2, Strip(z), false);
    WithoutAppend([b], [c], 2);
    WithoutSingle(b, 2);
    WithoutSingle(c, 2);
    assert [b, c] == [b] + [c];
  }

  /**
   * The round trip a user sees: create a task on an empty file, mark it
   * completed, delete it, and the file is empty again.
   */
  lemma CreateCompleteDeleteRoundTrip(text: string)
    ensures var created := Create([], Some(Body(Some(text), None)));
            created.tasks == [Task(1, Strip(text), false)] &&
            var done := Update(created.tasks, 1, Some(Body(None, Some(true))));
            done == Outcome([Task(1, Strip(text), true)], Reply(OK, Some(Task(1, Strip(text), true)))) &&
            Delete(done.tasks, 1) == Outcome([], Reply(OK, None))
  {
    var t := Task(1, Strip(text), false);
    assert Create([], Some(Body(Some(text), None))).tasks == [t] by {
      assert [] + [t] == [t];
    }
    assert FirstWithId([t], 1) == Some(0);
    WithoutSingle(t.(completed := true), 1);
  }
}
