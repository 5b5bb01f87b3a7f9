/**
 * `TasksController` (api/app/controllers/tasks_controller.rb) over the `tasks`
 * table. The table is a sequence of rows plus a logical clock that supplies
 * ids and timestamps; `index` lists the rows newest first and `create`
 * inserts one validated row or renders the validation errors.
 */
module Tasks {
  import opened Wrappers
  import opened Resources

  /** The `task` request parameter: field name to value (`nil` or a string). */
  type TaskParams = map<string, Option<string>>

  /** The table's contents and the next value of the id / timestamp clock. */
  datatype Store = Store(tasks: seq<Task>, clock: nat)

  const CantBeBlank := "can't be blank"

  /**
   * The Task model's description check (its source is not part of this
   * model). What is known of it: the empty string is blank, and the
   * descriptions the test suites save ("Valid task", "Test task", "New task",
   * "Task 1", "Task 2", "Task 3") are accepted.
   */
  predicate PresenceRule(valid: string -> bool) {
    && !valid("")
    && valid("Valid task") && valid("Test task") && valid("New task")
    && valid("Task 1") && valid("Task 2") && valid("Task 3")
  }

  /** Whether `Task.new(description: d)` passes validation; `nil` never does. */
  predicate Accepts(valid: string -> bool, d: Option<string>) {
    d.Some? && valid(d.value)
  }

  /**
   * The invariant the table keeps: timestamps and ids grow strictly with
   * insertion order and stay below the clock, rows are never updated, and
   * every stored description passed validation.
   */
  ghost predicate Invariant(valid: string -> bool, s: Store) {
    && (forall i, j :: 0 <= i < j < |s.tasks| ==>
          s.tasks[i].createdAt < s.tasks[j].createdAt && s.tasks[i].id < s.tasks[j].id)
    && (forall i :: 0 <= i < |s.tasks| ==>
          s.tasks[i].id < s.clock && s.tasks[i].createdAt < s.clock
          && s.tasks[i].updatedAt == s.tasks[i].createdAt
          && valid(s.tasks[i].description))
  }

  // ---------------------------------------------------------------------------
  // Ordering: `Task.order(created_at: :desc)`

  ghost predicate SortedDesc(ts: seq<Task>) {
    forall i, j :: 0 <= i < j < |ts| ==> ts[i].createdAt >= ts[j].createdAt
  }

  /** Puts `t` into a newest-first list, before every task not newer than it. */
  function InsertByCreatedDesc(t: Task, ts: seq<Task>): (r: seq<Task>)
    requires SortedDesc(ts)
    ensures SortedDesc(r)
    ensures multiset(r) == multiset(ts) + multiset{t}
  {
    if ts == [] || ts[0].createdAt <= t.createdAt then
      PrependKeepsSorted(t, ts);
      [t] + ts
    else
      var rest := InsertByCreatedDesc(t, ts[1..]);
      assert ts == [ts[0]] + ts[1..];
      BoundedByMembers(rest, ts[1..], t, ts[0].createdAt);
      PrependKeepsSorted(ts[0], rest);
      [ts[0]] + rest
  }

  /** A task at least as new as everything in a newest-first list may go in front of it. */
  lemma PrependKeepsSorted(x: Task, ts: seq<Task>)
    requires SortedDesc(ts)
    requires ts != [] ==> ts[0].createdAt <= x.createdAt
    ensures SortedDesc([x] + ts)
  {
    var r := [x] + ts;
    forall i, j | 0 <= i < j < |r| ensures r[i].createdAt >= r[j].createdAt {
      if i == 0 {
        assert r[j] == ts[j - 1];
        assert ts[0].createdAt >= ts[j - 1].createdAt;
      } else {
        assert r[i] == ts[i - 1] && r[j] == ts[j - 1];
      }
    }
  }

  /** A bound on every element of `ts` and on `t` bounds every element of a rearrangement of them. */
  lemma BoundedByMembers(r: seq<Task>, ts: seq<Task>, t: Task, hi: nat)
    requires multiset(r) == multiset(ts) + multiset{t}
    requires t.createdAt <= hi
    requires forall k :: 0 <= k < |ts| ==> ts[k].createdAt <= hi
    ensures r != [] ==> r[0].createdAt <= hi
  {
    if r != [] {
      assert r[0] in multiset(r);
      if r[0] != t {
        assert r[0] in multiset(ts);
      }
    }
  }

  /** The rows of the table, newest first. */
  function OrderByCreatedDesc(ts: seq<Task>): (r: seq<Task>)
    ensures SortedDesc(r)
    ensures multiset(r) == multiset(ts)
  {
    if ts == [] then []
    else
      assert ts == [ts[0]] + ts[1..];
      InsertByCreatedDesc(ts[0], OrderByCreatedDesc(ts[1..]))
  }

  function Reverse(ts: seq<Task>): (r: seq<Task>) {
    if ts == [] then [] else Reverse(ts[1..]) + [ts[0]]
  }

  /** A task older than everything in a newest-first list goes to its end. */
  lemma {:induction false} InsertOldest(t: Task, ts: seq<Task>)
    requires SortedDesc(ts)
    requires forall k :: 0 <= k < |ts| ==> t.createdAt < ts[k].createdAt
    ensures InsertByCreatedDesc(t, ts) == ts + [t]
  {
    if ts != [] {
      InsertOldest(t, ts[1..]);
    }
  }

  /**
   * Rows inserted with strictly increasing timestamps come back in exactly
   * the reverse of insertion order.
   */
  lemma {:induction false} OrderOfIncreasingIsReverse(ts: seq<Task>)
    requires forall i, j :: 0 <= i < j < |ts| ==> ts[i].createdAt < ts[j].createdAt
    ensures OrderByCreatedDesc(ts) == Reverse(ts)
  {
    if ts != [] {
      OrderOfIncreasingIsReverse(ts[1..]);
      var sorted := OrderByCreatedDesc(ts[1..]);
      forall k | 0 <= k < |sorted| ensures ts[0].createdAt < sorted[k].createdAt {
        assert sorted[k] in multiset(ts[1..]);
      }
      InsertOldest(ts[0], sorted);
    }
  }

  /** Tasks created T1, T2, T3 in that order are listed T3, T2, T1. */
  lemma NewestFirstOfThree(t1: Task, t2: Task, t3: Task)
    requires t1.createdAt < t2.createdAt < t3.createdAt
    ensures OrderByCreatedDesc([t1, t2, t3]) == [t3, t2, t1]
  {
    var ts := [t1, t2, t3];
    assert Reverse(ts) == [t3, t2, t1] by {
      assert ts[1..] == [t2, t3] && ts[1..][1..] == [t3] && [t3][1..] == [];
      assert Reverse([t3]) == [t3];
      assert Reverse([t2, t3]) == [t3, t2];
    }
    OrderOfIncreasingIsReverse(ts);
  }

  // ---------------------------------------------------------------------------
  // The two actions as functions of the table

  /** `index`: status 200 and every row, newest first. */
  function IndexSpec(s: Store): (r: Response)
    ensures r.status == Ok && r.body.TaskList?
    ensures SortedDesc(r.body.tasks) && multiset(r.body.tasks) == multiset(s.tasks)
  {
    Response(Ok, TaskList(OrderByCreatedDesc(s.tasks)))
  }

  /** `params.require(:task)`: the parameter must be present and not blank. */
  function RequireTask(task: Option<TaskParams>): (p: Option<TaskParams>)
    ensures p.Some? <==> task.Some? && task.value != map[]
    ensures p.Some? ==> p == task
  {
    if task.Some? && task.value != map[] then task else None
  }

  /** `.permit(:description)`: the only field read; absent means `nil`. */
  function PermittedDescription(p: TaskParams): (d: Option<string>)
    ensures "description" in p ==> d == p["description"]
    ensures "description" !in p ==> d.None?
  {
    if "description" in p then p["description"] else None
  }

  /** The row `create` saves: the next clock value is its id and its timestamps. */
  function NewTask(s: Store, description: string): (t: Task)
    ensures t.description == description
    ensures t.id == s.clock && t.createdAt == s.clock && t.updatedAt == t.createdAt
  {
    Task(s.clock, description, s.clock, s.clock)
  }

  /**
   * `create`: a missing or blank `task` parameter fails in `params.require`
   * (Rails answers 400); an invalid description renders 422 with
   * `{description: ["can't be blank"]}`; otherwise one row is saved and
   * rendered with 201.
   */
  function CreateSpec(valid: string -> bool, s: Store, task: Option<TaskParams>): (out: (Response, Store))
    ensures out.1 == s || (out.0.status == Created && out.0.body.TaskBody?
                           && out.1 == Store(s.tasks + [out.0.body.task], s.clock + 1))
    ensures out.0.status == Created ==> out.0.body.TaskBody? && valid(out.0.body.task.description)
    ensures out.0.status != Created ==> out.1 == s
  {
    match RequireTask(task)
    case None => (Response(BadRequest, Empty), s)
    case Some(p) =>
      var d := PermittedDescription(p);
      if Accepts(valid, d) then
        var t := NewTask(s, d.value);
        (Response(Created, TaskBody(t)), Store(s.tasks + [t], s.clock + 1))
      else
        (Response(UnprocessableEntity, Errors(map["description" := [CantBeBlank]])), s)
  }

  // ---------------------------------------------------------------------------
  // Properties of the actions

  /** Position `k` of a reversed list holds position `|ts| - 1 - k` of the original. */
  lemma {:induction false} ReverseAt(ts: seq<Task>, k: nat)
    requires k < |ts|
    ensures |Reverse(ts)| == |ts| && Reverse(ts)[k] == ts[|ts| - 1 - k]
  {
    if |ts| > 1 {
      ReverseAt(ts[1..], if k < |ts| - 1 then k else 0);
    }
  }

  /** Listing returns every stored row, each once, strictly newest first. */
  lemma IndexListsEverything(valid: string -> bool, s: Store)
    requires Invariant(valid, s)
    ensures IndexSpec(s).status == Ok
    ensures multiset(IndexSpec(s).body.tasks) == multiset(s.tasks)
    ensures IndexSpec(s).body.tasks == Reverse(s.tasks)
    ensures forall i, j :: 0 <= i < j < |IndexSpec(s).body.tasks| ==>
              IndexSpec(s).body.tasks[i].createdAt > IndexSpec(s).body.tasks[j].createdAt
  {
    OrderOfIncreasingIsReverse(s.tasks);
    var r := Reverse(s.tasks);
    forall i, j | 0 <= i < j < |r| ensures r[i].createdAt > r[j].createdAt {
      ReverseAt(s.tasks, i);
      ReverseAt(s.tasks, j);
    }
  }

  /** A successful `create` appends its task, stamped with the current clock. */
  lemma CreatedShape(valid: string -> bool, s: Store, task: Option<TaskParams>)
    requires CreateSpec(valid, s, task).0.status == Created
    ensures var (resp, s') := CreateSpec(valid, s, task);
      && s'.tasks == s.tasks + [resp.body.task]
      && resp.body.task.createdAt == s.clock
  {
  }

  /** A newly created task is listed first, ahead of everything listed before. */
  lemma CreatedTaskListedFirst(valid: string -> bool, s: Store, task: Option<TaskParams>)
    requires Invariant(valid, s)
    requires CreateSpec(valid, s, task).0.status == Created
    ensures IndexSpec(CreateSpec(valid, s, task).1).body.tasks
              == [CreateSpec(valid, s, task).0.body.task] + IndexSpec(s).body.tasks
  {
    var (resp, s') := CreateSpec(valid, s, task);
    CreatedShape(valid, s, task);
    CreateKeepsInvariant(valid, s, task);
    OrderOfIncreasingIsReverse(s.tasks);
    OrderOfIncreasingIsReverse(s'.tasks);
    ReverseAppend(s.tasks, resp.body.task);
  }

  lemma {:induction false} ReverseAppend(ts: seq<Task>, t: Task)
    ensures Reverse(ts + [t]) == [t] + Reverse(ts)
  {
    if ts != [] {
      assert (ts + [t])[1..] == ts[1..] + [t];
      ReverseAppend(ts[1..], t);
    } else {
      assert ts + [t] == [t];
    }
  }

  /** `create` keeps the table invariant. */
  lemma CreateKeepsInvariant(valid: string -> bool, s: Store, task: Option<TaskParams>)
    requires Invariant(valid, s)
    ensures Invariant(valid, CreateSpec(valid, s, task).1)
  {
  }

  /**
   * `create` either saves exactly one row holding the given description,
   * with status 201, or saves nothing and answers 400 or 422.
   */
  lemma CreateOutcomes(valid: string -> bool, s: Store, task: Option<TaskParams>)
    ensures var (resp, s') := CreateSpec(valid, s, task);
      && (resp.status == Created <==>
            task.Some? && "description" in task.value && Accepts(valid, task.value["description"]))
      && (resp.status == Created ==>
            && s'.tasks == s.tasks + [resp.body.task]
            && Some(resp.body.task.description) == task.value["description"]
            && resp.body.task.id == s.clock
            && s'.clock > resp.body.task.createdAt == s.clock)
      && (resp.status != Created ==> s' == s)
      && (resp.status == BadRequest <==> task.None? || task.value == map[])
      && (resp.status == UnprocessableEntity <==>
            task.Some? && task.value != map[] && !Accepts(valid, PermittedDescription(task.value)))
      && (resp.status == UnprocessableEntity ==>
            resp.body.Errors? && "description" in resp.body.errors
            && CantBeBlank in resp.body.errors["description"])
      && resp.status in {Created, BadRequest, UnprocessableEntity}
  {
  }

  /**
   * `permit(:description)`: two present `task` parameters with the same
   * description lead to the same response and the same table, whatever other
   * fields they carry.
   */
  lemma OnlyDescriptionRead(valid: string -> bool, s: Store, p: TaskParams, q: TaskParams)
    requires p != map[] && q != map[]
    requires PermittedDescription(p) == PermittedDescription(q)
    ensures CreateSpec(valid, s, Some(p)) == CreateSpec(valid, s, Some(q))
  {
  }

  /**
   * A `nil` or empty description is refused with 422 and
   * `{description: ["can't be blank"]}`, and the table is unchanged.
   */
  lemma BlankDescriptionRejected(valid: string -> bool, s: Store, p: TaskParams)
    requires PresenceRule(valid)
    requires p != map[] && (PermittedDescription(p) == None || PermittedDescription(p) == Some(""))
    ensures CreateSpec(valid, s, Some(p)).1 == s
    ensures CreateSpec(valid, s, Some(p)).0.status == UnprocessableEntity
    ensures CantBeBlank in CreateSpec(valid, s, Some(p)).0.body.errors["description"]
  {
  }

  /** Under the invariant, the row `create` would save has an id no stored row has. */
  lemma NewTaskIsFresh(valid: string -> bool, s: Store, description: string)
    requires Invariant(valid, s)
    ensures forall i :: 0 <= i < |s.tasks| ==> s.tasks[i].id != NewTask(s, description).id
    ensures forall i :: 0 <= i < |s.tasks| ==> s.tasks[i].createdAt < NewTask(s, description).createdAt
  {
  }

  /** Every stored description is non-empty (the column is never null, and validation refuses ""). */
  lemma StoredDescriptionsPresent(valid: string -> bool, s: Store)
    requires PresenceRule(valid) && Invariant(valid, s)
    ensures forall i :: 0 <= i < |s.tasks| ==> s.tasks[i].description != ""
  {
  }

  // ---------------------------------------------------------------------------
  // The table, updated in place

  class TaskStore {
    var tasks: seq<Task>
    var clock: nat
    const valid: string -> bool

    function State(): Store
      reads this
    {
      Store(tasks, clock)
    }

    ghost predicate Valid()
      reads this
    {
      PresenceRule(valid) && Invariant(valid, State())
    }

    /** An empty table; ids start at 1. */
    constructor (valid: string -> bool)
      requires PresenceRule(valid)
      ensures Valid() && this.valid == valid
      ensures tasks == [] && clock == 1
    {
      this.valid := valid;
      tasks := [];
      clock := 1;
    }

    /** `index`: reads the table, changes nothing. */
    method Index() returns (resp: Response)
      requires Valid()
      ensures resp == IndexSpec(State())
      ensures resp.status == Ok && resp.body.tasks == Reverse(tasks)
    {
      var rows := OrderByCreatedDesc(tasks);
      resp := Response(Ok, TaskList(rows));
      IndexListsEverything(valid, State());
    }

    /** `create`: builds the task from the permitted parameters and saves it if valid. */
    method Create(task: Option<TaskParams>) returns (resp: Response)
      requires Valid()
      modifies this
      ensures Valid()
      ensures (resp, State()) == CreateSpec(valid, old(State()), task)
    {
      var p := RequireTask(task);
      if p.None? {
        return Response(BadRequest, Empty);
      }
      var d := PermittedDescription(p.value);
      if Accepts(valid, d) {
        var t := Task(clock, d.value, clock, clock);
        tasks := tasks + [t];
        clock := clock + 1;
        resp := Response(Created, TaskBody(t));
      } else {
        resp := Response(UnprocessableEntity, Errors(map["description" := [CantBeBlank]]));
      }
    }
  }
}
