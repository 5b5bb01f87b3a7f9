/**
 * A request as the application serves it: the `before_action
 * :authorize_request` gate of `ApplicationController` runs first and, when it
 * renders 401, the action never runs; otherwise the route's action of
 * `TasksController` runs against the table.
 */
module Api {
  import opened Wrappers
  import opened Resources
  import opened Authorization
  import opened Tasks

  /** The two routes: `GET /tasks` and `POST /tasks` with its `task` parameter. */
  datatype Request = ListTasks | CreateTask(task: Option<TaskParams>)

  /** One request against the table: the response and the table afterwards. */
  function HandleSpec(valid: string -> bool, key: string, header: Option<string>, req: Request, s: Store): (out: (Response, Store))
    ensures !Authorized(header, key) ==> out.1 == s && out.0.status == Unauthorized
    ensures Authorized(header, key) ==> out.0.status != Unauthorized
    ensures req.ListTasks? ==> out.1 == s
  {
    if !Authorized(header, key) then (RenderUnauthorized(), s)
    else
      match req
      case ListTasks => (IndexSpec(s), s)
      case CreateTask(task) => CreateSpec(valid, s, task)
  }

  /**
   * The gate decides alone whether the answer is 401: a rejected request gets
   * `{error: 'Not authorized'}` and leaves the table as it was, whatever its
   * route and body; an accepted one never gets 401.
   */
  lemma RejectedRequestChangesNothing(valid: string -> bool, key: string, header: Option<string>, req: Request, s: Store)
    ensures HandleSpec(valid, key, header, req, s).0.status == Unauthorized <==> !Authorized(header, key)
    ensures !Authorized(header, key) ==>
      HandleSpec(valid, key, header, req, s) == (Response(Unauthorized, ErrorMessage("Not authorized")), s)
  {
  }

  /** Only an accepted, successful `POST /tasks` changes the table, and it keeps the invariant. */
  lemma OnlyCreateChangesTable(valid: string -> bool, key: string, header: Option<string>, req: Request, s: Store)
    requires Invariant(valid, s)
    ensures Invariant(valid, HandleSpec(valid, key, header, req, s).1)
    ensures HandleSpec(valid, key, header, req, s).1 != s ==>
      Authorized(header, key) && req.CreateTask? && HandleSpec(valid, key, header, req, s).0.status == Created
  {
    if Authorized(header, key) && req.CreateTask? {
      CreateKeepsInvariant(valid, s, req.task);
    }
  }

  /** `ApplicationController#authorize_request` followed by the routed action. */
  method Handle(store: TaskStore, key: string, header: Option<string>, req: Request) returns (resp: Response)
    requires store.Valid()
    modifies store
    ensures store.Valid()
    ensures (resp, store.State()) == HandleSpec(store.valid, key, header, req, old(store.State()))
  {
    if !Authorized(header, key) {
      return RenderUnauthorized();
    }
    match req
    case ListTasks =>
      resp := store.Index();
    case CreateTask(task) =>
      resp := store.Create(task);
  }

  /** The request spec's parameters `{task: {description: d}}`. */
  function DescriptionParams(d: string): (p: Option<TaskParams>)
    ensures p.Some? && p.value != map[] && PermittedDescription(p.value) == Some(d)
  {
    var m := map["description" := Some(d)];
    assert "description" in m;
    Some(m)
  }

  /** An accepted `POST /tasks` with a valid description answers 201 and appends exactly that task. */
  lemma PostValidAppends(valid: string -> bool, key: string, header: Option<string>, d: string, s: Store)
    requires Authorized(header, key) && valid(d)
    ensures HandleSpec(valid, key, header, CreateTask(DescriptionParams(d)), s)
      == (Response(Created, TaskBody(NewTask(s, d))), Store(s.tasks + [NewTask(s, d)], s.clock + 1))
  {
  }

  /** An accepted `GET /tasks` on rows created T1, T2, T3 answers 200 with T3, T2, T1. */
  lemma ListThree(valid: string -> bool, key: string, header: Option<string>, t1: Task, t2: Task, t3: Task, clock: nat)
    requires Authorized(header, key)
    requires t1.createdAt < t2.createdAt < t3.createdAt
    ensures HandleSpec(valid, key, header, ListTasks, Store([t1, t2, t3], clock)).0 == Response(Ok, TaskList([t3, t2, t1]))
  {
    NewestFirstOfThree(t1, t2, t3);
  }

  /**
   * Three tasks posted one after another on an empty table, with an accepted
   * header (such as `"Bearer " + key`, by BearerAccepted), become rows T1, T2,
   * T3 with increasing timestamps, so that ListThree lists them T3, T2, T1.
   */
  lemma ThreePostsAppendInOrder(valid: string -> bool, key: string, header: Option<string>, d1: string, d2: string, d3: string)
    requires Authorized(header, key) && valid(d1) && valid(d2) && valid(d3)
    ensures
      var s1 := HandleSpec(valid, key, header, CreateTask(DescriptionParams(d1)), Store([], 1)).1;
      var s2 := HandleSpec(valid, key, header, CreateTask(DescriptionParams(d2)), s1).1;
      var s3 := HandleSpec(valid, key, header, CreateTask(DescriptionParams(d3)), s2).1;
      && |s3.tasks| == 3
      && s3.tasks[0].description == d1 && s3.tasks[1].description == d2 && s3.tasks[2].description == d3
      && s3.tasks[0].createdAt < s3.tasks[1].createdAt < s3.tasks[2].createdAt
  {
    var t1, t2, t3 := NewTask(Store([], 1), d1), NewTask(Store([], 2), d2), NewTask(Store([], 3), d3);
    PostValidAppends(valid, key, header, d1, Store([], 1));
    PostValidAppends(valid, key, header, d2, Store([t1], 2));
    PostValidAppends(valid, key, header, d3, Store([t1, t2], 3));
    assert [] + [t1] == [t1] && [t1] + [t2] == [t1, t2] && [t1, t2] + [t3] == [t1, t2, t3];
  }

  /** On an empty table, `GET /tasks` answers 200 with an empty list. */
  method ListEmpty(valid: string -> bool, key: string) returns (listing: Response)
    requires PresenceRule(valid) && IsWord(key)
    ensures listing == Response(Ok, TaskList([]))
  {
    var store := new TaskStore(valid);
    BearerAccepted(key);
    listing := Handle(store, key, Some("Bearer " + key), ListTasks);
  }

  /**
   * `{task: {description: ""}}` is answered 422 with "can't be blank" and the
   * table keeps its size; `{task: {description: "New task"}}` is answered 201
   * with a task carrying that description, and the table grows by one.
   */
  method PostBlankThenValid(valid: string -> bool, key: string)
    returns (blank: Response, countAfterBlank: nat, created: Response, countAfterCreate: nat)
    requires PresenceRule(valid) && IsWord(key)
    ensures blank.status == UnprocessableEntity && blank.body.Errors?
    ensures "description" in blank.body.errors && CantBeBlank in blank.body.errors["description"]
    ensures countAfterBlank == 0
    ensures created.status == Created && created.body.TaskBody?
    ensures created.body.task.description == "New task"
    ensures countAfterCreate == 1
  {
    var store := new TaskStore(valid);
    var header := Some("Bearer " + key);
    BearerAccepted(key);
    blank := Handle(store, key, header, CreateTask(DescriptionParams("")));
    countAfterBlank := |store.tasks|;
    created := Handle(store, key, header, CreateTask(DescriptionParams("New task")));
    countAfterCreate := |store.tasks|;
  }
}
