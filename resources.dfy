/**
 * The one persisted entity (a row of the `tasks` table) and the shapes of the
 * responses the two controllers render.
 */
module Resources {

  /**
   * A row of the `tasks` table. `description` is a string column declared
   * `null: false`, so a stored task always has one; `created_at` and
   * `updated_at` come from `t.timestamps`, here readings of a logical clock.
   */
  datatype Task = Task(id: nat, description: string, createdAt: nat, updatedAt: nat)

  /** The HTTP statuses the API produces. */
  datatype Status = Ok | Created | BadRequest | Unauthorized | UnprocessableEntity
  {
    /** The numeric status code Rails sends for each symbolic status. */
    function Code(): (c: nat)
      ensures 200 <= c < 500
      ensures c < 300 <==> (this == Ok || this == Created)
    {
      match this
      case Ok => 200
      case Created => 201
      case BadRequest => 400
      case Unauthorized => 401
      case UnprocessableEntity => 422
    }
  }

  /** What is rendered as JSON: a task list, one task, a validation error map, or `{error: ...}`. */
  datatype Body =
    | TaskList(tasks: seq<Task>)
    | TaskBody(task: Task)
    | Errors(errors: map<string, seq<string>>)
    | ErrorMessage(error: string)
    | Empty

  datatype Response = Response(status: Status, body: Body)
}
