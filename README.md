# Simple task tracker: the API's request contract in Dafny

The task tracker's server is a small Rails API with two endpoints, `GET /tasks`
and `POST /tasks`, over one `tasks` table. A shared-secret check runs before
every action. This project models that request contract and proves its
properties:

- **The authorization gate** (`ApplicationController#authorize_request`). The
  token is the last word of the `Authorization` header, as Ruby's
  `String#split(' ')` splits it. The request passes only if that word equals
  the configured key exactly. Otherwise the server renders 401
  `{error: 'Not authorized'}` and the action does not run.
- **The task table** (`TasksController#index` and `#create`). `index` lists
  every row, newest first. `create` either inserts one validated row and
  renders it with 201, or inserts nothing and renders
  `{description: ["can't be blank"]}` with 422.

Modules:

- `Wrappers` holds `Option`, used for Ruby's `nil`.
- `Resources` holds the `Task` row and the response shapes: status and JSON body.
- `Authorization` models `application_controller.rb` as pure functions.
  - Splitting is awk-style: runs of the ASCII whitespace characters
    space, tab, newline, vertical tab, form feed and carriage return separate
    fields. There are no empty fields, and `[].last` is `nil`.
- `Tasks` models `tasks_controller.rb`.
  - Pure specification functions over a `Store` value: `IndexSpec` and `CreateSpec`.
  - A class `TaskStore` whose `Create` updates its `tasks` sequence and its
    clock in place. `Index` only reads them. Both are proved against the
    specification functions.
  - `created_at` and `id` are readings of a logical clock that grows with
    each insert, so "newest first" is a total order. Listing sorts by
    `created_at` descending; the model does not rely on the table's row order.
    Under the table invariant it is proved to be exactly the reverse of
    insertion order.
  - The Task model's validation is not part of this model. It is a
    parameter `valid: string -> bool`. `PresenceRule` pins down what the test
    suites show: `""` is refused, and the descriptions they save ("Valid task",
    "Test task", "New task", "Task 1", "Task 2", "Task 3") are accepted. A
    `nil` description is always refused.
- `Api` models a request: `Handle(store, key, header, request)` runs the gate
  and then the routed action. `HandleSpec` is the same as a pure function.
  The lemmas about it state that a rejected request changes nothing. It also
  holds the request-spec scenarios.

Whitespace-only descriptions are left open. The model's validation source is
not available, and Rails' presence check (`blank?`) would refuse them. So the
model neither assumes they are accepted nor assumes they are refused.

## Model

| member | source | states |
|---|---|---|
| `Resources.Status.Code` | api/app/controllers/tasks_controller.rb:4-13 | the numeric code of each rendered status; only `:ok` and `:created` are 2xx |
| `Authorization.IsSpace` | api/app/controllers/application_controller.rb:7 | the separators of `split(' ')` are exactly the space and the characters from tab to carriage return |
| `Authorization.Authorized` | api/app/controllers/application_controller.rb:8 | the gate passes only with a header present and a key that is a single non-empty word |
| `Authorization.WordLength` | api/app/controllers/application_controller.rb:7 | the longest separator-free prefix: every character before it is a non-separator, and the next one, if any, is a separator |
| `Authorization.Words` | api/app/controllers/application_controller.rb:7 | every field `split(' ')` produces is non-empty and contains no whitespace |
| `Authorization.Token` | api/app/controllers/application_controller.rb:7 | a missing header gives `nil`; a token, when present, is a single non-empty word without whitespace |
| `Authorization.RenderUnauthorized` | api/app/controllers/application_controller.rb:11-13 | the rejection is rendered with status 401 |
| `Authorization.WordsSplitAtSpace` | api/app/controllers/application_controller.rb:7 | a whitespace character splits the field list into the fields on its left followed by those on its right, so runs of whitespace never make empty fields |
| `Authorization.NoWordsIffAllSpace` | api/app/controllers/application_controller.rb:7 | a string splits into no fields exactly when it consists only of whitespace |
| `Authorization.TrimmedEnd` | api/app/controllers/application_controller.rb:7 | the end of the string once trailing whitespace is dropped; it is 0 exactly when the string is all whitespace |
| `Authorization.WordStart` | api/app/controllers/application_controller.rb:7 | the start of the run of non-whitespace ending at a position; it is preceded by whitespace or the start of the string |
| `Authorization.TokenIsLastWord` | api/app/controllers/application_controller.rb:7 | the token is `t` if and only if `t` is a maximal non-whitespace run of the header followed only by whitespace |
| `Authorization.TokenFromTheRight` | api/app/controllers/application_controller.rb:7 | the token equals the last word read from the right: trim trailing whitespace, then take the run that ends there; no such run gives `nil` |
| `Authorization.NoTokenIffBlank` | api/app/controllers/application_controller.rb:7 | there is no token exactly when the header is missing or made only of whitespace |
| `Authorization.SchemeIsNotChecked` | api/app/controllers/application_controller.rb:7-8 | `scheme + " " + key` is accepted, for any scheme word (`Bearer`, `Basic`, anything), if and only if the key is a single word |
| `Authorization.BearerAccepted` | api/app/controllers/application_controller.rb:7-8 | the clients' header `"Bearer " + key` is accepted for any single-word key |
| `Authorization.BareKeyAccepted` | api/app/controllers/application_controller.rb:7-8 | the key alone, with no scheme, is accepted if and only if it is a single word |
| `Authorization.UnmatchableKey` | api/app/controllers/application_controller.rb:8 | a configured key that is empty or contains whitespace rejects every header |
| `Tasks.InsertByCreatedDesc` | api/app/controllers/tasks_controller.rb:3 | inserting into a newest-first list keeps it newest first and adds exactly the one task |
| `Tasks.OrderByCreatedDesc` | api/app/controllers/tasks_controller.rb:3 | `order(created_at: :desc)` gives a list sorted newest first that is a permutation of the table |
| `Tasks.OrderOfIncreasingIsReverse` | api/app/controllers/tasks_controller.rb:3 | rows inserted with strictly increasing timestamps are listed in exactly the reverse of insertion order |
| `Tasks.NewestFirstOfThree` | api/spec/requests/tasks_spec.rb:21-28 | tasks created T1, T2, T3 are ordered T3, T2, T1 |
| `Tasks.RequireTask` | api/app/controllers/tasks_controller.rb:20 | `params.require(:task)` passes exactly when `task` is present and not empty, and then yields it unchanged |
| `Tasks.PermittedDescription` | api/app/controllers/tasks_controller.rb:20 | `permit(:description)` yields the `description` field's value when it is present, and `nil` when it is absent |
| `Tasks.IndexSpec` | api/app/controllers/tasks_controller.rb:3-4 | `index` renders 200 with a list that is sorted newest first and is a permutation of the table |
| `Tasks.NewTask` | api/app/controllers/tasks_controller.rb:8-10 | the row `create` saves carries the permitted description, takes its id from the clock, and has `updated_at` equal to `created_at` |
| `Tasks.NewTaskIsFresh` | api/app/controllers/tasks_controller.rb:8-10 | under the table invariant, the new row's id differs from every stored id and its `created_at` is later than every stored one |
| `Tasks.CreateSpec` | api/app/controllers/tasks_controller.rb:7-15 | `create` either leaves the table as it was or appends exactly the rendered task and answers 201; a 201 task always has a valid description |
| `Tasks.IndexListsEverything` | api/app/controllers/tasks_controller.rb:2-5 | `index` answers 200 with every stored row exactly once, strictly newest first, i.e. the reverse of insertion order; an empty table gives an empty list |
| `Tasks.CreatedShape` | api/app/controllers/tasks_controller.rb:8-11 | a successful `create` appends the rendered task to the table, stamped with the current clock |
| `Tasks.CreatedTaskListedFirst` | api/app/controllers/tasks_controller.rb:2-11 | after a successful `create`, the listing is the new task followed by the previous listing |
| `Tasks.CreateKeepsInvariant` | api/app/controllers/tasks_controller.rb:7-15 | `create` keeps the table invariant: strictly increasing ids and timestamps below the clock, and only validated descriptions |
| `Tasks.CreateOutcomes` | api/app/controllers/tasks_controller.rb:7-15 | 201 if and only if the description is present and valid, and then exactly one row holding that description is appended; 400 if and only if `task` is missing or empty; 422 if and only if `task` is present but its permitted description is `nil` or invalid, and then the errors hold "can't be blank" under `description`; no other status; on 400 and 422 the table is unchanged |
| `Tasks.OnlyDescriptionRead` | api/app/controllers/tasks_controller.rb:19-21 | two `task` parameters with the same description give the same response and the same table, whatever other fields they carry |
| `Tasks.BlankDescriptionRejected` | api/app/controllers/tasks_controller.rb:12-13 | a non-empty `task` whose permitted description is `nil` (absent or null) or empty is answered 422, with "can't be blank" under `description`, and the table is unchanged |
| `Tasks.StoredDescriptionsPresent` | api/db/migrate/20251227162233_create_tasks.rb:4 | every stored task has a non-empty description |
| `Tasks.TaskStore.constructor` | api/db/migrate/20251227162233_create_tasks.rb:3-7 | a new table is empty, satisfies the invariant and starts its id/timestamp clock at 1 |
| `Tasks.TaskStore.Index` | api/app/controllers/tasks_controller.rb:2-5 | `index` changes nothing and answers 200 with the rows in reverse insertion order, as `IndexSpec` says |
| `Tasks.TaskStore.Create` | api/app/controllers/tasks_controller.rb:7-15 | `create` updates the table in place exactly as `CreateSpec` says, and keeps the invariant |
| `Api.HandleSpec` | api/app/controllers/application_controller.rb:2-13 | a request the gate rejects answers 401 and leaves the table as it was; an accepted one never answers 401; `GET /tasks` never changes the table |
| `Api.RejectedRequestChangesNothing` | api/app/controllers/application_controller.rb:2-13 | a request gets 401 if and only if the gate rejects it; then the body is `{error: 'Not authorized'}` and the table is untouched, whatever the route and body |
| `Api.OnlyCreateChangesTable` | api/app/controllers/tasks_controller.rb:1-15 | every request keeps the table invariant; only an authorized `POST /tasks` answered 201 changes the table |
| `Api.Handle` | api/app/controllers/application_controller.rb:1-13 | the gate runs before the routed action, and the table and response are exactly as `HandleSpec` says |
| `Api.PostValidAppends` | api/spec/requests/tasks_spec.rb:54-77 | an authorized `POST /tasks` with a valid description answers 201 with the task `NewTask` builds (that description, id and timestamps read from the clock), and appends exactly that row while advancing the clock |
| `Api.ListThree` | api/spec/requests/tasks_spec.rb:21-28 | an authorized `GET /tasks` on rows created T1, T2, T3 answers 200 with T3, T2, T1 |
| `Api.ThreePostsAppendInOrder` | api/spec/requests/tasks_spec.rb:9-11 | three authorized posts on an empty table become rows T1, T2, T3 with the posted descriptions and increasing timestamps |
| `Api.ListEmpty` | api/spec/requests/tasks_spec.rb:43-50 | with `"Bearer " + key`, an empty table is listed as `[]` with status 200 |
| `Api.PostBlankThenValid` | api/spec/requests/tasks_spec.rb:54-99 | with `"Bearer " + key`, posting `""` answers 422 with "can't be blank" and adds no row; posting `"New task"` answers 201 with that description and adds one row |

## Left out

- Environment and framework plumbing is not modelled.
  - `ENV.fetch('API_KEY')` is not modelled, including its exception when the
    variable is unset. The key is a parameter.
  - Routing, JSON serialization and ActiveRecord's SQL are not modelled. The
    table is a sequence; ordering is a sort by `created_at`.
- Real timestamps are replaced by a logical clock. It supplies ids, `created_at`
  and `updated_at`, so there are no ties in `created_at`. With wall-clock
  timestamps, SQL leaves the order of ties unspecified.
- The response to a missing or empty `task` parameter is Rails' own handling
  of `ActionController::ParameterMissing` (400). Its body is not modelled.
- Request parameters: `task` field values are `nil` or strings only.
  - A `task` parameter that is not a hash is not modelled; calling `permit`
    on one fails inside Rails.
  - Non-string scalars are not modelled; Rails would cast them into the string column.
  - Nested values are not modelled; `permit` would drop them.
- Task model validation: its source is not part of this model. The model keeps
  validation abstract, constrained only by `PresenceRule`. Whether
  whitespace-only descriptions are accepted is therefore not decided.
- Tasks.CreateSpec: assumes presence is the only validation of the Task model,
  so every refused description is rendered with the single message
  `{description: ["can't be blank"]}`. Other validations would add other
  messages; their source is not part of this model.
- Character set: header splitting recognises only the six ASCII whitespace
  characters. HTTP header encoding is not modelled.
- The React client (`client/src/hooks/useTasks.js`, `client/src/components/TaskList.js`,
  `client/src/App.js`) is not part of this model. It consists of network
  calls, UI state, and locale-dependent date formatting.
- Migration mechanics are not modelled. Only the non-null `description`
  column is kept, as part of the table invariant.
