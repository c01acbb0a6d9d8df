# Task repository model

A Dafny model of the task table behind `TaskRepository` in the Go service
`go-service`: the `tasks` table as an in-memory map from id to row, and the
five repository operations that read and change it — CreateTask, GetTask,
ListTasks, UpdateTaskStatus and DeleteTask. Each operation is modelled by
what its SQL text says, not by a database engine:

- `wrappers.dfy` — `Option` and `Result` (a Go `(*Task, error)` pair).
- `json.dfy` — the JSON documents of the `payload` and `result` columns, opaque
  except for whether `json.Marshal` accepts them.
- `tasks.dfy` — the row type `Task`, the status ENUM as a datatype, and the
  constraints the schema's column types put on values (VARCHAR(100) name,
  32-bit INT priority).
- `sql.dfy` — the SELECT statement ListTasks builds (text plus positional
  arguments), its placeholder count, and `ParseList`, which reads the
  conditions back out of a statement; the two are proved to round-trip.
- `ordering.dfy` — the order `ORDER BY priority ASC, created_at DESC`.
- `store.dfy` — the store's answer to a listing statement: the rows that
  satisfy its conditions, sorted by that order.
- `task_repository.dfy` — the class `TaskRepository`, whose methods update the
  `table` map in place, and a client scenario.

Time is the store's `CURRENT_TIMESTAMP`: the field `clock`, which each
timestamped statement advances by a caller-given `elapsed`. The id that
`uuid.New()` produces is a parameter of CreateTask. Column constraints are
those of MySQL in strict mode: a name over 100 characters, a priority outside
the 32-bit INT range, a duplicate primary key and a status outside the ENUM
are refused and leave the table unchanged.

The design description of the system asks for oldest-first order within a
priority. The code orders `created_at DESC`, so newer tasks come first
within a priority, and the model follows the code.

## Model

| member | source | states |
|---|---|---|
| `Tasks.ParseStatus` | go-service/internal/repository/db.go:51 | a string is accepted as a status exactly when it is the name of one of `pending`, `running`, `completed`, `failed`, and the accepted status has that name |
| `Sql.ListQuery` | go-service/internal/repository/task_repository.go:81-93 | the listing query always starts with the `SELECT … WHERE 1=1` text and ends with `ORDER BY priority ASC, created_at DESC`; it has one argument per filter in use; the status argument comes first and the priority argument last |
| `Sql.ListQueryFramed` | go-service/internal/repository/task_repository.go:81-93 | the query text is the fixed SELECT prefix, then the status condition if any, then the priority condition if any, then the ORDER BY clause |
| `Sql.ConditionsPlaceholders` | go-service/internal/repository/task_repository.go:84-91 | the conditions appended hold one placeholder per filter in use |
| `Sql.ListQueryPlaceholders` | go-service/internal/repository/task_repository.go:81-93 | the number of `?` placeholders in the query text equals the number of arguments |
| `Sql.PrefixHasNoPlaceholders` | go-service/internal/repository/task_repository.go:81 | the fixed SELECT text with its column list holds no placeholder |
| `Sql.StatusConditionPlaceholder` | go-service/internal/repository/task_repository.go:85 | the status condition holds exactly one placeholder |
| `Sql.PriorityConditionPlaceholder` | go-service/internal/repository/task_repository.go:89 | the priority condition holds exactly one placeholder |
| `Sql.OrderByHasNoPlaceholders` | go-service/internal/repository/task_repository.go:93 | the ORDER BY clause holds no placeholder |
| `Sql.ParseList` | go-service/internal/repository/task_repository.go:95 | a statement the store accepts binds exactly one argument per condition it states |
| `Sql.ListQueryMeaning` | go-service/internal/repository/task_repository.go:84-91 | the statement built for (status, priority) states a status condition with that status exactly when status is not empty, and a priority condition with that priority exactly when one is given |
| `Ordering.InsertSorted` | go-service/internal/repository/task_repository.go:93 | placing a row into a list in ORDER BY order keeps it in that order |
| `Ordering.ListingCoversTable` | go-service/internal/repository/task_repository.go:80-91 | a listing with distinct ids that holds exactly the rows of the table has one entry per row |
| `Store.SelectOrdered` | go-service/internal/repository/task_repository.go:81-99 | the store returns exactly the rows satisfying the statement's conditions, each once, sorted by priority ascending and, within a priority, by created_at descending |
| `Repository.InsertError` | go-service/internal/repository/task_repository.go:39-43 | the INSERT is refused exactly when the name exceeds 100 characters, the priority does not fit the INT column, or the id is already a key |
| `Repository.TaskRepository.constructor` | go-service/internal/repository/task_repository.go:27-29 | a repository over an empty table satisfies the table invariant |
| `Repository.TaskRepository.CreateTask` | go-service/internal/repository/task_repository.go:31-45 | an unmarshalable payload or a refused INSERT fails and leaves the table unchanged; otherwise exactly one row is added under an id not used before, with the given name, payload and priority, status `pending`, no result, both timestamps the current time, and the returned task is that row |
| `Repository.TaskRepository.GetTask` | go-service/internal/repository/task_repository.go:48-77 | a present id returns its row, an absent id returns "task not found"; the table is not changed |
| `Repository.TaskRepository.ListTasks` | go-service/internal/repository/task_repository.go:80-128 | the result holds exactly the rows matching the status filter (only when status is not empty) and the priority filter (only when given), each once, in ORDER BY order; with no filter it has one entry per row |
| `Repository.TaskRepository.UpdateTaskStatus` | go-service/internal/repository/task_repository.go:131-135 | on a present row with a valid status only `status` and `updated_at` change, and `updated_at` does not go back; an absent id changes nothing and is not an error; an invalid status is refused |
| `Repository.TaskRepository.DeleteTask` | go-service/internal/repository/task_repository.go:137-141 | removes the row with that id, if any, and no other; an absent id is not an error |
| `Repository.PriorityListingScenario` | go-service/internal/repository/task_repository.go:93 | tasks created with priorities 5 and 1 are listed with the priority-1 task first |

Every row the repository stores keeps the invariant `TaskRepository.Valid`:
it sits under its own id, its name and priority fit their columns, its
payload is encodable, and `created_at <= updated_at <= clock`.

## Left out

- `NewDB` (go-service/internal/repository/db.go:18-41) opens and pings a connection: I/O.
- `InitSchema` (go-service/internal/repository/db.go:44-75) executes DDL. Its column list and status ENUM are the data model.
- The HTTP server (go-service/pkg/server.go) is transport, and every handler there is unimplemented.
- Process start-up (go-service/cmd/server/main.go) and `GetEnv` (go-service/internal/config/helper.go) read configuration only.
- Driver and connection failures (task_repository.go:40-43 beyond the column constraints, 68-70, 95-98, 116-118) are not modelled. ListTasks therefore returns its rows without an error value.
- JSON decoding is the identity. Go decodes every JSON number as `float64`, and the model does not track that change of representation. The errors the code ignores from `json.Unmarshal` are not modelled either.
- Collation is not modelled. MySQL's default collation compares ids, statuses and ENUM values case-insensitively and ignores trailing spaces, while the model compares strings exactly.
- Timestamps are whole seconds as natural numbers. Time zones and the conversion to `time.Time` are not modelled.
- Go's 64-bit `int` range for the priority argument is not modelled. The INT column refuses any value outside 32 bits anyway.
- `UpdateTaskStatus` assumes strict SQL mode, where an invalid ENUM value on a matching row is an error. In non-strict mode MySQL would store the empty ENUM value instead.
- ListTasks returns a sequence of values. The fresh `*Task` pointers the code allocates per row, and the nil-versus-empty slice distinction, are not modelled.
- Concurrent access to the table is not modelled. Each method is one atomic step on the map.
- Leases, workers, the scheduler, retries and the reaper do not exist in the repository's code and are not modelled.
