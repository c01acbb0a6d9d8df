/** The row type of the `tasks` table and the constraints its schema puts
    on column values (go-service/internal/repository/db.go, InitSchema). */
module Tasks {
  import opened Wrappers
  import opened Json

  /** The column's ENUM('pending', 'running', 'completed', 'failed'). */
  datatype Status = Pending | Running | Completed | Failed

  /** The text MySQL stores and returns for an ENUM member. */
  function StatusName(s: Status): string {
    match s
    case Pending => "pending"
    case Running => "running"
    case Completed => "completed"
    case Failed => "failed"
  }

  /** The ENUM member a string value names, if any. */
  function ParseStatus(text: string): (r: Option<Status>)
    ensures r.Some? ==> StatusName(r.value) == text
    ensures r.None? <==> forall s: Status :: StatusName(s) != text
  {
    if text == "pending" then Some(Pending)
    else if text == "running" then Some(Running)
    else if text == "completed" then Some(Completed)
    else if text == "failed" then Some(Failed)
    else None
  }

  /** One row as Task holds it after a scan; timestamps are seconds. */
  datatype Task = Task(
    id: string,
    name: string,
    payload: Document,
    priority: int,
    status: Status,
    result: Option<Document>,   // None: the column is NULL
    createdAt: nat,
    updatedAt: nat)

  datatype Error =
    | MarshalFailed        // json.Marshal refused the payload
    | NameTooLong          // name longer than VARCHAR(100)
    | PriorityOutOfRange   // priority outside the 32-bit INT column
    | DuplicateId          // the fresh id already names a row (PRIMARY KEY)
    | InvalidStatus        // status text is not a member of the ENUM
    | NotFound             // "task not found"

  const MaxNameLength := 100
  const MinInt := -0x8000_0000
  const MaxInt := 0x7fff_ffff

  predicate FitsInt(n: int) {
    MinInt <= n <= MaxInt
  }

  /** What the table's column definitions guarantee of every stored row,
      given that it sits under key `id` and the store's clock reads `now`. */
  predicate WellFormedRow(id: string, t: Task, now: nat) {
    && t.id == id
    && |t.name| <= MaxNameLength
    && FitsInt(t.priority)
    && EncodableDocument(t.payload)
    && t.createdAt <= t.updatedAt <= now
  }
}
