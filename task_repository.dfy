/** TaskRepository (go-service/internal/repository/task_repository.go): the
    `tasks` table as a map from id to row, changed in place by the
    repository's methods. The store's CURRENT_TIMESTAMP is the `clock`
    field; each timestamped statement advances it by `elapsed` seconds.
    The fresh id uuid.New() would produce is a parameter of CreateTask. */
module Repository {
  import opened Wrappers
  import opened Json
  import opened Tasks
  import opened Sql
  import opened Ordering
  import Store

  /** The rows ListTasks(status, priority) asks for: a status filter only
      when status is not empty, a priority filter only when one is given. */
  predicate Wanted(t: Task, status: string, priority: Option<int>) {
    && (status == "" || StatusName(t.status) == status)
    && (priority.None? || t.priority == priority.value)
  }

  /** The column constraint that makes the store refuse the INSERT of
      CreateTask, checked in the order the store checks them: the values
      first, the primary key last. */
  function InsertError(table: map<string, Task>, id: string, name: string, priority: int): (e: Option<Error>)
    ensures e.None? <==> |name| <= MaxNameLength && FitsInt(priority) && id !in table
    ensures e.Some? ==> e.value in {NameTooLong, PriorityOutOfRange, DuplicateId}
  {
    if |name| > MaxNameLength then Some(NameTooLong)
    else if !FitsInt(priority) then Some(PriorityOutOfRange)
    else if id in table then Some(DuplicateId)
    else None
  }

  class TaskRepository {
    var table: map<string, Task>
    var clock: nat

    ghost predicate Valid()
      reads this
    {
      forall id :: id in table ==> WellFormedRow(id, table[id], clock)
    }

    /** An empty table, as InitSchema creates it, at time `now`. */
    constructor (now: nat)
      ensures Valid()
      ensures table == map[] && clock == now
    {
      table := map[];
      clock := now;
    }

    method CreateTask(name: string, payload: Document, priority: int, id: string, elapsed: nat)
      returns (r: Result<Task, Error>)
      requires Valid()
      modifies this
      ensures Valid()
      ensures clock == old(clock) + elapsed
      ensures !EncodableDocument(payload) ==> r == Failure(MarshalFailed)
      ensures EncodableDocument(payload) && InsertError(old(table), id, name, priority).Some?
              ==> r == Failure(InsertError(old(table), id, name, priority).value)
      ensures r.Failure? ==> table == old(table)
      ensures r.Success? <==> EncodableDocument(payload) && InsertError(old(table), id, name, priority).None?
      ensures r.Success? ==>
                && id !in old(table)
                && r.value == Task(id, name, payload, priority, Pending, None, clock, clock)
                && table == old(table)[id := r.value]
    {
      clock := clock + elapsed;
      if !EncodableDocument(payload) {
        return Failure(MarshalFailed);
      }
      var rejected := InsertError(table, id, name, priority);
      if rejected.Some? {
        return Failure(rejected.value);
      }
      table := table[id := Task(id, name, payload, priority, Pending, None, clock, clock)];
      r := GetTask(id);
    }

    method GetTask(id: string) returns (r: Result<Task, Error>)
      requires Valid()
      ensures id in table ==> r == Success(table[id])
      ensures id !in table ==> r == Failure(NotFound)
      ensures r.Success? ==> r.value.id == id && r.value.createdAt <= r.value.updatedAt
    {
      if id !in table {
        return Failure(NotFound);
      }
      r := Success(table[id]);
    }

    method ListTasks(status: string, priority: Option<int>) returns (tasks: seq<Task>)
      requires Valid()
      ensures Sorted(tasks)
      ensures DistinctIds(tasks)
      ensures forall t :: t in tasks <==> t in table.Values && Wanted(t, status, priority)
      ensures status == "" && priority.None? ==> |tasks| == |table|
    {
      var query := ListQuery(status, priority);
      ListQueryMeaning(status, priority);
      var where := ParseList(query).value;
      var cursor := Store.SelectOrdered(table, where);
      tasks := [];
      for i := 0 to |cursor|
        invariant tasks == cursor[..i]
      {
        tasks := tasks + [cursor[i]];
      }
      assert tasks == cursor;
      if status == "" && priority.None? {
        ListingCoversTable(tasks, table);
      }
    }

    method UpdateTaskStatus(id: string, status: string, elapsed: nat) returns (err: Option<Error>)
      requires Valid()
      modifies this
      ensures Valid()
      ensures clock == old(clock) + elapsed
      ensures id !in old(table) ==> err == None && table == old(table)
      ensures id in old(table) && ParseStatus(status).None? ==> err == Some(InvalidStatus) && table == old(table)
      ensures id in old(table) && ParseStatus(status).Some? ==>
                && err == None
                && table == old(table)[id := old(table)[id].(status := ParseStatus(status).value, updatedAt := clock)]
                && old(table)[id].updatedAt <= table[id].updatedAt
    {
      clock := clock + elapsed;
      if id in table {
        var s := ParseStatus(status);
        if s.None? {
          return Some(InvalidStatus);
        }
        table := table[id := table[id].(status := s.value, updatedAt := clock)];
      }
      err := None;
    }

    method DeleteTask(id: string)
      requires Valid()
      modifies this
      ensures Valid()
      ensures table == old(table) - {id}
      ensures clock == old(clock)
    {
      table := table - {id};
    }
  }

  /** Two tasks created with priorities 5 and 1 are listed with the
      priority-1 task first. */
  method PriorityListingScenario() returns (first: Task)
    ensures first.priority == 1 && first.name == "urgent" && first.status == Pending
  {
    var repo := new TaskRepository(0);
    var later := repo.CreateTask("routine", map[], 5, "id-routine", 1);
    var sooner := repo.CreateTask("urgent", map[], 1, "id-urgent", 1);
    var tasks := repo.ListTasks("", None);
    var urgent := sooner.value;
    assert urgent in repo.table.Values by {
      assert repo.table["id-urgent"] == urgent;
    }
    assert urgent in tasks;
    first := tasks[0];
    assert first in repo.table.Values;
  }
}
