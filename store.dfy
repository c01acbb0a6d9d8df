/** What the store does with a listing statement once it has read its
    conditions: keep the rows that satisfy them and hand them over in the
    order of the ORDER BY clause. Rows are visited in no particular order,
    so rows that tie on (priority, created_at) come out in an unspecified
    order, as they do from the database. */
module Store {
  import opened Tasks
  import opened Sql
  import opened Ordering

  method SelectOrdered(table: map<string, Task>, w: Where) returns (result: seq<Task>)
    requires forall id :: id in table ==> table[id].id == id
    ensures Sorted(result)
    ensures DistinctIds(result)
    ensures forall t :: t in result <==> t in table.Values && Satisfies(t, w)
  {
    result := [];
    var unvisited := table.Keys;
    while unvisited != {}
      invariant unvisited <= table.Keys
      invariant Sorted(result)
      invariant DistinctIds(result)
      invariant forall t :: t in result <==> t in table.Values && t.id !in unvisited && Satisfies(t, w)
      decreases unvisited
    {
      var id :| id in unvisited;
      var row := table[id];
      if Satisfies(row, w) {
        forall i | 0 <= i < |result| ensures result[i].id != row.id {
          assert result[i] in result;
        }
        InsertElements(result, row);
        InsertSorted(result, row);
        InsertDistinct(result, row);
        result := Insert(result, row);
      }
      unvisited := unvisited - {id};
    }
  }
}
