/** The order `ORDER BY priority ASC, created_at DESC` puts rows in
    (task_repository.go, line 93): lower priority values first and, within
    one priority, newer rows first. Rows equal on both keys may come in
    either order. */
module Ordering {
  import opened Tasks

  /** `a` may be listed before `b`. */
  predicate Ordered(a: Task, b: Task) {
    a.priority < b.priority || (a.priority == b.priority && a.createdAt >= b.createdAt)
  }

  predicate Sorted(s: seq<Task>) {
    forall i, j :: 0 <= i < j < |s| ==> Ordered(s[i], s[j])
  }

  /** No two rows of `s` share an id. */
  predicate DistinctIds(s: seq<Task>) {
    forall i, j :: 0 <= i < j < |s| ==> s[i].id != s[j].id
  }

  /** Places `t` after every row that may precede it. */
  function Insert(s: seq<Task>, t: Task): (r: seq<Task>)
    ensures |r| == |s| + 1
  {
    if s == [] || Ordered(t, s[0]) then [t] + s else [s[0]] + Insert(s[1..], t)
  }

  lemma {:induction false} InsertElements(s: seq<Task>, t: Task)
    ensures forall x :: x in Insert(s, t) <==> x in s || x == t
  {
    if s != [] && !Ordered(t, s[0]) {
      InsertElements(s[1..], t);
      assert s == [s[0]] + s[1..];
    }
  }

  lemma {:induction false} InsertSorted(s: seq<Task>, t: Task)
    requires Sorted(s)
    ensures Sorted(Insert(s, t))
  {
    if s != [] && !Ordered(t, s[0]) {
      var rest := Insert(s[1..], t);
      InsertSorted(s[1..], t);
      InsertElements(s[1..], t);
      forall j | 0 <= j < |rest|
        ensures Ordered(s[0], rest[j])
      {
        assert rest[j] in rest;
        if rest[j] != t {
          var k :| 0 <= k < |s[1..]| && s[1..][k] == rest[j];
          assert s[k + 1] == rest[j];
        }
      }
    }
  }

  lemma {:induction false} InsertDistinct(s: seq<Task>, t: Task)
    requires DistinctIds(s)
    requires forall i :: 0 <= i < |s| ==> s[i].id != t.id
    ensures DistinctIds(Insert(s, t))
  {
    if s != [] && !Ordered(t, s[0]) {
      var rest := Insert(s[1..], t);
      InsertDistinct(s[1..], t);
      InsertElements(s[1..], t);
      forall j | 0 <= j < |rest|
        ensures s[0].id != rest[j].id
      {
        assert rest[j] in rest;
        if rest[j] != t {
          var k :| 0 <= k < |s[1..]| && s[1..][k] == rest[j];
          assert s[k + 1] == rest[j];
        }
      }
    }
  }

  function IdsOf(s: seq<Task>): set<string> {
    set i | 0 <= i < |s| :: s[i].id
  }

  /** A sequence with distinct ids has as many rows as ids. */
  lemma {:induction false} DistinctIdsCount(s: seq<Task>)
    requires DistinctIds(s)
    ensures |IdsOf(s)| == |s|
  {
    if s != [] {
      var rest := s[1..];
      DistinctIdsCount(rest);
      assert IdsOf(s) == {s[0].id} + IdsOf(rest) by {
        forall id | id in IdsOf(s) ensures id in {s[0].id} + IdsOf(rest) {
          var i :| 0 <= i < |s| && s[i].id == id;
          if i > 0 { assert rest[i - 1].id == id; }
        }
        forall id | id in IdsOf(rest) ensures id in IdsOf(s) {
          var i :| 0 <= i < |rest| && rest[i].id == id;
          assert s[i + 1].id == id;
        }
      }
      assert s[0].id !in IdsOf(rest);
    }
  }

  /** A listing with distinct ids that holds exactly the rows of a table
      keyed by id has one entry per row of the table. */
  lemma ListingCoversTable(s: seq<Task>, table: map<string, Task>)
    requires forall id :: id in table ==> table[id].id == id
    requires DistinctIds(s)
    requires forall t :: t in s <==> t in table.Values
    ensures |s| == |table|
  {
    DistinctIdsCount(s);
    assert IdsOf(s) == table.Keys by {
      forall id | id in IdsOf(s) ensures id in table {
        var i :| 0 <= i < |s| && s[i].id == id;
        assert s[i] in s;
        var k :| k in table && table[k] == s[i];
      }
      forall id | id in table ensures id in IdsOf(s) {
        assert table[id] in table.Values;
        var i :| 0 <= i < |s| && s[i] == table[id];
      }
    }
    assert |table.Keys| == |table|;
  }
}
