/** The SQL statement ListTasks sends (task_repository.go, lines 81-93):
    a query text whose `?` placeholders are bound positionally to `args`.
    `ParseList` reads such a statement back into the conditions it states,
    which is what the store does with it. */
module Sql {
  import opened Wrappers
  import opened Tasks

  datatype Arg = TextArg(s: string) | IntArg(n: int)

  datatype Statement = Statement(text: string, args: seq<Arg>)

  /** The column list both SELECTs of the repository read, in Scan order. */
  const TaskColumns: seq<string> :=
    ["id", "name", "payload", "priority", "status", "result", "created_at", "updated_at"]

  function Join(parts: seq<string>, sep: string): string {
    if |parts| == 0 then ""
    else if |parts| == 1 then parts[0]
    else parts[0] + sep + Join(parts[1..], sep)
  }

  const SelectTasks := "SELECT " + Join(TaskColumns, ", ") + " FROM tasks"
  const WhereAll := " WHERE 1=1"
  const ListPrefix := SelectTasks + WhereAll
  const StatusCondition := " AND status = ?"
  const PriorityCondition := " AND priority = ?"
  const OrderByClause := " ORDER BY priority ASC, created_at DESC"

  /** Number of `?` placeholders in a query text. */
  function Placeholders(s: string): nat {
    if s == [] then 0 else (if s[0] == '?' then 1 else 0) + Placeholders(s[1..])
  }

  lemma {:induction false} PlaceholdersAppend(a: string, b: string)
    ensures Placeholders(a + b) == Placeholders(a) + Placeholders(b)
  {
    if a != [] {
      assert (a + b)[1..] == a[1..] + b;
      PlaceholdersAppend(a[1..], b);
    } else {
      assert a + b == b;
    }
  }

  lemma {:induction false} NoPlaceholders(s: string)
    requires '?' !in s
    ensures Placeholders(s) == 0
  {
    if s != [] {
      assert s[0] != '?';
      assert forall i :: 0 <= i < |s[1..]| ==> s[1..][i] == s[i + 1];
      NoPlaceholders(s[1..]);
    }
  }

  lemma {:induction false} JoinKeepsOut(parts: seq<string>, sep: string, c: char)
    requires c !in sep
    requires forall i :: 0 <= i < |parts| ==> c !in parts[i]
    ensures c !in Join(parts, sep)
  {
    if |parts| > 1 {
      JoinKeepsOut(parts[1..], sep, c);
    }
  }

  /** The fixed parts of the listing query hold no placeholder. */
  lemma PrefixHasNoPlaceholders()
    ensures Placeholders(ListPrefix) == 0
  {
    JoinKeepsOut(TaskColumns, ", ", '?');
    assert '?' !in "SELECT ";
    assert '?' !in " FROM tasks";
    assert '?' !in WhereAll;
    NoPlaceholders(ListPrefix);
  }

  lemma OrderByHasNoPlaceholders()
    ensures Placeholders(OrderByClause) == 0
  {
    NoPlaceholders(OrderByClause);
  }

  lemma {:induction false} OnePlaceholderAtEnd(s: string)
    requires '?' !in s
    ensures Placeholders(s + "?") == 1
  {
    PlaceholdersAppend(s, "?");
    NoPlaceholders(s);
    assert "?"[1..] == [];
  }

  /** Each condition holds the one placeholder for its argument. */
  lemma StatusConditionPlaceholder()
    ensures Placeholders(StatusCondition) == 1
  {
    var column := " AND status = ";
    assert '?' !in column;
    OnePlaceholderAtEnd(column);
    assert StatusCondition == column + "?";
  }

  lemma PriorityConditionPlaceholder()
    ensures Placeholders(PriorityCondition) == 1
  {
    var column := " AND priority = ";
    assert '?' !in column;
    OnePlaceholderAtEnd(column);
    assert PriorityCondition == column + "?";
  }

  /** The statement ListTasks(status, priority) sends: a status condition
      when status is not empty, then a priority condition when a priority
      is given, then the ORDER BY clause. */
  function ListQuery(status: string, priority: Option<int>): (q: Statement)
    ensures |q.text| >= |ListPrefix| + |OrderByClause|
    ensures q.text[..|ListPrefix|] == ListPrefix
    ensures q.text[|q.text| - |OrderByClause|..] == OrderByClause
    ensures |q.args| == (if status != "" then 1 else 0) + (if priority.Some? then 1 else 0)
    ensures status != "" ==> q.args[0] == TextArg(status)
    ensures priority.Some? ==> q.args[|q.args| - 1] == IntArg(priority.value)
  {
    var (text1, args1) :=
      if status != "" then (ListPrefix + StatusCondition, [TextArg(status)])
      else (ListPrefix, []);
    var (text2, args2) :=
      if priority.Some? then (text1 + PriorityCondition, args1 + [IntArg(priority.value)])
      else (text1, args1);
    Statement(text2 + OrderByClause, args2)
  }

  /** Every placeholder of the listing query has exactly one argument. */
  lemma {:induction false} FramedPlaceholders(prefix: string, middle: string, suffix: string)
    requires Placeholders(prefix) == 0 && Placeholders(suffix) == 0
    ensures Placeholders(prefix + middle + suffix) == Placeholders(middle)
  {
    PlaceholdersAppend(prefix, middle);
    PlaceholdersAppend(prefix + middle, suffix);
  }

  /** One placeholder per condition in use. */
  lemma ConditionsPlaceholders(status: string, priority: Option<int>)
    ensures Placeholders(Conditions(status, priority))
            == (if status != "" then 1 else 0) + (if priority.Some? then 1 else 0)
  {
    StatusConditionPlaceholder();
    PriorityConditionPlaceholder();
    var s := if status != "" then StatusCondition else "";
    var c := if priority.Some? then PriorityCondition else "";
    PlaceholdersAppend(s, c);
  }

  lemma ListQueryPlaceholders(status: string, priority: Option<int>)
    ensures Placeholders(ListQuery(status, priority).text) == |ListQuery(status, priority).args|
  {
    ListQueryFramed(status, priority);
    PrefixHasNoPlaceholders();
    OrderByHasNoPlaceholders();
    FramedPlaceholders(ListPrefix, Conditions(status, priority), OrderByClause);
    ConditionsPlaceholders(status, priority);
  }

  /** The conditions of a WHERE clause: `status = ?` and `priority = ?`, each
      present or not, with the value bound to its placeholder. */
  datatype Where = Where(status: Option<string>, priority: Option<int>)

  /** A row satisfies the WHERE clause. */
  predicate Satisfies(t: Task, w: Where) {
    && (w.status.Some? ==> StatusName(t.status) == w.status.value)
    && (w.priority.Some? ==> t.priority == w.priority.value)
  }

  /** Reads a listing statement: the fixed prefix and ORDER BY suffix
      around zero, one or both conditions, each placeholder bound in order
      to an argument of the kind its column takes. */
  function ParseList(q: Statement): (w: Option<Where>)
    ensures w.Some? ==> |q.args| == (if w.value.status.Some? then 1 else 0) + (if w.value.priority.Some? then 1 else 0)
  {
    var n := |q.text|;
    if n < |ListPrefix| + |OrderByClause|
       || q.text[..|ListPrefix|] != ListPrefix
       || q.text[n - |OrderByClause|..] != OrderByClause
    then None
    else
      ParseConditions(q.text[|ListPrefix|..n - |OrderByClause|], q.args)
  }

  lemma Framed(prefix: string, middle: string, suffix: string)
    ensures var t := prefix + middle + suffix;
            && t[..|prefix|] == prefix
            && t[|t| - |suffix|..] == suffix
            && t[|prefix|..|t| - |suffix|] == middle
  {
  }

  /** The conditions a listing statement states, as ListQuery puts them
      between the fixed prefix and the ORDER BY clause. */
  function Conditions(status: string, priority: Option<int>): string {
    (if status != "" then StatusCondition else "") + (if priority.Some? then PriorityCondition else "")
  }

  /** Reading back a statement framed like a listing query: the conditions
      between the prefix and the ORDER BY clause decide its meaning. */
  lemma {:induction false} ParseFramed(conditions: string, args: seq<Arg>)
    ensures var q := Statement(ListPrefix + conditions + OrderByClause, args);
            ParseList(q) == ParseConditions(conditions, args)
  {
    Framed(ListPrefix, conditions, OrderByClause);
  }

  function ParseConditions(conditions: string, args: seq<Arg>): Option<Where> {
    if conditions == "" && args == [] then
      Some(Where(None, None))
    else if conditions == StatusCondition && |args| == 1 && args[0].TextArg? then
      Some(Where(Some(args[0].s), None))
    else if conditions == PriorityCondition && |args| == 1 && args[0].IntArg? then
      Some(Where(None, Some(args[0].n)))
    else if conditions == StatusCondition + PriorityCondition && |args| == 2
            && args[0].TextArg? && args[1].IntArg? then
      Some(Where(Some(args[0].s), Some(args[1].n)))
    else None
  }

  /** The listing query is the fixed prefix, its conditions and the
      ORDER BY clause, in that order. */
  lemma ListQueryFramed(status: string, priority: Option<int>)
    ensures ListQuery(status, priority).text == ListPrefix + Conditions(status, priority) + OrderByClause
  {
    var p, s, c, o := ListPrefix, StatusCondition, PriorityCondition, OrderByClause;
    if status != "" && priority.Some? {
      assert p + s + c + o == p + (s + c) + o;
    } else if status != "" {
      assert s + "" == s;
    } else if priority.Some? {
      assert "" + c == c;
    } else {
      assert p + "" == p;
    }
  }

  /** The statement ListTasks builds says exactly what ListTasks means:
      filter on status only when it is not empty, on priority only when one
      is given. */
  lemma ListQueryMeaning(status: string, priority: Option<int>)
    ensures ParseList(ListQuery(status, priority))
            == Some(Where(if status == "" then None else Some(status), priority))
  {
    var q := ListQuery(status, priority);
    var conditions := Conditions(status, priority);
    ListQueryFramed(status, priority);
    ParseFramed(conditions, q.args);
    assert |StatusCondition| == 15 && |PriorityCondition| == 17;
  }
}
