/**
 * The task list of `App`: the record it holds per task, the queries
 * `getActiveTodos`, `getCompletedTodos` and `getFilteredTodos`, the reverse
 * lookup that `indexFromEl` performs, and the whole-list effect of each
 * mutating handler, with what each of these is proved to keep.
 */
module Todos {

  import opened Optional
  import Text

  /** One task: `{id, title, completed}`. */
  datatype Todo = Todo(id: string, title: string, completed: bool)

  /**
   * The list invariant of the app: no task's title is blank. `create` and
   * `update` only ever store a trimmed, non-empty title.
   */
  predicate NoBlankTitles(s: seq<Todo>) {
    forall t :: t in s ==> !Text.Blank(t.title)
  }

  // ------------------------------------------------------------- queries

  /**
   * `todos.filter(...)` keeping the tasks whose `completed` is `done`, in
   * their original order.
   */
  function Select(s: seq<Todo>, done: bool): (r: seq<Todo>)
    ensures |r| <= |s|
    ensures forall t :: t in r <==> t in s && t.completed == done
  {
    if s == [] then []
    else
      assert s == [s[0]] + s[1..];
      if s[0].completed == done then [s[0]] + Select(s[1..], done)
      else Select(s[1..], done)
  }

  /** `getActiveTodos`: the tasks not completed, in their original order. */
  function Active(s: seq<Todo>): (r: seq<Todo>)
    ensures IsSubsequence(r, s)
    ensures forall t :: t in r <==> t in s && !t.completed
  {
    SelectIsSubsequence(s, false);
    Select(s, false)
  }

  /** `getCompletedTodos`: the completed tasks, in their original order. */
  function Completed(s: seq<Todo>): (r: seq<Todo>)
    ensures IsSubsequence(r, s)
    ensures forall t :: t in r <==> t in s && t.completed
  {
    SelectIsSubsequence(s, true);
    Select(s, true)
  }

  /** Whether a task passes the filter named `filter`; a name other than `active` or `completed` passes every task. */
  predicate Shows(filter: string, t: Todo) {
    (filter == "active" ==> !t.completed) && (filter == "completed" ==> t.completed)
  }

  /**
   * `getFilteredTodos`: the active tasks for `active`, the completed tasks
   * for `completed`, and the whole list for any other filter value. Either
   * way, an order-preserving selection of exactly the tasks the filter shows.
   */
  function Filtered(s: seq<Todo>, filter: string): (r: seq<Todo>)
    ensures IsSubsequence(r, s)
    ensures forall t :: t in r <==> t in s && Shows(filter, t)
    ensures filter != "active" && filter != "completed" ==> r == s
  {
    if filter == "active" then
      SelectIsSubsequence(s, false);
      Active(s)
    else if filter == "completed" then
      SelectIsSubsequence(s, true);
      Completed(s)
    else
      SubsequenceReflexive(s);
      s
  }

  /** `r` is `s` with some elements left out, the rest in their original order. */
  predicate IsSubsequence<T(==)>(r: seq<T>, s: seq<T>)
    decreases |s|
  {
    if r == [] then true
    else if s == [] then false
    else if r[0] == s[0] then IsSubsequence(r[1..], s[1..])
    else IsSubsequence(r, s[1..])
  }

  lemma {:induction false} SubsequenceReflexive<T>(s: seq<T>)
    ensures IsSubsequence(s, s)
    decreases |s|
  {
    if s != [] {
      SubsequenceReflexive(s[1..]);
    }
  }

  /** Both queries keep the order of the list: what they return is a subsequence of it. */
  lemma {:induction false} SelectIsSubsequence(s: seq<Todo>, done: bool)
    ensures IsSubsequence(Select(s, done), s)
  {
    if s != [] {
      SelectIsSubsequence(s[1..], done);
    }
  }

  /** Filtering distributes over concatenation, the other way of saying that it keeps the order. */
  lemma {:induction false} SelectAppend(a: seq<Todo>, b: seq<Todo>, done: bool)
    ensures Select(a + b, done) == Select(a, done) + Select(b, done)
  {
    if a == [] {
      assert a + b == b;
    } else {
      assert (a + b)[1..] == a[1..] + b;
      SelectAppend(a[1..], b, done);
    }
  }

  /**
   * The active and the completed tasks partition the list: their lengths add
   * up to its length and together they hold each task exactly as often as it does.
   */
  lemma {:induction false} Partition(s: seq<Todo>)
    ensures |Active(s)| + |Completed(s)| == |s|
    ensures multiset(Active(s)) + multiset(Completed(s)) == multiset(s)
  {
    if s != [] {
      Partition(s[1..]);
      assert s == [s[0]] + s[1..];
    }
  }

  /** A list whose tasks all have status `done` is kept whole by one filter and emptied by the other. */
  lemma {:induction false} SelectUniform(s: seq<Todo>, done: bool)
    requires forall i :: 0 <= i < |s| ==> s[i].completed == done
    ensures Select(s, done) == s
    ensures Select(s, !done) == []
  {
    if s != [] {
      SelectUniform(s[1..], done);
    }
  }

  /**
   * `destroyCompleted` replaces the list by its active tasks; that list has
   * no completed task and its active tasks are itself, so a second call
   * changes nothing.
   */
  lemma ClearCompletedSettles(s: seq<Todo>)
    ensures Completed(Active(s)) == []
    ensures Active(Active(s)) == Active(s)
  {
    var a := Active(s);
    assert forall i :: 0 <= i < |a| ==> a[i].completed == false by {
      forall i | 0 <= i < |a| ensures a[i].completed == false {
        assert a[i] in a;
      }
    }
    SelectUniform(a, false);
  }

  // ------------------------------------------------------------- lookups

  /**
   * The reverse linear search of `indexFromEl`: the largest index whose task
   * has id `id`, or nothing when no task has it.
   */
  function LastIndexOf(s: seq<Todo>, id: string): (r: Option<nat>)
    ensures r.Some? ==> r.value < |s| && s[r.value].id == id
                        && forall j :: r.value < j < |s| ==> s[j].id != id
    ensures r.None? ==> forall j :: 0 <= j < |s| ==> s[j].id != id
  {
    if s == [] then None
    else if s[|s| - 1].id == id then Some(|s| - 1)
    else LastIndexOf(s[..|s| - 1], id)
  }

  /** No two tasks share an id. */
  predicate UniqueIds(s: seq<Todo>) {
    forall i, j :: 0 <= i < j < |s| ==> s[i].id != s[j].id
  }

  /** With unique ids the reverse search finds the one task that has the id, wherever it stands. */
  lemma UniqueLookup(s: seq<Todo>, k: nat)
    requires UniqueIds(s) && k < |s|
    ensures LastIndexOf(s, s[k].id) == Some(k)
  {
  }

  // ----------------------------------------------- effects of the handlers

  /** `toggleAll`: every task's `completed` set to `done`; ids, titles, order and length kept. */
  function SetAll(s: seq<Todo>, done: bool): (r: seq<Todo>)
    ensures |r| == |s|
    ensures forall i :: 0 <= i < |s| ==>
      r[i].id == s[i].id && r[i].title == s[i].title && r[i].completed == done
  {
    seq(|s|, i requires 0 <= i < |s| => s[i].(completed := done))
  }

  /** After `toggleAll(true)` no task is active; after `toggleAll(false)` none is completed. */
  lemma {:induction false} ToggleAllSettles(s: seq<Todo>, done: bool)
    ensures Select(SetAll(s, done), !done) == []
    ensures Select(SetAll(s, done), done) == SetAll(s, done)
  {
    SelectUniform(SetAll(s, done), done);
  }

  /** `toggle` at index `i`: that task's `completed` flipped, everything else kept. */
  function Toggled(s: seq<Todo>, i: nat): (r: seq<Todo>)
    requires i < |s|
    ensures |r| == |s|
    ensures r[i].id == s[i].id && r[i].title == s[i].title && r[i].completed == !s[i].completed
    ensures forall j :: 0 <= j < |s| && j != i ==> r[j] == s[j]
  {
    s[i := s[i].(completed := !s[i].completed)]
  }

  /** Toggling the same task twice restores the list. */
  lemma ToggleInvolution(s: seq<Todo>, i: nat)
    requires i < |s|
    ensures Toggled(Toggled(s, i), i) == s
  {
  }

  /** A toggle moves exactly one task between the active and the completed counts. */
  lemma ToggleShiftsCounts(s: seq<Todo>, i: nat)
    requires i < |s|
    ensures |Active(Toggled(s, i))| == |Active(s)| + (if s[i].completed then 1 else -1)
    ensures |Completed(Toggled(s, i))| == |Completed(s)| + (if s[i].completed then -1 else 1)
  {
    var t := Toggled(s, i);
    var before, after := s[..i], s[i + 1..];
    assert s == before + [s[i]] + after;
    assert t == before + [t[i]] + after;
    forall done: bool
      ensures Select(s, done) == Select(before, done) + Select([s[i]], done) + Select(after, done)
      ensures Select(t, done) == Select(before, done) + Select([t[i]], done) + Select(after, done)
    {
      SelectAppend(before + [s[i]], after, done);
      SelectAppend(before, [s[i]], done);
      SelectAppend(before + [t[i]], after, done);
      SelectAppend(before, [t[i]], done);
    }
  }

  /** `update` committing `title` at index `i`: that task's title replaced, everything else kept. */
  function Retitled(s: seq<Todo>, i: nat, title: string): (r: seq<Todo>)
    requires i < |s|
    ensures |r| == |s|
    ensures r[i].id == s[i].id && r[i].title == title && r[i].completed == s[i].completed
    ensures forall j :: 0 <= j < |s| && j != i ==> r[j] == s[j]
  {
    s[i := s[i].(title := title)]
  }

  /** Committing a non-blank title keeps every title of the list non-blank. */
  lemma RetitledKeepsTitles(s: seq<Todo>, i: nat, title: string)
    requires i < |s| && NoBlankTitles(s) && !Text.Blank(title)
    ensures NoBlankTitles(Retitled(s, i, title))
  {
    var r := Retitled(s, i, title);
    forall t | t in r ensures !Text.Blank(t.title) {
      var j :| 0 <= j < |r| && r[j] == t;
      if j != i { assert s[j] in s; }
    }
  }

  /** `splice(i, 1)`: the task at `i` removed, the others kept in order, the list one shorter. */
  function Removed(s: seq<Todo>, i: nat): (r: seq<Todo>)
    requires i < |s|
    ensures |r| == |s| - 1
    ensures forall j :: 0 <= j < i ==> r[j] == s[j]
    ensures forall j :: i <= j < |r| ==> r[j] == s[j + 1]
    ensures multiset(r) + multiset{s[i]} == multiset(s)
  {
    assert s == s[..i] + [s[i]] + s[i + 1..];
    s[..i] + s[i + 1..]
  }

  /** With unique ids, a removed task's id is gone from the list and the rest stay unique. */
  lemma RemovedForgetsId(s: seq<Todo>, i: nat)
    requires UniqueIds(s) && i < |s|
    ensures UniqueIds(Removed(s, i))
    ensures LastIndexOf(Removed(s, i), s[i].id) == None
  {
    var r := Removed(s, i);
    forall j | 0 <= j < |r| ensures r[j].id != s[i].id {
      if j < i { assert r[j] == s[j]; } else { assert r[j] == s[j + 1]; }
    }
    forall a, b | 0 <= a < b < |r| ensures r[a].id != r[b].id {
      var a', b' := if a < i then a else a + 1, if b < i then b else b + 1;
      assert r[a] == s[a'] && r[b] == s[b'];
    }
  }

}
