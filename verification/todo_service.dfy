/** The in-memory todo registry. The service keeps a list of todos behind a
    mutex, and every operation's locked block is modelled as one atomic
    transition of a pure state machine over `seq<Todo>`. The simulated
    delays run outside the lock and do not affect the state. */
module TodoService {
  import opened Wrappers
  import Seqs

  /** One todo record. The service draws `id` from a random UUID and
      `createdAt` from the wall clock; here both are inputs of `AddTodo`. */
  datatype Todo = Todo(id: string, title: string, completed: bool, createdAt: int)

  /** The guarded list, in insertion order. */
  type Registry = seq<Todo>

  /** The state after one locked block, and what the operation returns. */
  datatype Step<R> = Step(todos: Registry, result: R)

  predicate HasId(todos: Registry, id: string) {
    exists i :: 0 <= i < |todos| && todos[i].id == id
  }

  /** `k` is the position of the first todo whose id is `id`. */
  predicate IsFirstIndex(todos: Registry, id: string, k: int) {
    0 <= k < |todos| && todos[k].id == id
    && forall j :: 0 <= j < k ==> todos[j].id != id
  }

  /** Ids are unique across the list. */
  predicate UniqueIds(todos: Registry) {
    forall i, j :: 0 <= i < |todos| && 0 <= j < |todos| && i != j ==> todos[i].id != todos[j].id
  }

  /** Kotlin's `indexOfFirst { it.id == id }`: the first matching position, or -1. */
  function IndexOfFirst(todos: Registry, id: string): (k: int)
    ensures -1 <= k < |todos|
    ensures k == -1 <==> !HasId(todos, id)
    ensures k != -1 ==> IsFirstIndex(todos, id, k)
    decreases |todos|
  {
    if |todos| == 0 then -1
    else if todos[0].id == id then 0
    else
      var k := IndexOfFirst(todos[1..], id);
      if k == -1 then
        assert forall i :: 1 <= i < |todos| ==> todos[i] == todos[1..][i - 1];
        -1
      else
        assert forall j :: 1 <= j < k + 1 ==> todos[j] == todos[1..][j - 1];
        k + 1
  }

  /** `getAllTodos`: a snapshot of the whole list, leaving the state alone. */
  function GetAllTodos(todos: Registry): (r: Step<seq<Todo>>)
    ensures r.todos == todos
    ensures r.result == todos
  {
    Step(todos, todos)
  }

  /** `getTodoById`: the first todo with the id (`find`), or null. */
  function GetTodoById(todos: Registry, id: string): (r: Step<Option<Todo>>)
    ensures r.todos == todos
    ensures r.result.None? <==> !HasId(todos, id)
    ensures forall k :: IsFirstIndex(todos, id, k) ==> r.result == Some(todos[k])
  {
    var k := IndexOfFirst(todos, id);
    if k == -1 then Step(todos, None)
    else Step(todos, Some(todos[k]))
  }

  /** The record `addTodo` builds before taking the lock. */
  function NewTodo(id: string, title: string, createdAt: int): Todo {
    Todo(id, title, false, createdAt)
  }

  /** `addTodo`: the new record, not completed, goes at the end of the list;
      the records already there stay where they are. Any title is accepted. */
  function AddTodo(todos: Registry, id: string, title: string, createdAt: int): (r: Step<Todo>)
    ensures r.result.id == id && r.result.title == title && r.result.createdAt == createdAt
    ensures !r.result.completed
    ensures |r.todos| == |todos| + 1
    ensures r.todos[..|todos|] == todos
    ensures r.todos[|todos|] == r.result
  {
    var t := NewTodo(id, title, createdAt);
    Step(todos + [t], t)
  }

  /** A record with its completion flag negated (`copy(completed = !completed)`). */
  function Flip(t: Todo): Todo {
    t.(completed := !t.completed)
  }

  /** `toggleTodo`: negates the flag of the first record with the id and
      returns the updated record; on an unknown id returns null and changes
      nothing. */
  function ToggleTodo(todos: Registry, id: string): (r: Step<Option<Todo>>)
    ensures |r.todos| == |todos|
    ensures !HasId(todos, id) ==> r.todos == todos && r.result.None?
    ensures forall k :: IsFirstIndex(todos, id, k) ==>
              && r.result.Some?
              && r.result.value.id == todos[k].id
              && r.result.value.title == todos[k].title
              && r.result.value.createdAt == todos[k].createdAt
              && r.result.value.completed == !todos[k].completed
              && r.todos[k] == r.result.value
              && (forall j :: 0 <= j < |todos| && j != k ==> r.todos[j] == todos[j])
  {
    var k := IndexOfFirst(todos, id);
    if k == -1 then Step(todos, None)
    else
      var updated := Flip(todos[k]);
      Step(todos[k := updated], Some(updated))
  }

  /** The predicate `removeIf` is given, negated: the records that stay. */
  function KeepOther(id: string): Todo -> bool {
    (t: Todo) => t.id != id
  }

  /** `deleteTodo`: removes every record with the id, keeping the others in
      order, and reports whether any record was removed. */
  function DeleteTodo(todos: Registry, id: string): (r: Step<bool>)
    ensures r.result <==> HasId(todos, id)
    ensures forall i :: 0 <= i < |r.todos| ==> r.todos[i].id != id && r.todos[i] in todos
    ensures forall i :: 0 <= i < |todos| && todos[i].id != id ==> todos[i] in r.todos
    ensures Seqs.IsSubseq(r.todos, todos)
    ensures !HasId(todos, id) ==> r.todos == todos
  {
    var remaining := Seqs.Filter(todos, KeepOther(id));
    Seqs.FilterIsSubseq(todos, KeepOther(id));
    assert forall i :: 0 <= i < |todos| && todos[i].id != id ==> todos[i] in remaining by {
      forall i | 0 <= i < |todos| && todos[i].id != id
        ensures todos[i] in remaining
      {
        Seqs.FilterComplete(todos, KeepOther(id), i);
      }
    }
    assert |remaining| != |todos| <==> HasId(todos, id) by {
      Seqs.FilterKeepsLength(todos, KeepOther(id));
    }
    assert !HasId(todos, id) ==> remaining == todos by {
      Seqs.FilterAll(todos, KeepOther(id));
    }
    Step(remaining, |remaining| != |todos|)
  }

  /** Delete keeps every other record as many times as it occurred, even on
      a list whose ids are not unique, and keeps no copy of a record with
      the id. */
  lemma DeleteCounts(todos: Registry, id: string)
    ensures var r := DeleteTodo(todos, id);
            forall t :: multiset(r.todos)[t] == if t.id != id then multiset(todos)[t] else 0
  {
    Seqs.FilterCount(todos, KeepOther(id));
    forall t
      ensures KeepOther(id)(t) == (t.id != id)
    {
    }
  }

  /** Toggling never changes an id, a title or a timestamp, nor the order. */
  lemma ToggleKeepsIdentity(todos: Registry, id: string)
    ensures var r := ToggleTodo(todos, id);
            forall i :: 0 <= i < |todos| ==>
              && r.todos[i].id == todos[i].id
              && r.todos[i].title == todos[i].title
              && r.todos[i].createdAt == todos[i].createdAt
  {
    var k := IndexOfFirst(todos, id);
    if k != -1 {
      assert IsFirstIndex(todos, id, k);
    }
  }

  /** Adding a record under a fresh id keeps ids unique. */
  lemma AddKeepsUniqueIds(todos: Registry, id: string, title: string, createdAt: int)
    requires UniqueIds(todos)
    requires !HasId(todos, id)
    ensures UniqueIds(AddTodo(todos, id, title, createdAt).todos)
  {
  }

  /** Toggling keeps ids unique. */
  lemma ToggleKeepsUniqueIds(todos: Registry, id: string)
    requires UniqueIds(todos)
    ensures UniqueIds(ToggleTodo(todos, id).todos)
  {
    ToggleKeepsIdentity(todos, id);
  }

  /** Filtering a list with unique ids keeps them unique. */
  lemma {:induction false} FilterKeepsUniqueIds(xs: Registry, p: Todo -> bool)
    requires UniqueIds(xs)
    ensures UniqueIds(Seqs.Filter(xs, p))
    decreases |xs|
  {
    if |xs| > 0 {
      var init := xs[..|xs| - 1];
      var last := xs[|xs| - 1];
      assert xs == init + [last];
      FilterKeepsUniqueIds(init, p);
      var f := Seqs.Filter(init, p);
      assert forall i :: 0 <= i < |f| ==> f[i].id != last.id by {
        forall i | 0 <= i < |f|
          ensures f[i].id != last.id
        {
          var j :| 0 <= j < |init| && init[j] == f[i];
          assert xs[j] == init[j];
        }
      }
    }
  }

  /** Deleting keeps ids unique. */
  lemma DeleteKeepsUniqueIds(todos: Registry, id: string)
    requires UniqueIds(todos)
    ensures UniqueIds(DeleteTodo(todos, id).todos)
  {
    FilterKeepsUniqueIds(todos, KeepOther(id));
  }

  /** With unique ids, a delete of a present id removes exactly that one
      record and closes the gap. */
  lemma DeleteRemovesOne(todos: Registry, id: string, k: int)
    requires UniqueIds(todos)
    requires IsFirstIndex(todos, id, k)
    ensures DeleteTodo(todos, id).todos == todos[..k] + todos[k + 1..]
    ensures |DeleteTodo(todos, id).todos| == |todos| - 1
  {
    Seqs.FilterDropsOne(todos, k, KeepOther(id));
  }

  /** Delete is idempotent: a second delete of the same id reports false
      and changes nothing. */
  lemma DeleteTwice(todos: Registry, id: string)
    ensures var first := DeleteTodo(todos, id);
            var second := DeleteTodo(first.todos, id);
            !second.result && second.todos == first.todos
  {
  }

  /** Toggle is an involution: toggling the same id twice restores the list,
      and the second toggle reports the original flag. */
  lemma ToggleTwice(todos: Registry, id: string)
    ensures ToggleTodo(ToggleTodo(todos, id).todos, id).todos == todos
    ensures HasId(todos, id) ==>
              ToggleTodo(ToggleTodo(todos, id).todos, id).result.value.completed
                == todos[IndexOfFirst(todos, id)].completed
  {
    var once := ToggleTodo(todos, id);
    var k := IndexOfFirst(todos, id);
    if k != -1 {
      ToggleKeepsIdentity(todos, id);
      assert IsFirstIndex(once.todos, id, k);
      var twice := ToggleTodo(once.todos, id);
      assert |twice.todos| == |todos|;
      forall j | 0 <= j < |todos|
        ensures twice.todos[j] == todos[j]
      {
        if j == k {
          assert twice.todos[k] == Flip(once.todos[k]);
        }
      }
    }
  }

  /** The list after `n` successive toggles of one id. */
  function ToggleTimes(todos: Registry, id: string, n: nat): Registry
    decreases n
  {
    if n == 0 then todos else ToggleTimes(ToggleTodo(todos, id).todos, id, n - 1)
  }

  /** No toggle is lost: `n` toggles amount to `n mod 2` toggles. */
  lemma {:induction false} ToggleParity(todos: Registry, id: string, n: nat)
    ensures ToggleTimes(todos, id, n) == if n % 2 == 0 then todos else ToggleTodo(todos, id).todos
    decreases n
  {
    if n == 1 {
      assert ToggleTimes(todos, id, 1) == ToggleTimes(ToggleTodo(todos, id).todos, id, 0);
    } else if n >= 2 {
      var once := ToggleTodo(todos, id).todos;
      calc {
        ToggleTimes(todos, id, n);
        { ToggleTimesTwo(todos, id, n); }
        ToggleTimes(todos, id, n - 2);
        { ToggleParity(todos, id, n - 2); }
        if (n - 2) % 2 == 0 then todos else once;
        { assert (n - 2) % 2 == n % 2; }
        if n % 2 == 0 then todos else once;
      }
    }
  }

  /** Two toggles in a row cancel out. */
  lemma ToggleTimesTwo(todos: Registry, id: string, n: nat)
    requires n >= 2
    ensures ToggleTimes(todos, id, n) == ToggleTimes(todos, id, n - 2)
  {
    var once := ToggleTodo(todos, id).todos;
    ToggleTwice(todos, id);
    assert ToggleTimes(todos, id, n) == ToggleTimes(once, id, n - 1);
  }

  /** Read after write: a record added under a fresh id is what a lookup of
      that id then returns. */
  lemma ReadAfterAdd(todos: Registry, id: string, title: string, createdAt: int)
    requires !HasId(todos, id)
    ensures var added := AddTodo(todos, id, title, createdAt);
            GetTodoById(added.todos, id).result == Some(added.result)
  {
    var added := AddTodo(todos, id, title, createdAt);
    assert IsFirstIndex(added.todos, id, |todos|);
  }

  /** With unique ids, a listing and a lookup agree: every listed record is
      what a lookup of its id returns. */
  lemma ListingAgreesWithLookup(todos: Registry, i: int)
    requires UniqueIds(todos)
    requires 0 <= i < |GetAllTodos(todos).result|
    ensures var t := GetAllTodos(todos).result[i];
            GetTodoById(todos, t.id).result == Some(t)
  {
  }

  /** The end-to-end scenario: two creates, a listing in creation order, a
      toggle, a delete, a listing without the deleted record, and a second
      delete that finds nothing. */
  lemma EndToEndScenario()
    ensures var a := AddTodo([], "id1", "buy milk", 1);
            var b := AddTodo(a.todos, "id2", "walk dog", 2);
            var listed := GetAllTodos(b.todos);
            var toggled := ToggleTodo(listed.todos, "id1");
            var deleted := DeleteTodo(toggled.todos, "id2");
            var relisted := GetAllTodos(deleted.todos);
            var again := DeleteTodo(relisted.todos, "id2");
            && listed.result == [a.result, b.result]
            && toggled.result.Some? && toggled.result.value.id == "id1" && toggled.result.value.completed
            && deleted.result
            && relisted.result == [toggled.result.value]
            && !again.result
  {
    var a := AddTodo([], "id1", "buy milk", 1);
    var b := AddTodo(a.todos, "id2", "walk dog", 2);
    assert b.todos == [a.result, b.result];
    var toggled := ToggleTodo(b.todos, "id1");
    assert toggled.result.Some? && toggled.todos == [toggled.result.value, b.result] by {
      assert IsFirstIndex(b.todos, "id1", 0);
    }
    var deleted := DeleteTodo(toggled.todos, "id2");
    assert deleted.result && deleted.todos == [toggled.result.value] by {
      assert IsFirstIndex(toggled.todos, "id2", 1);
      assert UniqueIds(toggled.todos);
      DeleteRemovesOne(toggled.todos, "id2", 1);
    }
    assert !DeleteTodo(deleted.todos, "id2").result by {
      assert !HasId(deleted.todos, "id2");
    }
  }
}
