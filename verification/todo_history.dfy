/** Histories of registry operations. The mutex serialises the locked blocks
    of concurrent calls, so every concurrent execution behaves like some
    sequence of atomic steps; the lemmas here quantify over all such
    sequences. */
module TodoHistory {
  import opened Wrappers
  import opened TodoService
  import Seqs

  /** One call to the service, with the id and timestamp that `addTodo`
      would draw made explicit. */
  datatype Op =
    | GetAll
    | GetById(id: string)
    | Add(id: string, title: string, createdAt: int)
    | Toggle(id: string)
    | Delete(id: string)

  /** What each call returns. */
  datatype Response =
    | Listed(snapshot: seq<Todo>)
    | Found(found: Option<Todo>)
    | Created(created: Todo)
    | Toggled(updated: Option<Todo>)
    | Deleted(removed: bool)

  /** One locked block. */
  function Apply(todos: Registry, op: Op): Step<Response> {
    match op
    case GetAll =>
      var r := GetAllTodos(todos); Step(r.todos, Listed(r.result))
    case GetById(id) =>
      var r := GetTodoById(todos, id); Step(r.todos, Found(r.result))
    case Add(id, title, createdAt) =>
      var r := AddTodo(todos, id, title, createdAt); Step(r.todos, Created(r.result))
    case Toggle(id) =>
      var r := ToggleTodo(todos, id); Step(r.todos, Toggled(r.result))
    case Delete(id) =>
      var r := DeleteTodo(todos, id); Step(r.todos, Deleted(r.result))
  }

  /** The locked blocks of `ops`, in the order the mutex admitted them. */
  function Run(todos: Registry, ops: seq<Op>): Step<seq<Response>>
    decreases |ops|
  {
    if |ops| == 0 then Step(todos, [])
    else
      var first := Apply(todos, ops[0]);
      var rest := Run(first.todos, ops[1..]);
      Step(rest.todos, [first.result] + rest.result)
  }

  /** The first record with an id, as `getTodoById` would return it. */
  function FirstWith(todos: Registry, id: string): Option<Todo> {
    GetTodoById(todos, id).result
  }

  /** Every id handed to an `Add` is new: absent from the starting list and
      different from every other `Add` (what a random UUID provides). */
  predicate FreshAdds(todos: Registry, ops: seq<Op>) {
    && (forall i :: 0 <= i < |ops| && ops[i].Add? ==> !HasId(todos, ops[i].id))
    && (forall i, j :: 0 <= i < j < |ops| && ops[i].Add? && ops[j].Add? ==> ops[i].id != ops[j].id)
  }

  /** After one step every id present was present before or was just added. */
  lemma ApplyIds(todos: Registry, op: Op, id: string)
    requires HasId(Apply(todos, op).todos, id)
    ensures HasId(todos, id) || (op.Add? && op.id == id)
  {
    match op
    case Toggle(x) =>
      ToggleKeepsIdentity(todos, x);
    case Delete(x) =>
      var r := DeleteTodo(todos, x);
      var i :| 0 <= i < |r.todos| && r.todos[i].id == id;
      assert r.todos[i] in todos;
    case _ =>
  }

  /** A history that never creates `id` keeps it absent. */
  lemma {:induction false} RunKeepsAbsent(todos: Registry, ops: seq<Op>, id: string)
    requires !HasId(todos, id)
    requires forall i :: 0 <= i < |ops| ==> !(ops[i].Add? && ops[i].id == id)
    ensures !HasId(Run(todos, ops).todos, id)
    decreases |ops|
  {
    if |ops| > 0 {
      var next := Apply(todos, ops[0]).todos;
      if HasId(next, id) {
        ApplyIds(todos, ops[0], id);
      }
      assert forall i :: 0 <= i < |ops[1..]| ==> ops[1..][i] == ops[i + 1];
      RunKeepsAbsent(next, ops[1..], id);
      assert Run(todos, ops).todos == Run(next, ops[1..]).todos;
    }
  }

  /** Delete is idempotent across a history: after a delete of `id`, any
      calls that do not create `id` again leave a later delete of `id`
      reporting false and changing nothing. */
  lemma DeleteIdempotent(todos: Registry, ops: seq<Op>, id: string)
    requires forall i :: 0 <= i < |ops| ==> !(ops[i].Add? && ops[i].id == id)
    ensures var between := Run(Apply(todos, Delete(id)).todos, ops).todos;
            Apply(between, Delete(id)) == Step(between, Deleted(false))
  {
    var cleared := Apply(todos, Delete(id)).todos;
    assert !HasId(cleared, id);
    RunKeepsAbsent(cleared, ops, id);
  }

  /** One step keeps ids unique when an added id is fresh. */
  lemma ApplyKeepsUniqueIds(todos: Registry, op: Op)
    requires UniqueIds(todos)
    requires op.Add? ==> !HasId(todos, op.id)
    ensures UniqueIds(Apply(todos, op).todos)
  {
    match op
    case Add(id, title, createdAt) => AddKeepsUniqueIds(todos, id, title, createdAt);
    case Toggle(id) => ToggleKeepsUniqueIds(todos, id);
    case Delete(id) => DeleteKeepsUniqueIds(todos, id);
    case _ =>
  }

  /** Ids stay unique along any history whose adds use fresh ids. */
  lemma {:induction false} RunKeepsUniqueIds(todos: Registry, ops: seq<Op>)
    requires UniqueIds(todos)
    requires FreshAdds(todos, ops)
    ensures UniqueIds(Run(todos, ops).todos)
    decreases |ops|
  {
    if |ops| > 0 {
      var next := Apply(todos, ops[0]).todos;
      ApplyKeepsUniqueIds(todos, ops[0]);
      forall i | 0 <= i < |ops[1..]| && ops[1..][i].Add?
        ensures !HasId(next, ops[1..][i].id)
      {
        assert ops[1..][i] == ops[i + 1];
        if HasId(next, ops[i + 1].id) {
          ApplyIds(todos, ops[0], ops[i + 1].id);
        }
      }
      assert FreshAdds(next, ops[1..]);
      RunKeepsUniqueIds(next, ops[1..]);
    }
  }

  /** Appending a record leaves the first record of an id already present. */
  lemma FirstWithSnoc(todos: Registry, t: Todo, id: string)
    ensures FirstWith(todos + [t], id) ==
              if HasId(todos, id) then FirstWith(todos, id)
              else if t.id == id then Some(t) else None
  {
    var s := todos + [t];
    if HasId(todos, id) {
      var k := IndexOfFirst(todos, id);
      assert IsFirstIndex(s, id, k);
    } else if t.id == id {
      assert IsFirstIndex(s, id, |todos|);
    } else {
      assert !HasId(s, id) by {
        forall i | 0 <= i < |s|
          ensures s[i].id != id
        {
          if i < |todos| {
            assert s[i] == todos[i];
          }
        }
      }
    }
  }

  /** A filter that keeps every record of an id keeps its first record. */
  lemma {:induction false} FilterKeepsFirst(todos: Registry, p: Todo -> bool, id: string)
    requires forall i :: 0 <= i < |todos| && todos[i].id == id ==> p(todos[i])
    ensures HasId(Seqs.Filter(todos, p), id) <==> HasId(todos, id)
    ensures FirstWith(Seqs.Filter(todos, p), id) == FirstWith(todos, id)
    decreases |todos|
  {
    if |todos| > 0 {
      var init, last := todos[..|todos| - 1], todos[|todos| - 1];
      assert todos == init + [last];
      FilterKeepsFirst(init, p, id);
      Seqs.FilterSnoc(init, last, p);
      var f := Seqs.Filter(init, p);
      FirstWithSnoc(init, last, id);
      if p(last) {
        FirstWithSnoc(f, last, id);
        assert Seqs.Filter(todos, p) == f + [last];
      } else {
        assert Seqs.Filter(todos, p) == f;
        assert last.id != id;
      }
    }
  }

  /** One step moves the first record of `id` only if it toggles `id`, and
      then it only negates its flag; any step but a delete of `id` keeps
      the record. */
  lemma ApplyFirst(todos: Registry, op: Op, id: string, t: Todo)
    requires FirstWith(todos, id) == Some(t)
    requires op != Delete(id)
    ensures FirstWith(Apply(todos, op).todos, id) == Some(if op == Toggle(id) then Flip(t) else t)
  {
    var k := IndexOfFirst(todos, id);
    match op
    case Add(x, title, createdAt) =>
      FirstWithSnoc(todos, NewTodo(x, title, createdAt), id);
    case Toggle(x) =>
      var s := ToggleTodo(todos, x).todos;
      ToggleKeepsIdentity(todos, x);
      assert IsFirstIndex(s, id, k);
      if x != id && HasId(todos, x) {
        var k' := IndexOfFirst(todos, x);
        assert k' != k;
      }
    case Delete(x) =>
      FilterKeepsFirst(todos, KeepOther(x), id);
    case _ =>
  }

  /** How many of the operations toggle `id`. */
  function CountToggles(ops: seq<Op>, id: string): nat
    decreases |ops|
  {
    if |ops| == 0 then 0
    else (if ops[0] == Toggle(id) then 1 else 0) + CountToggles(ops[1..], id)
  }

  /** No toggle is lost, whatever else is interleaved: as long as nobody
      deletes the record, its flag ends up negated exactly when an odd
      number of toggles of its id ran, and nothing else about it changes. */
  lemma {:induction false} TogglesCompose(todos: Registry, ops: seq<Op>, id: string, t: Todo)
    requires FirstWith(todos, id) == Some(t)
    requires forall i :: 0 <= i < |ops| ==> ops[i] != Delete(id)
    ensures FirstWith(Run(todos, ops).todos, id)
              == Some(AfterToggles(t, CountToggles(ops, id)))
    decreases |ops|
  {
    if |ops| > 0 {
      var t' := if ops[0] == Toggle(id) then Flip(t) else t;
      var next := Apply(todos, ops[0]).todos;
      var n, n' := CountToggles(ops, id), CountToggles(ops[1..], id);
      calc {
        FirstWith(Run(todos, ops).todos, id);
        { assert Run(todos, ops).todos == Run(next, ops[1..]).todos; }
        FirstWith(Run(next, ops[1..]).todos, id);
        { ApplyFirst(todos, ops[0], id, t);
          assert forall i :: 0 <= i < |ops[1..]| ==> ops[1..][i] == ops[i + 1];
          TogglesCompose(next, ops[1..], id, t'); }
        Some(AfterToggles(t', n'));
        { if ops[0] == Toggle(id) { FlipParity(t, n'); } }
        Some(AfterToggles(t, n));
      }
    }
  }

  /** `t` after `n` toggles. */
  function AfterToggles(t: Todo, n: nat): Todo {
    if n % 2 == 0 then t else Flip(t)
  }

  lemma FlipParity(t: Todo, n: nat)
    ensures AfterToggles(Flip(t), n) == AfterToggles(t, n + 1)
  {
    assert Flip(Flip(t)) == t;
    if n % 2 == 0 {
      assert (n + 1) % 2 == 1;
    } else {
      assert (n + 1) % 2 == 0;
    }
  }

  /** The toggle property: on a freshly created record, `n` toggles
      interleaved with any other work (but no delete of it) leave
      `completed` true exactly when `n` is odd. */
  lemma FreshRecordParity(todos: Registry, ops: seq<Op>, id: string, title: string, createdAt: int)
    requires !HasId(todos, id)
    requires forall i :: 0 <= i < |ops| ==> ops[i] != Delete(id)
    ensures var start := AddTodo(todos, id, title, createdAt).todos;
            var t := FirstWith(Run(start, ops).todos, id);
            t.Some? && t.value.title == title && (t.value.completed <==> CountToggles(ops, id) % 2 == 1)
  {
    ReadAfterAdd(todos, id, title, createdAt);
    var start := AddTodo(todos, id, title, createdAt);
    TogglesCompose(start.todos, ops, id, start.result);
  }

  predicate AllAdds(ops: seq<Op>) {
    forall i :: 0 <= i < |ops| ==> ops[i].Add?
  }

  /** Creates land in the order the lock admitted them, after the records
      already present, each with its own title, id and timestamp. */
  lemma {:induction false} AddsInOrder(todos: Registry, ops: seq<Op>)
    requires AllAdds(ops)
    ensures var final := Run(todos, ops).todos;
            && |final| == |todos| + |ops|
            && final[..|todos|] == todos
            && forall i :: 0 <= i < |ops| ==>
                 final[|todos| + i] == NewTodo(ops[i].id, ops[i].title, ops[i].createdAt)
    decreases |ops|
  {
    if |ops| > 0 {
      var next := Apply(todos, ops[0]).todos;
      assert forall i :: 0 <= i < |ops[1..]| ==> ops[1..][i] == ops[i + 1];
      AddsInOrder(next, ops[1..]);
      var final := Run(todos, ops).todos;
      assert final == Run(next, ops[1..]).todos;
      assert next[..|todos|] == todos;
      assert final[..|todos|] == next[..|next|][..|todos|];
    }
  }

  /** Concurrent creates with distinct fresh ids leave one record per
      create, none lost and no id duplicated. */
  lemma ConcurrentCreates(todos: Registry, ops: seq<Op>)
    requires UniqueIds(todos)
    requires AllAdds(ops) && FreshAdds(todos, ops)
    ensures |Run(todos, ops).todos| == |todos| + |ops|
    ensures UniqueIds(Run(todos, ops).todos)
  {
    AddsInOrder(todos, ops);
    RunKeepsUniqueIds(todos, ops);
  }
}
