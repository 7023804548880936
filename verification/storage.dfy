/** The `storage` object of utils/storage.ts. It owns one persisted collection
    under the key '@todos'; every mutator loads the whole collection, changes
    it, and writes the whole collection back.

    The first half of this module states each mutation on plain sequences;
    the class `TodoStore` at the end is the object itself, whose methods are
    proved to perform exactly those mutations on what is persisted. */
module Storage {
  import opened TodoTypes

  // ---------------------------------------------------------------------
  // Identifiers and the search `findIndex` performs

  /** No two records share an id. */
  predicate UniqueIds(todos: seq<Todo>)
  {
    forall i, j :: 0 <= i < j < |todos| ==> todos[i].id != todos[j].id
  }

  /** Every record keeps `completed` and `status` in agreement. */
  predicate AllInLockstep(todos: seq<Todo>)
  {
    forall i :: 0 <= i < |todos| ==> InLockstep(todos[i])
  }

  /** The ids of the records, position by position. */
  function Ids(todos: seq<Todo>): (r: seq<string>)
    ensures |r| == |todos| && forall i :: 0 <= i < |todos| ==> r[i] == todos[i].id
  {
    seq(|todos|, i requires 0 <= i < |todos| => todos[i].id)
  }

  /** The position `findIndex((t) => t.id === id)` reports, if any. */
  function FirstIndex(todos: seq<Todo>, id: string): (r: Option<nat>)
    ensures r.None? <==> forall k :: 0 <= k < |todos| ==> todos[k].id != id
    ensures r.Some? ==>
      && r.value < |todos| && todos[r.value].id == id
      && forall k :: 0 <= k < r.value ==> todos[k].id != id
  {
    if todos == [] then None
    else if todos[0].id == id then Some(0)
    else
      match FirstIndex(todos[1..], id)
      case None => None
      case Some(i) => Some(i + 1)
  }

  /** The search depends on the ids alone. */
  lemma FirstIndexByIds(a: seq<Todo>, b: seq<Todo>, id: string)
    requires Ids(a) == Ids(b)
    ensures FirstIndex(a, id) == FirstIndex(b, id)
  {
  }

  /** `todos.findIndex((t) => t.id === id)`: the first index holding `id`,
      or -1 when no record has it. */
  method FindIndex(todos: seq<Todo>, id: string) returns (index: int)
    ensures -1 <= index < |todos|
    ensures index == -1 <==> forall k :: 0 <= k < |todos| ==> todos[k].id != id
    ensures index >= 0 ==> todos[index].id == id && forall k :: 0 <= k < index ==> todos[k].id != id
    ensures index >= 0 <==> FirstIndex(todos, id) == Some(index)
  {
    index := 0;
    while index < |todos|
      invariant 0 <= index <= |todos|
      invariant forall k :: 0 <= k < index ==> todos[k].id != id
    {
      if todos[index].id == id {
        return;
      }
      index := index + 1;
    }
    index := -1;
  }

  // ---------------------------------------------------------------------
  // updateTodo

  /** A `Partial<Todo>`: a field is `None` when the key is absent. For the
      optional fields a present key may carry `undefined`, which the spread
      copies over the old value, so they take `Option<Option<_>>`. */
  datatype Patch = Patch(
    id: Option<string>,
    title: Option<string>,
    description: Option<Option<string>>,
    completed: Option<bool>,
    priority: Option<Priority>,
    category: Option<Category>,
    status: Option<Status>,
    deadline: Option<Option<int>>,
    reminderTime: Option<Option<int>>,
    createdAt: Option<int>,
    updatedAt: Option<int>,
    notificationId: Option<Option<string>>)

  /** The patch with no key at all. */
  const NoChange: Patch :=
    Patch(None, None, None, None, None, None, None, None, None, None, None, None)

  /** The patch that carries every key of a whole record, as the editor
      screen passes one. */
  function WholeRecord(u: Todo): Patch
  {
    Patch(Some(u.id), Some(u.title), Some(u.description), Some(u.completed),
          Some(u.priority), Some(u.category), Some(u.status), Some(u.deadline),
          Some(u.reminderTime), Some(u.createdAt), Some(u.updatedAt), Some(u.notificationId))
  }

  function Override<T>(old_: T, given: Option<T>): T
  {
    if given.Some? then given.value else old_
  }

  /** `{ ...t, ...updates, updatedAt: now }`. */
  function Merge(t: Todo, p: Patch, now: int): (r: Todo)
    ensures r.updatedAt == now
    ensures p.id.None? ==> r.id == t.id
    ensures p.title.None? && p.description.None? ==> r.title == t.title && r.description == t.description
  {
    Todo(
      Override(t.id, p.id),
      Override(t.title, p.title),
      Override(t.description, p.description),
      Override(t.completed, p.completed),
      Override(t.priority, p.priority),
      Override(t.category, p.category),
      Override(t.status, p.status),
      Override(t.deadline, p.deadline),
      Override(t.reminderTime, p.reminderTime),
      Override(t.createdAt, p.createdAt),
      now,
      Override(t.notificationId, p.notificationId))
  }

  /** What the merge does: with no key given only `updatedAt` moves; with a
      whole record given the result is that record stamped `now`; a patch
      without `id` keeps the id; and a patch that sets `completed` and
      `status` together consistently, or neither, keeps them in lockstep. */
  lemma MergeMeaning(t: Todo, p: Patch, u: Todo, now: int)
    ensures Merge(t, NoChange, now) == t.(updatedAt := now)
    ensures Merge(t, WholeRecord(u), now) == u.(updatedAt := now)
    ensures Merge(t, p, now).updatedAt == now
    ensures p.id.None? ==> Merge(t, p, now).id == t.id
    ensures InLockstep(t) && PatchKeepsLockstep(p) ==> InLockstep(Merge(t, p, now))
  {
  }

  /** The patch either sets both `completed` and `status`, in agreement, or
      touches neither. */
  predicate PatchKeepsLockstep(p: Patch)
  {
    || (p.completed.None? && p.status.None?)
    || (p.completed.Some? && p.status.Some? && (p.completed.value <==> p.status.value == Completed))
  }

  /** The collection `updateTodo(id, p)` writes back; the record list itself
      when no record has `id`. */
  function Updated(todos: seq<Todo>, id: string, p: Patch, now: int): (r: seq<Todo>)
    ensures |r| == |todos|
    ensures p.id.None? ==> Ids(r) == Ids(todos)
  {
    match FirstIndex(todos, id)
    case None => todos
    case Some(i) => todos[i := Merge(todos[i], p, now)]
  }

  /** Only the first record with `id` changes, into the merge of the old
      record with the patch stamped `now`; an absent id changes nothing. */
  lemma UpdatedFrame(todos: seq<Todo>, id: string, p: Patch, now: int)
    ensures |Updated(todos, id, p, now)| == |todos|
    ensures FirstIndex(todos, id).None? ==> Updated(todos, id, p, now) == todos
    ensures FirstIndex(todos, id).Some? ==>
      var i := FirstIndex(todos, id).value;
      var r := Updated(todos, id, p, now);
      && r[i] == Merge(todos[i], p, now)
      && r[i].updatedAt == now
      && forall k :: 0 <= k < |todos| && k != i ==> r[k] == todos[k]
  {
  }

  /** An update that carries no `id`, or the record's own id (as the editor
      screen's whole-record update does), keeps ids unique, and one that
      keeps `completed` and `status` together keeps every record in lockstep. */
  lemma UpdatedInvariants(todos: seq<Todo>, id: string, p: Patch, now: int)
    ensures (p.id.None? || p.id == Some(id)) && UniqueIds(todos) ==> UniqueIds(Updated(todos, id, p, now))
    ensures PatchKeepsLockstep(p) && AllInLockstep(todos) ==> AllInLockstep(Updated(todos, id, p, now))
  {
  }

  // ---------------------------------------------------------------------
  // deleteTodo

  /** `todos.filter((t) => t.id !== id)`. */
  function Deleted(todos: seq<Todo>, id: string): (r: seq<Todo>)
    ensures |r| <= |todos|
  {
    if todos == [] then []
    else (if todos[0].id != id then [todos[0]] else []) + Deleted(todos[1..], id)
  }

  /** The survivors are exactly the records whose id differs. */
  lemma {:induction false} DeletedMembers(todos: seq<Todo>, id: string)
    ensures forall t :: t in Deleted(todos, id) <==> t in todos && t.id != id
  {
    if todos != [] {
      DeletedMembers(todos[1..], id);
      assert forall t :: t in todos <==> t == todos[0] || t in todos[1..];
    }
  }

  /** Deleting keeps the survivors in their order: it commutes with
      concatenation. */
  lemma {:induction false} DeletedConcat(a: seq<Todo>, b: seq<Todo>, id: string)
    ensures Deleted(a + b, id) == Deleted(a, id) + Deleted(b, id)
  {
    if a == [] {
      assert a + b == b;
    } else {
      assert (a + b)[1..] == a[1..] + b;
      DeletedConcat(a[1..], b, id);
    }
  }

  /** Deleting an id no record has changes nothing. */
  lemma {:induction false} DeletedAbsent(todos: seq<Todo>, id: string)
    requires forall k :: 0 <= k < |todos| ==> todos[k].id != id
    ensures Deleted(todos, id) == todos
  {
    if todos != [] {
      DeletedAbsent(todos[1..], id);
    }
  }

  /** With unique ids, deleting a present id removes exactly its one record. */
  lemma DeletedUnique(todos: seq<Todo>, id: string)
    requires UniqueIds(todos) && FirstIndex(todos, id).Some?
    ensures var i := FirstIndex(todos, id).value;
      Deleted(todos, id) == todos[..i] + todos[i + 1..]
  {
    var i := FirstIndex(todos, id).value;
    var post := todos[i + 1..];
    forall k | 0 <= k < |post| ensures post[k].id != id {
      assert post[k] == todos[i + 1 + k];
    }
    DeletedSplit(todos, i, id);
  }

  lemma DeletedSplit(todos: seq<Todo>, i: nat, id: string)
    requires i < |todos| && todos[i].id == id
    requires forall k :: 0 <= k < i ==> todos[k].id != id
    requires forall k :: i < k < |todos| ==> todos[k].id != id
    ensures Deleted(todos, id) == todos[..i] + todos[i + 1..]
  {
    var pre, x, post := todos[..i], todos[i], todos[i + 1..];
    assert todos == pre + [x] + post by {
      assert todos == todos[..i] + todos[i..];
      assert todos[i..] == [x] + post;
    }
    forall k | 0 <= k < |post| ensures post[k].id != id {
      assert post[k] == todos[i + 1 + k];
    }
    DeletedAround(pre, x, post, id);
  }

  lemma DeletedAround(pre: seq<Todo>, x: Todo, post: seq<Todo>, id: string)
    requires x.id == id
    requires forall k :: 0 <= k < |pre| ==> pre[k].id != id
    requires forall k :: 0 <= k < |post| ==> post[k].id != id
    ensures Deleted(pre + [x] + post, id) == pre + post
  {
    DeletedAbsent(pre, id);
    DeletedAbsent(post, id);
    assert Deleted([x], id) == [] by { assert [x][1..] == []; }
    DeletedConcat(pre, [x], id);
    var front := Deleted(pre + [x], id);
    assert front == pre by { assert pre + [] == pre; }
    DeletedConcat(pre + [x], post, id);
  }

  /** Deleting keeps ids unique. */
  lemma {:induction false} DeletedKeepsUnique(todos: seq<Todo>, id: string)
    requires UniqueIds(todos)
    ensures UniqueIds(Deleted(todos, id))
  {
    if todos != [] {
      var rest := Deleted(todos[1..], id);
      DeletedKeepsUnique(todos[1..], id);
      DeletedMembers(todos[1..], id);
      if todos[0].id != id {
        forall t | t in rest ensures t.id != todos[0].id {
          var k :| 0 <= k < |todos[1..]| && todos[1..][k] == t;
          assert todos[1 + k] == t;
        }
        var r := [todos[0]] + rest;
        forall i, j | 0 <= i < j < |r| ensures r[i].id != r[j].id {
          if i == 0 {
            assert r[j] == rest[j - 1] && rest[j - 1] in rest;
          } else {
            assert r[i] == rest[i - 1] && r[j] == rest[j - 1];
          }
        }
      }
    }
  }

  /** Deleting keeps every record in lockstep. */
  lemma DeletedKeepsLockstep(todos: seq<Todo>, id: string)
    requires AllInLockstep(todos)
    ensures AllInLockstep(Deleted(todos, id))
  {
  }

  // ---------------------------------------------------------------------
  // toggleTodo

  /** The record `toggleTodo` writes: `completed` flipped, `status` set from
      the old `completed`, and `updatedAt` stamped. */
  function ToggledRecord(t: Todo, now: int): (r: Todo)
    ensures r.completed == !t.completed && InLockstep(r)
    ensures r.id == t.id && r.updatedAt == now
  {
    t.(completed := !t.completed,
       status := if !t.completed then Completed else Pending,
       updatedAt := now)
  }

  /** The collection `toggleTodo(id)` writes back; the record list itself
      when no record has `id`. */
  function Toggled(todos: seq<Todo>, id: string, now: int): (r: seq<Todo>)
    ensures |r| == |todos| && Ids(r) == Ids(todos)
  {
    match FirstIndex(todos, id)
    case None => todos
    case Some(i) => todos[i := ToggledRecord(todos[i], now)]
  }

  /** Toggling flips `completed`, sets `status` to completed exactly when
      the record was incomplete and to pending otherwise, stamps `now`, and
      touches no other field and no other record. */
  lemma ToggledFrame(todos: seq<Todo>, id: string, now: int)
    ensures |Toggled(todos, id, now)| == |todos|
    ensures Ids(Toggled(todos, id, now)) == Ids(todos)
    ensures FirstIndex(todos, id).None? ==> Toggled(todos, id, now) == todos
    ensures FirstIndex(todos, id).Some? ==>
      var i := FirstIndex(todos, id).value;
      var r := Toggled(todos, id, now);
      && r[i].completed == !todos[i].completed
      && r[i].status == (if todos[i].completed then Pending else Completed)
      && r[i].updatedAt == now
      && r[i] == todos[i].(completed := r[i].completed, status := r[i].status, updatedAt := now)
      && forall k :: 0 <= k < |todos| && k != i ==> r[k] == todos[k]
  {
  }

  /** A toggled record is always in lockstep, whatever it was before, so
      toggling keeps a lockstep collection in lockstep; ids stay unique. */
  lemma ToggledInvariants(todos: seq<Todo>, id: string, now: int)
    ensures forall t: Todo :: InLockstep(ToggledRecord(t, now))
    ensures AllInLockstep(todos) ==> AllInLockstep(Toggled(todos, id, now))
    ensures UniqueIds(todos) ==> UniqueIds(Toggled(todos, id, now))
  {
  }

  /** Toggling twice restores `completed`; `status` comes back as completed
      or pending according to `completed`, so an in-progress record returns
      as pending, and a lockstep record that was not in progress returns
      unchanged but for `updatedAt`. */
  lemma ToggleTwice(todos: seq<Todo>, id: string, now1: int, now2: int)
    ensures FirstIndex(todos, id).None? ==>
      Toggled(Toggled(todos, id, now1), id, now2) == todos
    ensures FirstIndex(todos, id).Some? ==>
      var i := FirstIndex(todos, id).value;
      var t := todos[i];
      && Toggled(Toggled(todos, id, now1), id, now2)
           == todos[i := t.(status := if t.completed then Completed else Pending, updatedAt := now2)]
      && (InLockstep(t) && t.status != InProgress ==>
            Toggled(Toggled(todos, id, now1), id, now2) == todos[i := t.(updatedAt := now2)])
  {
  }

  // ---------------------------------------------------------------------
  // addTodo

  /** Appending a record whose id is new keeps ids unique, and appending a
      lockstep record keeps the collection in lockstep. */
  lemma AppendedInvariants(todos: seq<Todo>, todo: Todo)
    ensures UniqueIds(todos) && FirstIndex(todos, todo.id).None? ==> UniqueIds(todos + [todo])
    ensures AllInLockstep(todos) && InLockstep(todo) ==> AllInLockstep(todos + [todo])
  {
  }

  // ---------------------------------------------------------------------
  // The persisted collection

  /** What the key-value store holds under '@todos': nothing, something that
      does not decode as a list of records (an empty string included), or a
      list of records. Dates decode to the same millisecond values. */
  datatype Slot = Missing | Unreadable | Saved(todos: seq<Todo>)

  class TodoStore {
    /** The value under '@todos'. */
    var slot: Slot
    /** Whether the key-value store currently rejects reads, and writes. The
        environment sets these; the store only observes them. */
    var readFails: bool
    var writeFails: bool
    /** How many times the store has asked for the collection to be written. */
    ghost var saves: nat

    constructor (slot0: Slot, readFails0: bool, writeFails0: bool)
      ensures slot == slot0 && readFails == readFails0 && writeFails == writeFails0
      ensures saves == 0
    {
      slot, readFails, writeFails := slot0, readFails0, writeFails0;
      saves := 0;
    }

    /** The list `getTodos` resolves to: the saved records, or the empty
        list when nothing is stored, the value does not decode, or the read
        fails. */
    function Visible(): seq<Todo>
      reads this
    {
      if !readFails && slot.Saved? then slot.todos else []
    }

    /** The records as persisted, ignoring read failures. */
    function Persisted(): seq<Todo>
      reads this
    {
      if slot.Saved? then slot.todos else []
    }

    /** The persisted records satisfy the data model's invariants. */
    predicate WellFormed()
      reads this
    {
      UniqueIds(Persisted()) && AllInLockstep(Persisted())
    }

    /** `getTodos`: failures and empty values read as the empty list. */
    method GetTodos() returns (todos: seq<Todo>)
      ensures todos == Visible()
      ensures readFails || !slot.Saved? ==> todos == []
      ensures !readFails && slot.Saved? ==> todos == slot.todos
    {
      if readFails {
        return [];
      }
      match slot
      case Missing =>
        todos := [];
      case Unreadable =>
        todos := [];
      case Saved(stored) =>
        todos := stored;
    }

    /** `saveTodos`: replaces the whole value; a failed write is swallowed
        and leaves the old value in place. */
    method SaveTodos(todos: seq<Todo>)
      modifies this`slot, this`saves
      ensures slot == if writeFails then old(slot) else Saved(todos)
      ensures saves == old(saves) + 1
    {
      saves := saves + 1;
      if !writeFails {
        slot := Saved(todos);
      }
    }

    /** `addTodo`: the collection read, with `todo` appended, is written
        back. After a failed or empty read that is exactly `[todo]`. */
    method AddTodo(todo: Todo)
      modifies this`slot, this`saves
      ensures slot == if writeFails then old(slot) else Saved(old(Visible()) + [todo])
      ensures !writeFails && (readFails || !old(slot).Saved?) ==> slot == Saved([todo])
      ensures saves == old(saves) + 1
      ensures old(WellFormed()) && FirstIndex(old(Visible()), todo.id).None? && InLockstep(todo)
        ==> WellFormed()
    {
      var todos := GetTodos();
      AppendedInvariants(todos, todo);
      todos := todos + [todo];
      SaveTodos(todos);
    }

    /** `updateTodo`: when some record has `id`, the first such record is
        merged with `updates` and stamped `now`, and the collection is written
        back; otherwise nothing is written. */
    method UpdateTodo(id: string, updates: Patch, now: int)
      modifies this`slot, this`saves
      ensures FirstIndex(old(Visible()), id).None? ==> slot == old(slot) && saves == old(saves)
      ensures FirstIndex(old(Visible()), id).Some? ==>
        && slot == (if writeFails then old(slot) else Saved(Updated(old(Visible()), id, updates, now)))
        && saves == old(saves) + 1
      ensures old(WellFormed()) && (updates.id.None? || updates.id == Some(id)) && PatchKeepsLockstep(updates)
        ==> WellFormed()
    {
      var todos := GetTodos();
      var index := FindIndex(todos, id);
      if index != -1 {
        UpdatedInvariants(todos, id, updates, now);
        todos := todos[index := Merge(todos[index], updates, now)];
        SaveTodos(todos);
      }
    }

    /** `deleteTodo`: every record with `id` is dropped and the rest are
        written back in order, present or not, so a delete after a failed
        read writes the empty list. */
    method DeleteTodo(id: string)
      modifies this`slot, this`saves
      ensures slot == if writeFails then old(slot) else Saved(Deleted(old(Visible()), id))
      ensures saves == old(saves) + 1
      ensures old(WellFormed()) ==> WellFormed()
    {
      var todos := GetTodos();
      ghost var wf := WellFormed();
      if wf {
        assert todos == [] || todos == Persisted();
        DeletedKeepsUnique(todos, id);
        DeletedKeepsLockstep(todos, id);
      }
      var filtered := Deleted(todos, id);
      SaveTodos(filtered);
    }

    /** `toggleTodo`: when some record has `id`, the first such record is
        toggled and stamped `now`, and the collection is written back;
        otherwise nothing is written. */
    method ToggleTodo(id: string, now: int)
      modifies this`slot, this`saves
      ensures FirstIndex(old(Visible()), id).None? ==> slot == old(slot) && saves == old(saves)
      ensures FirstIndex(old(Visible()), id).Some? ==>
        && slot == (if writeFails then old(slot) else Saved(Toggled(old(Visible()), id, now)))
        && saves == old(saves) + 1
      ensures old(WellFormed()) ==> WellFormed()
    {
      var todos := GetTodos();
      var index := FindIndex(todos, id);
      if index != -1 {
        ToggledInvariants(todos, id, now);
        todos := todos[index := ToggledRecord(todos[index], now)];
        SaveTodos(todos);
      }
    }
  }
}
