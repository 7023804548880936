/** `filterTodos` of utils/helpers.ts: one `Array.prototype.filter` whose
    predicate is a chain of early rejections, one per filter field. */
module Filtering {
  import opened TodoTypes

  /** The `filters` argument: every field optional; the status, priority and
      category fields are plain strings compared with the record's literals. */
  datatype Filters = Filters(
    status: Option<string>,
    priority: Option<string>,
    category: Option<string>,
    searchQuery: Option<string>,
    showCompleted: Option<bool>)

  /** JavaScript truthiness of an optional string: present and not empty. */
  predicate Given(o: Option<string>)
  {
    o.Some? && o.value != ""
  }

  /** `toLowerCase` on one character, restricted to ASCII letters. */
  function LowerChar(c: char): (r: char)
    ensures 'A' <= c <= 'Z' ==> 'a' <= r <= 'z' && r as int == c as int + 32
    ensures !('A' <= c <= 'Z') ==> r == c
  {
    if 'A' <= c <= 'Z' then (c as int + 32) as char else c
  }

  function Lower(s: string): (r: string)
    ensures |r| == |s|
    ensures forall i :: 0 <= i < |s| ==> r[i] == LowerChar(s[i])
  {
    seq(|s|, i requires 0 <= i < |s| => LowerChar(s[i]))
  }

  /** `s.includes(q)`: `q` occurs in `s` at some position. */
  function Includes(s: string, q: string): (b: bool)
    ensures b <==> exists i :: 0 <= i <= |s| && q <= s[i..]
  {
    if q <= s then
      assert s[0..] == s;
      true
    else if s == [] then false
    else
      assert forall i :: 1 <= i <= |s| ==> s[i..] == s[1..][i - 1..];
      Includes(s[1..], q)
  }

  /** The predicate handed to `filter`, with its early `return false` arms
      in source order. */
  function Keep(f: Filters, t: Todo): (keep: bool)
    ensures keep <==>
      && (f.showCompleted == Some(true) || !t.completed)
      && (Given(f.status) ==> StatusName(t.status) == f.status.value)
      && (Given(f.priority) ==> PriorityName(t.priority) == f.priority.value)
      && (Given(f.category) ==> CategoryName(t.category) == f.category.value)
      && (Given(f.searchQuery) ==>
            || (exists i :: 0 <= i <= |t.title| && Lower(f.searchQuery.value) <= Lower(t.title)[i..])
            || (t.description.Some? &&
                exists i :: 0 <= i <= |t.description.value| &&
                  Lower(f.searchQuery.value) <= Lower(t.description.value)[i..]))
  {
    if !(f.showCompleted == Some(true)) && t.completed then false
    else if Given(f.status) && StatusName(t.status) != f.status.value then false
    else if Given(f.priority) && PriorityName(t.priority) != f.priority.value then false
    else if Given(f.category) && CategoryName(t.category) != f.category.value then false
    else if Given(f.searchQuery) then
      var query := Lower(f.searchQuery.value);
      var matchesTitle := Includes(Lower(t.title), query);
      var matchesDescription := t.description.Some? && Includes(Lower(t.description.value), query);
      !(!matchesTitle && !matchesDescription)
    else true
  }

  /** `r` is `s` with some elements dropped and the rest in their order. */
  predicate IsSubsequence(r: seq<Todo>, s: seq<Todo>)
  {
    if r == [] then true
    else if s == [] then false
    else if r[0] == s[0] then IsSubsequence(r[1..], s[1..])
    else IsSubsequence(r, s[1..])
  }

  /** `filterTodos(todos, filters)`: exactly the todos the predicate keeps,
      in their original order. */
  function FilterTodos(todos: seq<Todo>, f: Filters): (r: seq<Todo>)
    ensures forall t :: t in r <==> t in todos && Keep(f, t)
    ensures IsSubsequence(r, todos)
    ensures |r| <= |todos|
  {
    if todos == [] then []
    else
      var rest := FilterTodos(todos[1..], f);
      assert forall t :: t in todos <==> t == todos[0] || t in todos[1..];
      if Keep(f, todos[0]) then
        assert ([todos[0]] + rest)[1..] == rest;
        [todos[0]] + rest
      else
        assert rest == [] || rest[0] != todos[0];
        rest
  }

  /** Filtering commutes with concatenation: the relative order of kept todos
      is their order in the input. */
  lemma {:induction false} FilterTodosConcat(a: seq<Todo>, b: seq<Todo>, f: Filters)
    ensures FilterTodos(a + b, f) == FilterTodos(a, f) + FilterTodos(b, f)
  {
    if a == [] {
      assert a + b == b;
    } else {
      assert (a + b)[1..] == a[1..] + b;
      FilterTodosConcat(a[1..], b, f);
    }
  }

  /** Applying the same filters a second time removes nothing more. */
  lemma {:induction false} FilterTodosIdempotent(todos: seq<Todo>, f: Filters)
    ensures FilterTodos(FilterTodos(todos, f), f) == FilterTodos(todos, f)
  {
    if todos != [] {
      FilterTodosIdempotent(todos[1..], f);
      if Keep(f, todos[0]) {
        var r := FilterTodos(todos, f);
        assert r[1..] == FilterTodos(todos[1..], f);
      }
    }
  }

  /** With no restriction given and completed todos shown, nothing is dropped. */
  lemma {:induction false} FilterTodosNoRestriction(todos: seq<Todo>, f: Filters)
    requires f.showCompleted == Some(true)
    requires !Given(f.status) && !Given(f.priority) && !Given(f.category) && !Given(f.searchQuery)
    ensures FilterTodos(todos, f) == todos
  {
    if todos != [] {
      FilterTodosNoRestriction(todos[1..], f);
    }
  }
}
