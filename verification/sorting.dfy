/** `sortTodos` of utils/helpers.ts: a stable sort of a copy of the list under
    one of three comparators, each of which puts incomplete todos first. */
module Sorting {
  import opened TodoTypes

  /** The `sortBy` argument; an omitted argument means `ByPriority`. */
  datatype SortMode = ByPriority | ByDeadline | ByCreated

  /** The `priorityOrder` table. */
  function Rank(p: Priority): (r: int)
    ensures 1 <= r <= 4
  {
    match p
    case Urgent => 4
    case High => 3
    case Medium => 2
    case Low => 1
  }

  /** urgent > high > medium > low, and no two priorities share a rank. */
  lemma RankOrder(p: Priority, q: Priority)
    ensures Rank(Low) < Rank(Medium) < Rank(High) < Rank(Urgent)
    ensures Rank(p) == Rank(q) <==> p == q
  {
  }

  /** The comparator each mode hands to `Array.prototype.sort`: a negative
      value puts `a` before `b`, a positive one `b` before `a`, zero is a tie. */
  function Compare(mode: SortMode, a: Todo, b: Todo): (r: int)
    ensures a.completed != b.completed ==> (r < 0 <==> b.completed) && r != 0
    ensures a.completed == b.completed && mode == ByPriority ==>
      (r < 0 <==> Rank(a.priority) > Rank(b.priority)) && (r == 0 <==> a.priority == b.priority)
    ensures a.completed == b.completed && mode == ByDeadline ==>
      && (a.deadline.Some? && b.deadline.None? ==> r < 0)
      && (a.deadline.None? && b.deadline.Some? ==> r > 0)
      && (a.deadline.Some? && b.deadline.Some? ==> (r < 0 <==> a.deadline.value < b.deadline.value))
      && (r == 0 <==> a.deadline == b.deadline)
    ensures a.completed == b.completed && mode == ByCreated ==>
      (r < 0 <==> a.createdAt > b.createdAt) && (r == 0 <==> a.createdAt == b.createdAt)
  {
    if a.completed != b.completed then
      (if a.completed then 1 else -1)
    else
      match mode
      case ByPriority => Rank(b.priority) - Rank(a.priority)
      case ByDeadline =>
        if a.deadline.None? && b.deadline.None? then 0
        else if a.deadline.None? then 1
        else if b.deadline.None? then -1
        else a.deadline.value - b.deadline.value
      case ByCreated => b.createdAt - a.createdAt
  }

  /** `a` may stand before `b`. */
  predicate Le(mode: SortMode, a: Todo, b: Todo)
  {
    Compare(mode, a, b) <= 0
  }

  /** Each comparator is consistent, as `Array.prototype.sort` demands:
      reflexive ties, antisymmetric signs, and transitive order and ties. */
  lemma CompareConsistent(mode: SortMode, a: Todo, b: Todo, c: Todo)
    ensures Compare(mode, a, a) == 0
    ensures Compare(mode, a, b) < 0 <==> Compare(mode, b, a) > 0
    ensures Compare(mode, a, b) == 0 <==> Compare(mode, b, a) == 0
    ensures Le(mode, a, b) && Le(mode, b, c) ==> Le(mode, a, c)
    ensures Compare(mode, a, b) == 0 && Compare(mode, b, c) == 0 ==> Compare(mode, a, c) == 0
  {
  }

  /** Places `x` in front of the first element it may stand before. */
  function Insert(mode: SortMode, x: Todo, l: seq<Todo>): (r: seq<Todo>)
    ensures |r| == |l| + 1
    ensures multiset(r) == multiset(l) + multiset{x}
  {
    if l == [] then [x]
    else if Le(mode, x, l[0]) then [x] + l
    else
      assert l == [l[0]] + l[1..];
      [l[0]] + Insert(mode, x, l[1..])
  }

  /** `sortTodos(todos, mode)`: a stable insertion sort. The source sorts a
      copy, so the argument itself is left as it was. */
  function SortTodos(todos: seq<Todo>, mode: SortMode): (r: seq<Todo>)
    ensures |r| == |todos|
    ensures multiset(r) == multiset(todos)
  {
    if todos == [] then []
    else
      assert todos == [todos[0]] + todos[1..];
      Insert(mode, todos[0], SortTodos(todos[1..], mode))
  }

  /** Every element may stand before every later one. */
  predicate Sorted(mode: SortMode, s: seq<Todo>)
  {
    forall i, j :: 0 <= i < j < |s| ==> Le(mode, s[i], s[j])
  }

  /** The elements of `s` that tie with `t`, in their order in `s`. */
  function Ties(mode: SortMode, t: Todo, s: seq<Todo>): seq<Todo>
  {
    if s == [] then []
    else TieOf(mode, t, s[0]) + Ties(mode, t, s[1..])
  }

  lemma {:induction false} TiesMembers(mode: SortMode, t: Todo, s: seq<Todo>, y: Todo)
    requires y in Ties(mode, t, s)
    ensures y in s && Compare(mode, y, t) == 0
  {
    if Compare(mode, s[0], t) == 0 && y == s[0] {
    } else {
      assert y in Ties(mode, t, s[1..]);
      TiesMembers(mode, t, s[1..], y);
    }
  }

  lemma {:induction false} InsertSorted(mode: SortMode, x: Todo, l: seq<Todo>)
    requires Sorted(mode, l)
    ensures Sorted(mode, Insert(mode, x, l))
  {
    if l == [] {
    } else if Le(mode, x, l[0]) {
      forall j | 0 <= j < |l| ensures Le(mode, x, l[j]) {
        CompareConsistent(mode, x, l[0], l[j]);
      }
    } else {
      var rest := Insert(mode, x, l[1..]);
      InsertSorted(mode, x, l[1..]);
      CompareConsistent(mode, x, l[0], x);
      forall j | 0 <= j < |rest| ensures Le(mode, l[0], rest[j]) {
        assert rest[j] in multiset(rest);
        if rest[j] != x {
          var k :| 1 <= k < |l| && l[k] == rest[j];
        }
      }
    }
  }

  /** The result of `sortTodos` is in comparator order. */
  lemma {:induction false} SortTodosSorted(todos: seq<Todo>, mode: SortMode)
    ensures Sorted(mode, SortTodos(todos, mode))
  {
    if todos != [] {
      SortTodosSorted(todos[1..], mode);
      InsertSorted(mode, todos[0], SortTodos(todos[1..], mode));
    }
  }

  function TieOf(mode: SortMode, t: Todo, y: Todo): seq<Todo>
  {
    if Compare(mode, y, t) == 0 then [y] else []
  }

  lemma {:induction false} InsertTies(mode: SortMode, t: Todo, x: Todo, l: seq<Todo>)
    ensures Ties(mode, t, Insert(mode, x, l)) == TieOf(mode, t, x) + Ties(mode, t, l)
  {
    if l == [] {
      assert Ties(mode, t, [x]) == TieOf(mode, t, x) + Ties(mode, t, []);
    } else if Le(mode, x, l[0]) {
      assert ([x] + l)[1..] == l;
    } else {
      InsertTies(mode, t, x, l[1..]);
      InsertTiesStep(mode, t, x, l);
    }
  }

  lemma InsertTiesStep(mode: SortMode, t: Todo, x: Todo, l: seq<Todo>)
    requires l != [] && !Le(mode, x, l[0])
    requires Ties(mode, t, Insert(mode, x, l[1..])) == TieOf(mode, t, x) + Ties(mode, t, l[1..])
    ensures Ties(mode, t, Insert(mode, x, l)) == TieOf(mode, t, x) + Ties(mode, t, l)
  {
    var hx, hl := TieOf(mode, t, x), TieOf(mode, t, l[0]);
    var r, rest := Insert(mode, x, l), Insert(mode, x, l[1..]);
    assert r[0] == l[0] && r[1..] == rest;
    assert Ties(mode, t, r) == hl + (hx + Ties(mode, t, l[1..]));
    assert Ties(mode, t, l) == hl + Ties(mode, t, l[1..]);
    TiesCommute(mode, t, x, l[0], Ties(mode, t, l[1..]));
  }

  /** Of two elements that do not tie, at most one ties with `t`. */
  lemma TiesCommute(mode: SortMode, t: Todo, x: Todo, y: Todo, tail: seq<Todo>)
    requires !Le(mode, x, y)
    ensures TieOf(mode, t, y) + (TieOf(mode, t, x) + tail) == TieOf(mode, t, x) + (TieOf(mode, t, y) + tail)
  {
  }

  /** Stability: todos the comparator ties keep their input order, because
      `Array.prototype.sort` is stable. */
  lemma {:induction false} SortTodosStable(todos: seq<Todo>, mode: SortMode, t: Todo)
    ensures Ties(mode, t, SortTodos(todos, mode)) == Ties(mode, t, todos)
  {
    if todos != [] {
      SortTodosStable(todos[1..], mode, t);
      InsertTies(mode, t, todos[0], SortTodos(todos[1..], mode));
    }
  }

  lemma TiesHead(mode: SortMode, s: seq<Todo>)
    requires s != []
    ensures Ties(mode, s[0], s) != [] && Ties(mode, s[0], []) == []
  {
  }

  lemma {:induction false} SortedTiesUnique(mode: SortMode, r1: seq<Todo>, r2: seq<Todo>)
    requires Sorted(mode, r1) && Sorted(mode, r2)
    requires forall t :: Ties(mode, t, r1) == Ties(mode, t, r2)
    ensures r1 == r2
  {
    if r1 == [] && r2 == [] {
    } else if r1 == [] || r2 == [] {
      TiesHead(mode, if r1 == [] then r2 else r1);
      assert false;
    } else {
      var a, b := r1[0], r2[0];
      CompareConsistent(mode, a, b, a);
      CompareConsistent(mode, a, a, a);
      CompareConsistent(mode, b, b, b);
      assert b in Ties(mode, b, r1) by { assert Ties(mode, b, r2)[0] == b; }
      TiesMembers(mode, b, r1, b);
      assert a in Ties(mode, a, r2) by { assert Ties(mode, a, r1)[0] == a; }
      TiesMembers(mode, a, r2, a);
      assert Compare(mode, a, b) == 0;
      assert a == b by { assert Ties(mode, a, r1)[0] == a && Ties(mode, a, r2)[0] == b; }
      forall t ensures Ties(mode, t, r1[1..]) == Ties(mode, t, r2[1..]) {
        var h := TieOf(mode, t, a);
        assert Ties(mode, t, r1) == h + Ties(mode, t, r1[1..]);
        assert Ties(mode, t, r2) == h + Ties(mode, t, r2[1..]);
        assert (h + Ties(mode, t, r1[1..]))[|h|..] == Ties(mode, t, r1[1..]);
        assert (h + Ties(mode, t, r2[1..]))[|h|..] == Ties(mode, t, r2[1..]);
      }
      SortedTiesUnique(mode, r1[1..], r2[1..]);
      assert r1 == [a] + r1[1..] && r2 == [a] + r2[1..];
    }
  }

  /** `sortTodos` is the one and only stable sort under its comparator: any
      list in comparator order whose ties appear in input order equals it.
      So modelling `Array.prototype.sort` by insertion loses nothing. */
  lemma StableSortUnique(todos: seq<Todo>, mode: SortMode, r: seq<Todo>)
    requires Sorted(mode, r)
    requires forall t :: Ties(mode, t, r) == Ties(mode, t, todos)
    ensures r == SortTodos(todos, mode)
  {
    SortTodosSorted(todos, mode);
    forall t ensures Ties(mode, t, r) == Ties(mode, t, SortTodos(todos, mode)) {
      SortTodosStable(todos, mode, t);
    }
    SortedTiesUnique(mode, r, SortTodos(todos, mode));
  }

  /** Sorting a sorted list again changes nothing. */
  lemma SortTodosIdempotent(todos: seq<Todo>, mode: SortMode)
    ensures SortTodos(SortTodos(todos, mode), mode) == SortTodos(todos, mode)
  {
    var r := SortTodos(todos, mode);
    SortTodosSorted(todos, mode);
    StableSortUnique(r, mode, r);
  }

  /** What each mode promises of the displayed order. In every mode incomplete
      todos come first; within one completion group, priority mode lists rank
      non-increasing, deadline mode lists dated todos first in ascending
      deadline order, and created mode lists newest first. */
  lemma SortTodosOrder(todos: seq<Todo>, mode: SortMode)
    ensures var r := SortTodos(todos, mode);
      forall i, j :: 0 <= i < j < |r| ==>
        && (r[i].completed ==> r[j].completed)
        && (r[i].completed == r[j].completed ==>
             && (mode == ByPriority ==> Rank(r[i].priority) >= Rank(r[j].priority))
             && (mode == ByDeadline ==> (r[i].deadline.None? ==> r[j].deadline.None?))
             && (mode == ByDeadline && r[i].deadline.Some? && r[j].deadline.Some? ==>
                   r[i].deadline.value <= r[j].deadline.value)
             && (mode == ByCreated ==> r[i].createdAt >= r[j].createdAt))
  {
    SortTodosSorted(todos, mode);
  }

  /** Two incomplete todos, a low one listed before an urgent one, come out
      urgent first in the default mode. */
  lemma PriorityModeExample(low: Todo, urgent: Todo)
    requires !low.completed && !urgent.completed
    requires low.priority == Low && urgent.priority == Urgent
    ensures SortTodos([low, urgent], ByPriority) == [urgent, low]
  {
    assert [low, urgent][1..] == [urgent];
    assert SortTodos([urgent], ByPriority) == [urgent] by {
      assert [urgent][1..] == [];
    }
    assert !Le(ByPriority, low, urgent);
  }
}
