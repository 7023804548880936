/** The task record and its enumerations, as declared in types/todo.ts.
    Timestamps (`Date` in the app) are integer milliseconds since the epoch;
    every optional (`?:`) field is an `Option`. */
module TodoTypes {

  datatype Option<T> = None | Some(value: T)

  datatype Priority = Low | Medium | High | Urgent
  datatype Category = Personal | Work | Shopping | Health | Other
  datatype Status = Pending | InProgress | Completed

  datatype Todo = Todo(
    id: string,
    title: string,
    description: Option<string>,
    completed: bool,
    priority: Priority,
    category: Category,
    status: Status,
    deadline: Option<int>,
    reminderTime: Option<int>,
    createdAt: int,
    updatedAt: int,
    notificationId: Option<string>)

  /** The string literal the app uses for each priority. */
  function PriorityName(p: Priority): (s: string)
    ensures s in {"low", "medium", "high", "urgent"}
  {
    match p
    case Low => "low"
    case Medium => "medium"
    case High => "high"
    case Urgent => "urgent"
  }

  /** The string literal the app uses for each category. */
  function CategoryName(c: Category): (s: string)
    ensures s in {"personal", "work", "shopping", "health", "other"}
  {
    match c
    case Personal => "personal"
    case Work => "work"
    case Shopping => "shopping"
    case Health => "health"
    case Other => "other"
  }

  /** The string literal the app uses for each status. */
  function StatusName(s: Status): (n: string)
    ensures n in {"pending", "in-progress", "completed"}
  {
    match s
    case Pending => "pending"
    case InProgress => "in-progress"
    case Completed => "completed"
  }

  /** Distinct enumeration values have distinct names, so comparing a record's
      field with a filter string by name is comparing the values themselves. */
  lemma NamesInjective()
    ensures forall p, q :: PriorityName(p) == PriorityName(q) ==> p == q
    ensures forall c, d :: CategoryName(c) == CategoryName(d) ==> c == d
    ensures forall s, t :: StatusName(s) == StatusName(t) ==> s == t
  {
  }

  /** The `completed` flag and the `status` field agree. */
  predicate InLockstep(t: Todo)
  {
    t.completed <==> t.status == Completed
  }
}
