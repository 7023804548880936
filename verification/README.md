# Todo app core, modelled in Dafny

This project models the non-UI logic of a React Native todo-list app. It covers two parts.

- **View engine** (`utils/helpers.ts`). These are pure functions over a snapshot of the task list:
  - `filterTodos` keeps the todos that pass every given filter;
  - `sortTodos` stably sorts a copy of the list in one of three modes;
  - `formatDate` turns the time left until a date into a short label;
  - `getPriorityColor` and `getCategoryIcon` are lookup tables.
- **Task store** (`utils/storage.ts`). The `storage` object owns one persisted collection under the key `'@todos'`. Each of `addTodo`, `updateTodo`, `deleteTodo` and `toggleTodo` loads the whole collection, changes it, and writes the whole collection back.

Both parts work on the `Todo` record of `types/todo.ts`. Its timestamps are integer milliseconds, and each optional field is an `Option`.

Files:

- `todo_types.dfy` (module `TodoTypes`): the record, the enumerations and their string literals, and the `InLockstep` invariant (`completed` holds exactly when `status` is completed).
- `display.dfy` (module `Display`): `formatDate`, with JavaScript's truncating `%` written out as `JsRem`. Also the colour and icon tables.
- `sorting.dfy` (module `Sorting`): the three comparators, written with the sign conventions `Array.prototype.sort` uses. The sort is a stable insertion sort. `StableSortUnique` proves that any sequence that is in comparator order and keeps tied todos in input order equals `SortTodos`. So the choice of sorting algorithm changes nothing.
- `filtering.dfy` (module `Filtering`): the filter predicate as the source's chain of early rejections, proved equal to the conjunction of the per-field conditions. Also `filterTodos` as an order-preserving filter.
- `storage.dfy` (module `Storage`):
  - each mutation as a function on sequences (`Updated`, `Deleted`, `Toggled`, plus appending), with lemmas about what changes, what stays, and which invariants survive;
  - the `findIndex` loop as a method;
  - the class `TodoStore`. Its field `slot` is the persisted value. Its methods are proved to write exactly those mutations. A ghost counter `saves` counts write requests, so "no write happens" is stated outright.

Environment inputs are parameters or fields:

- the clock (`new Date()`) is a `now` argument;
- whether the key-value store rejects reads or writes is given by the fields `readFails` and `writeFails`;
- a stored value that does not decode is the `Unreadable` slot.

Consequences of the source's failure handling, as proved:

- A failed or empty read yields `[]`, so an `addTodo` after such a read persists exactly `[todo]`.
- A `deleteTodo` after such a read persists `[]`.
- `updateTodo` and `toggleTodo` with an id that is not present write nothing.

Behaviour of the code worth noting:

- `deleteTodo` drops every record with the id, not only one.
- `updateTodo` also overwrites `id` when the update carries one.
- An absent `showCompleted` hides completed todos.
- The `status`, `priority` and `category` filters are compared as strings, so an unknown non-empty string keeps nothing.

## Model

| member | source | states |
|---|---|---|
| `TodoTypes.PriorityName` | types/todo.ts:1 | each priority has one of the four literals |
| `TodoTypes.CategoryName` | types/todo.ts:2 | each category has one of the five literals |
| `TodoTypes.StatusName` | types/todo.ts:3 | each status has one of the three literals |
| `TodoTypes.NamesInjective` | types/todo.ts:1-3 | distinct enumeration values have distinct literals, so comparing literals compares values |
| `Display.JsRem` | utils/helpers.ts:11-12 | JavaScript `%`: the remainder lies strictly between -d and d and has the sign of the dividend; on non-negative dividends it is the ordinary remainder |
| `Display.JsRemOdd` | utils/helpers.ts:11-12 | negating the dividend negates the remainder (truncation toward zero), so together with `JsRem`'s non-negative clause every value is fixed |
| `Display.FormatDue` | utils/helpers.ts:9-22 | label is Overdue exactly when the difference is under 60000 ms, every past date included. Days-and-hours exactly from one day on, with hours in 0..23. Hours-and-minutes exactly between one hour and one day, with hours in 1..23 and minutes in 0..59. Minutes in 1..59 below one hour. The shown parts bracket the difference to within one unit of the last part |
| `Display.FormatDate` | utils/helpers.ts:7-23 | Overdue exactly when the date is less than a minute after `now` |
| `Display.Render` | utils/helpers.ts:14-22 | the text is "Overdue" exactly for the Overdue label and is never empty; a label whose leading count is non-negative renders starting with a digit |
| `Display.FormatDateText` | utils/helpers.ts:14-22 | the returned text is "Overdue" exactly when the date is less than a minute ahead; any other text starts with a digit |
| `Display.PriorityColor` | utils/helpers.ts:35-48 | every priority maps to a seven-character `#rrggbb` string: `#` then six lower-case hexadecimal digits |
| `Display.PriorityColorsDistinct` | utils/helpers.ts:35-48 | distinct priorities get distinct colours |
| `Display.CategoryIcon` | utils/helpers.ts:50-63 | the folder icon is returned exactly for strings other than the four named categories |
| `Display.CategoryIconsDistinct` | utils/helpers.ts:50-63 | over the category type, distinct categories get distinct icons |
| `Sorting.Rank` | utils/helpers.ts:70 | priority ranks lie in 1..4 |
| `Sorting.RankOrder` | utils/helpers.ts:70 | urgent=4 > high=3 > medium=2 > low=1, and the ranks are distinct |
| `Sorting.Compare` | utils/helpers.ts:71-95 | an incomplete todo goes before a completed one. Within one group: priority mode puts the higher rank first and ties on equal priority; deadline mode puts a dated todo before an undated one, the earlier deadline first, and ties on equal deadlines; created mode puts the later `createdAt` first and ties on equal ones |
| `Sorting.CompareConsistent` | utils/helpers.ts:71-95 | each comparator is consistent: ties are reflexive and symmetric, signs are antisymmetric, and order and ties are transitive |
| `Sorting.Insert` | utils/helpers.ts:71-95 | one insertion step keeps every element and adds exactly the inserted one |
| `Sorting.SortTodos` | utils/helpers.ts:65-66 | the result is a permutation of the input (same length, same multiset); the input is a value and is unchanged |
| `Sorting.SortTodosSorted` | utils/helpers.ts:69-95 | every element may stand before every later one under the mode's comparator |
| `Sorting.SortTodosOrder` | utils/helpers.ts:71-95 | incomplete todos precede completed ones in every mode. Within one group: priority rank is non-increasing; in deadline mode dated todos come before undated ones, in ascending deadline order; in created mode `createdAt` is non-increasing |
| `Sorting.TiesMembers` | utils/helpers.ts:69-95 | the ties of `t` in a list are members of the list that tie with `t` |
| `Sorting.InsertSorted` | utils/helpers.ts:69-95 | inserting into a sorted list gives a sorted list |
| `Sorting.InsertTies` | utils/helpers.ts:69-95 | the inserted element lands in front of every element it ties with |
| `Sorting.InsertTiesStep` | utils/helpers.ts:69-95 | stepping past an element the inserted one must follow keeps the inserted one ahead of its ties |
| `Sorting.TiesCommute` | utils/helpers.ts:69-95 | of two elements that do not tie, at most one ties with a given todo |
| `Sorting.SortTodosStable` | utils/helpers.ts:69-95 | for every todo, the todos that tie with it appear in the output in their input order |
| `Sorting.SortedTiesUnique` | utils/helpers.ts:69-95 | two sorted lists with the same ties in the same order are equal |
| `Sorting.StableSortUnique` | utils/helpers.ts:69-95 | any sorted list whose ties keep input order is exactly `SortTodos` of the input |
| `Sorting.SortTodosIdempotent` | utils/helpers.ts:65-100 | sorting twice in the same mode equals sorting once |
| `Sorting.PriorityModeExample` | utils/helpers.ts:69-76 | two incomplete todos, low listed before urgent, sort to urgent then low |
| `Filtering.LowerChar` | utils/helpers.ts:115-117 | ASCII capitals map to their lower-case letters; every other character is unchanged |
| `Filtering.Lower` | utils/helpers.ts:115-117 | lower-casing keeps the length and maps each character |
| `Filtering.Includes` | utils/helpers.ts:116-117 | `includes` holds exactly when the query is a prefix of some suffix of the text |
| `Filtering.Keep` | utils/helpers.ts:109-120 | the early-return chain keeps a todo exactly when all hold: completed todos are shown only if `showCompleted` is true (absent counts as false); a non-empty status, priority or category requires an exact match; a non-empty query must occur in the lower-cased title or description |
| `Filtering.FilterTodos` | utils/helpers.ts:102-122 | the result holds exactly the input todos the predicate keeps, as an order-preserving subsequence, never longer than the input |
| `Filtering.FilterTodosConcat` | utils/helpers.ts:109 | filtering a concatenation concatenates the filtered parts, so relative order is kept |
| `Filtering.FilterTodosIdempotent` | utils/helpers.ts:102-122 | filtering twice with the same filters equals filtering once |
| `Filtering.FilterTodosNoRestriction` | utils/helpers.ts:110-119 | with completed todos shown and no other filter given, every todo is kept |
| `Storage.Ids` | utils/storage.ts:44 | the id list has one entry per record, in position |
| `Storage.FirstIndex` | utils/storage.ts:44 | absent exactly when no record has the id; otherwise the index of a record with the id and no earlier one |
| `Storage.FirstIndexByIds` | utils/storage.ts:59 | the search result depends only on the ids, so a toggle does not move it |
| `Storage.FindIndex` | utils/storage.ts:44 | the `findIndex` loop returns -1 exactly when no record has the id; otherwise it returns the first index holding it, which agrees with `FirstIndex` |
| `Storage.Merge` | utils/storage.ts:46 | the merged record is stamped `now`; a patch without `id` keeps the id, and one without title or description keeps both |
| `Storage.MergeMeaning` | utils/storage.ts:46 | an empty patch moves only `updatedAt`. A whole-record patch yields that record stamped `now`. `updatedAt` is always `now`. A patch without `id` keeps the id. A patch that sets `completed` and `status` consistently, or neither, keeps lockstep |
| `Storage.Updated` | utils/storage.ts:44-47 | the collection keeps its length, and its ids when the patch carries no `id` |
| `Storage.UpdatedFrame` | utils/storage.ts:42-49 | the length is kept. An absent id changes nothing. Otherwise only the first matching index changes, into the merge stamped `now`, and every other position is unchanged |
| `Storage.UpdatedInvariants` | utils/storage.ts:42-49 | an update without `id`, or with the record's own id as the editor's whole-record update has, keeps ids unique; a lockstep-keeping patch keeps every record in lockstep |
| `Storage.Deleted` | utils/storage.ts:53 | the filtered collection is never longer than the input |
| `Storage.DeletedMembers` | utils/storage.ts:53 | the survivors are exactly the records whose id differs |
| `Storage.DeletedConcat` | utils/storage.ts:53 | deletion commutes with concatenation, so survivors keep their order |
| `Storage.DeletedAbsent` | utils/storage.ts:51-54 | deleting an id that is not present leaves the contents unchanged |
| `Storage.DeletedUnique` | utils/storage.ts:51-54 | with unique ids, deleting a present id removes exactly its one record |
| `Storage.DeletedSplit` | utils/storage.ts:53 | when the id occurs only at position i, deleting it yields the records before and after i |
| `Storage.DeletedAround` | utils/storage.ts:53 | removing the one record with the id from between two id-free parts leaves the two parts joined |
| `Storage.DeletedKeepsUnique` | utils/storage.ts:53 | deletion keeps ids unique |
| `Storage.DeletedKeepsLockstep` | utils/storage.ts:53 | deletion keeps every record in lockstep |
| `Storage.ToggledRecord` | utils/storage.ts:61-66 | the toggled record has `completed` flipped, is in lockstep whatever it was before, keeps its id and is stamped `now` |
| `Storage.Toggled` | utils/storage.ts:59-66 | the collection keeps its length and its ids position by position |
| `Storage.ToggledFrame` | utils/storage.ts:57-69 | the length and ids are kept; an absent id changes nothing. Otherwise, at the first matching index: `completed` flips; `status` becomes completed if the record was incomplete and pending otherwise; `updatedAt` is `now`; no other field and no other record changes |
| `Storage.ToggledInvariants` | utils/storage.ts:61-66 | a toggled record is always in lockstep; toggling keeps a lockstep collection in lockstep and unique ids unique |
| `Storage.ToggleTwice` | utils/storage.ts:63-64 | toggling twice restores `completed`; `status` returns as completed or pending according to `completed`, so in-progress returns as pending; a lockstep record that was not in progress is restored except for `updatedAt` |
| `Storage.AppendedInvariants` | utils/storage.ts:36-39 | appending a record with a new id keeps ids unique; appending a lockstep record keeps lockstep |
| `Storage.TodoStore.GetTodos` | utils/storage.ts:7-26 | reads the saved records; a missing value, a value that does not decode, or a failed read gives `[]` |
| `Storage.TodoStore.SaveTodos` | utils/storage.ts:28-34 | replaces the whole persisted value; a failed write is swallowed and leaves the old value; counts one write request |
| `Storage.TodoStore.AddTodo` | utils/storage.ts:36-40 | persists the collection read plus `todo` appended, with earlier records unchanged; after a failed or empty read it persists exactly `[todo]`; keeps well-formedness for a lockstep record with a new id, also after a failed read |
| `Storage.TodoStore.UpdateTodo` | utils/storage.ts:42-49 | with an absent id nothing is written and the slot is unchanged; otherwise it persists `Updated` of the collection read; keeps well-formedness for a lockstep-keeping patch that carries no id or the record's own id |
| `Storage.TodoStore.DeleteTodo` | utils/storage.ts:51-55 | always writes: it persists the collection read with every record of that id removed; keeps well-formedness |
| `Storage.TodoStore.ToggleTodo` | utils/storage.ts:57-69 | with an absent id nothing is written; otherwise it persists `Toggled` of the collection read; keeps well-formedness |

## Left out

- The reminder scheduler, `utils/notifications.ts`. It is a thin wrapper over the platform's notification library, and is not part of this model.
- `generateId` (utils/helpers.ts:3-5) depends on the clock and `Math.random`. Ids are given strings.
- `formatDateTime` (utils/helpers.ts:25-33) is locale and time-zone formatting by the JavaScript `Date` library.
- Statistics screen aggregation lives in the screen code, which is not part of this model.
- JSON encoding and the AsyncStorage calls (utils/storage.ts:9-19, 30). The persisted value is the `slot` field, and date decoding is the identity on millisecond timestamps. Invalid dates (`NaN` times) are not modelled.
- The asynchronous load-change-save cycles run one at a time here. Lost updates between concurrent cycles are not modelled.
- `toLowerCase` is modelled on ASCII letters only. Unicode case mapping is not modelled.
- `sortTodos` has a `default` arm that returns the copy unsorted. No value of the three-mode type reaches it, so it is omitted. An omitted `sortBy` argument is `ByPriority`.
- The `default` arm of `getPriorityColor` cannot be reached by a priority value, so it is omitted.
- `Array.prototype.sort` is modelled by insertion sort. `StableSortUnique` shows that every stable sort under the same comparator returns the same list.
- `Storage.Patch`: an update whose required field is present with the value `undefined` is not modelled, because it would not be a `Todo`.
- The invariant `updatedAt >= createdAt` is not enforced by the store, because the caller supplies the clock. It is not modelled.
- `Display.Render`: the decimal digits of each count are built, but no lemma states that they read back as the count.
