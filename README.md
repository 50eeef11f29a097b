# Task list of the `Home` page, modelled in Dafny

The `Home` component in `pages/index.js` is a to-do list. It holds:

- a list of tasks, each with an id, a title, an optional description, a
  completion flag and a creation timestamp;
- two input buffers for a new task;
- the active tab (`all`, `active`, `completed`) and a search term;
- an edit mode with its own two buffers.

Its handlers add, delete, toggle and edit tasks. The visible list is the
tasks of the active tab whose title or description contains the search term,
ignoring case. The tab buttons show three counts.

The model has four modules:

- `Seqs` (`seqs.dfy`): `Array.prototype.filter` as `Filter`, and the
  subsequence relation that characterises it.
- `Text` (`text.dfy`): `trim` over the ECMAScript white-space set,
  `toLowerCase` on ASCII letters, and `includes`.
- `Todos` (`todos.dfy`): the task record. Each list handler is a pure function
  on `seq<Task>`, with lemmas for what it keeps and what it changes. The
  visible list and the tab counts are here too.
- `Store` (`store.dfy`): the component's `useState` slots as the fields of
  class `TodoStore`. Each handler is a method that updates those fields.
  `AddTodo`, `DeleteTodo`, `ToggleComplete` and `SaveEdit` tie the new list to
  the matching function in `Todos`; the setters, `StartEdit` and `CancelEdit`
  keep the list through their `modifies` frames. Every method keeps the store
  invariant `Valid()`: every title is non-empty after trimming, ids
  are distinct, and outside edit mode both edit buffers are empty.

`Scenarios` (`scenarios.dfy`) proves what a short session yields:

- after adding two tasks and completing the first, each tab shows the
  right task;
- a lower-case search term finds a mixed-case title.

`startEdit` copies the stored description unchanged, or `''` when it is
missing (`pages/index.js:59`). It is trimmed only when the edit is saved
(`pages/index.js:69`).

## Model

| member | source | states |
|---|---|---|
| Seqs.Filter | pages/index.js:86-98 | `filter` returns a subsequence of its input that holds exactly the elements passing the predicate, and is never longer |
| Seqs.FilterCounts | pages/index.js:45 | each passing element occurs in the result as often as in the input; a failing element does not occur at all |
| Seqs.FilterKeepsAll | pages/index.js:90 | a filter that every element passes (the `all` tab) returns its input unchanged |
| Seqs.FilterConcat | pages/index.js:37 | filtering a concatenation is the concatenation of the filtered parts |
| Text.IsSpace | pages/index.js:29 | the characters `trim` strips: the ECMAScript WhiteSpace and LineTerminator code points |
| Text.TrimStart | pages/index.js:29 | the leading half of `trim`: the result is no longer and does not start with white space |
| Text.TrimEnd | pages/index.js:29 | the trailing half of `trim`: the result is no longer and does not end with white space |
| Text.TrimStartDrops | pages/index.js:29 | what `TrimStart` removes is a prefix made only of white space |
| Text.TrimEndDrops | pages/index.js:29 | what `TrimEnd` removes is a suffix made only of white space |
| Text.Trim | pages/index.js:29 | `trim` yields a string that neither starts nor ends with white space and is no longer than its input |
| Text.TrimShape | pages/index.js:29 | `trim` yields an infix with only white space around it, and it is empty exactly when the input is all white space |
| Text.TrimUnchanged | pages/index.js:32-33 | a string without leading or trailing white space is its own trim |
| Text.TrimIdempotent | pages/index.js:64-68 | trimming twice is trimming once, so a stored title passes the check on line 64 again |
| Text.ToLower | pages/index.js:93-95 | same length; no upper-case ASCII letter remains; other characters are untouched; `A`..`Z` map to `a`..`z` |
| Text.ToLowerIdempotent | pages/index.js:93-95 | lower-casing an already lower-cased string changes nothing |
| Text.Contains | pages/index.js:97 | `s.includes(t)`: `t` is a prefix of some suffix of `s`, so it is never longer than `s` |
| Text.ContainsIffOccurs | pages/index.js:97 | `includes(t)` holds exactly when `t` occurs at some index, in both directions |
| Text.ContainsEmpty | pages/index.js:93-97 | every string includes the empty string |
| Todos.DescriptionText | pages/index.js:59 | the stored description, or `''` when it is missing |
| Todos.SubsequenceUniqueIds | pages/index.js:45 | selecting a subsequence keeps ids distinct |
| Todos.SubsequenceMembers | pages/index.js:45 | every task of a subsequence is a task of the list |
| Todos.NewTask | pages/index.js:30-36 | the record `addTodo` builds: the given id and createdAt, the trimmed input title and description (so both are stored trimmed), not completed |
| Todos.Added | pages/index.js:28-41 | a title that trims to nothing leaves the list alone; otherwise the old list is a prefix and the one new task at the end has the given id and createdAt, the trimmed title and description, and is not completed |
| Todos.AddedKeepsInvariants | pages/index.js:28-41 | with a fresh id, adding keeps every title non-empty after trim and keeps ids distinct |
| Todos.AppendFreshUnique | pages/index.js:30-37 | appending a task with a fresh id keeps ids distinct |
| Todos.AddedVisible | pages/index.js:37-98 | an accepted add leaves the visible list as it was, with the new task at its end exactly when it is in the tab and matches the search |
| Todos.Deleted | pages/index.js:44-46 | deleting keeps tasks in their order, and a task stays exactly when its id differs |
| Todos.DeletedCounts | pages/index.js:45 | each task with another id stays as often as it was there; a task with the id is gone |
| Todos.DeletedAbsent | pages/index.js:45 | deleting an id no task has leaves the list unchanged |
| Todos.DeletedPresent | pages/index.js:45 | with distinct ids, deleting a present id removes exactly one task |
| Todos.DeletedKeepsInvariants | pages/index.js:44-46 | deleting keeps titles valid and ids distinct |
| Todos.Toggled | pages/index.js:49-53 | same length; id, title, description and createdAt stay put; `completed` flips exactly where the id matches |
| Todos.ToggledTwice | pages/index.js:49-53 | toggling the same id twice restores the list |
| Todos.ToggledAbsent | pages/index.js:49-53 | toggling an id no task has leaves the list unchanged |
| Todos.ToggledKeepsInvariants | pages/index.js:49-53 | toggling keeps the ids, title validity and distinct ids |
| Todos.Saved | pages/index.js:65-71 | same length; id, completed and createdAt stay put; the task whose id equals `editingId` takes the trimmed buffers; every other task is unchanged, and a `null` edit id matches nothing |
| Todos.SavedAbsent | pages/index.js:65-71 | saving when no task has the edit id leaves the list unchanged |
| Todos.SavedKeepsInvariants | pages/index.js:64-71 | with a title that survives trimming, saving keeps titles valid and ids distinct |
| Todos.SameIdsUnique | pages/index.js:65-71 | a list with the same ids as one with distinct ids has distinct ids |
| Todos.StartedEdit | pages/index.js:56-60 | the edit mode for a task: its id, its title untrimmed, and its description or `''` |
| Todos.ShownInTab | pages/index.js:87-90 | the tab predicate: `active` shows open tasks, `completed` finished ones, `all` every task |
| Todos.MatchesSearch | pages/index.js:93-97 | the lower-cased term occurs in the lower-cased title or description, so the term is no longer than one of them |
| Todos.Visible | pages/index.js:86-98 | the tab filter followed by the search filter: a subsequence of the list whose tasks are in the tab and match the term; VisibleSelects characterises it fully |
| Todos.VisibleSelects | pages/index.js:86-98 | the visible list is a subsequence of the list; a task shows exactly when it is in the tab and matches the search; each shown task keeps its multiplicity |
| Todos.TermCaseIrrelevant | pages/index.js:93-97 | a search term and its lower-cased form match the same tasks |
| Todos.EmptyTermMatchesAll | pages/index.js:93-97 | the empty search term matches every task |
| Todos.EmptySearchShowsTab | pages/index.js:86-98 | with an empty search each tab shows exactly its own tasks in order, and the `all` tab shows the whole list |
| Todos.TabCount | pages/index.js:204-206 | the number on a tab button: the list length for `all`, the filtered length otherwise, never more than the list length |
| Todos.TabCountIsVisibleLength | pages/index.js:204-206 | each tab's count is the length of that tab's list with an empty search |
| Todos.CountsAddUp | pages/index.js:204-206 | the `all` count is the `active` count plus the `completed` count |
| Store.TodoStore.Valid | pages/index.js:5-12 | the store invariant every handler keeps: titles non-empty after trim, distinct ids, empty edit buffers outside edit mode |
| Store.TodoStore.Mode | pages/index.js:10-12 | the edit state the three edit slots encode: idle exactly when `editingId` is `null`, otherwise the id and both buffers |
| Store.TodoStore.constructor | pages/index.js:5-12 | the initial values: no tasks, empty buffers, the `all` tab, no edit in progress |
| Store.TodoStore.SetTitle | pages/index.js:122 | typing a title replaces the title buffer only |
| Store.TodoStore.SetDescription | pages/index.js:136 | typing a description replaces the description buffer only |
| Store.TodoStore.SetSearchTerm | pages/index.js:174 | typing in the search box replaces the search term only |
| Store.TodoStore.SetActiveTab | pages/index.js:188-191 | clicking a tab selects it and changes nothing else |
| Store.TodoStore.SetEditTitle | pages/index.js:245 | in edit mode, typing replaces the edit title and keeps the task being edited |
| Store.TodoStore.SetEditDescription | pages/index.js:259 | in edit mode, typing replaces the edit description and keeps the task being edited |
| Store.TodoStore.AddTodo | pages/index.js:28-41 | the new list is `Added` of the old state; a rejected title leaves both buffers, an accepted one clears them; the store invariant holds |
| Store.TodoStore.DeleteTodo | pages/index.js:44-46 | the new list is `Deleted` of the old one; an absent id leaves it unchanged, a present one removes exactly one task; the store invariant holds |
| Store.TodoStore.ToggleComplete | pages/index.js:49-53 | the new list is `Toggled` of the old one with the same ids; the store invariant holds |
| Store.TodoStore.StartEdit | pages/index.js:56-60 | edit mode is `StartedEdit(todo)` whatever edit was in progress, so the last start wins, and the list is untouched |
| Store.TodoStore.SaveEdit | pages/index.js:63-76 | an edit title that trims to nothing changes nothing; otherwise the list is `Saved` of the old state with the same ids and edit mode ends |
| Store.TodoStore.CancelEdit | pages/index.js:79-83 | edit mode ends with empty buffers and the list is untouched |
| Store.TodoStore.FilteredTodos | pages/index.js:86-98 | the rendered list is a subsequence of the tasks holding exactly those in the active tab that match the search term, each as often as in the list |
| Store.TodoStore.TabCounts | pages/index.js:204-206 | the three counts: all is the list length and the sum of the other two, which are the lengths of the `active` and `completed` lists |
| Scenarios.SearchIgnoresCase | pages/index.js:93-97 | the term `milk` finds the task titled `Buy Milk` |
| Scenarios.TabsOfTwo | pages/index.js:86-91 | of one completed and one open task, each tab shows the right one |
| Scenarios.AddTrimmed | pages/index.js:28-41 | adding an already trimmed, non-empty title with an already trimmed description appends exactly that task |
| Scenarios.AddTwo | pages/index.js:28-41 | two accepted adds give a two-task list in order |
| Scenarios.AddAddToggle | pages/index.js:28-91 | after adding two tasks and completing the first, the completed tab shows the first title and the active tab the second |
| Scenarios.WriteSpecBuyMilk | pages/index.js:28-91 | the same session for two concrete titles |
| Scenarios.StoreWithOne | pages/index.js:5-41 | a fresh store after one add holds exactly that task |
| Scenarios.RunSession | pages/index.js:28-53 | the store after two adds and one toggle holds the completed first task and the open second one |
| Scenarios.Session | pages/index.js:86-98 | switching tabs on that store renders the first title under `completed` and the second under `active` |

## Left out

- Loading from and saving to `localStorage`, and the JSON encoding
  (`pages/index.js:15-25`): browser storage and a serialiser are outside the
  model, so the list starts empty.
- `Date.now()` and `new Date().toISOString()` become the parameters `now` and
  `nowIso` of `AddTodo`.
- Store.TodoStore.AddTodo: requires that no task already has the id `now`.
  The source relies on the clock never repeating a millisecond and does not
  check it. Without the precondition, distinct ids could not be an invariant.
- The React runtime, JSX, styling, the empty-list messages and the order in
  which React applies state updates. Each handler is one atomic step here.
- Buttons disabled while a title is blank: the handlers reject a blank title
  themselves, and that rejection is modelled.
- The Edit button is shown only for uncompleted tasks (`pages/index.js:343-345`).
  `StartEdit` does not require it, because the handler works on any task.
- Store.TodoStore.SetEditTitle and Store.TodoStore.SetEditDescription: they
  require edit mode, since their inputs are rendered only for the task under
  edit (`pages/index.js:239`).
- `toLowerCase` is modelled for ASCII letters only. Full Unicode case mapping,
  including mappings that change a string's length, is not modelled.
- Strings are sequences of code points, not UTF-16 code units. `trim` and
  `includes` agree on both for the strings the page handles.
- Tab names are the datatype `Tab`, not strings. The page only ever sets the
  three names it renders.
- Ids are unbounded integers rather than JavaScript numbers. `Date.now()`
  values are exact integers, so `===` on them is integer equality.
- Stored records read back without a `title` are not modelled. A missing
  `description` is modelled as `None`.
