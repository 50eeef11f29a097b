/** The state of the `Home` component and its event handlers. Each
    `useState` slot is a field; each handler is a method that computes the
    new list with the functions of module Todos and then resets the input
    buffers, as the handlers do with their setter calls. */
module Store {
  import opened Seqs
  import opened Text
  import opened Todos

  class TodoStore {
    var todos: seq<Task>
    var title: string
    var description: string
    var activeTab: Tab
    var searchTerm: string
    var editingId: Option<int>
    var editTitle: string
    var editDescription: string

    /** The invariant every handler keeps: titles survive trimming, ids are
        distinct, and outside edit mode both edit buffers are empty. */
    predicate Valid()
      reads this
    {
      && TitlesValid(todos)
      && UniqueIds(todos)
      && (editingId.None? ==> editTitle == "" && editDescription == "")
    }

    /** The edit mode the three loose edit fields encode. */
    function Mode(): (m: EditState)
      reads this
      ensures m.Idle? <==> editingId.None?
      ensures m.Editing? ==> m.id == editingId.value && m.titleBuf == editTitle && m.descBuf == editDescription
    {
      match editingId
      case None => Idle
      case Some(id) => Editing(id, editTitle, editDescription)
    }

    /** The initial `useState` values: no tasks, empty buffers, the `all`
        tab, nothing being edited. */
    constructor ()
      ensures Valid()
      ensures todos == [] && title == "" && description == ""
      ensures activeTab == All && searchTerm == ""
      ensures editingId == None && Mode() == Idle
      ensures editTitle == "" && editDescription == ""
    {
      todos, title, description := [], "", "";
      activeTab, searchTerm := All, "";
      editingId, editTitle, editDescription := None, "", "";
    }

    // -------------------------------------------------------------------
    // Typing into the inputs and picking a tab

    method SetTitle(s: string)
      requires Valid()
      modifies this`title
      ensures Valid() && title == s
    {
      title := s;
    }

    method SetDescription(s: string)
      requires Valid()
      modifies this`description
      ensures Valid() && description == s
    {
      description := s;
    }

    method SetSearchTerm(s: string)
      requires Valid()
      modifies this`searchTerm
      ensures Valid() && searchTerm == s
    {
      searchTerm := s;
    }

    method SetActiveTab(tab: Tab)
      requires Valid()
      modifies this`activeTab
      ensures Valid() && activeTab == tab
    {
      activeTab := tab;
    }

    /** The edit inputs exist only while a task is being edited. */
    method SetEditTitle(s: string)
      requires Valid() && editingId.Some?
      modifies this`editTitle
      ensures Valid() && editTitle == s
      ensures Mode() == Editing(editingId.value, s, editDescription)
    {
      editTitle := s;
    }

    method SetEditDescription(s: string)
      requires Valid() && editingId.Some?
      modifies this`editDescription
      ensures Valid() && editDescription == s
      ensures Mode() == Editing(editingId.value, editTitle, s)
    {
      editDescription := s;
    }

    // -------------------------------------------------------------------
    // The list handlers

    /** `addTodo`, with the clock readings `Date.now()` and
        `new Date().toISOString()` passed in. A title that trims to nothing
        changes nothing; otherwise the new task goes on the end and both
        input buffers are cleared. */
    method AddTodo(now: int, nowIso: string)
      requires Valid() && !HasId(todos, now)
      modifies this`todos, this`title, this`description
      ensures Valid()
      ensures todos == Added(old(todos), old(title), old(description), now, nowIso)
      ensures Trim(old(title)) == "" ==> title == old(title) && description == old(description)
      ensures Trim(old(title)) != "" ==> title == "" && description == ""
    {
      AddedKeepsInvariants(todos, title, description, now, nowIso);
      if Trim(title) != "" {
        var newTodo := NewTask(now, title, description, nowIso);
        todos := todos + [newTodo];
        title := "";
        description := "";
      }
    }

    /** `deleteTodo`: keep the tasks with another id. */
    method DeleteTodo(id: int)
      requires Valid()
      modifies this`todos
      ensures Valid()
      ensures todos == Deleted(old(todos), id)
      ensures !HasId(old(todos), id) ==> todos == old(todos)
      ensures HasId(old(todos), id) ==> |todos| == |old(todos)| - 1
    {
      DeletedKeepsInvariants(todos, id);
      if HasId(todos, id) {
        DeletedPresent(todos, id);
      } else {
        DeletedAbsent(todos, id);
      }
      todos := Deleted(todos, id);
    }

    /** `toggleComplete`: flip `completed` on the task with the id. */
    method ToggleComplete(id: int)
      requires Valid()
      modifies this`todos
      ensures Valid()
      ensures todos == Toggled(old(todos), id)
      ensures Ids(todos) == Ids(old(todos))
    {
      ToggledKeepsInvariants(todos, id);
      todos := Toggled(todos, id);
    }

    // -------------------------------------------------------------------
    // Edit mode

    /** `startEdit(todo)`: enter edit mode for that task, abandoning any
        edit in progress. */
    method StartEdit(todo: Task)
      requires Valid()
      modifies this`editingId, this`editTitle, this`editDescription
      ensures Valid()
      ensures Mode() == StartedEdit(todo)
      ensures editingId == Some(todo.id) && editTitle == todo.title
      ensures editDescription == DescriptionText(todo)
    {
      editingId := Some(todo.id);
      editTitle := todo.title;
      editDescription := DescriptionText(todo);
    }

    /** `saveEdit`: an edit title that trims to nothing changes nothing and
        stays in edit mode; otherwise the edited task takes the trimmed
        buffers and edit mode ends. */
    method SaveEdit()
      requires Valid()
      modifies this`todos, this`editingId, this`editTitle, this`editDescription
      ensures Valid()
      ensures Trim(old(editTitle)) == "" ==> unchanged(this)
      ensures Trim(old(editTitle)) != "" ==>
        && todos == Saved(old(todos), old(editingId), old(editTitle), old(editDescription))
        && Ids(todos) == Ids(old(todos))
        && editingId == None && editTitle == "" && editDescription == ""
        && Mode() == Idle
    {
      if Trim(editTitle) != "" {
        SavedKeepsInvariants(todos, editingId, editTitle, editDescription);
        todos := Saved(todos, editingId, editTitle, editDescription);
        editingId := None;
        editTitle := "";
        editDescription := "";
      }
    }

    /** `cancelEdit`: leave edit mode, drop the buffers, keep the list. */
    method CancelEdit()
      requires Valid()
      modifies this`editingId, this`editTitle, this`editDescription
      ensures Valid()
      ensures Mode() == Idle
      ensures editingId == None && editTitle == "" && editDescription == ""
    {
      editingId := None;
      editTitle := "";
      editDescription := "";
    }

    // -------------------------------------------------------------------
    // What is rendered

    /** `filteredTodos` for the current tab and search term: an
        order-preserving subsequence of the list holding exactly the tasks
        in the tab that match the term, each as often as in the list. */
    function FilteredTodos(): (r: seq<Task>)
      reads this
      ensures IsSubsequence(r, todos)
      ensures forall t :: t in r <==> t in todos && ShownInTab(activeTab, t) && MatchesSearch(searchTerm, t)
      ensures forall t :: multiset(r)[t]
                            == (if ShownInTab(activeTab, t) && MatchesSearch(searchTerm, t) then multiset(todos)[t] else 0)
    {
      VisibleSelects(todos, activeTab, searchTerm);
      Visible(todos, activeTab, searchTerm)
    }

    /** The numbers on the three tab buttons: all, to do, completed. */
    function TabCounts(): (r: (nat, nat, nat))
      reads this
      ensures r.0 == |todos| && r.0 == r.1 + r.2
      ensures r.1 == |Visible(todos, Active, "")| && r.2 == |Visible(todos, Completed, "")|
    {
      CountsAddUp(todos);
      TabCountIsVisibleLength(todos, Active);
      TabCountIsVisibleLength(todos, Completed);
      (TabCount(todos, All), TabCount(todos, Active), TabCount(todos, Completed))
    }
  }
}
