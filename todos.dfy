/** The task list of the `Home` component as values: the task record, the
    list transforms its event handlers apply to `todos`, the tab and search
    view `filteredTodos`, and the per-tab counts. */
module Todos {
  import opened Seqs
  import opened Text

  datatype Option<T> = None | Some(value: T) {
    function GetOr(default: T): T {
      match this
      case Some(v) => v
      case None => default
    }
  }

  /** One task. `description` is None for a stored record that lacks the
      field; every record the component itself builds has one. `id` is the
      millisecond clock reading at creation and `createdAt` its ISO-8601
      text, both supplied by the caller. */
  datatype Task = Task(id: int, title: string, description: Option<string>,
                       completed: bool, createdAt: string)

  /** `todo.description || ''`: a missing description reads as empty. */
  function DescriptionText(t: Task): string {
    t.description.GetOr("")
  }

  // ---------------------------------------------------------------------
  // List invariants

  /** Every title has something left after trimming. */
  predicate TitlesValid(ts: seq<Task>) {
    forall i :: 0 <= i < |ts| ==> Trim(ts[i].title) != ""
  }

  /** No two tasks share an id. */
  predicate UniqueIds(ts: seq<Task>) {
    forall i, j :: 0 <= i < |ts| && 0 <= j < |ts| && ts[i].id == ts[j].id ==> i == j
  }

  predicate HasId(ts: seq<Task>, id: int) {
    exists i :: 0 <= i < |ts| && ts[i].id == id
  }

  function Ids(ts: seq<Task>): (r: seq<int>)
    ensures |r| == |ts| && forall i :: 0 <= i < |ts| ==> r[i] == ts[i].id
  {
    seq(|ts|, i requires 0 <= i < |ts| => ts[i].id)
  }

  /** A subsequence of a list with distinct ids has distinct ids. */
  lemma {:induction false} SubsequenceUniqueIds(a: seq<Task>, b: seq<Task>)
    requires IsSubsequence(a, b) && UniqueIds(b)
    ensures UniqueIds(a)
    decreases |b|
  {
    if a != [] {
      assert UniqueIds(b[1..]) by {
        forall i, j | 0 <= i < |b| - 1 && 0 <= j < |b| - 1 && b[1..][i].id == b[1..][j].id
          ensures i == j
        {
          assert b[i + 1].id == b[j + 1].id;
        }
      }
      if a[0] == b[0] && IsSubsequence(a[1..], b[1..]) {
        SubsequenceUniqueIds(a[1..], b[1..]);
        SubsequenceMembers(a[1..], b[1..]);
        forall k | 1 <= k < |a| ensures a[0].id != a[k].id {
          assert a[k] == a[1..][k - 1];
          assert a[k] in b[1..];
          var m :| 0 <= m < |b| - 1 && b[1..][m] == a[k];
          assert b[m + 1] == a[k];
        }
        forall i, j | 0 <= i < |a| && 0 <= j < |a| && a[i].id == a[j].id ensures i == j {
          if i > 0 && j > 0 {
            assert a[1..][i - 1].id == a[1..][j - 1].id;
          }
        }
      } else {
        SubsequenceUniqueIds(a, b[1..]);
      }
    }
  }

  /** Every element of a subsequence is an element of the sequence. */
  lemma {:induction false} SubsequenceMembers(a: seq<Task>, b: seq<Task>)
    requires IsSubsequence(a, b)
    ensures forall x :: x in a ==> x in b
    decreases |b|
  {
    if a != [] {
      if a[0] == b[0] && IsSubsequence(a[1..], b[1..]) {
        SubsequenceMembers(a[1..], b[1..]);
        assert a == [a[0]] + a[1..];
      } else {
        SubsequenceMembers(a, b[1..]);
      }
    }
  }

  // ---------------------------------------------------------------------
  // addTodo: trim, reject an empty title, otherwise append

  /** The record `addTodo` builds: both texts are stored trimmed and the
      task starts out uncompleted. */
  function NewTask(id: int, title: string, description: string, createdAt: string): (t: Task)
    ensures t.id == id && t.createdAt == createdAt && !t.completed
    ensures t.title == Trim(title) && t.description == Some(Trim(description))
    ensures IsTrimmed(t.title) && t.description.Some? && IsTrimmed(t.description.value)
  {
    Task(id, Trim(title), Some(Trim(description)), false, createdAt)
  }

  /** The list after `addTodo` with the given input buffers. A title that
      trims to nothing (TrimShape: one that is all white space) is rejected
      and the list stays; otherwise one new, uncompleted task with the
      trimmed texts goes on the end and the earlier tasks stay in place. */
  function Added(ts: seq<Task>, title: string, description: string, id: int, createdAt: string): (r: seq<Task>)
    ensures Trim(title) == "" ==> r == ts
    ensures Trim(title) != "" ==>
      && |r| == |ts| + 1
      && r[..|ts|] == ts
      && r[|ts|].id == id && r[|ts|].createdAt == createdAt
      && !r[|ts|].completed
      && r[|ts|].title == Trim(title)
      && r[|ts|].description == Some(Trim(description))
  {
    if Trim(title) == "" then ts else ts + [NewTask(id, title, description, createdAt)]
  }

  /** An accepted add with a fresh id keeps both list invariants. */
  lemma AddedKeepsInvariants(ts: seq<Task>, title: string, description: string, id: int, createdAt: string)
    requires TitlesValid(ts) && UniqueIds(ts) && !HasId(ts, id)
    ensures TitlesValid(Added(ts, title, description, id, createdAt))
    ensures UniqueIds(Added(ts, title, description, id, createdAt))
  {
    if Trim(title) != "" {
      var t := NewTask(id, title, description, createdAt);
      var r := ts + [t];
      assert Added(ts, title, description, id, createdAt) == r;
      assert Trim(t.title) != "" by {
        TrimIdempotent(title);
      }
      forall i | 0 <= i < |r| ensures Trim(r[i].title) != "" {
        if i < |ts| {
          assert r[i] == ts[i];
        }
      }
      AppendFreshUnique(ts, t);
    }
  }

  /** Appending a task whose id no task has keeps the ids distinct. */
  lemma AppendFreshUnique(ts: seq<Task>, t: Task)
    requires UniqueIds(ts) && !HasId(ts, t.id)
    ensures UniqueIds(ts + [t])
  {
    var r := ts + [t];
    forall i, j | 0 <= i < |r| && 0 <= j < |r| && r[i].id == r[j].id ensures i == j {
      if i < |ts| && j < |ts| {
        assert r[i] == ts[i] && r[j] == ts[j];
      }
    }
  }

  // ---------------------------------------------------------------------
  // deleteTodo: keep the tasks whose id differs

  function HasOtherId(id: int): Task -> bool {
    (t: Task) => t.id != id
  }

  /** `todos.filter(todo => todo.id !== id)`. */
  function Deleted(ts: seq<Task>, id: int): (r: seq<Task>)
    ensures IsSubsequence(r, ts)
    ensures forall t :: t in r <==> t in ts && t.id != id
  {
    Filter(HasOtherId(id), ts)
  }

  /** Delete keeps every other task exactly as often as it was there and
      drops every task with the id: with IsSubsequence this says the result
      is precisely the other tasks, in their original order. */
  lemma DeletedCounts(ts: seq<Task>, id: int, t: Task)
    ensures multiset(Deleted(ts, id))[t] == if t.id != id then multiset(ts)[t] else 0
  {
    FilterCounts(HasOtherId(id), ts, t);
  }

  /** Deleting an id no task has leaves the list as it is. */
  lemma DeletedAbsent(ts: seq<Task>, id: int)
    requires !HasId(ts, id)
    ensures Deleted(ts, id) == ts
  {
    FilterKeepsAll(HasOtherId(id), ts);
  }

  /** With distinct ids, deleting a present id removes exactly one task. */
  lemma {:induction false} DeletedPresent(ts: seq<Task>, id: int)
    requires UniqueIds(ts) && HasId(ts, id)
    ensures |Deleted(ts, id)| == |ts| - 1
  {
    assert ts == [ts[0]] + ts[1..];
    if ts[0].id == id {
      assert !HasId(ts[1..], id) by {
        forall i | 0 <= i < |ts| - 1 ensures ts[1..][i].id != id {
          assert ts[i + 1].id != ts[0].id;
        }
      }
      DeletedAbsent(ts[1..], id);
    } else {
      assert UniqueIds(ts[1..]) by {
        forall i, j | 0 <= i < |ts| - 1 && 0 <= j < |ts| - 1 && ts[1..][i].id == ts[1..][j].id
          ensures i == j
        {
          assert ts[i + 1].id == ts[j + 1].id;
        }
      }
      var k :| 0 <= k < |ts| && ts[k].id == id;
      assert ts[1..][k - 1].id == id;
      DeletedPresent(ts[1..], id);
    }
  }

  /** Delete keeps both list invariants. */
  lemma DeletedKeepsInvariants(ts: seq<Task>, id: int)
    requires TitlesValid(ts) && UniqueIds(ts)
    ensures TitlesValid(Deleted(ts, id)) && UniqueIds(Deleted(ts, id))
  {
    var r := Deleted(ts, id);
    SubsequenceUniqueIds(r, ts);
    forall i | 0 <= i < |r| ensures Trim(r[i].title) != "" {
      assert r[i] in ts;
    }
  }

  // ---------------------------------------------------------------------
  // toggleComplete: flip `completed` on the tasks with the id

  /** `todos.map(todo => todo.id === id ? { ...todo, completed: !todo.completed } : todo)`. */
  function Toggled(ts: seq<Task>, id: int): (r: seq<Task>)
    ensures |r| == |ts|
    ensures forall i :: 0 <= i < |ts| ==>
      && r[i].id == ts[i].id && r[i].title == ts[i].title
      && r[i].description == ts[i].description && r[i].createdAt == ts[i].createdAt
    ensures forall i :: 0 <= i < |ts| ==> (r[i].completed <==> ts[i].completed != (ts[i].id == id))
  {
    seq(|ts|, i requires 0 <= i < |ts| =>
      if ts[i].id == id then ts[i].(completed := !ts[i].completed) else ts[i])
  }

  /** Toggling the same id twice restores the list. */
  lemma ToggledTwice(ts: seq<Task>, id: int)
    ensures Toggled(Toggled(ts, id), id) == ts
  {
    var r := Toggled(Toggled(ts, id), id);
    assert forall i :: 0 <= i < |ts| ==> r[i] == ts[i];
  }

  /** Toggling an id no task has leaves the list as it is. */
  lemma ToggledAbsent(ts: seq<Task>, id: int)
    requires !HasId(ts, id)
    ensures Toggled(ts, id) == ts
  {
    var r := Toggled(ts, id);
    assert forall i :: 0 <= i < |ts| ==> r[i] == ts[i];
  }

  /** Toggle keeps the ids and both list invariants. */
  lemma ToggledKeepsInvariants(ts: seq<Task>, id: int)
    requires TitlesValid(ts) && UniqueIds(ts)
    ensures Ids(Toggled(ts, id)) == Ids(ts)
    ensures TitlesValid(Toggled(ts, id)) && UniqueIds(Toggled(ts, id))
  {
  }

  // ---------------------------------------------------------------------
  // saveEdit: overwrite the edited task with the trimmed buffers

  /** The `todos.map` of `saveEdit`: the task whose id equals `editingId`
      (`None` models `null`, which equals no id) gets the trimmed buffers as
      title and description; every other task is kept. */
  function Saved(ts: seq<Task>, editingId: Option<int>, editTitle: string, editDescription: string): (r: seq<Task>)
    ensures |r| == |ts|
    ensures forall i :: 0 <= i < |ts| ==>
      && r[i].id == ts[i].id && r[i].completed == ts[i].completed && r[i].createdAt == ts[i].createdAt
    ensures forall i :: 0 <= i < |ts| && editingId == Some(ts[i].id) ==>
      r[i].title == Trim(editTitle) && r[i].description == Some(Trim(editDescription))
    ensures forall i :: 0 <= i < |ts| && editingId != Some(ts[i].id) ==> r[i] == ts[i]
  {
    seq(|ts|, i requires 0 <= i < |ts| =>
      if editingId == Some(ts[i].id)
      then ts[i].(title := Trim(editTitle), description := Some(Trim(editDescription)))
      else ts[i])
  }

  /** Saving for an id no task has (the task was deleted, or nothing is
      being edited) leaves the list as it is. */
  lemma SavedAbsent(ts: seq<Task>, editingId: Option<int>, editTitle: string, editDescription: string)
    requires editingId.None? || !HasId(ts, editingId.value)
    ensures Saved(ts, editingId, editTitle, editDescription) == ts
  {
    var r := Saved(ts, editingId, editTitle, editDescription);
    assert forall i :: 0 <= i < |ts| ==> r[i] == ts[i];
  }

  /** A save whose title survives trimming keeps the ids and both list
      invariants. */
  lemma SavedKeepsInvariants(ts: seq<Task>, editingId: Option<int>, editTitle: string, editDescription: string)
    requires TitlesValid(ts) && UniqueIds(ts) && Trim(editTitle) != ""
    ensures Ids(Saved(ts, editingId, editTitle, editDescription)) == Ids(ts)
    ensures TitlesValid(Saved(ts, editingId, editTitle, editDescription))
    ensures UniqueIds(Saved(ts, editingId, editTitle, editDescription))
  {
    var r := Saved(ts, editingId, editTitle, editDescription);
    TrimIdempotent(editTitle);
    forall i | 0 <= i < |r| ensures Trim(r[i].title) != "" {
      if editingId == Some(ts[i].id) {
        assert r[i].title == Trim(editTitle);
      } else {
        assert r[i] == ts[i];
      }
    }
    SameIdsUnique(r, ts);
  }

  /** Two lists with the same id sequence agree on distinctness. */
  lemma SameIdsUnique(a: seq<Task>, b: seq<Task>)
    requires Ids(a) == Ids(b) && UniqueIds(b)
    ensures UniqueIds(a)
  {
    forall i, j | 0 <= i < |a| && 0 <= j < |a| && a[i].id == a[j].id ensures i == j {
      assert Ids(a)[i] == Ids(b)[i] && Ids(a)[j] == Ids(b)[j];
    }
  }

  // ---------------------------------------------------------------------
  // Edit mode

  /** The edit state the three loose fields `editingId`, `editTitle` and
      `editDescription` encode. */
  datatype EditState = Idle | Editing(id: int, titleBuf: string, descBuf: string)

  /** The state `startEdit(todo)` enters: it edits that task, seeded with
      its title and its description or the empty string. */
  function StartedEdit(t: Task): (e: EditState)
    ensures e.Editing? && e.id == t.id && e.titleBuf == t.title
    ensures t.description.Some? ==> e.descBuf == t.description.value
    ensures t.description.None? ==> e.descBuf == ""
  {
    Editing(t.id, t.title, DescriptionText(t))
  }

  // ---------------------------------------------------------------------
  // filteredTodos: first by tab, then by search term

  datatype Tab = All | Active | Completed

  predicate ShownInTab(tab: Tab, t: Task) {
    match tab
    case Active => !t.completed
    case Completed => t.completed
    case All => true
  }

  /** The case-insensitive search of pages/index.js: the lower-cased term
      occurs in the lower-cased title or description. */
  predicate MatchesSearch(term: string, t: Task)
    ensures MatchesSearch(term, t) ==> |term| <= |t.title| || |term| <= |DescriptionText(t)|
  {
    Contains(ToLower(t.title), ToLower(term)) || Contains(ToLower(DescriptionText(t)), ToLower(term))
  }

  /** The search ignores the case of the term: a term and its lower-cased
      form select the same tasks. */
  lemma TermCaseIrrelevant(term: string, t: Task)
    ensures MatchesSearch(ToLower(term), t) <==> MatchesSearch(term, t)
  {
    ToLowerIdempotent(term);
  }

  function InTab(tab: Tab): Task -> bool {
    (t: Task) => ShownInTab(tab, t)
  }

  function Matching(term: string): Task -> bool {
    (t: Task) => MatchesSearch(term, t)
  }

  /** `filteredTodos`. */
  function Visible(ts: seq<Task>, tab: Tab, term: string): (r: seq<Task>)
    ensures IsSubsequence(r, ts)
    ensures forall t :: t in r ==> t in ts && ShownInTab(tab, t) && MatchesSearch(term, t)
  {
    SubsequenceTransitive(Filter(Matching(term), Filter(InTab(tab), ts)), Filter(InTab(tab), ts), ts);
    Filter(Matching(term), Filter(InTab(tab), ts))
  }

  /** The view is an order-preserving subsequence of the list and holds
      exactly the tasks shown in the tab that match the term, each as often
      as the list does. */
  lemma VisibleSelects(ts: seq<Task>, tab: Tab, term: string)
    ensures IsSubsequence(Visible(ts, tab, term), ts)
    ensures forall t :: t in Visible(ts, tab, term) <==> t in ts && ShownInTab(tab, t) && MatchesSearch(term, t)
    ensures forall t :: (multiset(Visible(ts, tab, term))[t] ==
      if ShownInTab(tab, t) && MatchesSearch(term, t) then multiset(ts)[t] else 0)
  {
    var inTab := Filter(InTab(tab), ts);
    SubsequenceTransitive(Visible(ts, tab, term), inTab, ts);
    forall t ensures multiset(Visible(ts, tab, term))[t] ==
      (if ShownInTab(tab, t) && MatchesSearch(term, t) then multiset(ts)[t] else 0)
    {
      FilterCounts(InTab(tab), ts, t);
      FilterCounts(Matching(term), inTab, t);
    }
  }

  /** Every task matches the empty search term. */
  lemma EmptyTermMatchesAll(t: Task)
    ensures MatchesSearch("", t)
  {
    assert ToLower("") == "";
    ContainsEmpty(ToLower(t.title));
  }

  /** With an empty search term the view is the tab filter alone: `all`
      shows the whole list, `active` exactly the uncompleted tasks and
      `completed` exactly the completed ones, each in list order. */
  lemma EmptySearchShowsTab(ts: seq<Task>, tab: Tab)
    ensures Visible(ts, tab, "") == Filter(InTab(tab), ts)
    ensures tab == All ==> Visible(ts, tab, "") == ts
    ensures IsSubsequence(Visible(ts, tab, ""), ts)
    ensures forall t :: multiset(Visible(ts, tab, ""))[t] == if ShownInTab(tab, t) then multiset(ts)[t] else 0
  {
    var inTab := Filter(InTab(tab), ts);
    forall i | 0 <= i < |inTab| ensures Matching("")(inTab[i]) {
      EmptyTermMatchesAll(inTab[i]);
    }
    FilterKeepsAll(Matching(""), inTab);
    if tab == All {
      FilterKeepsAll(InTab(tab), ts);
    }
    forall t ensures multiset(inTab)[t] == if ShownInTab(tab, t) then multiset(ts)[t] else 0 {
      FilterCounts(InTab(tab), ts, t);
    }
  }

  /** An accepted add keeps the current view and puts the new task at its
      end exactly when the task is in the tab and matches the term. */
  lemma AddedVisible(ts: seq<Task>, title: string, description: string, id: int, createdAt: string,
                     tab: Tab, term: string)
    requires Trim(title) != ""
    ensures var t := NewTask(id, title, description, createdAt);
      Visible(Added(ts, title, description, id, createdAt), tab, term)
        == Visible(ts, tab, term) + (if ShownInTab(tab, t) && MatchesSearch(term, t) then [t] else [])
  {
    var t := NewTask(id, title, description, createdAt);
    FilterConcat(InTab(tab), ts, [t]);
    assert [t][1..] == [];
    FilterConcat(Matching(term), Filter(InTab(tab), ts), Filter(InTab(tab), [t]));
  }

  // ---------------------------------------------------------------------
  // Tab counts

  /** The number shown on a tab's button: the list length for `all`, the
      length of the active or completed filter otherwise. */
  function TabCount(ts: seq<Task>, tab: Tab): (n: nat)
    ensures n <= |ts|
    ensures tab == All ==> n == |ts|
  {
    if tab == All then |ts| else |Filter(InTab(tab), ts)|
  }

  /** The count on a tab is the length of the view that tab shows when the
      search term is empty. */
  lemma TabCountIsVisibleLength(ts: seq<Task>, tab: Tab)
    ensures TabCount(ts, tab) == |Visible(ts, tab, "")|
  {
    EmptySearchShowsTab(ts, tab);
  }

  /** Every task is either active or completed: the `all` count is the sum
      of the other two. */
  lemma {:induction false} CountsAddUp(ts: seq<Task>)
    ensures TabCount(ts, All) == TabCount(ts, Active) + TabCount(ts, Completed)
  {
    if ts != [] {
      CountsAddUp(ts[1..]);
    }
  }
}
