/** Worked examples of the task list: a case-insensitive search and a short
    session of adds and a toggle, computed through the model's own
    definitions. */
module Scenarios {
  import opened Text
  import opened Todos
  import opened Store

  function Titles(ts: seq<Task>): (r: seq<string>)
    ensures |r| == |ts| && forall i :: 0 <= i < |ts| ==> r[i] == ts[i].title
  {
    seq(|ts|, i requires 0 <= i < |ts| => ts[i].title)
  }

  /** Searching for "milk" finds a task titled "Buy Milk". */
  lemma SearchIgnoresCase(createdAt: string)
    ensures MatchesSearch("milk", Task(1, "Buy Milk", Some(""), false, createdAt))
  {
    assert ToLower("milk") == "milk";
    assert ToLower("Buy Milk") == "buy milk";
    assert OccursAt("buy milk", "milk", 4);
    ContainsIffOccurs("buy milk", "milk");
  }

  /** With one completed and one active task, each tab with an empty
      search shows just its own task. */
  lemma TabsOfTwo(done: Task, open: Task)
    requires done.completed && !open.completed
    ensures Visible([done, open], Completed, "") == [done]
    ensures Visible([done, open], Active, "") == [open]
  {
    var ts := [done, open];
    EmptySearchShowsTab(ts, Completed);
    EmptySearchShowsTab(ts, Active);
    assert ts[1..] == [open];
  }

  /** Adding texts that are already trimmed stores them as they are. */
  lemma AddTrimmed(ts: seq<Task>, a: string, da: string, id: int, t: string)
    requires IsTrimmed(a) && a != "" && IsTrimmed(da)
    ensures Added(ts, a, da, id, t) == ts + [Task(id, a, Some(da), false, t)]
  {
    TrimUnchanged(a);
    TrimUnchanged(da);
  }

  /** Two accepted adds of already trimmed texts to an empty list. */
  lemma AddTwo(a: string, da: string, b: string, db: string, id1: int, id2: int, t1: string, t2: string)
    requires IsTrimmed(a) && a != "" && IsTrimmed(b) && b != "" && IsTrimmed(da) && IsTrimmed(db)
    ensures Added(Added([], a, da, id1, t1), b, db, id2, t2)
      == [Task(id1, a, Some(da), false, t1), Task(id2, b, Some(db), false, t2)]
  {
    var first := Task(id1, a, Some(da), false, t1);
    var second := Task(id2, b, Some(db), false, t2);
    assert Added([], a, da, id1, t1) == [first] by {
      AddTrimmed([], a, da, id1, t1);
    }
    assert Added([first], b, db, id2, t2) == [first, second] by {
      AddTrimmed([first], b, db, id2, t2);
    }
  }

  /** Start with an empty list, add two tasks whose texts are already
      trimmed, toggle the first: the completed tab shows only the first
      title and the active tab only the second. */
  lemma AddAddToggle(a: string, da: string, b: string, db: string, id1: int, id2: int, t1: string, t2: string)
    requires IsTrimmed(a) && a != "" && IsTrimmed(b) && b != "" && IsTrimmed(da) && IsTrimmed(db)
    requires id1 != id2
    ensures var ts := Toggled(Added(Added([], a, da, id1, t1), b, db, id2, t2), id1);
      && Titles(Visible(ts, Completed, "")) == [a]
      && Titles(Visible(ts, Active, "")) == [b]
  {
    var first := Task(id1, a, Some(da), false, t1);
    var second := Task(id2, b, Some(db), false, t2);
    var ts := [first.(completed := true), second];
    assert Toggled(Added(Added([], a, da, id1, t1), b, db, id2, t2), id1) == ts by {
      AddTwo(a, da, b, db, id1, id2, t1, t2);
      assert Toggled([first, second], id1) == ts;
    }
    assert Visible(ts, Completed, "") == [ts[0]] && Visible(ts, Active, "") == [second] by {
      TabsOfTwo(first.(completed := true), second);
    }
  }

  /** The session `add("Write spec", "")`, `add("Buy milk", "2% please")`,
      toggle "Write spec": the completed tab lists "Write spec" and the
      active tab "Buy milk". */
  lemma WriteSpecBuyMilk(t1: string, t2: string)
    ensures var ts := Toggled(Added(Added([], "Write spec", "", 1, t1), "Buy milk", "2% please", 2, t2), 1);
      && Titles(Visible(ts, Completed, "")) == ["Write spec"]
      && Titles(Visible(ts, Active, "")) == ["Buy milk"]
  {
    AddAddToggle("Write spec", "", "Buy milk", "2% please", 1, 2, t1, t2);
  }

  /** A fresh store after typing and adding one task of already trimmed
      texts. */
  method StoreWithOne(a: string, da: string, id1: int, t1: string) returns (store: TodoStore)
    requires IsTrimmed(a) && a != "" && IsTrimmed(da)
    ensures fresh(store) && store.Valid() && store.searchTerm == ""
    ensures store.todos == [Task(id1, a, Some(da), false, t1)]
  {
    store := new TodoStore();
    store.SetTitle(a);
    store.SetDescription(da);
    store.AddTodo(id1, t1);
    AddTrimmed([], a, da, id1, t1);
  }

  /** The session driven through the store's handlers, typing each text
      into the inputs first. */
  method RunSession(a: string, da: string, b: string, db: string, id1: int, id2: int, t1: string, t2: string)
    returns (store: TodoStore)
    requires IsTrimmed(a) && a != "" && IsTrimmed(b) && b != "" && IsTrimmed(da) && IsTrimmed(db)
    requires id1 != id2
    ensures fresh(store) && store.Valid() && store.searchTerm == ""
    ensures store.todos == [Task(id1, a, Some(da), true, t1), Task(id2, b, Some(db), false, t2)]
  {
    var first := Task(id1, a, Some(da), false, t1);
    var second := Task(id2, b, Some(db), false, t2);
    store := StoreWithOne(a, da, id1, t1);
    store.SetTitle(b);
    store.SetDescription(db);
    store.AddTodo(id2, t2);
    assert store.todos == [first, second] by {
      AddTrimmed([first], b, db, id2, t2);
    }
    store.ToggleComplete(id1);
  }

  /** After the session the completed tab renders only the first title and
      the active tab only the second. */
  method Session(a: string, da: string, b: string, db: string, id1: int, id2: int, t1: string, t2: string)
    returns (completedTitles: seq<string>, activeTitles: seq<string>)
    requires IsTrimmed(a) && a != "" && IsTrimmed(b) && b != "" && IsTrimmed(da) && IsTrimmed(db)
    requires id1 != id2
    ensures completedTitles == [a] && activeTitles == [b]
  {
    var store := RunSession(a, da, b, db, id1, id2, t1, t2);
    TabsOfTwo(store.todos[0], store.todos[1]);
    store.SetActiveTab(Completed);
    completedTitles := Titles(store.FilteredTodos());
    store.SetActiveTab(Active);
    activeTitles := Titles(store.FilteredTodos());
  }
}
