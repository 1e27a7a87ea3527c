/**
 * The todo store: the state of class `TodoApp` (the collection and the two
 * list filters) and the operations that change it.
 *
 * What the source takes from its environment is a parameter here: `now`
 * stands for `new Date()`, `freshId` for the result of `generateId`, and
 * `confirmed` / `answer` for the value the confirm or edit dialog resolved
 * with. The result is applied to the list as it is when the dialog resolves;
 * a record added behind an open confirm dialog is simply part of that list.
 */
module Store {
  import opened Wrappers
  import opened Text
  import opened Sequences
  import opened Todos
  import opened Query

  /** The invariants the store keeps: unique ids, completion stamps that agree with `completed`, tidy texts. */
  predicate ValidTodos(s: seq<Todo>) {
    && UniqueIds(s)
    && forall i :: 0 <= i < |s| ==> WellFormed(s[i]) && TidyText(s[i])
  }

  /**
   * `loadTodos`: no stored entry, an empty one, or one that does not parse
   * gives the empty collection; anything else is what the parser read.
   */
  function LoadTodos(saved: Option<string>, parse: string -> Option<seq<Todo>>): (r: seq<Todo>)
    ensures saved.None? ==> r == []
    ensures saved == Some("") ==> r == []
    ensures saved.Some? && parse(saved.value).None? ==> r == []
    ensures saved.Some? && saved.value != "" && parse(saved.value).Some? ==> r == parse(saved.value).value
  {
    match saved
    case None => []
    case Some(text) => if text == "" then [] else parse(text).GetOr([])
  }

  /**
   * The loaded collection is valid whenever what the parser reads is: every
   * other outcome is the empty collection.
   */
  lemma LoadTodosValid(saved: Option<string>, parse: string -> Option<seq<Todo>>)
    ensures (saved.Some? && parse(saved.value).Some? ==> ValidTodos(parse(saved.value).value)) ==> ValidTodos(LoadTodos(saved, parse))
  {
  }

  /** The record `addTodo` creates: pending, no completion stamp. */
  function NewTodo(id: string, text: string, priority: Priority, now: int): Todo {
    Todo(id, text, false, priority, now, None)
  }

  /** `toggleTodo` on one record: flips `completed`, stamps or clears `completedAt`, nothing else. */
  function Toggle(t: Todo, now: int): (u: Todo)
    ensures u.completed == !t.completed
    ensures WellFormed(u)
    ensures u.completed ==> u.completedAt == Some(now)
    ensures u == t.(completed := u.completed, completedAt := u.completedAt)
  {
    var done := !t.completed;
    t.(completed := done, completedAt := if done then Some(now) else None)
  }

  /** Toggling a record twice restores `completed`; a completed record gets the second stamp, not its old one. */
  lemma ToggleTwice(t: Todo, now1: int, now2: int)
    ensures Toggle(Toggle(t, now1), now2) == t.(completedAt := if t.completed then Some(now2) else None)
    ensures WellFormed(t) && !t.completed ==> Toggle(Toggle(t, now1), now2) == t
  {
  }

  /**
   * The collection after `toggleTodo(id)`: only the first record with that
   * id changes, only in its completion, and the order stays.
   */
  function ToggledAt(s: seq<Todo>, id: string, now: int): (r: seq<Todo>)
    ensures |r| == |s|
    ensures FindIndex(s, id).None? ==> r == s
    ensures forall j :: 0 <= j < |s| ==>
      r[j] == s[j].(completed := r[j].completed, completedAt := r[j].completedAt)
    ensures forall j :: 0 <= j < |s| ==> (r[j].completed != s[j].completed <==> FindIndex(s, id) == Some(j))
    ensures forall j :: 0 <= j < |s| && r[j] != s[j] ==> FindIndex(s, id) == Some(j) && r[j] == Toggle(s[j], now)
  {
    match FindIndex(s, id)
    case None => s
    case Some(i) =>
      s[i := Toggle(s[i], now)]
  }

  /** Toggling keeps the store's invariants. */
  lemma ToggledAtValid(s: seq<Todo>, id: string, now: int)
    requires ValidTodos(s)
    ensures ValidTodos(ToggledAt(s, id, now))
  {
    var r := ToggledAt(s, id, now);
    forall j | 0 <= j < |r|
      ensures r[j].id == s[j].id && TidyText(r[j]) && WellFormed(r[j])
    {
      assert r[j] == s[j] || r[j] == Toggle(s[j], now);
    }
    forall i, j | 0 <= i < j < |r|
      ensures r[i].id != r[j].id
    {
      assert s[i].id != s[j].id;
    }
  }

  /** Toggling the same id twice: every record is back to its `completed` value, only that record's stamp may differ. */
  lemma ToggledAtTwice(s: seq<Todo>, id: string, now1: int, now2: int)
    ensures var r := ToggledAt(ToggledAt(s, id, now1), id, now2);
      && |r| == |s|
      && (forall j :: 0 <= j < |s| ==> r[j].completed == s[j].completed)
      && (forall j :: 0 <= j < |s| && FindIndex(s, id) != Some(j) ==> r[j] == s[j])
    ensures ValidTodos(s) && (forall j :: 0 <= j < |s| && s[j].id == id ==> !s[j].completed)
            ==> ToggledAt(ToggledAt(s, id, now1), id, now2) == s
  {
    var s1 := ToggledAt(s, id, now1);
    assert FindIndex(s1, id) == FindIndex(s, id) by {
      FindIndexSameIds(s, s1, id);
    }
    match FindIndex(s, id)
    case None =>
    case Some(i) =>
      ToggleTwice(s[i], now1, now2);
  }

  lemma {:induction false} FindIndexSameIds(s: seq<Todo>, u: seq<Todo>, id: string)
    requires |s| == |u| && forall j :: 0 <= j < |s| ==> s[j].id == u[j].id
    ensures FindIndex(u, id) == FindIndex(s, id)
  {
    if s != [] {
      FindIndexSameIds(s[1..], u[1..], id);
    }
  }

  /**
   * The collection after `editTodo(id)` once the dialog resolved with
   * `answer`: the first record with that id gets the trimmed text, unless
   * the answer is null or blank; nothing else changes.
   */
  function EditedAt(s: seq<Todo>, id: string, answer: Option<string>): (r: seq<Todo>)
    ensures |r| == |s|
    ensures FindIndex(s, id).None? || answer.None? || Trim(answer.value) == [] ==> r == s
    ensures forall j :: 0 <= j < |s| && r[j] != s[j] ==>
      FindIndex(s, id) == Some(j) && answer.Some? && r[j] == s[j].(text := Trim(answer.value))
    ensures forall j :: 0 <= j < |s| ==> r[j] == s[j].(text := r[j].text)
    ensures FindIndex(s, id).Some? && answer.Some? && Trim(answer.value) != [] ==>
      r[FindIndex(s, id).value] == s[FindIndex(s, id).value].(text := Trim(answer.value))
  {
    match FindIndex(s, id)
    case None => s
    case Some(i) =>
      if answer.Some? && Trim(answer.value) != [] then
        s[i := s[i].(text := Trim(answer.value))]
      else
        s
  }

  /** Editing keeps the store's invariants: the new text is trimmed and not empty. */
  lemma EditedAtValid(s: seq<Todo>, id: string, answer: Option<string>)
    requires ValidTodos(s)
    ensures ValidTodos(EditedAt(s, id, answer))
  {
    var r := EditedAt(s, id, answer);
    forall j | 0 <= j < |r|
      ensures r[j].id == s[j].id && TidyText(r[j]) && WellFormed(r[j])
    {
    }
    forall i, j | 0 <= i < j < |r|
      ensures r[i].id != r[j].id
    {
      assert s[i].id != s[j].id;
    }
  }

  /** With unique ids, deleting an id that is present removes exactly one record. */
  lemma {:induction false} DeleteRemovesOne(s: seq<Todo>, id: string)
    requires UniqueIds(s) && HasId(s, id)
    ensures |Select(s, IdIsNot(id))| == |s| - 1
  {
    if s[0].id == id {
      assert forall j :: 0 < j < |s| ==> s[j].id != id;
      assert |Select(s[1..], IdIsNot(id))| == |s[1..]|;
    } else {
      assert HasId(s[1..], id) by {
        var k :| 0 <= k < |s| && s[k].id == id;
        assert s[1..][k - 1].id == id;
      }
      DeleteRemovesOne(s[1..], id);
    }
  }

  lemma SelectKeepsValid(s: seq<Todo>, c: Criterion)
    requires ValidTodos(s)
    ensures ValidTodos(Select(s, c))
  {
    SelectKeepsUniqueIds(s, c);
    var r := Select(s, c);
    assert forall j :: 0 <= j < |r| ==> r[j] in s;
  }

  /** How `clearCompleted` and `clearAll` ended. */
  datatype Removal =
    | NothingToRemove   // returned early with an info notice, no dialog
    | Declined          // the dialog was cancelled
    | Removed(count: nat)

  class TodoApp {
    var todos: seq<Todo>
    var currentFilter: StatusFilter
    var currentPriorityFilter: Option<Priority>

    ghost predicate Valid()
      reads this
    {
      ValidTodos(todos)
    }

    /** The constructor: the stored collection, filter 'all', no priority filter. */
    constructor (saved: Option<string>, parse: string -> Option<seq<Todo>>)
      ensures todos == LoadTodos(saved, parse)
      ensures currentFilter == All && currentPriorityFilter == None
      ensures (saved.Some? && parse(saved.value).Some? ==> ValidTodos(parse(saved.value).value)) ==> Valid()
    {
      LoadTodosValid(saved, parse);
      todos := LoadTodos(saved, parse);
      currentFilter := All;
      currentPriorityFilter := None;
    }

    /** `addTodo`: a blank input changes nothing; otherwise the new record goes in front. */
    method AddTodo(input: string, priority: Priority, freshId: string, now: int) returns (added: bool)
      requires !HasId(todos, freshId)
      modifies this
      ensures added <==> !AllWhitespace(input)
      ensures todos == if added then [NewTodo(freshId, Trim(input), priority, now)] + old(todos) else old(todos)
      ensures currentFilter == old(currentFilter) && currentPriorityFilter == old(currentPriorityFilter)
      ensures old(Valid()) ==> Valid()
    {
      var text := Trim(input);
      if text == [] {
        return false;
      }
      var todo := NewTodo(freshId, text, priority, now);
      ghost var before := todos;
      todos := [todo] + todos;
      assert forall j :: 0 < j < |todos| ==> todos[j] == before[j - 1];
      added := true;
    }

    /** `toggleTodo`: an unknown id is a no-op. */
    method ToggleTodo(id: string, now: int)
      modifies this
      ensures todos == ToggledAt(old(todos), id, now)
      ensures !HasId(old(todos), id) ==> todos == old(todos)
      ensures currentFilter == old(currentFilter) && currentPriorityFilter == old(currentPriorityFilter)
      ensures old(Valid()) ==> Valid()
    {
      var i := FindIndex(todos, id);
      if i.Some? {
        if Valid() {
          ToggledAtValid(todos, id, now);
        }
        todos := ToggledAt(todos, id, now);
      }
    }

    /**
     * `deleteTodo`: asks only when the id is present, and once confirmed
     * removes every record with that id, keeping the others in order.
     */
    method DeleteTodo(id: string, confirmed: bool) returns (asked: bool)
      modifies this
      ensures asked <==> HasId(old(todos), id)
      ensures todos == if asked && confirmed then Select(old(todos), IdIsNot(id)) else old(todos)
      ensures IsSubsequence(todos, old(todos))
      ensures currentFilter == old(currentFilter) && currentPriorityFilter == old(currentPriorityFilter)
      ensures old(Valid()) ==> Valid()
      ensures old(Valid()) && asked && confirmed ==> |todos| == |old(todos)| - 1
    {
      asked := FindIndex(todos, id).Some?;
      SubsequenceReflexive(todos);
      if !asked {
        return;
      }
      if confirmed {
        SelectIsSubsequence(todos, IdIsNot(id));
        if Valid() {
          SelectKeepsValid(todos, IdIsNot(id));
          DeleteRemovesOne(todos, id);
        }
        todos := Select(todos, IdIsNot(id));
      }
    }

    /** `editTodo`: asks only when the id is present, then applies a non-blank answer, trimmed. */
    method EditTodo(id: string, answer: Option<string>) returns (asked: bool)
      modifies this
      ensures asked <==> HasId(old(todos), id)
      ensures todos == EditedAt(old(todos), id, answer)
      ensures currentFilter == old(currentFilter) && currentPriorityFilter == old(currentPriorityFilter)
      ensures old(Valid()) ==> Valid()
    {
      asked := FindIndex(todos, id).Some?;
      if !asked {
        return;
      }
      if Valid() {
        EditedAtValid(todos, id, answer);
      }
      todos := EditedAt(todos, id, answer);
    }

    /** `setFilter`. */
    method SetFilter(filter: StatusFilter)
      modifies this
      ensures currentFilter == filter
      ensures todos == old(todos) && currentPriorityFilter == old(currentPriorityFilter)
    {
      currentFilter := filter;
    }

    /** `setPriorityFilter`: choosing the active priority again clears it. */
    method SetPriorityFilter(priority: Priority)
      modifies this
      ensures currentPriorityFilter == NextPriorityFilter(old(currentPriorityFilter), priority)
      ensures todos == old(todos) && currentFilter == old(currentFilter)
    {
      if currentPriorityFilter == Some(priority) {
        currentPriorityFilter := None;
      } else {
        currentPriorityFilter := Some(priority);
      }
    }

    /**
     * `clearCompleted`: with nothing completed it returns before asking;
     * once confirmed only the pending records stay, in order.
     */
    method ClearCompleted(confirmed: bool) returns (outcome: Removal)
      modifies this
      ensures outcome == NothingToRemove <==> Select(old(todos), IsCompleted) == []
      ensures outcome == Declined <==> Select(old(todos), IsCompleted) != [] && !confirmed
      ensures outcome.Removed? ==> outcome.count == |Select(old(todos), IsCompleted)| > 0
      ensures todos == if outcome.Removed? then Select(old(todos), IsPending) else old(todos)
      ensures |todos| == |old(todos)| - (if outcome.Removed? then outcome.count else 0)
      ensures currentFilter == old(currentFilter) && currentPriorityFilter == old(currentPriorityFilter)
      ensures old(Valid()) ==> Valid()
    {
      var completedCount := |Select(todos, IsCompleted)|;
      if completedCount == 0 {
        return NothingToRemove;
      }
      if !confirmed {
        return Declined;
      }
      PendingAndCompletedSplit(todos);
      if Valid() {
        SelectKeepsValid(todos, IsPending);
      }
      todos := Select(todos, IsPending);
      outcome := Removed(completedCount);
    }

    /** `clearAll`: with an empty list it returns before asking; once confirmed the list is empty. */
    method ClearAll(confirmed: bool) returns (outcome: Removal)
      modifies this
      ensures outcome == NothingToRemove <==> old(todos) == []
      ensures outcome == Declined <==> old(todos) != [] && !confirmed
      ensures outcome.Removed? ==> outcome.count == |old(todos)| > 0
      ensures todos == if outcome.Removed? then [] else old(todos)
      ensures currentFilter == old(currentFilter) && currentPriorityFilter == old(currentPriorityFilter)
      ensures old(Valid()) ==> Valid()
    {
      if |todos| == 0 {
        return NothingToRemove;
      }
      if !confirmed {
        return Declined;
      }
      outcome := Removed(|todos|);
      todos := [];
    }

    /**
     * The list `render` shows: the filtered records, each as often as it is
     * stored, sorted for display. `this.todos` itself is not reordered.
     */
    method Render() returns (shown: seq<Todo>)
      ensures multiset(shown) == multiset(GetFilteredTodos(todos, currentFilter, currentPriorityFilter))
      ensures forall t :: t in shown <==>
        t in todos && StatusMatches(t, currentFilter) && PriorityMatches(t, currentPriorityFilter)
      ensures forall i, j :: 0 <= i < j < |shown| ==> ShownBefore(shown[i], shown[j])
    {
      var filtered := GetFilteredTodos(todos, currentFilter, currentPriorityFilter);
      shown := SortForDisplay(filtered);
      assert forall t :: t in shown <==> t in multiset(filtered);
    }

    /** `updateStats`: the three counters of the list page. */
    method UpdateStats() returns (total: nat, pending: nat, completed: nat)
      ensures total == |todos|
      ensures completed == |Select(todos, IsCompleted)|
      ensures pending == |Select(todos, IsPending)| == total - completed
    {
      total := |todos|;
      completed := |Select(todos, IsCompleted)|;
      PendingAndCompletedSplit(todos);
      pending := total - completed;
    }
  }
}
