/**
 * The todo record held in `TodoApp.todos` and the facts about a collection
 * of them that the store keeps: well-formed completion stamps, unique ids.
 *
 * Timestamps are integer milliseconds of local wall-clock time, so the
 * calendar day of a timestamp is its floor division by the length of a day.
 */
module Todos {
  import opened Wrappers
  import opened Text

  datatype Priority = High | Medium | Low

  /** `priorityOrder` of the display sort: high 3, medium 2, low 1. */
  function Rank(p: Priority): (r: int)
    ensures 1 <= r <= 3
  {
    match p
    case High => 3
    case Medium => 2
    case Low => 1
  }

  /** One record `{id, text, completed, priority, createdAt, completedAt}`. */
  datatype Todo = Todo(
    id: string,
    text: string,
    completed: bool,
    priority: Priority,
    createdAt: int,
    completedAt: Option<int>)

  const MsPerDay: int := 86_400_000

  /** The local calendar day (day number since the epoch) a timestamp falls on. */
  function DayOf(ts: int): int {
    ts / MsPerDay
  }

  /** `date.setHours(0, 0, 0, 0)`: the midnight that starts the timestamp's day. */
  function StartOfDay(ts: int): (r: int)
    ensures r % MsPerDay == 0
    ensures r <= ts < r + MsPerDay
    ensures DayOf(r) == DayOf(ts)
  {
    DayOf(ts) * MsPerDay
  }

  /** `date.setHours(23, 59, 59, 999)`: the last millisecond of the timestamp's day. */
  function EndOfDay(ts: int): (r: int)
    ensures r % MsPerDay == MsPerDay - 1
    ensures r - MsPerDay < ts <= r
    ensures DayOf(r) == DayOf(ts)
  {
    StartOfDay(ts) + MsPerDay - 1
  }

  /** `completedAt` is set exactly when the record is completed. */
  predicate WellFormed(t: Todo) {
    t.completed <==> t.completedAt.Some?
  }

  /** The text is what `addTodo` and `editTodo` store: not empty, no whitespace at either end. */
  predicate TidyText(t: Todo) {
    t.text != [] && !IsJsWhitespace(t.text[0]) && !IsJsWhitespace(t.text[|t.text| - 1])
  }

  /** A tidy text is exactly a non-empty text that `trim` leaves as it is. */
  lemma TidyTextIsTrimmed(t: Todo)
    ensures TidyText(t) <==> t.text != [] && Trim(t.text) == t.text
  {
    if TidyText(t) {
      assert TrimStart(t.text) == t.text;
      assert TrimEnd(t.text) == t.text;
    }
  }

  predicate UniqueIds(s: seq<Todo>) {
    forall i, j :: 0 <= i < j < |s| ==> s[i].id != s[j].id
  }

  predicate HasId(s: seq<Todo>, id: string) {
    exists i :: 0 <= i < |s| && s[i].id == id
  }

  /** Index of the record `todos.find(t => t.id === id)` returns: the first with that id. */
  function FindIndex(s: seq<Todo>, id: string): (r: Option<nat>)
    ensures r.None? <==> !HasId(s, id)
    ensures r.Some? ==> r.value < |s| && s[r.value].id == id
    ensures r.Some? ==> forall j :: 0 <= j < r.value ==> s[j].id != id
  {
    if s == [] then None
    else if s[0].id == id then Some(0)
    else match FindIndex(s[1..], id)
      case None => None
      case Some(k) => Some(k + 1)
  }
}
