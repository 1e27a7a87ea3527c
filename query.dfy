/**
 * The query engine: the `Array.filter` tests used by `getFilteredTodos`,
 * `applyDropdownFilters`, `performNavSearch` and the store's removals,
 * the priority-filter toggle, and the comparator `render` sorts with.
 * Every query works on a copy and returns a new sequence.
 */
module Query {
  import opened Wrappers
  import opened Text
  import opened Sequences
  import opened Todos

  /** `currentFilter`: 'all', 'pending' or 'completed'. */
  datatype StatusFilter = All | Pending | Completed

  /** One test handed to `Array.prototype.filter`. */
  datatype Criterion =
    | IsPending                                         // !t.completed
    | IsCompleted                                       // t.completed
    | HasCompletionTime                                 // t.completed && t.completedAt
    | PriorityIs(priority: Priority)                    // t.priority === p
    | IdIsNot(id: string)                               // t.id !== id
    | CreatedWithin(from: Option<int>, to: Option<int>) // the date-range test
    | TextIncludes(query: string)                       // t.text.toLowerCase().includes(query)

  /**
   * The date-range test as `applyDropdownFilters` writes it: the creation
   * time is moved to midnight, the lower bound to midnight and the upper
   * bound to the last millisecond of its day, and the three are compared.
   */
  predicate DateMatches(createdAt: int, from: Option<int>, to: Option<int>) {
    var todoDate := StartOfDay(createdAt);
    if from.Some? && to.Some? then
      todoDate >= StartOfDay(from.value) && todoDate <= EndOfDay(to.value)
    else if from.Some? then
      todoDate >= StartOfDay(from.value)
    else if to.Some? then
      todoDate <= EndOfDay(to.value)
    else
      true
  }

  /** The calendar day of `createdAt` lies in the inclusive range of days, either bound optional. */
  predicate DayWithin(createdAt: int, from: Option<int>, to: Option<int>) {
    && (from.None? || DayOf(from.value) <= DayOf(createdAt))
    && (to.None? || DayOf(createdAt) <= DayOf(to.value))
  }

  lemma DateMatchesIffDayWithin(createdAt: int, from: Option<int>, to: Option<int>)
    ensures DateMatches(createdAt, from, to) <==> DayWithin(createdAt, from, to)
  {
    if from.Some? {
      StartOfDayOrder(from.value, createdAt);
    }
    if to.Some? {
      StartOfDayOrder(createdAt, to.value);
    }
  }

  lemma DateRangeMeansDays(from: Option<int>, to: Option<int>)
    ensures forall t :: Matches(t, CreatedWithin(from, to)) <==> DayWithin(t.createdAt, from, to)
  {
    forall t: Todo ensures Matches(t, CreatedWithin(from, to)) <==> DayWithin(t.createdAt, from, to) {
      DateMatchesIffDayWithin(t.createdAt, from, to);
    }
  }

  lemma StartOfDayOrder(a: int, b: int)
    ensures StartOfDay(a) <= StartOfDay(b) <==> DayOf(a) <= DayOf(b)
    ensures StartOfDay(a) <= EndOfDay(b) <==> DayOf(a) <= DayOf(b)
  {
  }

  predicate Matches(t: Todo, c: Criterion) {
    match c
    case IsPending => !t.completed
    case IsCompleted => t.completed
    case HasCompletionTime => t.completed && t.completedAt.Some?
    case PriorityIs(p) => t.priority == p
    case IdIsNot(id) => t.id != id
    case CreatedWithin(from, to) => DateMatches(t.createdAt, from, to)
    case TextIncludes(q) => Includes(ToLower(t.text), q)
  }

  /** `s.filter(t => Matches(t, c))`: keeps exactly the matching records, in order. */
  function Select(s: seq<Todo>, c: Criterion): (r: seq<Todo>)
    ensures |r| <= |s|
    ensures forall i :: 0 <= i < |r| ==> Matches(r[i], c)
    ensures forall t :: t in r <==> t in s && Matches(t, c)
    ensures |r| == |s| <==> forall i :: 0 <= i < |s| ==> Matches(s[i], c)
  {
    if s == [] then []
    else
      assert s == [s[0]] + s[1..];
      if Matches(s[0], c) then [s[0]] + Select(s[1..], c) else Select(s[1..], c)
  }

  lemma {:induction false} SelectIsSubsequence(s: seq<Todo>, c: Criterion)
    ensures IsSubsequence(Select(s, c), s)
  {
    if s != [] {
      SelectIsSubsequence(s[1..], c);
    }
  }

  /** The number of records a filter keeps is the count of the records that match. */
  lemma {:induction false} SelectCountsMatches(s: seq<Todo>, c: Criterion)
    ensures |Select(s, c)| == Count(s, (t: Todo) => Matches(t, c))
  {
    if s != [] {
      SelectCountsMatches(s[1..], c);
    }
  }

  /** Two filters applied one after the other give the same result in either order. */
  lemma {:induction false} SelectCommutes(s: seq<Todo>, a: Criterion, b: Criterion)
    ensures Select(Select(s, a), b) == Select(Select(s, b), a)
  {
    if s != [] {
      SelectCommutes(s[1..], a, b);
    }
  }

  /** The pending and the completed records together are the whole collection. */
  lemma {:induction false} PendingAndCompletedSplit(s: seq<Todo>)
    ensures multiset(Select(s, IsPending)) + multiset(Select(s, IsCompleted)) == multiset(s)
    ensures |Select(s, IsPending)| + |Select(s, IsCompleted)| == |s|
  {
    if s != [] {
      PendingAndCompletedSplit(s[1..]);
      assert s == [s[0]] + s[1..];
    }
  }

  lemma {:induction false} SelectKeepsUniqueIds(s: seq<Todo>, c: Criterion)
    requires UniqueIds(s)
    ensures UniqueIds(Select(s, c))
  {
    if s != [] {
      SelectKeepsUniqueIds(s[1..], c);
      var r := Select(s[1..], c);
      assert forall j :: 0 <= j < |r| ==> r[j] in s[1..];
    }
  }

  predicate StatusMatches(t: Todo, f: StatusFilter) {
    match f
    case All => true
    case Pending => !t.completed
    case Completed => t.completed
  }

  predicate PriorityMatches(t: Todo, p: Option<Priority>) {
    p.None? || t.priority == p.value
  }

  /** The status filter of `getFilteredTodos` and `applyDropdownFilters`. */
  function ByStatus(s: seq<Todo>, f: StatusFilter): seq<Todo> {
    match f
    case All => s
    case Pending => Select(s, IsPending)
    case Completed => Select(s, IsCompleted)
  }

  /** The priority filter, skipped when no priority is selected. */
  function ByPriority(s: seq<Todo>, p: Option<Priority>): seq<Todo> {
    if p.Some? then Select(s, PriorityIs(p.value)) else s
  }

  lemma ByStatusFacts(s: seq<Todo>, f: StatusFilter)
    ensures IsSubsequence(ByStatus(s, f), s)
    ensures forall t :: t in ByStatus(s, f) <==> t in s && StatusMatches(t, f)
  {
    match f
    case All => SubsequenceReflexive(s);
    case Pending => SelectIsSubsequence(s, IsPending);
    case Completed => SelectIsSubsequence(s, IsCompleted);
  }

  lemma ByPriorityFacts(s: seq<Todo>, p: Option<Priority>)
    ensures IsSubsequence(ByPriority(s, p), s)
    ensures forall t :: t in ByPriority(s, p) <==> t in s && PriorityMatches(t, p)
  {
    if p.Some? {
      SelectIsSubsequence(s, PriorityIs(p.value));
    } else {
      SubsequenceReflexive(s);
    }
  }

  /** `getFilteredTodos`: the records, in stored order, that pass the status and the priority filter. */
  function GetFilteredTodos(todos: seq<Todo>, status: StatusFilter, priority: Option<Priority>): (r: seq<Todo>)
    ensures IsSubsequence(r, todos)
    ensures forall t :: t in r <==> t in todos && StatusMatches(t, status) && PriorityMatches(t, priority)
  {
    var byStatus := ByStatus(todos, status);
    ByStatusFacts(todos, status);
    ByPriorityFacts(byStatus, priority);
    SubsequenceTransitive(ByPriority(byStatus, priority), byStatus, todos);
    ByPriority(byStatus, priority)
  }

  /**
   * With the same priority filter, the 'pending' and the 'completed' views
   * split the 'all' view: together they hold each record as often as it, and
   * no record is in both.
   */
  lemma StatusViewsPartition(todos: seq<Todo>, priority: Option<Priority>)
    ensures multiset(GetFilteredTodos(todos, Pending, priority)) + multiset(GetFilteredTodos(todos, Completed, priority))
            == multiset(GetFilteredTodos(todos, All, priority))
    ensures |GetFilteredTodos(todos, Pending, priority)| + |GetFilteredTodos(todos, Completed, priority)|
            == |GetFilteredTodos(todos, All, priority)|
    ensures forall t :: !(t in GetFilteredTodos(todos, Pending, priority) && t in GetFilteredTodos(todos, Completed, priority))
  {
    if priority.Some? {
      var p := PriorityIs(priority.value);
      SelectCommutes(todos, IsPending, p);
      SelectCommutes(todos, IsCompleted, p);
      PendingAndCompletedSplit(Select(todos, p));
    } else {
      PendingAndCompletedSplit(todos);
    }
  }

  /** `setPriorityFilter`: choosing the selected priority again clears the filter. */
  function NextPriorityFilter(current: Option<Priority>, chosen: Priority): (r: Option<Priority>)
    ensures r.None? <==> current == Some(chosen)
    ensures r.Some? ==> r.value == chosen
  {
    if current == Some(chosen) then None else Some(chosen)
  }

  /** Choosing a priority twice clears the filter, unless it was that priority to begin with. */
  lemma PriorityFilterTwice(current: Option<Priority>, chosen: Priority)
    ensures NextPriorityFilter(NextPriorityFilter(current, chosen), chosen)
            == if current == Some(chosen) then current else None
  {
  }

  /**
   * `applyDropdownFilters`: status, then priority, then the date range when
   * either bound is set. This view is rendered in stored order, unsorted.
   */
  function DropdownFilter(todos: seq<Todo>, status: StatusFilter, priority: Option<Priority>,
                          from: Option<int>, to: Option<int>): (r: seq<Todo>)
    ensures IsSubsequence(r, todos)
    ensures forall t :: t in r <==>
      t in todos && StatusMatches(t, status) && PriorityMatches(t, priority) && DayWithin(t.createdAt, from, to)
  {
    var filtered := GetFilteredTodos(todos, status, priority);
    if from.Some? || to.Some? then
      var r := Select(filtered, CreatedWithin(from, to));
      SelectIsSubsequence(filtered, CreatedWithin(from, to));
      SubsequenceTransitive(r, filtered, todos);
      DateRangeMeansDays(from, to);
      r
    else
      filtered
  }

  /** The search query: the input trimmed and lower-cased. */
  function SearchQuery(input: string): string {
    ToLower(Trim(input))
  }

  /**
   * The search of the navigation bar: nothing for a blank query, otherwise
   * the records whose lower-cased text contains the query, in stored order.
   */
  function NavSearch(todos: seq<Todo>, input: string): (r: seq<Todo>)
    ensures IsSubsequence(r, todos)
    ensures forall t :: t in r <==>
      SearchQuery(input) != [] && t in todos && Includes(ToLower(t.text), SearchQuery(input))
  {
    var query := SearchQuery(input);
    if |query| > 0 then
      SelectIsSubsequence(todos, TextIncludes(query));
      Select(todos, TextIncludes(query))
    else
      []
  }

  lemma LowerCharKeepsWhitespace(c: char)
    ensures IsJsWhitespace(LowerChar(c)) <==> IsJsWhitespace(c)
  {
  }

  lemma {:induction false} LeadingWhitespaceToLower(s: string)
    ensures LeadingWhitespace(ToLower(s)) == LeadingWhitespace(s)
  {
    if s != [] {
      LowerCharKeepsWhitespace(s[0]);
      ToLowerSlices(s, 1);
      LeadingWhitespaceToLower(s[1..]);
    }
  }

  lemma {:induction false} TrailingWhitespaceToLower(s: string)
    ensures TrailingWhitespace(ToLower(s)) == TrailingWhitespace(s)
    decreases |s|
  {
    if s != [] {
      var n := |s| - 1;
      LowerCharKeepsWhitespace(s[n]);
      ToLowerSlices(s, n);
      TrailingWhitespaceToLower(s[..n]);
    }
  }

  lemma TrimStartToLower(s: string)
    ensures TrimStart(ToLower(s)) == ToLower(TrimStart(s))
  {
    LeadingWhitespaceToLower(s);
    ToLowerSlices(s, LeadingWhitespace(s));
  }

  lemma TrimEndToLower(s: string)
    ensures TrimEnd(ToLower(s)) == ToLower(TrimEnd(s))
  {
    TrailingWhitespaceToLower(s);
    ToLowerSlices(s, |s| - TrailingWhitespace(s));
  }

  /** Lower-casing the typed query first finds the same records: the search ignores case. */
  lemma NavSearchIgnoresCase(todos: seq<Todo>, input: string)
    ensures NavSearch(todos, ToLower(input)) == NavSearch(todos, input)
  {
    TrimStartToLower(input);
    TrimEndToLower(TrimStart(input));
    ToLowerIdempotent(Trim(input));
    assert SearchQuery(ToLower(input)) == SearchQuery(input);
  }

  /** The comparator of `render`, returning the same numbers. */
  function Compare(a: Todo, b: Todo): int {
    if a.completed != b.completed then
      (if a.completed then 1 else -1)
    else if Rank(a.priority) != Rank(b.priority) then
      Rank(b.priority) - Rank(a.priority)
    else
      b.createdAt - a.createdAt
  }

  /** `a` may be shown before `b`: the comparator does not ask to swap them. */
  predicate DisplayLe(a: Todo, b: Todo) {
    Compare(a, b) <= 0
  }

  /** The display order in words: pending first, then higher priority, then newer first. */
  predicate ShownBefore(a: Todo, b: Todo) {
    || (!a.completed && b.completed)
    || (a.completed == b.completed && Rank(a.priority) > Rank(b.priority))
    || (a.completed == b.completed && a.priority == b.priority && a.createdAt >= b.createdAt)
  }

  lemma DisplayLeIsShownBefore(a: Todo, b: Todo)
    ensures DisplayLe(a, b) <==> ShownBefore(a, b)
  {
  }

  lemma DisplayLeIsTotalPreorder()
    ensures TotalPreorder(DisplayLe)
  {
  }

  /** The list `render` shows: a copy sorted with the comparator. */
  function SortForDisplay(s: seq<Todo>): (r: seq<Todo>)
    ensures multiset(r) == multiset(s)
    ensures forall i, j :: 0 <= i < j < |r| ==> ShownBefore(r[i], r[j])
  {
    DisplayLeIsTotalPreorder();
    SortBySorted(s, DisplayLe);
    var r := SortBy(s, DisplayLe);
    assert forall i, j :: 0 <= i < j < |r| ==> DisplayLe(r[i], r[j]);
    r
  }

  lemma SortForDisplayIdempotent(s: seq<Todo>)
    ensures SortForDisplay(SortForDisplay(s)) == SortForDisplay(s)
  {
    DisplayLeIsTotalPreorder();
    SortBySorted(s, DisplayLe);
    SortByIdempotent(SortForDisplay(s), DisplayLe);
  }

  /** Stored as [B, C, A], the pending high A and medium C are shown before the completed low B. */
  lemma DisplayExample(a: Todo, b: Todo, c: Todo)
    requires !a.completed && a.priority == High
    requires b.completed && b.priority == Low
    requires !c.completed && c.priority == Medium
    ensures SortForDisplay([b, c, a]) == [a, c, b]
  {
    assert !DisplayLe(b, a) && !DisplayLe(b, c) && !DisplayLe(c, a);
    calc {
      SortBy([b, c, a], DisplayLe);
      { assert [b, c, a][1..] == [c, a]; }
      Insert(b, SortBy([c, a], DisplayLe), DisplayLe);
      { assert [c, a][1..] == [a]; assert SortBy([a], DisplayLe) == [a]; }
      Insert(b, Insert(c, [a], DisplayLe), DisplayLe);
      Insert(b, [a, c], DisplayLe);
      { assert [a, c][1..] == [c]; }
      [a] + Insert(b, [c], DisplayLe);
      [a, c, b];
    }
  }
}
