/**
 * The productivity insights of the statistics page: the streak of
 * consecutive days with a completion (`calculateStreak`), the most
 * completions in one week (`calculateBestWeek`) and the two integers that
 * `calculateAveragePerDay` divides.
 *
 * Days are local day numbers (`DayOf`); weeks start on Sunday. Day 0,
 * 1 January 1970, was a Thursday.
 */
module Insights {
  import opened Wrappers
  import opened Sequences
  import opened Todos
  import opened Query

  /** A record `filter(t => t.completed && t.completedAt)` keeps. */
  predicate HasTime(t: Todo) {
    t.completed && t.completedAt.Some?
  }

  /** `HasTime` is the timeline's criterion `HasCompletionTime`, under the name the insights use. */
  lemma HasTimeIsCompletionCriterion(t: Todo)
    ensures HasTime(t) <==> Matches(t, HasCompletionTime)
  {
  }

  /** Some completed record of `s` was completed on local day `day`. */
  predicate CompletedOn(s: seq<Todo>, day: int) {
    exists t :: t in s && HasTime(t) && DayOf(t.completedAt.value) == day
  }

  /** The records with a completion on or before `day`. */
  function CompletionsUpTo(s: seq<Todo>, day: int): (n: nat)
    ensures n <= |s|
  {
    if s == [] then 0
    else (if HasTime(s[0]) && DayOf(s[0].completedAt.value) <= day then 1 else 0) + CompletionsUpTo(s[1..], day)
  }

  /** Going back one day loses at least one completion when there is one on that day. */
  lemma {:induction false} CompletionsUpToDrops(s: seq<Todo>, day: int)
    ensures CompletionsUpTo(s, day - 1) <= CompletionsUpTo(s, day)
    ensures CompletedOn(s, day) ==> CompletionsUpTo(s, day - 1) < CompletionsUpTo(s, day)
  {
    if s != [] {
      CompletionsUpToDrops(s[1..], day);
      if CompletedOn(s, day) && !(HasTime(s[0]) && DayOf(s[0].completedAt.value) == day) {
        var t :| t in s && HasTime(t) && DayOf(t.completedAt.value) == day;
        assert t in s[1..];
      }
    }
  }

  /** Only records with a completion time count. */
  lemma {:induction false} CompletionsUpToBound(s: seq<Todo>, day: int)
    ensures CompletionsUpTo(s, day) <= |Select(s, HasCompletionTime)|
  {
    if s != [] {
      CompletionsUpToBound(s[1..], day);
    }
  }

  /** Filtering the completed records first finds the same days. */
  lemma CompletedOnSelect(todos: seq<Todo>, day: int)
    ensures CompletedOn(Select(todos, HasCompletionTime), day) <==> CompletedOn(todos, day)
  {
    if CompletedOn(todos, day) {
      var t :| t in todos && HasTime(t) && DayOf(t.completedAt.value) == day;
      assert t in Select(todos, HasCompletionTime);
    }
  }

  /** Where the streak is counted back from: today if something was completed today, else yesterday. */
  function StreakAnchor(todos: seq<Todo>, now: int): int {
    if CompletedOn(todos, DayOf(now)) then DayOf(now) else DayOf(now) - 1
  }

  /** Each of the `n` days up to `anchor` had a completion, and the day before them had none. */
  predicate IsRunBack(todos: seq<Todo>, anchor: int, n: nat) {
    && (forall d :: anchor - n < d <= anchor ==> CompletedOn(todos, d))
    && !CompletedOn(todos, anchor - n)
  }

  /**
   * `calculateStreak`: the run of consecutive days with a completion that
   * ends today, or yesterday when nothing was completed today. The result
   * is the exact length of that run, so it is 0 exactly when nothing was
   * completed today or yesterday.
   */
  method CalculateStreak(todos: seq<Todo>, now: int) returns (streak: nat)
    ensures IsRunBack(todos, StreakAnchor(todos, now), streak)
    ensures streak == 0 <==> !CompletedOn(todos, DayOf(now)) && !CompletedOn(todos, DayOf(now) - 1)
    ensures streak <= |Select(todos, HasCompletionTime)|
  {
    var done := Select(todos, HasCompletionTime);
    var today := DayOf(now);
    var yesterday := today - 1;
    CompletedOnSelect(todos, today);
    CompletedOnSelect(todos, yesterday);
    RunBackSelect(todos, StreakAnchor(todos, now));
    if |done| == 0 {
      return 0;
    }
    var checkDate: int;
    if CompletedOn(done, today) {
      checkDate := today;
    } else if CompletedOn(done, yesterday) {
      checkDate := yesterday;
    } else {
      return 0;
    }
    streak := CountBack(done, checkDate);
    CompletionsUpToBound(done, checkDate);
    SelectIdempotentCount(todos);
  }

  /** The `while (checkDate)` loop: counts back from `start` while each day had a completion. */
  method CountBack(done: seq<Todo>, start: int) returns (streak: nat)
    ensures IsRunBack(done, start, streak)
    ensures streak <= CompletionsUpTo(done, start)
    ensures streak == 0 <==> !CompletedOn(done, start)
  {
    var checkDate := start;
    streak := 0;
    while CompletedOn(done, checkDate)
      invariant checkDate == start - streak
      invariant forall d :: start - streak < d <= start ==> CompletedOn(done, d)
      invariant streak + CompletionsUpTo(done, checkDate) <= CompletionsUpTo(done, start)
      decreases CompletionsUpTo(done, checkDate)
    {
      CompletionsUpToDrops(done, checkDate);
      streak := streak + 1;
      checkDate := checkDate - 1;
    }
  }

  /** A run of completion days is the same run in the filtered list. */
  lemma RunBackSelect(todos: seq<Todo>, anchor: int)
    ensures forall n: nat :: IsRunBack(Select(todos, HasCompletionTime), anchor, n) <==> IsRunBack(todos, anchor, n)
  {
    forall d ensures CompletedOn(Select(todos, HasCompletionTime), d) <==> CompletedOn(todos, d) {
      CompletedOnSelect(todos, d);
    }
  }

  lemma SelectIdempotentCount(todos: seq<Todo>)
    ensures |Select(Select(todos, HasCompletionTime), HasCompletionTime)| == |Select(todos, HasCompletionTime)|
  {
    var done := Select(todos, HasCompletionTime);
    assert forall i :: 0 <= i < |done| ==> Matches(done[i], HasCompletionTime);
  }

  /** Day of the week, 0 for Sunday (`Date.getDay`). */
  function Weekday(day: int): (w: int)
    ensures 0 <= w < 7
  {
    (day + 4) % 7
  }

  /** The Sunday that starts the week of `ts`, as a day number: the week key. */
  function WeekStart(ts: int): int {
    DayOf(ts) - Weekday(DayOf(ts))
  }

  /** The week key is a Sunday within the six days before the day itself. */
  lemma WeekStartFacts(ts: int)
    ensures Weekday(WeekStart(ts)) == 0
    ensures WeekStart(ts) <= DayOf(ts) < WeekStart(ts) + 7
  {
  }

  predicate InWeek(t: Todo, week: int) {
    HasTime(t) && WeekStart(t.completedAt.value) == week
  }

  /** `weekCounts[week]` for the records in `s`. */
  function CountInWeek(s: seq<Todo>, week: int): (n: nat)
    ensures n <= |s|
  {
    if s == [] then 0 else (if InWeek(s[0], week) then 1 else 0) + CountInWeek(s[1..], week)
  }

  lemma {:induction false} CountInWeekSnoc(s: seq<Todo>, t: Todo, week: int)
    ensures CountInWeek(s + [t], week) == CountInWeek(s, week) + (if InWeek(t, week) then 1 else 0)
  {
    if s != [] {
      assert (s + [t])[1..] == s[1..] + [t];
      CountInWeekSnoc(s[1..], t, week);
    } else {
      assert s + [t] == [t];
    }
  }

  /** Extending a prefix of completed records by one adds one to that record's week only. */
  lemma CountInWeekPrefix(done: seq<Todo>, i: nat)
    requires i < |done| && HasTime(done[i])
    ensures var key := WeekStart(done[i].completedAt.value);
      forall week :: CountInWeek(done[..i + 1], week) == CountInWeek(done[..i], week) + (if week == key then 1 else 0)
  {
    assert done[..i + 1] == done[..i] + [done[i]];
    var key := WeekStart(done[i].completedAt.value);
    forall week
      ensures CountInWeek(done[..i + 1], week) == CountInWeek(done[..i], week) + (if week == key then 1 else 0)
    {
      CountInWeekSnoc(done[..i], done[i], week);
    }
  }

  /** Dropping the records without a completion time changes no week's count. */
  lemma {:induction false} CountInWeekSelect(s: seq<Todo>, week: int)
    ensures CountInWeek(Select(s, HasCompletionTime), week) == CountInWeek(s, week)
  {
    if s != [] {
      CountInWeekSelect(s[1..], week);
    }
  }

  /** No week holds more than all the completions. */
  lemma {:induction false} CountInWeekBound(s: seq<Todo>, week: int)
    ensures CountInWeek(s, week) <= |Select(s, HasCompletionTime)|
  {
    if s != [] {
      CountInWeekBound(s[1..], week);
    }
  }

  /**
   * `calculateBestWeek`: the largest number of completions in one week
   * (Sunday to Saturday), or 0 without completions.
   */
  method CalculateBestWeek(todos: seq<Todo>) returns (best: nat)
    ensures best == 0 <==> Select(todos, HasCompletionTime) == []
    ensures forall week :: CountInWeek(todos, week) <= best
    ensures best > 0 ==> exists week :: CountInWeek(todos, week) == best
    ensures best <= |Select(todos, HasCompletionTime)|
  {
    var done := Select(todos, HasCompletionTime);
    forall week ensures CountInWeek(done, week) == CountInWeek(todos, week) {
      CountInWeekSelect(todos, week);
    }
    if |done| == 0 {
      return 0;
    }
    assert forall i :: 0 <= i < |done| ==> HasTime(done[i]) by {
      assert forall i :: 0 <= i < |done| ==> Matches(done[i], HasCompletionTime);
    }
    var weekCounts, weekOrder := TallyWeeks(done);
    best := MaxCount(weekCounts, weekOrder);
    var first := WeekStart(done[0].completedAt.value);
    assert CountInWeek(done, first) > 0;
    assert first in weekOrder;
    var k :| 0 <= k < |weekOrder| && weekCounts[weekOrder[k]] == best;
    CountInWeekBound(todos, weekOrder[k]);
  }

  /** Each key is listed once. */
  predicate Distinct(keys: seq<int>) {
    forall i, j :: 0 <= i < j < |keys| ==> keys[i] != keys[j]
  }

  /** The sum of the counts of the listed keys. */
  function SumCounts(counts: map<int, nat>, keys: seq<int>): nat
    requires forall i :: 0 <= i < |keys| ==> keys[i] in counts
  {
    if keys == [] then 0 else counts[keys[0]] + SumCounts(counts, keys[1..])
  }

  /** Changing the count of an unlisted key does not change the sum. */
  lemma {:induction false} SumCountsOther(counts: map<int, nat>, keys: seq<int>, k: int, v: nat)
    requires forall i :: 0 <= i < |keys| ==> keys[i] in counts
    requires k !in keys
    ensures SumCounts(counts[k := v], keys) == SumCounts(counts, keys)
  {
    if keys != [] {
      SumCountsOther(counts, keys[1..], k, v);
    }
  }

  /** Adding one to the count of a key listed once adds one to the sum. */
  lemma {:induction false} SumCountsBump(counts: map<int, nat>, keys: seq<int>, k: int)
    requires forall i :: 0 <= i < |keys| ==> keys[i] in counts
    requires Distinct(keys) && k in keys
    ensures SumCounts(counts[k := counts[k] + 1], keys) == SumCounts(counts, keys) + 1
  {
    if keys[0] == k {
      assert k !in keys[1..];
      SumCountsOther(counts, keys[1..], k, counts[k] + 1);
    } else {
      SumCountsBump(counts, keys[1..], k);
    }
  }

  /** Listing one more key adds its count. */
  lemma {:induction false} SumCountsSnoc(counts: map<int, nat>, keys: seq<int>, k: int)
    requires forall i :: 0 <= i < |keys| ==> keys[i] in counts
    requires k in counts
    ensures SumCounts(counts, keys + [k]) == SumCounts(counts, keys) + counts[k]
  {
    if keys == [] {
      assert keys + [k] == [k];
    } else {
      assert (keys + [k])[1..] == keys[1..] + [k];
      SumCountsSnoc(counts, keys[1..], k);
    }
  }

  /** One step of the tally keeps every key listed once and adds one to the sum. */
  lemma TallyStep(counts: map<int, nat>, order: seq<int>, k: int)
    requires forall i :: 0 <= i < |order| ==> order[i] in counts
    requires forall week :: week in counts <==> week in order
    requires Distinct(order)
    ensures k in counts ==> SumCounts(counts[k := counts[k] + 1], order) == SumCounts(counts, order) + 1
    ensures k !in counts ==> Distinct(order + [k])
    ensures k !in counts ==> SumCounts(counts[k := 1], order + [k]) == SumCounts(counts, order) + 1
  {
    if k in counts {
      SumCountsBump(counts, order, k);
    } else {
      SumCountsOther(counts, order, k, 1);
      SumCountsSnoc(counts[k := 1], order, k);
    }
  }

  /**
   * The `forEach` that fills `weekCounts`: afterwards each week key holds
   * the number of records completed in that week, `order` lists every key
   * once, as the object keeps them, and the counts add up to the number of
   * records.
   */
  method TallyWeeks(done: seq<Todo>) returns (counts: map<int, nat>, order: seq<int>)
    requires forall i :: 0 <= i < |done| ==> HasTime(done[i])
    ensures forall week :: week in counts <==> CountInWeek(done, week) > 0
    ensures forall week :: week in counts ==> counts[week] == CountInWeek(done, week)
    ensures forall week :: week in counts <==> week in order
    ensures forall i :: 0 <= i < |order| ==> order[i] in counts
    ensures Distinct(order)
    ensures SumCounts(counts, order) == |done|
  {
    counts := map[];
    order := [];
    for i := 0 to |done|
      invariant Tallied(done[..i], counts, order)
    {
      var weekKey := WeekStart(done[i].completedAt.value);
      TallyKeeps(done, i, counts, order);
      if weekKey in counts {
        counts := counts[weekKey := counts[weekKey] + 1];
      } else {
        counts := counts[weekKey := 1];
        order := order + [weekKey];
      }
    }
    assert done[..|done|] == done;
  }

  /** The loop invariant of the tally: `counts` and `order` describe the records of `s`. */
  ghost predicate Tallied(s: seq<Todo>, counts: map<int, nat>, order: seq<int>) {
    && (forall week :: week in counts <==> CountInWeek(s, week) > 0)
    && (forall week :: week in counts ==> counts[week] == CountInWeek(s, week))
    && (forall week :: week in counts <==> week in order)
    && (forall i :: 0 <= i < |order| ==> order[i] in counts)
    && Distinct(order)
    && SumCounts(counts, order) == |s|
  }

  /** Counting one more record in its week keeps the invariant. */
  lemma TallyKeeps(done: seq<Todo>, i: nat, counts: map<int, nat>, order: seq<int>)
    requires i < |done| && HasTime(done[i])
    requires Tallied(done[..i], counts, order)
    ensures var k := WeekStart(done[i].completedAt.value);
      k in counts ==> Tallied(done[..i + 1], counts[k := counts[k] + 1], order)
    ensures var k := WeekStart(done[i].completedAt.value);
      k !in counts ==> Tallied(done[..i + 1], counts[k := 1], order + [k])
  {
    var k := WeekStart(done[i].completedAt.value);
    CountInWeekPrefix(done, i);
    TallyStep(counts, order, k);
  }

  /** `Math.max(...Object.values(weekCounts))`, visiting the keys in order; 0 when there are none. */
  method MaxCount(counts: map<int, nat>, order: seq<int>) returns (best: nat)
    requires forall i :: 0 <= i < |order| ==> order[i] in counts
    ensures forall i :: 0 <= i < |order| ==> counts[order[i]] <= best
    ensures |order| > 0 ==> exists i :: 0 <= i < |order| && counts[order[i]] == best
    ensures |order| == 0 ==> best == 0
  {
    best := 0;
    for j := 0 to |order|
      invariant forall i :: 0 <= i < j ==> counts[order[i]] <= best
      invariant j > 0 ==> exists i :: 0 <= i < j && counts[order[i]] == best
      invariant j == 0 ==> best == 0
    {
      if j == 0 || counts[order[j]] > best {
        best := counts[order[j]];
      }
    }
  }

  /** `Math.min(...completedTodos.map(t => new Date(t.completedAt)))`: the earliest completion time. */
  function OldestCompletion(done: seq<Todo>): (r: int)
    requires done != [] && forall i :: 0 <= i < |done| ==> done[i].completedAt.Some?
    ensures exists i :: 0 <= i < |done| && done[i].completedAt.value == r
    ensures forall i :: 0 <= i < |done| ==> r <= done[i].completedAt.value
  {
    if |done| == 1 then done[0].completedAt.value
    else Min(done[0].completedAt.value, OldestCompletion(done[1..]))
  }

  /** `Math.ceil(a / b)` for a positive divisor. */
  function CeilDiv(a: int, b: int): (q: int)
    requires b > 0
    ensures (q - 1) * b < a <= q * b
  {
    -((-a) / b)
  }

  /** The fraction `completedTodos.length / daysDiff`, kept as two integers. */
  datatype Rate = Rate(completions: nat, days: int)

  /**
   * `calculateAveragePerDay` up to the final division: the number of
   * completions over the whole days, rounded up and at least one, between
   * the oldest completion and `now`. Without completions the average is 0.
   */
  function AveragePerDay(todos: seq<Todo>, now: int): (r: Rate)
    ensures r.completions == |Select(todos, HasCompletionTime)|
    ensures r.days >= 1
    ensures r.completions == 0 ==> r.days == 1
    ensures r.completions > 0 ==>
      var span := now - OldestCompletion(Select(todos, HasCompletionTime));
      && (r.days == 1 <==> span <= MsPerDay)
      && (r.days > 1 ==> (r.days - 1) * MsPerDay < span <= r.days * MsPerDay)
  {
    var done := Select(todos, HasCompletionTime);
    if |done| == 0 then Rate(0, 1)
    else
      var span := now - OldestCompletion(done);
      var days := CeilDiv(span, MsPerDay);
      if days >= 1 then Rate(|done|, days) else Rate(|done|, 1)
  }
}
