/**
 * The statistics page: the overview counters, the progress percentage, the
 * priority breakdown (`updateStatisticsData`) and the activity timeline
 * (`updateActivityTimeline`).
 */
module Statistics {
  import opened Wrappers
  import opened Sequences
  import opened Todos
  import opened Query

  /**
   * `Math.round((completed / total) * 100)`, or 0 without records, computed
   * exactly: rounding half up of 100 * completed / total.
   */
  function Percentage(completed: nat, total: nat): (r: nat)
    ensures total == 0 ==> r == 0
    ensures total > 0 ==> 2 * r * total <= 200 * completed + total < 2 * (r + 1) * total
    ensures completed <= total ==> r <= 100
    ensures total > 0 ==> (r == 0 <==> 200 * completed < total)
    ensures 0 < completed == total ==> r == 100
  {
    if total == 0 then 0
    else
      var r := (200 * completed + total) / (2 * total);
      PercentageBounds(completed, total, r);
      r
  }

  lemma PercentageBounds(completed: nat, total: nat, r: nat)
    requires total > 0 && r == (200 * completed + total) / (2 * total)
    ensures 2 * r * total <= 200 * completed + total < 2 * (r + 1) * total
    ensures completed <= total ==> r <= 100
    ensures r == 0 <==> 200 * completed < total
    ensures completed == total ==> r == 100
  {
    var d := 2 * total;
    var n := 200 * completed + total;
    DivBounds(n, d);
    assert 2 * r * total == d * r;
    assert 2 * (r + 1) * total == d * r + d;
    if completed <= total {
      assert n < d * 101;
      BelowProduct(d, r, 101);
    }
    if 200 * completed < total {
      assert n < d * 1;
      BelowProduct(d, r, 1);
    }
    if completed == total {
      assert d * 100 <= n;
      BelowProduct(d, 99, r);
    }
  }

  /** Euclidean division by a positive divisor rounds down. */
  lemma DivBounds(n: nat, d: nat)
    requires d > 0
    ensures d * (n / d) <= n < d * (n / d) + d
  {
  }

  /** With a positive factor, a product below another has the smaller cofactor. */
  lemma BelowProduct(d: int, a: int, b: int)
    requires d > 0 && d * a < d * b
    ensures a < b
  {
    assert d * (b - a) == d * b - d * a;
  }

  /** The counter cards of the statistics page. */
  datatype Overview = Overview(
    total: nat,
    completed: nat,
    pending: int,
    progress: nat,
    high: nat,
    medium: nat,
    low: nat)

  /**
   * `updateStatisticsData`: pending is computed as total minus completed,
   * and is exactly the number of pending records; the three priority
   * counters add up to the total; the progress is the rounded percentage
   * of completed records.
   */
  function Summarize(todos: seq<Todo>): (o: Overview)
    ensures o.total == |todos|
    ensures o.completed == |Select(todos, IsCompleted)|
    ensures o.pending == |Select(todos, IsPending)| && o.completed + o.pending == o.total
    ensures o.high == |Select(todos, PriorityIs(High))|
    ensures o.medium == |Select(todos, PriorityIs(Medium))|
    ensures o.low == |Select(todos, PriorityIs(Low))|
    ensures o.high + o.medium + o.low == o.total
    ensures o.progress == Percentage(o.completed, o.total)
    ensures o.progress <= 100
    ensures o.progress == 0 <==> 200 * o.completed < o.total || o.total == 0
  {
    var total := |todos|;
    var completed := |Select(todos, IsCompleted)|;
    PendingAndCompletedSplit(todos);
    PrioritySplit(todos);
    var progress := Percentage(completed, total);
    Overview(total, completed, total - completed, progress,
      |Select(todos, PriorityIs(High))|,
      |Select(todos, PriorityIs(Medium))|,
      |Select(todos, PriorityIs(Low))|)
  }

  /** Every record has exactly one of the three priorities. */
  lemma {:induction false} PrioritySplit(s: seq<Todo>)
    ensures |Select(s, PriorityIs(High))| + |Select(s, PriorityIs(Medium))| + |Select(s, PriorityIs(Low))| == |s|
  {
    if s != [] {
      PrioritySplit(s[1..]);
    }
  }

  datatype ActivityKind = CompletedActivity | CreatedActivity

  /** One entry of the timeline: `{type, text, time}`. */
  datatype Activity = Activity(kind: ActivityKind, text: string, time: int)

  /** Comparator `new Date(b.completedAt) - new Date(a.completedAt)` at most 0: newest completion first. */
  predicate LaterCompletion(a: Todo, b: Todo) {
    a.completedAt.GetOr(0) >= b.completedAt.GetOr(0)
  }

  /** Comparator on `createdAt`, newest first. */
  predicate LaterCreation(a: Todo, b: Todo) {
    a.createdAt >= b.createdAt
  }

  /** Comparator on the activity time, newest first. */
  predicate LaterActivity(a: Activity, b: Activity) {
    a.time >= b.time
  }

  predicate IsCompletion(a: Activity) {
    a.kind == CompletedActivity
  }

  predicate IsCreation(a: Activity) {
    a.kind == CreatedActivity
  }

  lemma NewestFirstOrders()
    ensures TotalPreorder(LaterCompletion)
    ensures TotalPreorder(LaterCreation)
    ensures TotalPreorder(LaterActivity)
  {
  }

  /** The five most recently completed records, newest first. */
  function TopCompleted(todos: seq<Todo>): seq<Todo> {
    Take(SortBy(Select(todos, HasCompletionTime), LaterCompletion), 5)
  }

  /** The three most recently created pending records, newest first. */
  function TopCreated(todos: seq<Todo>): seq<Todo> {
    Take(SortBy(Select(todos, IsPending), LaterCreation), 3)
  }

  /**
   * What the timeline takes of the completed records: at most five of them,
   * each at most as often as it occurs, newest first, and none left out was completed later than one taken.
   */
  lemma TopCompletedFacts(todos: seq<Todo>)
    ensures var top := TopCompleted(todos); var all := Select(todos, HasCompletionTime);
      && |top| == Min(5, |all|)
      && (forall t :: t in top ==> t in all)
      && multiset(top) <= multiset(all)
      && (forall i, j :: 0 <= i < j < |top| ==> top[i].completedAt.GetOr(0) >= top[j].completedAt.GetOr(0))
      && (forall x, y :: x in top && y in all && y !in top ==> x.completedAt.GetOr(0) >= y.completedAt.GetOr(0))
  {
    var top := TopCompleted(todos);
    var all := Select(todos, HasCompletionTime);
    NewestFirstOrders();
    TopOfSorted(all, LaterCompletion, 5);
    forall x, y | x in top && y in all && y !in top ensures x.completedAt.GetOr(0) >= y.completedAt.GetOr(0) {
      assert LaterCompletion(x, y);
    }
  }

  /** The same for the pending records: at most three, newest first, none left out newer than one taken. */
  lemma TopCreatedFacts(todos: seq<Todo>)
    ensures var top := TopCreated(todos); var all := Select(todos, IsPending);
      && |top| == Min(3, |all|)
      && (forall t :: t in top ==> t in all)
      && multiset(top) <= multiset(all)
      && (forall i, j :: 0 <= i < j < |top| ==> top[i].createdAt >= top[j].createdAt)
      && (forall x, y :: x in top && y in all && y !in top ==> x.createdAt >= y.createdAt)
  {
    var top := TopCreated(todos);
    var all := Select(todos, IsPending);
    NewestFirstOrders();
    TopOfSorted(all, LaterCreation, 3);
    forall x, y | x in top && y in all && y !in top ensures x.createdAt >= y.createdAt {
      assert LaterCreation(x, y);
    }
  }

  /** The entry `"<text>" erledigt` at the completion time. */
  function CompletionEntry(t: Todo): Activity {
    Activity(CompletedActivity, "\"" + t.text + "\" erledigt", t.completedAt.GetOr(0))
  }

  /** The entry `"<text>" erstellt` at the creation time. */
  function CreationEntry(t: Todo): Activity {
    Activity(CreatedActivity, "\"" + t.text + "\" erstellt", t.createdAt)
  }

  function CompletionEntries(s: seq<Todo>): (r: seq<Activity>)
    ensures |r| == |s|
    ensures forall i :: 0 <= i < |s| ==> r[i] == CompletionEntry(s[i])
  {
    if s == [] then [] else [CompletionEntry(s[0])] + CompletionEntries(s[1..])
  }

  function CreationEntries(s: seq<Todo>): (r: seq<Activity>)
    ensures |r| == |s|
    ensures forall i :: 0 <= i < |s| ==> r[i] == CreationEntry(s[i])
  {
    if s == [] then [] else [CreationEntry(s[0])] + CreationEntries(s[1..])
  }

  /** `recentActivities` before the final sort: the completion entries, then the creation entries. */
  function RecentActivities(todos: seq<Todo>): seq<Activity> {
    CompletionEntries(TopCompleted(todos)) + CreationEntries(TopCreated(todos))
  }

  /** `topActivities`: the recent activities sorted newest first, cut to eight. */
  function ActivityTimeline(todos: seq<Todo>): (r: seq<Activity>)
    ensures |r| <= 8
  {
    Take(SortBy(RecentActivities(todos), LaterActivity), 8)
  }

  /** The recent activities hold one completion entry per top completed record and one creation entry per top created one. */
  lemma RecentActivityCounts(todos: seq<Todo>)
    ensures Count(RecentActivities(todos), IsCompletion) == |TopCompleted(todos)|
    ensures Count(RecentActivities(todos), IsCreation) == |TopCreated(todos)|
  {
    var done := CompletionEntries(TopCompleted(todos));
    var made := CreationEntries(TopCreated(todos));
    CountAppend(done, made, IsCompletion);
    CountAppend(done, made, IsCreation);
    assert Count(done, IsCompletion) == |done|;
    assert Count(made, IsCompletion) == 0;
    assert Count(done, IsCreation) == 0;
    assert Count(made, IsCreation) == |made|;
  }

  /**
   * The timeline holds exactly the recent activities (at most 5 + 3, so the
   * cut to eight never drops one), newest first: min(5, completed records
   * with a time) completion entries and min(3, pending records) creation
   * entries, and it is empty exactly when both are absent.
   */
  lemma TimelineFacts(todos: seq<Todo>)
    ensures var r := ActivityTimeline(todos);
      && multiset(r) == multiset(RecentActivities(todos))
      && Count(r, IsCompletion) == Min(5, |Select(todos, HasCompletionTime)|)
      && Count(r, IsCreation) == Min(3, |Select(todos, IsPending)|)
      && |r| == Min(5, |Select(todos, HasCompletionTime)|) + Min(3, |Select(todos, IsPending)|)
      && (forall i, j :: 0 <= i < j < |r| ==> r[i].time >= r[j].time)
      && (r == [] <==> Select(todos, HasCompletionTime) == [] && Select(todos, IsPending) == [])
  {
    var r := ActivityTimeline(todos);
    var recent := RecentActivities(todos);
    TopSizes(todos);
    TimelineIsSortedRecent(todos);
    CountSortBy(recent, LaterActivity, IsCompletion);
    CountSortBy(recent, LaterActivity, IsCreation);
    RecentActivityCounts(todos);
    forall i, j | 0 <= i < j < |r| ensures r[i].time >= r[j].time {
      assert LaterActivity(r[i], r[j]);
    }
  }

  /** The two lists the timeline collects hold min(5, ·) and min(3, ·) records. */
  lemma TopSizes(todos: seq<Todo>)
    ensures |TopCompleted(todos)| == Min(5, |Select(todos, HasCompletionTime)|)
    ensures |TopCreated(todos)| == Min(3, |Select(todos, IsPending)|)
  {
  }

  /** At most eight entries are collected, so the cut to eight keeps the whole sorted list. */
  lemma TimelineIsSortedRecent(todos: seq<Todo>)
    ensures ActivityTimeline(todos) == SortBy(RecentActivities(todos), LaterActivity)
    ensures Sorted(ActivityTimeline(todos), LaterActivity)
  {
    var recent := RecentActivities(todos);
    var sorted := SortBy(recent, LaterActivity);
    TopSizes(todos);
    TakeAll(sorted, 8);
    ActivityOrder();
    SortBySorted(recent, LaterActivity);
  }

  lemma ActivityOrder()
    ensures TotalPreorder(LaterActivity)
  {
  }
}
