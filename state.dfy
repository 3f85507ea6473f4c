/**
 * The task store (scripts/state.js): one shared state object whose task
 * list the four mutators change in place, and the read-side summaries
 * computed from that list.
 *
 * The clock and the id generator are parameters: `now` is the ISO
 * timestamp a mutator stamps, `freshId` the id `generateId` would return,
 * `today` a day number and `dayKey(n)` the `YYYY-MM-DD` key of day `n`.
 */
module State {
  import opened Common
  import opened Tally
  import opened Buckets
  import opened Tasks
  import Validators
  import Search

  const DefaultTags: seq<string> := ["Academic", "Fitness", "Social", "Personal", "Work", "Other"]

  /** The current sort: a field name and `asc` or `desc`. */
  datatype SortSpec = SortSpec(field: string, order: string)

  // ---------------------------------------------------------------------
  // Records the mutators build

  /** `{ ...task, id: generateId(), createdAt: now, updatedAt: now }`. */
  function NewTask(draft: Draft, freshId: string, now: string): (t: Task)
    ensures t.id == freshId
    ensures t.createdAt == now && t.updatedAt == now
    ensures t.title == draft.title && t.duration == draft.duration && t.tag == draft.tag
    ensures t.dueDate == draft.dueDate && t.priority == draft.priority
  {
    Task(freshId, draft.title, draft.duration, draft.tag, draft.dueDate, draft.priority, now, now)
  }

  /** `{ ...t, ...updates, updatedAt: now }`: a field given in the updates replaces the old one. */
  function Merge(t: Task, u: Patch, now: string): (r: Task)
    ensures u.id.Some? ==> r.id == u.id.value
    ensures u.id.None? ==> r.id == t.id
    ensures u.title.Some? ==> r.title == u.title.value
    ensures u.title.None? ==> r.title == t.title
    ensures u.duration.Some? ==> r.duration == u.duration.value
    ensures u.duration.None? ==> r.duration == t.duration
    ensures u.tag.Some? ==> r.tag == u.tag.value
    ensures u.tag.None? ==> r.tag == t.tag
    ensures u.dueDate.Some? ==> r.dueDate == u.dueDate.value
    ensures u.dueDate.None? ==> r.dueDate == t.dueDate
    ensures u.priority.Some? ==> r.priority == u.priority
    ensures u.priority.None? ==> r.priority == t.priority
    ensures u.createdAt.Some? ==> r.createdAt == u.createdAt.value
    ensures u.createdAt.None? ==> r.createdAt == t.createdAt
    ensures r.updatedAt == now
  {
    Task(
      OrElse(u.id, t.id), OrElse(u.title, t.title), OrElse(u.duration, t.duration),
      OrElse(u.tag, t.tag), OrElse(u.dueDate, t.dueDate),
      if u.priority.Some? then u.priority else t.priority,
      OrElse(u.createdAt, t.createdAt), now)
  }

  /** An update that gives no field changes only the update time. */
  lemma EmptyPatchOnlyTouchesUpdatedAt(t: Task, now: string)
    ensures Merge(t, Patch(None, None, None, None, None, None, None), now) == t.(updatedAt := now)
  {
  }

  /** `tasks.findIndex(t => t.id === id)`, `None` for -1. */
  function FindById(tasks: seq<Task>, id: string): (r: Option<nat>)
    ensures r.None? <==> forall j :: 0 <= j < |tasks| ==> tasks[j].id != id
    ensures r.Some? ==> r.value < |tasks| && tasks[r.value].id == id
    ensures r.Some? ==> forall j :: 0 <= j < r.value ==> tasks[j].id != id
    decreases |tasks|
  {
    if tasks == [] then None
    else if tasks[0].id == id then Some(0)
    else
      var r := FindById(tasks[1..], id);
      assert forall j :: 1 <= j < |tasks| ==> tasks[j] == tasks[1..][j - 1];
      if r.None? then None else Some(r.value + 1)
  }

  // ---------------------------------------------------------------------
  // Sorting

  /** The value the comparator compares: a number, a string, or `undefined`. */
  datatype SortKey = KNum(n: int) | KStr(s: string) | KUndef

  /**
   * `a[field]` after the comparator's conversions: `parseInt` for
   * `duration`, lower case for `title`, `tag` and `priority`, the stored
   * string for the other fields of a task, `undefined` for any other name.
   */
  function KeyOf(field: string, t: Task): SortKey
  {
    if field == "duration" then KNum(t.duration)
    else if field == "title" then KStr(Lower(t.title))
    else if field == "tag" then KStr(Lower(t.tag))
    else if field == "priority" then (if t.priority.Some? then KStr(Lower(t.priority.value)) else KUndef)
    else if field == "id" then KStr(t.id)
    else if field == "dueDate" then KStr(t.dueDate)
    else if field == "createdAt" then KStr(t.createdAt)
    else if field == "updatedAt" then KStr(t.updatedAt)
    else KUndef
  }

  function KindRank(k: SortKey): nat
  {
    match k
    case KNum(_) => 0
    case KStr(_) => 1
    case KUndef => 2
  }

  /**
   * `!(a > b)` for two keys of the same kind (numbers or strings), which is
   * all one sort ever compares; `undefined` is not greater than
   * `undefined`. Keys of different kinds are ordered by kind so that the
   * relation is a total preorder.
   */
  predicate KeyLe(a: SortKey, b: SortKey)
  {
    if KindRank(a) != KindRank(b) then KindRank(a) < KindRank(b)
    else
      match a
      case KNum(x) => x <= b.n
      case KStr(x) => StrLe(x, b.s)
      case KUndef => true
  }

  lemma KeyLeTotal(a: SortKey, b: SortKey)
    ensures KeyLe(a, b) || KeyLe(b, a)
  {
    if a.KStr? && b.KStr? { StrLeTotal(a.s, b.s); }
  }

  lemma KeyLeTransitive(a: SortKey, b: SortKey, c: SortKey)
    requires KeyLe(a, b) && KeyLe(b, c)
    ensures KeyLe(a, c)
  {
    if a.KStr? && b.KStr? && c.KStr? { StrLeTransitive(a.s, b.s, c.s); }
  }

  /** `a` may precede `b`: by non-decreasing key for `asc`, by non-increasing key otherwise. */
  predicate InOrder(field: string, asc: bool, a: Task, b: Task)
  {
    if asc then KeyLe(KeyOf(field, a), KeyOf(field, b)) else KeyLe(KeyOf(field, b), KeyOf(field, a))
  }

  predicate Sorted(ts: seq<Task>, field: string, asc: bool)
  {
    forall i, j :: 0 <= i < j < |ts| ==> InOrder(field, asc, ts[i], ts[j])
  }

  lemma InOrderTotal(field: string, asc: bool, a: Task, b: Task)
    ensures InOrder(field, asc, a, b) || InOrder(field, asc, b, a)
  {
    KeyLeTotal(KeyOf(field, a), KeyOf(field, b));
  }

  lemma InOrderTransitive(field: string, asc: bool, a: Task, b: Task, c: Task)
    requires InOrder(field, asc, a, b) && InOrder(field, asc, b, c)
    ensures InOrder(field, asc, a, c)
  {
    if asc {
      KeyLeTransitive(KeyOf(field, a), KeyOf(field, b), KeyOf(field, c));
    } else {
      KeyLeTransitive(KeyOf(field, c), KeyOf(field, b), KeyOf(field, a));
    }
  }

  /** Insertion before the first task that may follow `t`: adds exactly the one task. */
  function Insert(t: Task, ts: seq<Task>, field: string, asc: bool): (r: seq<Task>)
    ensures multiset(r) == multiset(ts) + multiset{t}
    decreases |ts|
  {
    if ts == [] then [t]
    else if InOrder(field, asc, t, ts[0]) then
      assert ts == [ts[0]] + ts[1..];
      [t] + ts
    else
      assert ts == [ts[0]] + ts[1..];
      [ts[0]] + Insert(t, ts[1..], field, asc)
  }

  /** A task that may precede every task of a sorted list can head it. */
  lemma ConsSorted(x: Task, ts: seq<Task>, field: string, asc: bool)
    requires Sorted(ts, field, asc)
    requires forall j :: 0 <= j < |ts| ==> InOrder(field, asc, x, ts[j])
    ensures Sorted([x] + ts, field, asc)
  {
    var r := [x] + ts;
    forall i, j | 0 <= i < j < |r| ensures InOrder(field, asc, r[i], r[j]) {
      assert r[j] == ts[j - 1];
      if i > 0 { assert r[i] == ts[i - 1]; }
    }
  }

  /** Inserting into a sorted list keeps it sorted. */
  lemma {:induction false} InsertSorted(t: Task, ts: seq<Task>, field: string, asc: bool)
    requires Sorted(ts, field, asc)
    ensures Sorted(Insert(t, ts, field, asc), field, asc)
    decreases |ts|
  {
    if ts == [] {
    } else if InOrder(field, asc, t, ts[0]) {
      forall j | 0 <= j < |ts| ensures InOrder(field, asc, t, ts[j]) {
        if j > 0 { InOrderTransitive(field, asc, t, ts[0], ts[j]); }
      }
      ConsSorted(t, ts, field, asc);
    } else {
      InOrderTotal(field, asc, t, ts[0]);
      var rest := Insert(t, ts[1..], field, asc);
      InsertSorted(t, ts[1..], field, asc);
      forall j | 0 <= j < |rest| ensures InOrder(field, asc, ts[0], rest[j]) {
        var x := rest[j];
        assert x in multiset(rest);
        if x != t {
          assert x in multiset(ts[1..]);
          var k :| 0 <= k < |ts[1..]| && ts[1..][k] == x;
          assert ts[k + 1] == x;
        }
      }
      ConsSorted(ts[0], rest, field, asc);
    }
  }

  /**
   * A sort of `ts` by the comparator's key: a permutation, in key order.
   * Which of several tasks with equal keys comes first is not specified by
   * the comparator; this is one admissible result.
   */
  function SortByKey(ts: seq<Task>, field: string, asc: bool): (r: seq<Task>)
    ensures multiset(r) == multiset(ts)
    ensures Sorted(r, field, asc)
    decreases |ts|
  {
    if ts == [] then []
    else
      assert ts == [ts[0]] + ts[1..];
      var rest := SortByKey(ts[1..], field, asc);
      InsertSorted(ts[0], rest, field, asc);
      Insert(ts[0], rest, field, asc)
  }

  /**
   * The comparator throws when it lowers the case of a missing priority;
   * with two tasks or more every task is compared at least once.
   */
  predicate SortThrows(ts: seq<Task>, field: string)
  {
    field == "priority" && |ts| >= 2 && exists i :: 0 <= i < |ts| && ts[i].priority.None?
  }

  // ---------------------------------------------------------------------
  // The store

  class Store {
    var tasks: seq<Task>
    var tags: seq<string>
    var weeklyGoal: int
    var timeUnit: string
    var currentSort: SortSpec
    var editingId: Option<string>
    var searchRegex: Option<Search.Matcher>

    /** The initial `state`. */
    constructor()
      ensures tasks == [] && tags == DefaultTags && weeklyGoal == 0 && timeUnit == "minutes"
      ensures currentSort == SortSpec("dueDate", "asc")
      ensures editingId == None && searchRegex == None
    {
      tasks := [];
      tags := DefaultTags;
      weeklyGoal := 0;
      timeUnit := "minutes";
      currentSort := SortSpec("dueDate", "asc");
      editingId := None;
      searchRegex := None;
    }

    /** `addTask(task)`: appends the new record, whose id is the fresh one, and returns it. */
    method AddTask(draft: Draft, freshId: string, now: string) returns (t: Task)
      modifies this`tasks
      ensures t == NewTask(draft, freshId, now)
      ensures tasks == old(tasks) + [t]
    {
      t := NewTask(draft, freshId, now);
      tasks := tasks + [t];
    }

    /**
     * `updateTask(id, updates)`: merges the updates into the first task
     * with that id and returns the new record; `None` (null) and no change
     * when there is none.
     */
    method UpdateTask(id: string, patch: Patch, now: string) returns (r: Option<Task>)
      modifies this`tasks
      ensures FindById(old(tasks), id).None? ==> r.None? && tasks == old(tasks)
      ensures FindById(old(tasks), id).Some? ==>
        var i := FindById(old(tasks), id).value;
        && tasks == old(tasks)[i := Merge(old(tasks)[i], patch, now)]
        && r == Some(tasks[i])
    {
      var index := FindById(tasks, id);
      if index.None? {
        return None;
      }
      var updated := Merge(tasks[index.value], patch, now);
      tasks := tasks[index.value := updated];
      return Some(updated);
    }

    /** `deleteTask(id)`: removes the first task with that id; `false` and no change when there is none. */
    method DeleteTask(id: string) returns (removed: bool)
      modifies this`tasks
      ensures removed <==> exists j :: 0 <= j < |old(tasks)| && old(tasks)[j].id == id
      ensures removed ==>
        var i := FindById(old(tasks), id).value;
        tasks == old(tasks)[..i] + old(tasks)[i + 1..]
      ensures !removed ==> tasks == old(tasks)
    {
      var index := FindById(tasks, id);
      if index.None? {
        return false;
      }
      tasks := tasks[..index.value] + tasks[index.value + 1..];
      return true;
    }

    /**
     * `sortTasks(field, order)`: sorts the tasks by the field's key,
     * ascending for `asc` and descending for any other order, and records
     * the sort. `false`: the comparator threw, and nothing changed.
     */
    method SortTasks(field: string, order: string) returns (ok: bool)
      modifies this`tasks, this`currentSort
      ensures ok <==> !SortThrows(old(tasks), field)
      ensures ok ==> multiset(tasks) == multiset(old(tasks)) && Sorted(tasks, field, order == "asc")
      ensures ok ==> currentSort == SortSpec(field, order)
      ensures !ok ==> tasks == old(tasks) && currentSort == old(currentSort)
    {
      if SortThrows(tasks, field) {
        return false;
      }
      tasks := SortByKey(tasks, field, order == "asc");
      currentSort := SortSpec(field, order);
      return true;
    }
  }

  /** What a successful `deleteTask` leaves: the other tasks in their order, one occurrence of the removed one fewer. */
  lemma DeleteKeepsOrder(tasks: seq<Task>, id: string)
    requires FindById(tasks, id).Some?
    ensures var i := FindById(tasks, id).value;
      && IsSubsequence(tasks[..i] + tasks[i + 1..], tasks)
      && multiset(tasks[..i] + tasks[i + 1..]) + multiset{tasks[i]} == multiset(tasks)
      && |tasks[..i] + tasks[i + 1..]| == |tasks| - 1
  {
    var i := FindById(tasks, id).value;
    RemoveAtIsSubsequence(tasks, i);
    RemoveAtMultiset(tasks, i);
  }

  /** A sort never throws for a field other than `priority`, nor for fewer than two tasks. */
  lemma SortThrowsOnlyOnMissingPriority(ts: seq<Task>, field: string)
    ensures SortThrows(ts, field) ==> field == "priority"
    ensures (forall i :: 0 <= i < |ts| ==> ts[i].priority.Some?) ==> !SortThrows(ts, field)
    ensures |ts| < 2 ==> !SortThrows(ts, field)
  {
  }

  // ---------------------------------------------------------------------
  // Statistics

  function DurationOf(t: Task): int
  {
    t.duration
  }

  function DueDateOf(t: Task): string
  {
    t.dueDate
  }

  function TagsOf(tasks: seq<Task>): (ts: seq<string>)
    ensures |ts| == |tasks| && forall i :: 0 <= i < |tasks| ==> ts[i] == tasks[i].tag
  {
    seq(|tasks|, i requires 0 <= i < |tasks| => tasks[i].tag)
  }

  /**
   * The week filter `new Date(t.dueDate) >= sevenDaysAgo`, with
   * `firstDay` the key of the first day it admits: a parsable due date
   * on or after that day, with no upper bound.
   */
  function DueOnOrAfter(firstDay: string): Task -> bool
  {
    (t: Task) => Validators.MatchesDate(t.dueDate) && StrLe(firstDay, t.dueDate)
  }

  /** `getStats()` without the hour strings (`toFixed`). */
  datatype Summary = Summary(total: nat, totalMinutes: int, topTag: string, weekMinutes: int)

  /** The `reduce` over the keys of the tag count, or `'-'` when there are none. */
  function TopTag(tasks: seq<Task>): (top: string)
    ensures tasks == [] ==> top == "-"
    ensures tasks != [] ==> exists i :: 0 <= i < |tasks| && tasks[i].tag == top
  {
    var tagsSeen := TagsOf(tasks);
    var keys := Keys(tagsSeen);
    assert keys == [] <==> tasks == [] by {
      if tasks != [] { assert tagsSeen[0] in tagsSeen; }
    }
    if keys == [] then "-"
    else
      var top := ReduceTop(keys, Tally.Tally(tagsSeen));
      ReduceTopIsLastMaximum(keys, Tally.Tally(tagsSeen));
      assert top in tagsSeen;
      var i :| 0 <= i < |tagsSeen| && tagsSeen[i] == top;
      assert tasks[i].tag == top;
      top
  }

  function GetStats(tasks: seq<Task>, firstDay: string): (r: Summary)
    ensures r.total == |tasks|
    ensures tasks == [] ==> r.topTag == "-" && r.totalMinutes == 0 && r.weekMinutes == 0
    ensures tasks != [] ==> exists i :: 0 <= i < |tasks| && tasks[i].tag == r.topTag
  {
    Summary(|tasks|, SumOf(tasks, DurationOf), TopTag(tasks), SumOf(Filter(tasks, DueOnOrAfter(firstDay)), DurationOf))
  }

  /** With non-negative durations the week's minutes never exceed the total minutes. */
  lemma WeekWithinTotal(tasks: seq<Task>, firstDay: string)
    requires forall i :: 0 <= i < |tasks| ==> tasks[i].duration >= 0
    ensures GetStats(tasks, firstDay).weekMinutes <= GetStats(tasks, firstDay).totalMinutes
  {
    FilterSumWithin(tasks, DueOnOrAfter(firstDay));
  }

  lemma {:induction false} FilterSumWithin(tasks: seq<Task>, p: Task -> bool)
    requires forall i :: 0 <= i < |tasks| ==> tasks[i].duration >= 0
    ensures 0 <= SumOf(Filter(tasks, p), DurationOf) <= SumOf(tasks, DurationOf)
    decreases |tasks|
  {
    if tasks != [] {
      var init := tasks[..|tasks| - 1];
      var x := tasks[|tasks| - 1];
      FilterSumWithin(init, p);
      if p(x) {
        var f := Filter(init, p);
        assert (f + [x])[..|f + [x]| - 1] == f;
      }
    }
  }

  /**
   * Appending a task adds its duration to `totalMinutes`, and to
   * `weekMinutes` exactly when its due date falls in the window; with the
   * empty case of `GetStats`, this fixes both sums.
   */
  lemma MinutesAddUp(tasks: seq<Task>, t: Task, firstDay: string)
    ensures GetStats(tasks + [t], firstDay).totalMinutes == GetStats(tasks, firstDay).totalMinutes + t.duration
    ensures GetStats(tasks + [t], firstDay).weekMinutes ==
      GetStats(tasks, firstDay).weekMinutes + (if DueOnOrAfter(firstDay)(t) then t.duration else 0)
  {
    var ys := tasks + [t];
    assert ys[..|ys| - 1] == tasks;
    var rest := Filter(tasks, DueOnOrAfter(firstDay));
    if DueOnOrAfter(firstDay)(t) {
      assert Filter(ys, DueOnOrAfter(firstDay)) == rest + [t];
      assert (rest + [t])[..|rest + [t]| - 1] == rest;
    }
  }

  /** Every due date after the first day counts, however far in the future. */
  lemma FutureTasksCount(t: Task, firstDay: string)
    requires Validators.MatchesDate(t.dueDate) && StrLe(firstDay, t.dueDate)
    ensures GetStats([t], firstDay).weekMinutes == t.duration
  {
    assert [t][..0] == [];
    assert DueOnOrAfter(firstDay)(t);
    assert Filter([t], DueOnOrAfter(firstDay)) == [] + [t];
    assert [] + [t] == [t];
    assert SumOf([t], DurationOf) == SumOf([], DurationOf) + t.duration;
  }

  /**
   * The top tag has a maximal count, and every tag first seen after it
   * has a strictly smaller one: on a tie the reduce keeps the later tag.
   */
  lemma TopTagIsLastMostFrequent(tasks: seq<Task>, firstDay: string)
    requires tasks != []
    ensures var tagsSeen := TagsOf(tasks);
      var m := Tally.Tally(tagsSeen);
      var top := GetStats(tasks, firstDay).topTag;
      && top in m
      && (forall g :: g in m ==> m[g] <= m[top])
      && (forall g :: g in m && FirstIndex(tagsSeen, top) < FirstIndex(tagsSeen, g) ==> m[g] < m[top])
  {
    ReduceTopOfTally(TagsOf(tasks));
  }

  /** `'-'` marks an empty list, as long as no task is tagged `-` itself. */
  lemma TopTagDashIffEmpty(tasks: seq<Task>, firstDay: string)
    requires forall i :: 0 <= i < |tasks| ==> tasks[i].tag != "-"
    ensures GetStats(tasks, firstDay).topTag == "-" <==> tasks == []
  {
  }

  /** On a tie, the tag seen later wins: two tasks tagged A then B give B. */
  lemma TopTagTieGoesToLater(a: Task, b: Task, firstDay: string)
    requires a.tag == "A" && b.tag == "B"
    ensures GetStats([a, b], firstDay).topTag == "B"
  {
    var tagsSeen := TagsOf([a, b]);
    assert tagsSeen == ["A", "B"];
    assert tagsSeen[..1] == ["A"];
    assert ["A"][..0] == [];
    var m := Tally.Tally(tagsSeen);
    assert Keys(tagsSeen) == ["A", "B"];
    assert m["A"] == 1 && m["B"] == 1;
  }

  // ---------------------------------------------------------------------
  // Trend

  /** `dateStr.substring(5)`: the `MM-DD` part of a date key. */
  function MonthDay(dateStr: string): (r: string)
    ensures |dateStr| >= 5 ==> dateStr == dateStr[..5] + r
    ensures |dateStr| < 5 ==> r == ""
  {
    if |dateStr| >= 5 then dateStr[5..] else ""
  }

  /**
   * `getTrendData()` without the hour strings: for the seven days ending
   * today, oldest first, the day's `MM-DD` label and the minutes of the
   * tasks due on exactly that day.
   */
  method TrendData(tasks: seq<Task>, today: int, dayKey: int -> string) returns (days: seq<string>, minutes: seq<int>)
    ensures |days| == 7 && |minutes| == 7
    ensures forall j :: 0 <= j < 7 ==>
      && days[j] == MonthDay(dayKey(today - 6 + j))
      && minutes[j] == BucketSum(tasks, DueDateOf, dayKey(today - 6 + j), DurationOf)
  {
    days := [];
    minutes := [];
    var i := 6;
    while i >= 0
      invariant -1 <= i <= 6
      invariant |days| == 6 - i && |minutes| == 6 - i
      invariant forall j :: 0 <= j < 6 - i ==>
        && days[j] == MonthDay(dayKey(today - 6 + j))
        && minutes[j] == BucketSum(tasks, DueDateOf, dayKey(today - 6 + j), DurationOf)
      decreases i
    {
      var dateStr := dayKey(today - i);
      var dayMinutes := BucketSum(tasks, DueDateOf, dateStr, DurationOf);
      days := days + [MonthDay(dateStr)];
      minutes := minutes + [dayMinutes];
      i := i - 1;
    }
  }

  /**
   * The seven day buckets hold at most the store's total minutes when the
   * day keys are distinct and durations not negative, and exactly the total
   * when every task is due within the seven days.
   */
  lemma TrendWithinTotal(tasks: seq<Task>, today: int, dayKey: int -> string, minutes: seq<int>, firstDay: string)
    requires |minutes| == 7
    requires forall j :: 0 <= j < 7 ==> minutes[j] == BucketSum(tasks, DueDateOf, dayKey(today - 6 + j), DurationOf)
    requires NoDuplicates(seq(7, j requires 0 <= j < 7 => dayKey(today - 6 + j)))
    requires forall i :: 0 <= i < |tasks| ==> tasks[i].duration >= 0
    ensures SumOf(minutes, (n: int) => n) <= GetStats(tasks, firstDay).totalMinutes
    ensures (forall i :: 0 <= i < |tasks| ==> tasks[i].dueDate in seq(7, j requires 0 <= j < 7 => dayKey(today - 6 + j))) ==>
      SumOf(minutes, (n: int) => n) == GetStats(tasks, firstDay).totalMinutes
  {
    var ks := seq(7, j requires 0 <= j < 7 => dayKey(today - 6 + j));
    PointwiseBuckets(minutes, (n: int) => n, tasks, DueDateOf, ks, DurationOf);
    BucketsBoundedByTotal(tasks, DueDateOf, ks, DurationOf);
  }
}
