/**
 * The two tables of the calendar (recurring task templates and task instances), the
 * expansion of a template's cron schedule into occurrences, and task completion.
 */
module Models {

  import opened Wrappers
  import opened Calendar
  import opened Cron

  /** A recurring task: a cron schedule with an optional inclusive validity window of dates. */
  datatype Template = Template(
    id: int,
    title: string,
    description: string,
    cronSchedule: string,
    startDate: Option<Day>,
    endDate: Option<Day>,
    isActive: bool)

  /** A task instance; `templateId` is None for a standalone task. */
  datatype Task = Task(
    id: int,
    title: string,
    description: string,
    dueDate: Day,
    dueTime: Option<TimeOfDay>,
    isCompleted: bool,
    completedAt: Option<Instant>,
    priority: int,
    templateId: Option<int>)

  /** Priorities: 1 is high, 2 medium, 3 low; a task is created with medium. */
  const DEFAULT_PRIORITY: int := 2

  /**
   * The task generated for one occurrence of a template: its title and description, the
   * occurrence's date and time, a link back to the template and the column defaults
   * (not completed, no completion time, medium priority).
   */
  function NewTask(t: Template, occurrence: Instant, id: int): Task {
    Task(id, t.title, t.description, DayOf(occurrence), Some(TimeOf(occurrence)),
         false, None, DEFAULT_PRIORITY, Some(t.id))
  }

  function Max(a: int, b: int): int { if a >= b then a else b }
  function Min(a: int, b: int): int { if a <= b then a else b }

  /** The requested start, moved forward to midnight of the template's start date if that is later. */
  function EffectiveStart(t: Template, rangeStart: Instant): (s: Instant)
    ensures s >= rangeStart
    ensures t.startDate.Some? ==> s >= StartOfDay(t.startDate.value)
    ensures s == rangeStart || (t.startDate.Some? && s == StartOfDay(t.startDate.value))
  {
    if t.startDate.Some? then Max(rangeStart, StartOfDay(t.startDate.value)) else rangeStart
  }

  /** The requested end, moved back to the last minute of the template's end date if that is earlier. */
  function EffectiveEnd(t: Template, rangeEnd: Instant): (e: Instant)
    ensures e <= rangeEnd
    ensures t.endDate.Some? ==> e <= EndOfDay(t.endDate.value)
    ensures e == rangeEnd || (t.endDate.Some? && e == EndOfDay(t.endDate.value))
  {
    if t.endDate.Some? then Min(rangeEnd, EndOfDay(t.endDate.value)) else rangeEnd
  }

  /**
   * The instants a croniter iterator positioned at `from` yields before the first one past
   * `end`, or before get_next raises.
   */
  function Chain(lib: CronLib, expr: string, from: Instant, end: Instant): (r: seq<Instant>)
    requires Increasing(lib)
    ensures forall i :: 0 <= i < |r| ==> from < r[i] <= end
    ensures forall i, j :: 0 <= i < j < |r| ==> r[i] < r[j]
    decreases end - from
  {
    match lib.nextAfter(expr, from)
    case None => []
    case Some(n) => if n > end then [] else [n] + Chain(lib, expr, n, end)
  }

  /**
   * The walk croniter makes, described step by step: the first element is get_next of `from`,
   * each further one is get_next of the element before it, none is past `end`, and after the
   * last one get_next either raises or goes past `end`.
   */
  ghost predicate IsWalk(lib: CronLib, expr: string, from: Instant, end: Instant, s: seq<Instant>) {
    && (forall i :: 0 <= i < |s| ==> s[i] <= end)
    && (|s| > 0 ==> lib.nextAfter(expr, from) == Some(s[0]))
    && (forall i :: 0 < i < |s| ==> lib.nextAfter(expr, s[i - 1]) == Some(s[i]))
    && var last := if s == [] then from else s[|s| - 1];
       (lib.nextAfter(expr, last).None? || lib.nextAfter(expr, last).value > end)
  }

  /** Chain is such a walk. */
  lemma {:induction false} ChainWalks(lib: CronLib, expr: string, from: Instant, end: Instant)
    requires Increasing(lib)
    ensures IsWalk(lib, expr, from, end, Chain(lib, expr, from, end))
    decreases end - from
  {
    match lib.nextAfter(expr, from)
    case None =>
    case Some(n) =>
      if n <= end {
        ChainWalks(lib, expr, n, end);
        var rest := Chain(lib, expr, n, end);
        assert Chain(lib, expr, from, end) == [n] + rest;
        assert forall i :: 0 < i < |rest| ==> lib.nextAfter(expr, rest[i - 1]) == Some(rest[i]);
      }
  }

  /** And it is the only one: any walk from `from` to `end` is Chain. */
  lemma {:induction false} WalkIsChain(lib: CronLib, expr: string, from: Instant, end: Instant, s: seq<Instant>)
    requires Increasing(lib)
    requires IsWalk(lib, expr, from, end, s)
    ensures s == Chain(lib, expr, from, end)
    decreases |s|
  {
    if s != [] {
      var n := s[0];
      assert lib.nextAfter(expr, from) == Some(n) && n <= end;
      var rest := s[1..];
      assert forall i :: 0 < i < |rest| ==> lib.nextAfter(expr, rest[i - 1]) == Some(rest[i]) by {
        forall i | 0 < i < |rest| ensures lib.nextAfter(expr, rest[i - 1]) == Some(rest[i]) {
          assert rest[i - 1] == s[i] && rest[i] == s[i + 1];
        }
      }
      assert (if rest == [] then n else rest[|rest| - 1]) == s[|s| - 1];
      WalkIsChain(lib, expr, n, end, rest);
      assert s == [n] + rest;
    }
  }

  /**
   * TaskTemplate.get_occurrences_in_range: the empty list when the window clipped to the
   * template's dates is inverted or croniter rejects the schedule, and otherwise croniter's
   * walk from the clipped start up to the clipped end.
   */
  function OccurrencesInRange(lib: CronLib, t: Template, rangeStart: Instant, rangeEnd: Instant): seq<Instant>
    requires Increasing(lib)
  {
    var s := EffectiveStart(t, rangeStart);
    var e := EffectiveEnd(t, rangeEnd);
    if s > e || !lib.accepts(t.cronSchedule) then [] else Chain(lib, t.cronSchedule, s, e)
  }

  /**
   * The occurrences are strictly increasing, after the clipped start and not after the
   * clipped end, so within the requested range and on dates inside the template's window;
   * an inverted window or a rejected schedule gives none.
   */
  lemma OccurrencesInRangeSpec(lib: CronLib, t: Template, rangeStart: Instant, rangeEnd: Instant)
    requires Increasing(lib)
    ensures var occ := OccurrencesInRange(lib, t, rangeStart, rangeEnd);
      && (EffectiveStart(t, rangeStart) > EffectiveEnd(t, rangeEnd) ==> occ == [])
      && (!lib.accepts(t.cronSchedule) ==> occ == [])
      && (forall i, j :: 0 <= i < j < |occ| ==> occ[i] < occ[j])
      && (forall i :: 0 <= i < |occ| ==>
            && EffectiveStart(t, rangeStart) < occ[i] <= EffectiveEnd(t, rangeEnd)
            && rangeStart < occ[i] <= rangeEnd
            && (t.startDate.Some? ==> t.startDate.value <= DayOf(occ[i]))
            && (t.endDate.Some? ==> DayOf(occ[i]) <= t.endDate.value))
  {
    var occ := OccurrencesInRange(lib, t, rangeStart, rangeEnd);
    forall i | 0 <= i < |occ|
      ensures (t.startDate.Some? ==> t.startDate.value <= DayOf(occ[i]))
      ensures (t.endDate.Some? ==> DayOf(occ[i]) <= t.endDate.value)
    {
      if t.startDate.Some? {
        DayOfWithin(occ[i], DayOf(occ[i]));
      }
      if t.endDate.Some? {
        DayOfWithin(occ[i], DayOf(occ[i]));
      }
    }
  }

  /**
   * The imperative expansion: clip the window, give up on an inverted one, then call
   * get_next until it passes the clipped end; a rejected schedule or a get_next that raises
   * ends the list quietly with what was collected.
   */
  method GetOccurrencesInRange(lib: CronLib, t: Template, rangeStart: Instant, rangeEnd: Instant)
    returns (occurrences: seq<Instant>)
    requires Increasing(lib)
    ensures occurrences == OccurrencesInRange(lib, t, rangeStart, rangeEnd)
  {
    occurrences := [];
    var effectiveStart := EffectiveStart(t, rangeStart);
    var effectiveEnd := EffectiveEnd(t, rangeEnd);
    if effectiveStart > effectiveEnd {
      return;
    }
    if !lib.accepts(t.cronSchedule) {
      return;
    }
    var current := effectiveStart;
    while true
      invariant effectiveStart <= current <= effectiveEnd
      invariant occurrences + Chain(lib, t.cronSchedule, current, effectiveEnd)
                == Chain(lib, t.cronSchedule, effectiveStart, effectiveEnd)
      decreases effectiveEnd - current
    {
      var next := lib.nextAfter(t.cronSchedule, current);
      if next.None? {
        break;
      }
      if next.value > effectiveEnd {
        break;
      }
      occurrences := occurrences + [next.value];
      current := next.value;
    }
  }

  /** TaskTemplate.get_next_occurrence: croniter's next firing after `from`, None for a rejected schedule. */
  function GetNextOccurrence(lib: CronLib, t: Template, from: Instant): (r: Option<Instant>)
    requires Increasing(lib)
    ensures !lib.accepts(t.cronSchedule) ==> r.None?
    ensures lib.accepts(t.cronSchedule) ==> r == lib.nextAfter(t.cronSchedule, from)
    ensures r.Some? ==> r.value > from
  {
    if lib.accepts(t.cronSchedule) then lib.nextAfter(t.cronSchedule, from) else None
  }

  /**
   * The first occurrence in a range is the next occurrence after the clipped start; for a
   * template without dates the range has an occurrence exactly when the next firing after
   * its start is not past its end.
   */
  lemma FirstOccurrenceIsNext(lib: CronLib, t: Template, rangeStart: Instant, rangeEnd: Instant)
    requires Increasing(lib)
    ensures var occ := OccurrencesInRange(lib, t, rangeStart, rangeEnd);
      occ != [] ==> GetNextOccurrence(lib, t, EffectiveStart(t, rangeStart)) == Some(occ[0])
    ensures t.startDate.None? && t.endDate.None? ==>
      var next := GetNextOccurrence(lib, t, rangeStart);
      (OccurrencesInRange(lib, t, rangeStart, rangeEnd) != [] <==> next.Some? && next.value <= rangeEnd)
  {
    var s := EffectiveStart(t, rangeStart);
    var e := EffectiveEnd(t, rangeEnd);
    if s <= e && lib.accepts(t.cronSchedule) {
      ChainWalks(lib, t.cronSchedule, s, e);
    }
  }

  /** A task's completion time is recorded exactly while it is completed. */
  predicate CompletionConsistent(task: Task) {
    task.completedAt.Some? <==> task.isCompleted
  }

  /** Task.toggle_complete: flip the completion flag and stamp or clear the completion time. */
  function ToggleComplete(task: Task, utcNow: Instant): (r: Task)
    ensures r.isCompleted == !task.isCompleted
    ensures CompletionConsistent(r)
    ensures r.completedAt.Some? ==> r.completedAt.value == utcNow
    ensures r.(isCompleted := task.isCompleted, completedAt := task.completedAt) == task
  {
    var completed := !task.isCompleted;
    task.(isCompleted := completed, completedAt := if completed then Some(utcNow) else None)
  }

  /**
   * Toggling twice restores the completion flag; a consistent task that was not completed
   * comes back exactly as it was.
   */
  lemma ToggleTwice(task: Task, now1: Instant, now2: Instant)
    ensures ToggleComplete(ToggleComplete(task, now1), now2).isCompleted == task.isCompleted
    ensures CompletionConsistent(task) && !task.isCompleted ==>
      ToggleComplete(ToggleComplete(task, now1), now2) == task
  {
  }

  /**
   * Position of the row whose key is `id` (the lookup behind `get_or_404`, on either table),
   * None when no row has it.
   */
  function Find<R>(rows: seq<R>, key: R -> int, id: int): (r: Option<nat>)
    ensures r.Some? ==> r.value < |rows| && key(rows[r.value]) == id
    ensures r.None? <==> forall i :: 0 <= i < |rows| ==> key(rows[i]) != id
  {
    if rows == [] then None
    else if key(rows[|rows| - 1]) == id then Some(|rows| - 1)
    else Find(rows[..|rows| - 1], key, id)
  }

  /** The primary key of a task row. */
  function TaskKey(task: Task): int { task.id }

  /** The primary key of a template row. */
  function TemplateKey(t: Template): int { t.id }

  ghost predicate DistinctTaskIds(tasks: seq<Task>) {
    forall i, j :: 0 <= i < j < |tasks| ==> tasks[i].id != tasks[j].id
  }

  ghost predicate DistinctTemplateIds(templates: seq<Template>) {
    forall i, j :: 0 <= i < j < |templates| ==> templates[i].id != templates[j].id
  }

  /** The store: the `task_templates` and `tasks` tables, in row order, each keyed by its primary key. */
  class Database {
    var templates: seq<Template>
    var tasks: seq<Task>

    ghost predicate Valid()
      reads this
    {
      DistinctTemplateIds(templates) && DistinctTaskIds(tasks)
    }

    constructor ()
      ensures Valid() && templates == [] && tasks == []
    {
      templates := [];
      tasks := [];
    }
  }
}
