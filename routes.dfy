/**
 * The state-changing API operations on tasks and templates (partial updates, toggles,
 * regeneration) and the read side of the calendar (the task range query and the week and
 * month views). Request parsing, JSON and HTTP status codes are not modelled: a missing
 * row (HTTP 404) or a date Python cannot build (HTTP 500) is None.
 */
module Routes {

  import opened Wrappers
  import opened Calendar
  import opened Cron
  import opened Models
  import opened Scheduler

  // ---------------------------------------------------------------------------------
  // Partial updates and toggles

  /**
   * The keys present in a PUT /tasks/<id> payload. For due_time, Some(None) is a present key
   * whose value is empty or null, which clears the time.
   */
  datatype TaskPatch = TaskPatch(
    title: Option<string>,
    description: Option<string>,
    dueDate: Option<Day>,
    dueTime: Option<Option<TimeOfDay>>,
    priority: Option<int>,
    isCompleted: Option<bool>)

  /** update_task on one row: every present key overwrites its field, absent keys leave theirs. */
  function PatchTask(task: Task, p: TaskPatch, utcNow: Instant): (r: Task)
    ensures r.id == task.id && r.templateId == task.templateId
    ensures r.title == p.title.GetOr(task.title)
    ensures r.description == p.description.GetOr(task.description)
    ensures r.dueDate == p.dueDate.GetOr(task.dueDate)
    ensures r.dueTime == p.dueTime.GetOr(task.dueTime)
    ensures r.priority == p.priority.GetOr(task.priority)
    ensures p.isCompleted.None? ==> r.isCompleted == task.isCompleted && r.completedAt == task.completedAt
    ensures p.isCompleted.Some? ==>
      && r.isCompleted == p.isCompleted.value
      && CompletionConsistent(r)
      && (r.isCompleted ==> r.completedAt == Some(utcNow))
  {
    var t := if p.title.Some? then task.(title := p.title.value) else task;
    var t := if p.description.Some? then t.(description := p.description.value) else t;
    var t := if p.dueDate.Some? then t.(dueDate := p.dueDate.value) else t;
    var t := if p.dueTime.Some? then t.(dueTime := p.dueTime.value) else t;
    var t := if p.priority.Some? then t.(priority := p.priority.value) else t;
    if p.isCompleted.Some? then
      t.(isCompleted := p.isCompleted.value, completedAt := if p.isCompleted.value then Some(utcNow) else None)
    else t
  }

  /**
   * A patch keeps a consistent completion time consistent, sending it twice is the same as
   * sending it once, and an empty payload changes nothing.
   */
  lemma PatchTaskProperties(task: Task, p: TaskPatch, utcNow: Instant)
    ensures CompletionConsistent(task) ==> CompletionConsistent(PatchTask(task, p, utcNow))
    ensures PatchTask(PatchTask(task, p, utcNow), p, utcNow) == PatchTask(task, p, utcNow)
    ensures PatchTask(task, TaskPatch(None, None, None, None, None, None), utcNow) == task
  {
  }

  /** update_task: patch the row with that id in place; None (HTTP 404) when there is none. */
  method UpdateTask(db: Database, taskId: int, patch: TaskPatch, utcNow: Instant) returns (r: Option<Task>)
    requires db.Valid()
    modifies db
    ensures db.Valid() && db.templates == old(db.templates)
    ensures Find(old(db.tasks), TaskKey, taskId).None? ==> r.None? && db.tasks == old(db.tasks)
    ensures Find(old(db.tasks), TaskKey, taskId).Some? ==>
      var i := Find(old(db.tasks), TaskKey, taskId).value;
      r == Some(PatchTask(old(db.tasks)[i], patch, utcNow)) && db.tasks == old(db.tasks)[i := r.value]
  {
    var found := Find(db.tasks, TaskKey, taskId);
    if found.None? {
      return None;
    }
    var i := found.value;
    var task := PatchTask(db.tasks[i], patch, utcNow);
    db.tasks := db.tasks[i := task];
    r := Some(task);
  }

  /** toggle_task: Task.toggle_complete on the row with that id; None (HTTP 404) when there is none. */
  method ToggleTask(db: Database, taskId: int, utcNow: Instant) returns (r: Option<Task>)
    requires db.Valid()
    modifies db
    ensures db.Valid() && db.templates == old(db.templates)
    ensures Find(old(db.tasks), TaskKey, taskId).None? ==> r.None? && db.tasks == old(db.tasks)
    ensures Find(old(db.tasks), TaskKey, taskId).Some? ==>
      var i := Find(old(db.tasks), TaskKey, taskId).value;
      r == Some(ToggleComplete(old(db.tasks)[i], utcNow)) && db.tasks == old(db.tasks)[i := r.value]
  {
    var found := Find(db.tasks, TaskKey, taskId);
    if found.None? {
      return None;
    }
    var i := found.value;
    var task := ToggleComplete(db.tasks[i], utcNow);
    db.tasks := db.tasks[i := task];
    r := Some(task);
  }

  /**
   * The keys present in a PUT /templates/<id> payload. For the dates, Some(None) is a present
   * key whose value is empty or null, which clears the date. The schedule is stored as sent:
   * nothing validates it here.
   */
  datatype TemplatePatch = TemplatePatch(
    title: Option<string>,
    description: Option<string>,
    cronSchedule: Option<string>,
    startDate: Option<Option<Day>>,
    endDate: Option<Option<Day>>,
    isActive: Option<bool>)

  /** update_template on one row: every present key overwrites its field, absent keys leave theirs. */
  function PatchTemplate(t: Template, p: TemplatePatch): (r: Template)
    ensures r.id == t.id
    ensures r.title == p.title.GetOr(t.title)
    ensures r.description == p.description.GetOr(t.description)
    ensures r.cronSchedule == p.cronSchedule.GetOr(t.cronSchedule)
    ensures r.startDate == p.startDate.GetOr(t.startDate)
    ensures r.endDate == p.endDate.GetOr(t.endDate)
    ensures r.isActive == p.isActive.GetOr(t.isActive)
  {
    var t := if p.title.Some? then t.(title := p.title.value) else t;
    var t := if p.description.Some? then t.(description := p.description.value) else t;
    var t := if p.cronSchedule.Some? then t.(cronSchedule := p.cronSchedule.value) else t;
    var t := if p.startDate.Some? then t.(startDate := p.startDate.value) else t;
    var t := if p.endDate.Some? then t.(endDate := p.endDate.value) else t;
    if p.isActive.Some? then t.(isActive := p.isActive.value) else t
  }

  /** A template patch is idempotent, and an empty payload changes nothing. */
  lemma PatchTemplateProperties(t: Template, p: TemplatePatch)
    ensures PatchTemplate(PatchTemplate(t, p), p) == PatchTemplate(t, p)
    ensures PatchTemplate(t, TemplatePatch(None, None, None, None, None, None)) == t
  {
  }

  /** update_template: patch the row with that id in place; None (HTTP 404) when there is none. */
  method UpdateTemplate(db: Database, templateId: int, patch: TemplatePatch) returns (r: Option<Template>)
    requires db.Valid()
    modifies db
    ensures db.Valid() && db.tasks == old(db.tasks)
    ensures Find(old(db.templates), TemplateKey, templateId).None? ==> r.None? && db.templates == old(db.templates)
    ensures Find(old(db.templates), TemplateKey, templateId).Some? ==>
      var i := Find(old(db.templates), TemplateKey, templateId).value;
      r == Some(PatchTemplate(old(db.templates)[i], patch)) && db.templates == old(db.templates)[i := r.value]
  {
    var found := Find(db.templates, TemplateKey, templateId);
    if found.None? {
      return None;
    }
    var i := found.value;
    var template := PatchTemplate(db.templates[i], patch);
    db.templates := db.templates[i := template];
    r := Some(template);
  }

  /** toggle_template on one row: flip is_active and nothing else; flipping twice restores the row. */
  function ToggleActive(t: Template): (r: Template)
    ensures r.isActive == !t.isActive
    ensures r.(isActive := t.isActive) == t
  {
    t.(isActive := !t.isActive)
  }

  /** toggle_template: ToggleActive on the row with that id; None (HTTP 404) when there is none. */
  method ToggleTemplate(db: Database, templateId: int) returns (r: Option<Template>)
    requires db.Valid()
    modifies db
    ensures db.Valid() && db.tasks == old(db.tasks)
    ensures Find(old(db.templates), TemplateKey, templateId).None? ==> r.None? && db.templates == old(db.templates)
    ensures Find(old(db.templates), TemplateKey, templateId).Some? ==>
      var i := Find(old(db.templates), TemplateKey, templateId).value;
      r == Some(ToggleActive(old(db.templates)[i])) && db.templates == old(db.templates)[i := r.value]
  {
    var found := Find(db.templates, TemplateKey, templateId);
    if found.None? {
      return None;
    }
    var i := found.value;
    var template := ToggleActive(db.templates[i]);
    db.templates := db.templates[i := template];
    r := Some(template);
  }

  // ---------------------------------------------------------------------------------
  // Regeneration

  /** How far ahead regenerate_template_tasks re-materialises. */
  const REGENERATE_DAYS: int := 30

  /** The rows regenerate_template_tasks deletes: the template's incomplete tasks due today or later. */
  predicate FutureIncomplete(task: Task, templateId: int, today: Day) {
    task.templateId == Some(templateId) && task.dueDate >= today && !task.isCompleted
  }

  /** The bulk delete: the table without those rows, the others in their order. */
  function DeleteFutureIncomplete(tasks: seq<Task>, templateId: int, today: Day): (r: seq<Task>)
    ensures forall x :: x in r <==> x in tasks && !FutureIncomplete(x, templateId, today)
    ensures |r| <= |tasks|
  {
    if tasks == [] then []
    else
      (if FutureIncomplete(tasks[0], templateId, today) then [] else [tasks[0]])
        + DeleteFutureIncomplete(tasks[1..], templateId, today)
  }

  lemma {:induction false} DeleteKeepsIds(tasks: seq<Task>, templateId: int, today: Day)
    requires DistinctTaskIds(tasks)
    ensures DistinctTaskIds(DeleteFutureIncomplete(tasks, templateId, today))
    decreases |tasks|
  {
    if tasks != [] {
      var rest := DeleteFutureIncomplete(tasks[1..], templateId, today);
      DeleteKeepsIds(tasks[1..], templateId, today);
      forall x | x in rest ensures x.id != tasks[0].id {
        assert x in tasks[1..];
        var j :| 0 <= j < |tasks[1..]| && tasks[1..][j] == x;
        assert tasks[j + 1] == x;
      }
    }
  }

  /**
   * regenerate_template_tasks: delete the template's incomplete tasks due today or later,
   * then run generation over [now, now + 30 days] for every active template (not only this
   * one), and answer its count; None (HTTP 404) when there is no such template.
   */
  method RegenerateTemplateTasks(db: Database, lib: CronLib, templateId: int, today: Day, now: Instant)
    returns (r: Option<int>)
    requires Increasing(lib)
    requires db.Valid()
    modifies db
    ensures db.Valid() && db.templates == old(db.templates)
    ensures Find(db.templates, TemplateKey, templateId).None? ==> r.None? && db.tasks == old(db.tasks)
    ensures Find(db.templates, TemplateKey, templateId).Some? ==>
      var kept := DeleteFutureIncomplete(old(db.tasks), templateId, today);
      && db.tasks == Materialize(lib, kept, ActiveTemplates(db.templates), now, now + REGENERATE_DAYS * MINUTES_PER_DAY)
      && r == Some(|db.tasks| - |kept|)
  {
    if Find(db.templates, TemplateKey, templateId).None? {
      return None;
    }
    var kept := DeleteFutureIncomplete(db.tasks, templateId, today);
    DeleteKeepsIds(db.tasks, templateId, today);
    db.tasks := kept;
    var endDate := now + REGENERATE_DAYS * MINUTES_PER_DAY;
    var count := GenerateTasksForRange(db, lib, now, endDate);
    r := Some(count);
  }

  /**
   * Regeneration removes only the template's incomplete tasks due today or later: completed
   * tasks, tasks due before today and other templates' or standalone tasks all survive,
   * unchanged; every row it adds comes from an active template's occurrence in the window.
   */
  lemma RegenerateSpec(lib: CronLib, tasks: seq<Task>, templates: seq<Template>, templateId: int, today: Day, now: Instant)
    requires Increasing(lib)
    ensures var kept := DeleteFutureIncomplete(tasks, templateId, today);
      var r := Materialize(lib, kept, ActiveTemplates(templates), now, now + REGENERATE_DAYS * MINUTES_PER_DAY);
      && (forall x :: x in tasks && !FutureIncomplete(x, templateId, today) ==> x in r)
      && (forall x :: x in tasks && x !in r ==> FutureIncomplete(x, templateId, today))
      && (forall j :: |kept| <= j < |r| ==> r[j].templateId.Some? && !r[j].isCompleted)
  {
    var kept := DeleteFutureIncomplete(tasks, templateId, today);
    var endDate := now + REGENERATE_DAYS * MINUTES_PER_DAY;
    var r := Materialize(lib, kept, ActiveTemplates(templates), now, endDate);
    assert kept <= r by {
      GenerateSpec(lib, kept, templates, now, endDate);
    }
    forall x | x in tasks && !FutureIncomplete(x, templateId, today) ensures x in r {
      var k :| 0 <= k < |kept| && kept[k] == x;
      assert r[k] == x;
    }
    forall j | |kept| <= j < |r| ensures r[j].templateId.Some? && !r[j].isCompleted {
      GenerateSpec(lib, kept, templates, now, endDate);
      assert FromActiveTemplate(lib, r[j], templates, now, endDate);
    }
  }

  /**
   * Deletion goes by date, regeneration by time: when the template fired earlier today,
   * before `now`, and fires no more today, a regeneration leaves it with no task today, even
   * though its incomplete task for today existed before.
   */
  lemma RegenerateLosesEarlierToday(lib: CronLib, tasks: seq<Task>, templates: seq<Template>, templateId: int, today: Day, now: Instant)
    requires Increasing(lib)
    requires HasTask(tasks, templateId, today)
    requires forall x :: x in tasks && x.templateId == Some(templateId) && x.dueDate == today ==> !x.isCompleted
    requires forall t, o ::
               (t in templates && t.isActive && t.id == templateId
                && o in OccurrencesInRange(lib, t, now, now + REGENERATE_DAYS * MINUTES_PER_DAY)) ==> DayOf(o) != today
    ensures var kept := DeleteFutureIncomplete(tasks, templateId, today);
      !HasTask(Materialize(lib, kept, ActiveTemplates(templates), now, now + REGENERATE_DAYS * MINUTES_PER_DAY), templateId, today)
  {
    var kept := DeleteFutureIncomplete(tasks, templateId, today);
    var endDate := now + REGENERATE_DAYS * MINUTES_PER_DAY;
    var r := Materialize(lib, kept, ActiveTemplates(templates), now, endDate);
    GenerateSpec(lib, kept, templates, now, endDate);
    forall i | 0 <= i < |r| && r[i].templateId == Some(templateId)
      ensures r[i].dueDate != today
    {
      if i < |kept| {
        assert kept[i] in kept;
      } else {
        assert FromActiveTemplate(lib, r[i], templates, now, endDate);
        var t, o :| t in templates && t.isActive && o in OccurrencesInRange(lib, t, now, endDate)
          && r[i].templateId == Some(t.id) && r[i].dueDate == DayOf(o);
      }
    }
  }

  // ---------------------------------------------------------------------------------
  // The task range query

  /** The date filter of get_tasks; an absent bound leaves that side open. */
  predicate InRange(task: Task, start: Option<Day>, end: Option<Day>) {
    (start.None? || start.value <= task.dueDate) && (end.None? || task.dueDate <= end.value)
  }

  /** SQLite sorts NULL before any value in ascending order. */
  function TimeRank(t: Option<TimeOfDay>): int {
    if t.None? then -1 else t.value
  }

  /** `ORDER BY due_date, due_time, priority`: a may come before b. */
  predicate DueOrder(a: Task, b: Task) {
    || a.dueDate < b.dueDate
    || (a.dueDate == b.dueDate && TimeRank(a.dueTime) < TimeRank(b.dueTime))
    || (a.dueDate == b.dueDate && TimeRank(a.dueTime) == TimeRank(b.dueTime) && a.priority <= b.priority)
  }

  predicate SortedByDue(s: seq<Task>) {
    forall i, j :: 0 <= i < j < |s| ==> DueOrder(s[i], s[j])
  }

  function FilterRange(tasks: seq<Task>, start: Option<Day>, end: Option<Day>): (r: seq<Task>)
    ensures forall x :: multiset(r)[x] == if InRange(x, start, end) then multiset(tasks)[x] else 0
  {
    if tasks == [] then []
    else
      assert tasks == [tasks[0]] + tasks[1..];
      (if InRange(tasks[0], start, end) then [tasks[0]] else []) + FilterRange(tasks[1..], start, end)
  }

  /** The ordering is total and transitive, as an ORDER BY on three columns is. */
  lemma DueOrderTotal(a: Task, b: Task, c: Task)
    ensures DueOrder(a, b) || DueOrder(b, a)
    ensures DueOrder(a, b) && DueOrder(b, c) ==> DueOrder(a, c)
  {
  }

  function InsertByDue(x: Task, s: seq<Task>): (r: seq<Task>)
    ensures multiset(r) == multiset(s) + multiset{x}
  {
    if s == [] then [x]
    else if DueOrder(x, s[0]) then [x] + s
    else
      assert s == [s[0]] + s[1..];
      [s[0]] + InsertByDue(x, s[1..])
  }

  lemma {:induction false} InsertByDueSorted(x: Task, s: seq<Task>)
    requires SortedByDue(s)
    ensures SortedByDue(InsertByDue(x, s))
    decreases |s|
  {
    if s != [] {
      var r := InsertByDue(x, s);
      if DueOrder(x, s[0]) {
        forall j | 1 <= j < |r| ensures DueOrder(x, r[j]) {
          DueOrderTotal(x, s[0], r[j]);
        }
      } else {
        var rest := InsertByDue(x, s[1..]);
        InsertByDueSorted(x, s[1..]);
        DueOrderTotal(x, s[0], x);
        forall j | 0 <= j < |rest| ensures DueOrder(s[0], rest[j]) {
          assert rest[j] in multiset(rest);
          assert rest[j] == x || rest[j] in multiset(s[1..]);
          if rest[j] != x {
            assert rest[j] in s[1..];
            var k :| 0 <= k < |s[1..]| && s[1..][k] == rest[j];
            assert s[k + 1] == rest[j];
          }
        }
        assert r == [s[0]] + rest;
      }
    }
  }

  /** The database's ORDER BY, as an insertion sort; rows that compare equal keep table order. */
  function SortByDue(s: seq<Task>): (r: seq<Task>)
    ensures SortedByDue(r)
    ensures multiset(r) == multiset(s)
  {
    if s == [] then []
    else
      assert s == [s[0]] + s[1..];
      var rest := SortByDue(s[1..]);
      InsertByDueSorted(s[0], rest);
      InsertByDue(s[0], rest)
  }

  /**
   * get_tasks: every row inside the optional date bounds, as many times as it occurs in the
   * table, and no other, in (due_date, due_time, priority) order.
   */
  function GetTasks(tasks: seq<Task>, start: Option<Day>, end: Option<Day>): (r: seq<Task>)
    ensures SortedByDue(r)
    ensures forall x :: multiset(r)[x] == if InRange(x, start, end) then multiset(tasks)[x] else 0
  {
    SortByDue(FilterRange(tasks, start, end))
  }

  // ---------------------------------------------------------------------------------
  // Week and month views

  /** One day of a view: its date and the tasks due on it. */
  datatype DayBucket = DayBucket(date: Day, tasks: seq<Task>)

  /** The tasks of `tasks` due on day d, in their order. */
  function TasksOn(tasks: seq<Task>, d: Day): seq<Task> {
    if tasks == [] then []
    else TasksOn(tasks[..|tasks| - 1], d) + (if tasks[|tasks| - 1].dueDate == d then [tasks[|tasks| - 1]] else [])
  }

  /**
   * A day's tasks are exactly the tasks due that day, as many times as they occur, and a day
   * of an ordered list is ordered.
   */
  lemma {:induction false} TasksOnSpec(tasks: seq<Task>, d: Day)
    ensures forall x :: multiset(TasksOn(tasks, d))[x] == if x.dueDate == d then multiset(tasks)[x] else 0
    ensures SortedByDue(tasks) ==> SortedByDue(TasksOn(tasks, d))
    ensures forall x :: x in TasksOn(tasks, d) ==> x in tasks
    decreases |tasks|
  {
    if tasks != [] {
      var init := tasks[..|tasks| - 1];
      var last := tasks[|tasks| - 1];
      assert tasks == init + [last];
      TasksOnSpec(init, d);
      var r := TasksOn(tasks, d);
      if SortedByDue(tasks) {
        assert SortedByDue(init);
        if last.dueDate == d {
          forall i | 0 <= i < |r| - 1 ensures DueOrder(r[i], last) {
            assert r[i] in init;
          }
        }
      }
    }
  }

  /**
   * The dictionary get_week_data and get_month_data build: one bucket per day from `first`
   * to `last`, created in date order by the `while current <= last` loop, then each task of
   * `tasks` appended to the bucket of its due date when there is one.
   */
  method BucketByDay(tasks: seq<Task>, first: Day, last: Day) returns (days: seq<DayBucket>)
    requires first <= last
    ensures |days| == last - first + 1
    ensures forall k :: 0 <= k < |days| ==> days[k].date == first + k && days[k].tasks == TasksOn(tasks, first + k)
  {
    days := [];
    var current := first;
    while current <= last
      invariant first <= current <= last + 1
      invariant |days| == current - first
      invariant forall k :: 0 <= k < |days| ==> days[k] == DayBucket(first + k, [])
    {
      days := days + [DayBucket(current, [])];
      current := current + 1;
    }
    for i := 0 to |tasks|
      invariant |days| == last - first + 1
      invariant forall k :: 0 <= k < |days| ==> days[k].date == first + k && days[k].tasks == TasksOn(tasks[..i], first + k)
    {
      var task := tasks[i];
      assert tasks[..i + 1][..i] == tasks[..i];
      if first <= task.dueDate <= last {
        var k := task.dueDate - first;
        days := days[k := days[k].(tasks := days[k].tasks + [task])];
      }
    }
    assert tasks[..|tasks|] == tasks;
  }

  /**
   * Bucket d of a view over [first, last] holds exactly the table's tasks due on d, as many
   * times as they occur, in (due_time, priority) order.
   */
  lemma ViewBucketSpec(tasks: seq<Task>, first: Day, last: Day, d: Day)
    requires first <= d <= last
    ensures var bucket := TasksOn(GetTasks(tasks, Some(first), Some(last)), d);
      && SortedByDue(bucket)
      && forall x :: multiset(bucket)[x] == if x.dueDate == d then multiset(tasks)[x] else 0
  {
    TasksOnSpec(GetTasks(tasks, Some(first), Some(last)), d);
  }

  datatype WeekView = WeekView(start: Day, end: Day, days: seq<DayBucket>)

  /**
   * get_week_data: the Monday-to-Sunday week of `target`, its seven days in order, each with
   * the tasks due on it; None when the week runs past 9999-12-31.
   */
  method WeekData(tasks: seq<Task>, target: Day) returns (r: Option<WeekView>)
    requires ValidDay(target)
    ensures r.None? <==> WeekBounds(target).None?
    ensures r.Some? ==>
      && (r.value.start, r.value.end) == WeekBounds(target).value
      && Weekday(r.value.start) == 0 && r.value.start <= target <= r.value.end
      && |r.value.days| == 7
      && forall k :: 0 <= k < 7 ==>
           r.value.days[k].date == r.value.start + k
           && r.value.days[k].tasks == TasksOn(GetTasks(tasks, Some(r.value.start), Some(r.value.end)), r.value.start + k)
  {
    var bounds := WeekBounds(target);
    if bounds.None? {
      return None;
    }
    WeekBoundsSpec(target);
    var (startOfWeek, endOfWeek) := bounds.value;
    var weekTasks := GetTasks(tasks, Some(startOfWeek), Some(endOfWeek));
    var days := BucketByDay(weekTasks, startOfWeek, endOfWeek);
    r := Some(WeekView(startOfWeek, endOfWeek, days));
  }

  datatype MonthView = MonthView(year: int, month: int, firstDay: Day, lastDay: Day, days: seq<DayBucket>)

  /**
   * get_month_data: every day of the month in order, bucket k being day k + 1 of the month,
   * each with the tasks due on it; None when Python cannot build the month's dates.
   */
  method MonthData(tasks: seq<Task>, year: int, month: int) returns (r: Option<MonthView>)
    ensures r.None? <==> !(1 <= year <= MAX_YEAR && 1 <= month <= 12) || (year == MAX_YEAR && month == 12)
    ensures r.Some? ==>
      && 1 <= month <= 12
      && r.value.year == year && r.value.month == month
      && r.value.firstDay == Ordinal(year, month, 1)
      && r.value.lastDay == Ordinal(year, month, DaysInMonth(year, month))
      && |r.value.days| == DaysInMonth(year, month)
      && forall k :: 0 <= k < |r.value.days| ==>
           r.value.days[k].date == Ordinal(year, month, k + 1)
           && r.value.days[k].tasks == TasksOn(GetTasks(tasks, Some(r.value.firstDay), Some(r.value.lastDay)), r.value.days[k].date)
  {
    MonthBoundsSpec(year, month);
    var bounds := MonthBounds(year, month);
    if bounds.None? {
      return None;
    }
    var (firstDay, lastDay) := bounds.value;
    var monthTasks := GetTasks(tasks, Some(firstDay), Some(lastDay));
    var days := BucketByDay(monthTasks, firstDay, lastDay);
    r := Some(MonthView(year, month, firstDay, lastDay, days));
  }
}
