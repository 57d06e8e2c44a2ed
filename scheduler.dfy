/**
 * Materialisation of recurring templates into task rows, and two cron helpers the module
 * also defines (validation and a preview of the next firings), which no route calls.
 */
module Scheduler {

  import opened Wrappers
  import opened Calendar
  import opened Cron
  import opened Models

  /** `TaskTemplate.query.filter_by(is_active=True).all()`, in table order. */
  function ActiveTemplates(templates: seq<Template>): (r: seq<Template>)
    ensures forall t :: t in r <==> t in templates && t.isActive
    ensures |r| <= |templates|
  {
    if templates == [] then []
    else (if templates[0].isActive then [templates[0]] else []) + ActiveTemplates(templates[1..])
  }

  /** `Task.query.filter_by(template_id=tid, due_date=d).first()` finds a row. */
  predicate HasTask(tasks: seq<Task>, tid: int, d: Day) {
    exists i :: 0 <= i < |tasks| && tasks[i].templateId == Some(tid) && tasks[i].dueDate == d
  }

  /** The id the store gives the next inserted row: one more than the largest id, 1 in an empty table. */
  function NextId(tasks: seq<Task>): (id: int)
    ensures id >= 1
    ensures forall i :: 0 <= i < |tasks| ==> tasks[i].id < id
  {
    if tasks == [] then 1 else Max(NextId(tasks[..|tasks| - 1]), tasks[|tasks| - 1].id + 1)
  }

  /** One occurrence: insert its task unless the template already has a task on that date. */
  function InsertOccurrence(tasks: seq<Task>, t: Template, occurrence: Instant): seq<Task> {
    if HasTask(tasks, t.id, DayOf(occurrence)) then tasks
    else tasks + [NewTask(t, occurrence, NextId(tasks))]
  }

  /** The inner loop of generate_tasks_for_range: the occurrences of one template, in order. */
  function AddOccurrences(tasks: seq<Task>, t: Template, occurrences: seq<Instant>): seq<Task>
    decreases |occurrences|
  {
    if occurrences == [] then tasks
    else AddOccurrences(InsertOccurrence(tasks, t, occurrences[0]), t, occurrences[1..])
  }

  /**
   * The outer loop: every template of `templates` in order, each over its occurrences in
   * [start, end]. Each existence check sees the rows inserted before it in the same call.
   */
  function Materialize(lib: CronLib, tasks: seq<Task>, templates: seq<Template>, start: Instant, end: Instant): seq<Task>
    requires Increasing(lib)
    decreases |templates|
  {
    if templates == [] then tasks
    else
      var t := templates[0];
      Materialize(lib, AddOccurrences(tasks, t, OccurrencesInRange(lib, t, start, end)), templates[1..], start, end)
  }

  /**
   * The body of the inner loop of generate_tasks_for_range: look for a task of the template
   * on the occurrence's date and insert one when there is none.
   */
  method InsertIfMissing(db: Database, template: Template, occurrence: Instant) returns (inserted: bool)
    requires db.Valid()
    modifies db
    ensures db.Valid() && db.templates == old(db.templates)
    ensures db.tasks == InsertOccurrence(old(db.tasks), template, occurrence)
    ensures inserted <==> !HasTask(old(db.tasks), template.id, DayOf(occurrence))
  {
    var existing := HasTask(db.tasks, template.id, DayOf(occurrence));
    inserted := !existing;
    if inserted {
      var task := NewTask(template, occurrence, NextId(db.tasks));
      AppendKeepsIds(db.tasks, task);
      db.tasks := db.tasks + [task];
    }
  }

  /** The inner loop of generate_tasks_for_range: one template's occurrences, in order. */
  method AddTemplateTasks(db: Database, template: Template, occurrences: seq<Instant>) returns (count: int)
    requires db.Valid()
    modifies db
    ensures db.Valid() && db.templates == old(db.templates)
    ensures db.tasks == AddOccurrences(old(db.tasks), template, occurrences)
    ensures count == |db.tasks| - |old(db.tasks)|
  {
    count := 0;
    for j := 0 to |occurrences|
      invariant db.Valid() && db.templates == old(db.templates)
      invariant AddOccurrences(db.tasks, template, occurrences[j..]) == AddOccurrences(old(db.tasks), template, occurrences)
      invariant count == |db.tasks| - |old(db.tasks)|
    {
      AddOccurrencesStep(db.tasks, template, occurrences, j);
      var inserted := InsertIfMissing(db, template, occurrences[j]);
      if inserted {
        count := count + 1;
      }
    }
    assert occurrences[|occurrences|..] == [];
  }

  /** generate_tasks_for_range as it runs against the store. */
  method GenerateTasksForRange(db: Database, lib: CronLib, startDate: Instant, endDate: Instant)
    returns (generatedCount: int)
    requires Increasing(lib)
    requires db.Valid()
    modifies db
    ensures db.Valid()
    ensures db.templates == old(db.templates)
    ensures db.tasks == Materialize(lib, old(db.tasks), ActiveTemplates(db.templates), startDate, endDate)
    ensures generatedCount == |db.tasks| - |old(db.tasks)|
  {
    var templates := ActiveTemplates(db.templates);
    generatedCount := 0;
    for i := 0 to |templates|
      invariant db.Valid() && db.templates == old(db.templates)
      invariant Materialize(lib, db.tasks, templates[i..], startDate, endDate)
                == Materialize(lib, old(db.tasks), templates, startDate, endDate)
      invariant generatedCount == |db.tasks| - |old(db.tasks)|
    {
      MaterializeStep(lib, db.tasks, templates, i, startDate, endDate);
      var occurrences := GetOccurrencesInRange(lib, templates[i], startDate, endDate);
      var count := AddTemplateTasks(db, templates[i], occurrences);
      generatedCount := generatedCount + count;
    }
    assert templates[|templates|..] == [];
  }

  lemma AddOccurrencesStep(tasks: seq<Task>, t: Template, occurrences: seq<Instant>, j: nat)
    requires j < |occurrences|
    ensures AddOccurrences(tasks, t, occurrences[j..])
            == AddOccurrences(InsertOccurrence(tasks, t, occurrences[j]), t, occurrences[j + 1..])
  {
    assert occurrences[j..][1..] == occurrences[j + 1..];
  }

  lemma MaterializeStep(lib: CronLib, tasks: seq<Task>, templates: seq<Template>, i: nat, start: Instant, end: Instant)
    requires Increasing(lib)
    requires i < |templates|
    ensures Materialize(lib, tasks, templates[i..], start, end)
            == Materialize(lib, AddOccurrences(tasks, templates[i], OccurrencesInRange(lib, templates[i], start, end)),
                           templates[i + 1..], start, end)
  {
    assert templates[i..][1..] == templates[i + 1..];
  }

  /** How far ahead generation runs at startup and in the daily midnight job. */
  const LOOKAHEAD_DAYS: int := 7

  /**
   * generate_daily_tasks, and the generation init_scheduler runs at startup: generation over
   * [now, now + 7 days]. The timer that calls it is not modelled.
   */
  method GenerateDailyTasks(db: Database, lib: CronLib, now: Instant) returns (generatedCount: int)
    requires Increasing(lib)
    requires db.Valid()
    modifies db
    ensures db.Valid() && db.templates == old(db.templates)
    ensures db.tasks == Materialize(lib, old(db.tasks), ActiveTemplates(db.templates), now, now + LOOKAHEAD_DAYS * MINUTES_PER_DAY)
    ensures generatedCount == |db.tasks| - |old(db.tasks)|
  {
    generatedCount := GenerateTasksForRange(db, lib, now, now + LOOKAHEAD_DAYS * MINUTES_PER_DAY);
  }

  /** A row given the next id does not clash with an existing id. */
  lemma AppendKeepsIds(tasks: seq<Task>, task: Task)
    requires DistinctTaskIds(tasks)
    requires task.id == NextId(tasks)
    ensures DistinctTaskIds(tasks + [task])
  {
  }

  /** A row inserted for occurrence `o` of template `t`, right after the rows `prefix`. */
  ghost predicate InsertedFor(prefix: seq<Task>, row: Task, t: Template, o: Instant) {
    row == NewTask(t, o, NextId(prefix)) && !HasTask(prefix, t.id, DayOf(o))
  }

  /** Row `j` of `r` was inserted for an occurrence of one of `templates`. */
  ghost predicate GeneratedBy(lib: CronLib, r: seq<Task>, j: int, templates: seq<Template>, start: Instant, end: Instant)
    requires Increasing(lib)
    requires 0 <= j < |r|
  {
    exists k, o :: 0 <= k < |templates| && o in OccurrencesInRange(lib, templates[k], start, end)
                   && InsertedFor(r[..j], r[j], templates[k], o)
  }

  lemma HasTaskGrows(a: seq<Task>, b: seq<Task>, tid: int, d: Day)
    requires a <= b
    requires HasTask(a, tid, d)
    ensures HasTask(b, tid, d)
  {
    var i :| 0 <= i < |a| && a[i].templateId == Some(tid) && a[i].dueDate == d;
    assert b[i] == a[i];
  }

  /**
   * One template's pass keeps the existing rows, appends only rows for its occurrences whose
   * date had no row of that template yet, and leaves a row for every occurrence's date.
   */
  lemma {:induction false} AddOccurrencesSpec(tasks: seq<Task>, t: Template, occurrences: seq<Instant>)
    ensures var r := AddOccurrences(tasks, t, occurrences);
      && tasks <= r
      && (forall j :: |tasks| <= j < |r| ==> exists o :: o in occurrences && InsertedFor(r[..j], r[j], t, o))
      && (forall o :: o in occurrences ==> HasTask(r, t.id, DayOf(o)))
    decreases |occurrences|
  {
    if occurrences != [] {
      var o0 := occurrences[0];
      var step := InsertOccurrence(tasks, t, o0);
      var r := AddOccurrences(step, t, occurrences[1..]);
      AddOccurrencesSpec(step, t, occurrences[1..]);
      assert tasks <= step;
      assert HasTask(step, t.id, DayOf(o0)) by {
        if !HasTask(tasks, t.id, DayOf(o0)) {
          assert step[|tasks|].templateId == Some(t.id) && step[|tasks|].dueDate == DayOf(o0);
        }
      }
      HasTaskGrows(step, r, t.id, DayOf(o0));
      forall j | |tasks| <= j < |r|
        ensures exists o :: o in occurrences && InsertedFor(r[..j], r[j], t, o)
      {
        if j < |step| {
          assert r[..j] == tasks && r[j] == step[j];
          assert InsertedFor(r[..j], r[j], t, o0);
        } else {
          var o :| o in occurrences[1..] && InsertedFor(r[..j], r[j], t, o);
          assert o in occurrences;
        }
      }
    }
  }

  /** A pass over occurrences that all have a row already inserts nothing. */
  lemma {:induction false} AddOccurrencesNoop(tasks: seq<Task>, t: Template, occurrences: seq<Instant>)
    requires forall o :: o in occurrences ==> HasTask(tasks, t.id, DayOf(o))
    ensures AddOccurrences(tasks, t, occurrences) == tasks
    decreases |occurrences|
  {
    if occurrences != [] {
      assert occurrences[0] in occurrences;
      AddOccurrencesNoop(tasks, t, occurrences[1..]);
    }
  }

  /**
   * The whole run keeps every existing row unchanged and in place, appends only rows
   * generated for some occurrence of some template of the run whose (template, date) had no
   * row yet, counting those added earlier in the run, and leaves a row for every occurrence.
   */
  lemma {:induction false} MaterializeSpec(lib: CronLib, tasks: seq<Task>, templates: seq<Template>, start: Instant, end: Instant)
    requires Increasing(lib)
    ensures var r := Materialize(lib, tasks, templates, start, end);
      && tasks <= r
      && (forall j :: |tasks| <= j < |r| ==> GeneratedBy(lib, r, j, templates, start, end))
      && (forall k, o :: 0 <= k < |templates| && o in OccurrencesInRange(lib, templates[k], start, end) ==>
            HasTask(r, templates[k].id, DayOf(o)))
    decreases |templates|
  {
    if templates != [] {
      var t := templates[0];
      var occ := OccurrencesInRange(lib, t, start, end);
      var step := AddOccurrences(tasks, t, occ);
      var rest := templates[1..];
      var r := Materialize(lib, step, rest, start, end);
      AddOccurrencesSpec(tasks, t, occ);
      MaterializeSpec(lib, step, rest, start, end);
      forall j | |tasks| <= j < |r|
        ensures GeneratedBy(lib, r, j, templates, start, end)
      {
        if j < |step| {
          assert r[..j] == step[..j] && r[j] == step[j];
          var o :| o in occ && InsertedFor(step[..j], step[j], t, o);
          assert 0 < |templates| && templates[0] == t;
          assert InsertedFor(r[..j], r[j], templates[0], o);
        } else {
          assert GeneratedBy(lib, r, j, rest, start, end);
          var k, o :| 0 <= k < |rest| && o in OccurrencesInRange(lib, rest[k], start, end)
                      && InsertedFor(r[..j], r[j], rest[k], o);
          assert rest[k] == templates[k + 1];
        }
      }
      forall k, o | 0 <= k < |templates| && o in OccurrencesInRange(lib, templates[k], start, end)
        ensures HasTask(r, templates[k].id, DayOf(o))
      {
        if k == 0 {
          HasTaskGrows(step, r, t.id, DayOf(o));
        } else {
          assert templates[k] == rest[k - 1];
        }
      }
    }
  }

  /** A run whose occurrences all have rows already inserts nothing. */
  lemma {:induction false} MaterializeNoop(lib: CronLib, tasks: seq<Task>, templates: seq<Template>, start: Instant, end: Instant)
    requires Increasing(lib)
    requires forall k, o :: 0 <= k < |templates| && o in OccurrencesInRange(lib, templates[k], start, end) ==>
      HasTask(tasks, templates[k].id, DayOf(o))
    ensures Materialize(lib, tasks, templates, start, end) == tasks
    decreases |templates|
  {
    if templates != [] {
      var t := templates[0];
      AddOccurrencesNoop(tasks, t, OccurrencesInRange(lib, t, start, end));
      var rest := templates[1..];
      forall k, o | 0 <= k < |rest| && o in OccurrencesInRange(lib, rest[k], start, end)
        ensures HasTask(tasks, rest[k].id, DayOf(o))
      {
        assert rest[k] == templates[k + 1];
      }
      MaterializeNoop(lib, tasks, rest, start, end);
    }
  }

  /** Running generation a second time over the same templates and range inserts nothing. */
  lemma MaterializeIdempotent(lib: CronLib, tasks: seq<Task>, templates: seq<Template>, start: Instant, end: Instant)
    requires Increasing(lib)
    ensures var once := Materialize(lib, tasks, templates, start, end);
      Materialize(lib, once, templates, start, end) == once
  {
    MaterializeSpec(lib, tasks, templates, start, end);
    MaterializeNoop(lib, Materialize(lib, tasks, templates, start, end), templates, start, end);
  }

  /** At most one row per (template, due date) among the rows that belong to a template. */
  ghost predicate UniqueTemplateDates(tasks: seq<Task>) {
    forall i, j :: 0 <= i < j < |tasks| && tasks[i].templateId.Some? && tasks[i].templateId == tasks[j].templateId
      ==> tasks[i].dueDate != tasks[j].dueDate
  }

  /**
   * Generation never duplicates a (template, due date) pair, also not among its own rows,
   * and never reuses a row id: a table without duplicates keeps none after it.
   */
  lemma MaterializeKeepsKeys(lib: CronLib, tasks: seq<Task>, templates: seq<Template>, start: Instant, end: Instant)
    requires Increasing(lib)
    ensures var r := Materialize(lib, tasks, templates, start, end);
      && (UniqueTemplateDates(tasks) ==> UniqueTemplateDates(r))
      && (DistinctTaskIds(tasks) ==> DistinctTaskIds(r))
      && (forall i, j :: 0 <= i < j < |r| && |tasks| <= j && r[i].templateId == r[j].templateId ==> r[i].dueDate != r[j].dueDate)
  {
    var r := Materialize(lib, tasks, templates, start, end);
    MaterializeSpec(lib, tasks, templates, start, end);
    forall i, j | 0 <= i < j < |r| && |tasks| <= j
      ensures r[i].templateId == r[j].templateId ==> r[i].dueDate != r[j].dueDate
      ensures r[i].id != r[j].id
    {
      assert GeneratedBy(lib, r, j, templates, start, end);
      var k, o :| 0 <= k < |templates| && o in OccurrencesInRange(lib, templates[k], start, end)
                  && InsertedFor(r[..j], r[j], templates[k], o);
      assert r[..j][i] == r[i];
    }
  }

  /**
   * `row` is the task generated for an occurrence `o` of an active template `t` of the table:
   * it copies the title and description, takes the date and time of `o`, links to `t`, is
   * not completed and has the default priority.
   */
  ghost predicate FromActiveTemplate(lib: CronLib, row: Task, templates: seq<Template>, start: Instant, end: Instant)
    requires Increasing(lib)
  {
    exists t, o :: t in templates && t.isActive && o in OccurrencesInRange(lib, t, start, end)
      && row.templateId == Some(t.id) && row.title == t.title && row.description == t.description
      && row.dueDate == DayOf(o) && row.dueTime == Some(TimeOf(o))
      && !row.isCompleted && row.completedAt.None? && row.priority == DEFAULT_PRIORITY
  }

  /**
   * generate_tasks_for_range against a whole template table: the existing rows stay as they
   * were; every new row belongs to an active template and copies its title and description,
   * takes the date and time of one of its occurrences, is not completed and has the default
   * priority; and every occurrence of every active template has a row.
   */
  lemma GenerateSpec(lib: CronLib, tasks: seq<Task>, templates: seq<Template>, start: Instant, end: Instant)
    requires Increasing(lib)
    ensures var r := Materialize(lib, tasks, ActiveTemplates(templates), start, end);
      && tasks <= r
      && (forall j :: |tasks| <= j < |r| ==> FromActiveTemplate(lib, r[j], templates, start, end))
      && (forall t, o :: t in templates && t.isActive && o in OccurrencesInRange(lib, t, start, end) ==>
            HasTask(r, t.id, DayOf(o)))
  {
    var active := ActiveTemplates(templates);
    var r := Materialize(lib, tasks, active, start, end);
    MaterializeSpec(lib, tasks, active, start, end);
    forall j | |tasks| <= j < |r|
      ensures FromActiveTemplate(lib, r[j], templates, start, end)
    {
      assert GeneratedBy(lib, r, j, active, start, end);
      var k, o :| 0 <= k < |active| && o in OccurrencesInRange(lib, active[k], start, end)
                  && InsertedFor(r[..j], r[j], active[k], o);
      assert active[k] in active;
    }
    forall t, o | t in templates && t.isActive && o in OccurrencesInRange(lib, t, start, end)
      ensures HasTask(r, t.id, DayOf(o))
    {
      assert t in active;
      var k :| 0 <= k < |active| && active[k] == t;
    }
  }

  /** parse_cron_expression: no message exactly when croniter accepts the expression. */
  function ParseCronExpression(lib: CronLib, expr: string): (error: Option<string>)
    ensures error.None? <==> lib.accepts(expr)
  {
    if lib.accepts(expr) then None else Some(lib.message(expr))
  }

  /** `n` successive get_next results from `from`, None as soon as one raises. */
  function Successors(lib: CronLib, expr: string, from: Instant, n: nat): Option<seq<Instant>>
    decreases n
  {
    if n == 0 then Some([])
    else
      match Successors(lib, expr, from, n - 1)
      case None => None
      case Some(s) =>
        var last := if s == [] then from else s[|s| - 1];
        match lib.nextAfter(expr, last)
        case None => None
        case Some(x) => Some(s + [x])
  }

  /** Once a get_next has raised, asking for more firings fails too. */
  lemma {:induction false} SuccessorsStayFailed(lib: CronLib, expr: string, from: Instant, n: nat, m: nat)
    requires n <= m
    requires Successors(lib, expr, from, n).None?
    ensures Successors(lib, expr, from, m).None?
    decreases m
  {
    if n < m {
      SuccessorsStayFailed(lib, expr, from, n, m - 1);
    }
  }

  /** get_next_occurrences: the whole list, or [] when croniter rejects the expression or any get_next raises. */
  function NextOccurrences(lib: CronLib, expr: string, now: Instant, count: int): seq<Instant> {
    if !lib.accepts(expr) then []
    else
      match Successors(lib, expr, now, if count <= 0 then 0 else count)
      case None => []
      case Some(s) => s
  }

  /**
   * Successful successors are exactly n get_next steps: the first from `from`, each next one
   * from the one before, and so strictly increasing after `from`.
   */
  lemma {:induction false} SuccessorsSpec(lib: CronLib, expr: string, from: Instant, n: nat)
    requires Increasing(lib)
    ensures Successors(lib, expr, from, n).Some? ==>
      var s := Successors(lib, expr, from, n).value;
      && |s| == n
      && (n > 0 ==> lib.nextAfter(expr, from) == Some(s[0]))
      && (forall i :: 0 < i < n ==> lib.nextAfter(expr, s[i - 1]) == Some(s[i]))
      && (forall i :: 0 <= i < n ==> from < s[i])
      && (forall i, j :: 0 <= i < j < n ==> s[i] < s[j])
    decreases n
  {
    if n > 0 {
      SuccessorsSpec(lib, expr, from, n - 1);
    }
  }

  /**
   * The preview lists exactly `count` successive firings after `now`, or nothing: nothing
   * exactly when the expression is rejected, `count` is not positive, or a get_next raises.
   */
  lemma NextOccurrencesSpec(lib: CronLib, expr: string, now: Instant, count: int)
    requires Increasing(lib)
    ensures var r := NextOccurrences(lib, expr, now, count);
      && (r == [] <==> !lib.accepts(expr) || count <= 0 || Successors(lib, expr, now, count).None?)
      && (r != [] ==>
            && |r| == count
            && lib.nextAfter(expr, now) == Some(r[0])
            && (forall i :: 0 < i < |r| ==> lib.nextAfter(expr, r[i - 1]) == Some(r[i]))
            && (forall i, j :: 0 <= i < j < |r| ==> r[i] < r[j]))
  {
    if lib.accepts(expr) && count > 0 {
      SuccessorsSpec(lib, expr, now, count);
    }
  }

  /** The comprehension `[cron.get_next(datetime) for _ in range(count)]` inside its try block. */
  method GetNextOccurrences(lib: CronLib, expr: string, now: Instant, count: int) returns (r: seq<Instant>)
    ensures r == NextOccurrences(lib, expr, now, count)
  {
    if !lib.accepts(expr) {
      return [];
    }
    var n := if count <= 0 then 0 else count;
    var collected: seq<Instant> := [];
    for i := 0 to n
      invariant Successors(lib, expr, now, i) == Some(collected)
    {
      var current := if collected == [] then now else collected[|collected| - 1];
      var next := lib.nextAfter(expr, current);
      if next.None? {
        SuccessorsStayFailed(lib, expr, now, i + 1, n);
        return [];
      }
      collected := collected + [next.value];
    }
    return collected;
  }

  /** A schedule that validation rejects yields neither occurrences nor a preview. */
  lemma RejectedScheduleYieldsNothing(lib: CronLib, t: Template, start: Instant, end: Instant, now: Instant, count: int)
    requires Increasing(lib)
    requires ParseCronExpression(lib, t.cronSchedule).Some?
    ensures OccurrencesInRange(lib, t, start, end) == []
    ensures NextOccurrences(lib, t.cronSchedule, now, count) == []
    ensures GetNextOccurrence(lib, t, now).None?
  {
  }
}
