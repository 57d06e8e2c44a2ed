# Task calendar: recurrence expansion and materialisation, in Dafny

This project models the core of a small Flask task calendar. Users define recurring task
templates, each with a cron schedule and an optional window of dates. The application turns
the templates' occurrences into task rows, and shows the tasks by week and by month.

The model covers:

- **Occurrence expansion** (`TaskTemplate.get_occurrences_in_range`, module `Models`). The
  requested range is clipped to the template's start date (at midnight) and end date (at the
  end of the day). An inverted window gives nothing. Otherwise croniter's `get_next` is
  called until a firing passes the clipped end. A rejected schedule or a `get_next` that
  raises ends the list quietly.
- **Materialisation** (`generate_tasks_for_range`, module `Scheduler`). Every active template
  is walked over its occurrences. A task is inserted only when no task of that template is
  due on that date yet. Tasks inserted earlier in the same run count, because the session
  autoflushes before each query. Existing rows are never changed. The count of inserts is
  returned.
- **Regeneration, partial updates and toggles** (module `Routes`): PUT on tasks and templates,
  the two toggle endpoints, and "regenerate", which deletes a template's incomplete tasks due
  today or later and then re-runs generation for 30 days.
- **The read side** (module `Routes`): the task range query with its ordering, and the week
  and month views that put each task in the bucket of its due date.

## How the source is represented

- **Dates** are proleptic Gregorian day ordinals, as `date.toordinal` gives them (0001-01-01
  is day 1). `Calendar.Ordinal` follows CPython's construction of a date. `Calendar.Weekday`
  is `date.weekday()`, with Monday as 0.
- **Datetimes** are whole minutes. This assumes five-field schedules, which fire on whole
  minutes. For them, every comparison the source makes is between a firing and a range bound,
  so flooring `datetime.now()` to the minute changes no result, and the end of a day
  (`datetime.max.time()`) can be taken as its last minute. croniter also accepts a sixth
  field for seconds, and schedules are stored unvalidated. Such schedules are outside the
  model (see "Left out").
- **croniter** is the parameter `Cron.CronLib`. It has three parts: whether the constructor
  accepts an expression, the message of its error, and `get_next` from a given instant, with
  None when `get_next` raises. The one assumption is `Cron.Increasing`: `get_next` returns
  an instant strictly after its starting point. It is a precondition wherever termination
  needs it. The iterator is assumed to be memoryless: after returning n, it stands at n.
- **The database** is the class `Models.Database`. It holds the two tables as sequences of
  row values, in table order. Updating a row replaces it at the same position. A new task
  gets one more than the largest id in the table (SQLite's rule for an integer primary key).
- **`datetime.now()`, `date.today()` and `utcnow()`** are parameters.
- **A missing row** (HTTP 404) and **a date Python cannot build** (HTTP 500) are `None`.

## Behaviour of the code worth knowing

- Creating or updating a template does not validate the cron schedule.
  `parse_cron_expression` is a separate helper that nothing in these routes calls. A schedule
  croniter rejects is simply stored, and then yields no occurrences.
- The `(template_id, due_date)` pair is not unique in the store. No constraint enforces it,
  and `update_task` may move a generated task to any date. Generation only avoids adding a
  duplicate, and keeps a duplicate-free table free of duplicates
  (`Scheduler.MaterializeKeepsKeys`).
- Regeneration re-materialises every active template, not only the one being regenerated.
  If that template is inactive, its deleted tasks are not recreated.
- Regeneration deletes by date but recreates by time. An incomplete task due today whose
  firing was earlier than now is deleted and not recreated (`Routes.RegenerateLosesEarlierToday`).
- Occurrences are strictly after the clipped start, because `get_next` never returns its
  starting point. A firing at exactly midnight of the template's start date is not included.
- `get_occurrences_in_range` keeps the firings collected before a `get_next` error.
  `get_next_occurrences` returns `[]` when any of its `count` calls fails.
- `get_week_data` fails for dates in 9999-12-27..31, because the week would end after
  9999-12-31. `get_month_data` fails for December 9999.

## Model

| member | source | states |
|---|---|---|
| `Calendar.WeekBoundsSpec` | app/routes.py:247-249 | the week starts on the Monday on or before the target, less than 7 days before it, and ends 6 days later; only targets in 9999-12-27..31 have no week, and a found week ends before the last representable date |
| `Calendar.MonthBoundsSpec` | app/routes.py:286-291 | a month has bounds exactly for years 1..9999 and months 1..12, except December 9999; it runs from the 1st to the last calendar day of the month, spanning DaysInMonth days |
| `Calendar.DecemberStep` | app/routes.py:288-289 | the day before January 1 of the next year is December 31 |
| `Calendar.MonthStep` | app/routes.py:290-291 | the day before the first of the next month is the last day of this month |
| `Models.EffectiveStart` | app/models.py:38-43 | the clipped start is the later of the requested start and midnight of the template's start date, when there is one, and the requested start otherwise |
| `Models.EffectiveEnd` | app/models.py:45-47 | the clipped end is the earlier of the requested end and the last minute of the template's end date, when there is one, and the requested end otherwise |
| `Models.Chain` | app/models.py:54-59 | croniter's walk from a start up to an end is strictly increasing, strictly after the start and not after the end |
| `Models.ChainWalks` | app/models.py:54-59 | the walk's first element is get_next of the start, each further one is get_next of the one before, and after the last one get_next raises or passes the end |
| `Models.WalkIsChain` | app/models.py:54-59 | any sequence built by those steps is the walk, so the walk is determined by croniter alone |
| `Models.OccurrencesInRangeSpec` | app/models.py:33-62 | an inverted clipped window or a rejected schedule gives []; otherwise the occurrences are strictly increasing, inside the clipped window, inside the requested range and on dates within the template's start and end dates |
| `Models.GetOccurrencesInRange` | app/models.py:33-62 | the `while True` loop over get_next, with its early returns and its quiet stop on an error, computes exactly that walk |
| `Models.GetNextOccurrence` | app/models.py:23-31 | None for a rejected schedule; for an accepted one exactly croniter's get_next from the given instant (None when it raises), and a result is strictly after that instant |
| `Models.FirstOccurrenceIsNext` | app/models.py:23-31 | the first occurrence in a range is the next occurrence after the clipped start; for a template without dates a range has occurrences exactly when that next firing is within it |
| `Models.ToggleComplete` | app/models.py:97-100 | toggling negates is_completed; afterwards completed_at is set, to the given time, exactly when the task is completed; nothing else changes |
| `Models.ToggleTwice` | app/models.py:97-100 | toggling twice restores is_completed, and restores a consistent incomplete task exactly |
| `Models.Find` | app/routes.py:95 | the `get_or_404` lookup, used on both tables (also app/routes.py:173, 205, 214): it finds a row with the requested id, or answers None exactly when no row has it |
| `Scheduler.ActiveTemplates` | app/scheduler.py:51 | the templates generation walks are exactly the active ones |
| `Scheduler.NextId` | app/models.py:82 | a new row's id is larger than every id in the table |
| `Scheduler.InsertIfMissing` | app/scheduler.py:59-73 | the existence check and insert for one occurrence: a row is appended, with the next id, exactly when the template has no task on the occurrence's date; ids stay distinct |
| `Scheduler.AddTemplateTasks` | app/scheduler.py:57-73 | the inner loop applies that step to one template's occurrences in order and counts the rows it appended |
| `Scheduler.GenerateTasksForRange` | app/scheduler.py:46-76 | the loop over the active templates appends exactly the rows of the materialisation to the table, leaves the templates alone, keeps ids distinct, and returns the number of rows appended |
| `Scheduler.GenerateDailyTasks` | app/scheduler.py:37-43 | the daily job and the startup run generate over [now, now + 7 days] |
| `Scheduler.AddOccurrencesSpec` | app/scheduler.py:57-73 | one template's pass keeps existing rows and appends only rows for its occurrences whose date had no row of that template, counting rows it added itself; afterwards every occurrence's date has a row |
| `Scheduler.AddOccurrencesNoop` | app/scheduler.py:59-64 | when every occurrence's date already has a row, the pass inserts nothing |
| `Scheduler.MaterializeSpec` | app/scheduler.py:46-76 | the run keeps the table as a prefix, appends only new-key rows generated for some template's occurrence, and leaves a row for every occurrence of every template |
| `Scheduler.MaterializeNoop` | app/scheduler.py:59-64 | when every occurrence of every template has a row, the run inserts nothing |
| `Scheduler.MaterializeIdempotent` | app/scheduler.py:59-64 | a second run with the same templates and range leaves the table unchanged, so it returns 0 |
| `Scheduler.MaterializeKeepsKeys` | app/scheduler.py:59-72 | no inserted row shares (template_id, due_date) with any earlier row, including rows inserted in the same run; a duplicate-free table stays so, and ids stay distinct |
| `Scheduler.GenerateSpec` | app/scheduler.py:51-73 | every new row comes from an active template's occurrence: its title and description, the occurrence's date and time, a link to it, not completed, default priority; every occurrence of every active template has a row afterwards |
| `Scheduler.ParseCronExpression` | app/scheduler.py:79-86 | the result is None exactly when croniter accepts the expression, and an error message otherwise |
| `Scheduler.SuccessorsSpec` | app/scheduler.py:92-93 | n successful get_next calls give n strictly increasing firings, each get_next of the previous one |
| `Scheduler.NextOccurrencesSpec` | app/scheduler.py:89-95 | the preview is [] exactly when the expression is rejected, count is not positive or some get_next raises; otherwise it is exactly count successive firings after now |
| `Scheduler.GetNextOccurrences` | app/scheduler.py:89-95 | the comprehension inside its try block computes exactly that preview |
| `Scheduler.RejectedScheduleYieldsNothing` | app/scheduler.py:79-86 | a schedule that validation rejects yields no occurrences, no preview and no next occurrence |
| `Routes.PatchTask` | app/routes.py:98-110 | each present key overwrites its field and absent keys leave theirs; id and template link never change; a present is_completed sets completed_at exactly when true |
| `Routes.PatchTaskProperties` | app/routes.py:98-110 | a patch keeps completion consistent, applying it twice equals applying it once, and the empty payload changes nothing |
| `Routes.UpdateTask` | app/routes.py:92-113 | the row with that id is replaced in place by its patched value and no other row changes; a missing id changes nothing |
| `Routes.ToggleTask` | app/routes.py:125-131 | the row with that id is replaced by its toggled value and no other row changes; a missing id changes nothing |
| `Routes.PatchTemplate` | app/routes.py:176-187 | each present key overwrites its field; a present empty date clears it; absent keys and the id stay |
| `Routes.PatchTemplateProperties` | app/routes.py:176-187 | a template patch is idempotent and the empty payload changes nothing |
| `Routes.UpdateTemplate` | app/routes.py:170-190 | the template with that id is replaced by its patched value; tasks and other templates stay; a missing id changes nothing |
| `Routes.ToggleActive` | app/routes.py:206 | is_active is negated and nothing else changes |
| `Routes.ToggleTemplate` | app/routes.py:202-208 | the template with that id is replaced by its toggled value; tasks and other templates stay |
| `Routes.DeleteFutureIncomplete` | app/routes.py:217-222 | the delete keeps exactly the rows that are not (this template's, due today or later, incomplete) |
| `Routes.RegenerateTemplateTasks` | app/routes.py:211-230 | after the delete, generation runs over [now, now + 30 days] for every active template and its count is answered; a missing template changes nothing |
| `Routes.RegenerateSpec` | app/routes.py:216-228 | completed tasks, tasks due before today and other templates' or standalone tasks survive; only the deleted kind disappear; every added row is a template's incomplete task |
| `Routes.RegenerateLosesEarlierToday` | app/routes.py:217-228 | when the template had an incomplete task today and fires no more today after now, regeneration leaves it with no task today |
| `Routes.FilterRange` | app/routes.py:54-60 | the filter keeps each row as often as it occurs when start <= due_date <= end, either bound open when absent, and drops every other row |
| `Routes.DueOrderTotal` | app/routes.py:62 | the (due_date, due_time with NULL first, priority) order is total and transitive |
| `Routes.InsertByDue` | app/routes.py:62 | inserting into a sorted list adds exactly that row |
| `Routes.InsertByDueSorted` | app/routes.py:62 | inserting into a sorted list keeps it sorted |
| `Routes.SortByDue` | app/routes.py:62 | the ordering gives a sorted permutation of its input |
| `Routes.GetTasks` | app/routes.py:46-63 | get_tasks answers exactly the rows within the bounds, with their multiplicity, sorted by (due_date, due_time, priority) |
| `Routes.TasksOnSpec` | app/routes.py:268-271 | a day's list holds exactly the tasks due that day, with their multiplicity, and keeps their order |
| `Routes.BucketByDay` | app/routes.py:258-271 | the two loops build one bucket per day from first to last, in date order, each holding the tasks due that day |
| `Routes.ViewBucketSpec` | app/routes.py:252-271 | a view's bucket for day d holds exactly the table's tasks due on d, in (due_time, priority) order |
| `Routes.WeekData` | app/routes.py:241-277 | the week view has the Monday-to-Sunday bounds of the target, seven buckets for consecutive days, each the queried tasks due that day; None exactly when the week overflows |
| `Routes.MonthData` | app/routes.py:280-323 | the month view echoes the requested year and month, and has one bucket per day of the month, bucket k being day k + 1, each the queried tasks due that day; None exactly when Python cannot build the month's dates |

## Left out

- The cron language itself: croniter's parser, its field rules, `L`, steps and the way it combines day-of-month and day-of-week. croniter is a library, not part of this repository, and the model takes it as a parameter.
- APScheduler's `BackgroundScheduler`, the global `scheduler` handle and the midnight trigger (app/scheduler.py:6-26): timers and a background thread. Only the generation each run performs is modelled (`Scheduler.GenerateDailyTasks`).
- Flask routing, `request`, `jsonify`, `render_template`, HTTP status codes, and `to_dict` serialisation. String parsing and formatting with `fromisoformat`, `strptime`, `isoformat` and `strftime`, including the day and month names of the views, are also left out.
- SQLAlchemy sessions and commits. A run's inserts are one commit in the source. The model applies them in order and does not model atomicity or a failure in the middle of a run.
- Concurrent requests and generation runs. Every operation is modelled as running alone.
- The create, read and delete routes for tasks and templates, the presets route, and `generate_recurring_tasks`. These are request plumbing around the same table. The manual trigger only calls `Scheduler.GenerateTasksForRange` with the parsed range. `delete_template` is not part of this model. The relationship has no delete cascade, so SQLAlchemy sets the deleted template's tasks' `template_id` to NULL, and they become standalone tasks.
- The `created_at` and `updated_at` columns. Their only content is a timestamp of the write.
- A `null` description is not told apart from an empty one. Both are a string in the model.
- `Routes.SortByDue`: rows that compare equal keep their table order. A database may return them in any order, so the contracts state only sortedness and the multiset of rows.
- `Routes.RegenerateTemplateTasks`: the source calls `datetime.now()` twice, for the end and the start of the window. The model takes one `now` for both. It also does not model the `OverflowError` of `now + 30 days` near year 9999.
- `Models.GetOccurrencesInRange`: datetimes are whole minutes, which is exact only for five-field schedules. A six-field schedule with a seconds field, such as `0 9 * * * 30`, fires at 09:00:30. It gives a `due_time` with seconds and can fire several times in one minute. The model does not represent such firings.
- `Scheduler.GenerateDailyTasks`: the source calls `datetime.now()` twice, for the start and the end of the window (app/scheduler.py:32-33 and 41-42). The model takes one `now` for both. It also does not model the `OverflowError` of `now + 7 days` near year 9999.
