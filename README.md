# Scheduled tasks, table clean-up and tool status — a Dafny model

This project models the core of a chat assistant's task scheduler and two
small utilities next to it.

- **Trigger parsing.** A scheduled task carries a VEVENT-like trigger: a
  `DTSTART` line and an optional `RRULE` line. `_parse_dt_value`,
  `_parse_rrule` and `parse_vevent` read it into a start instant (UTC) and
  a rule dictionary. These are the modules `DateLiteral` and `Vevent`.
- **Recurrence.** `_next_run_after` walks the occurrences of the rule, from
  the start, to the first one strictly after a watermark. This is the
  module `Recurrence`. It uses civil date arithmetic (`_add_months`,
  `timedelta`, `replace(year=…)`) from the module `Civil`.
- **The task store and its tools.** `load_tasks`, `_parse_vevent_minimal`,
  `schedule_task`, `check_tasks` and `delete_task` are in the module
  `TaskStore`.
- **One scheduler tick.** `TaskScheduler._tick` loads the list, fires every
  task whose occurrence is due through the injection callback, records the
  occurrence, closes finished one-shot tasks, and saves once if anything
  changed. This is the module `Scheduler`.
- **Markdown table clean-up.** `fix_markdown_tables` redraws rule lines and
  rewrites table rows, inserting a separator after the first row of each
  table. This is the module `Table`.
- **Per-session tool status.** `statusTools.py` keeps a map from session
  id to a status record, with a context-bound id and a process-wide
  fallback id. This is the class `Status.StatusBoard`.

Python's `str` operations live in `Text`, and `Option`/`Result` in
`Wrappers`.

Instants are civil UTC date-times in years 1..9999, as Python's `datetime`
has them. Arithmetic that leaves that range is an error, as Python's
`OverflowError`/`ValueError` is. Comparing aware datetimes never
overflows, so a stored `last_run_at` stamp is kept as its UTC reading,
which may fall on 0000-12-31 or 10000-01-01 (`Civil.UtcReading`).

The loops of the source are methods proved against reference functions:

- `Vevent.ParseRrule`, `Vevent.ScanAll` and `Vevent.ParseVevent` against
  `RuleFromLine`, `ScanLines` and `TriggerOf`;
- `Recurrence.NextRunAfter` against `NextRun`;
- `TaskStore.CheckTasks` and `TaskStore.DeleteTask` against `ListingOf`
  and `Kept`;
- `Scheduler.Tick` against `TickOf`;
- `Table.FixMarkdownTables` against `Fixed`.

The lemmas then state what the source promises about those functions.

Three behaviours of the code are easy to misread; the model follows the
code:

- **UNTIL is inclusive.** An occurrence equal to UNTIL is kept, because the
  code stops only when `candidate > until_utc` (taskScheduler.py:166).
  This agrees with section 3.3.10 of RFC 5545, where UNTIL bounds the
  recurrence inclusively.
- **Monthly clamping is sticky.** Each MONTHLY step starts from the
  previous, already clamped, candidate (taskScheduler.py:158). So
  January 31 gives February 29 and then March 29, not March 31.
  `Recurrence.StickyMonthlyClamp` shows this.
- **Negative or zero INTERVAL.** Section 3.3.10 of RFC 5545 makes
  INTERVAL a positive integer, but `_parse_rrule` accepts any integer
  (taskScheduler.py:89), and `int(rrule.get("INTERVAL") or 1)` turns 0
  into 1. A negative interval walks backwards until it leaves the date
  range and raises. It never loops forever, so the model needs no
  `interval >= 1` precondition. `Recurrence.NegativeIntervalNeverOccurs`
  shows this.

## Model

| member | source | states |
|---|---|---|
| Civil.DaysInMonth | taskScheduler.py:130 | month length is 28..31, and 29 exactly for February of a Gregorian leap year |
| Civil.AddSeconds | taskScheduler.py:152-156 | adding a `timedelta` succeeds exactly when the result stays in years 1..9999, and moves the instant by exactly that many seconds |
| Civil.SecondsOrder | taskScheduler.py:141 | comparing date-times field by field agrees with comparing their second counts, so `>`/`<=` on datetimes is the time order |
| Civil.UtcReading | taskScheduler.py:219-226 | an aware value is compared by its UTC reading. Inside the range that reading is the local time minus the offset. A value whose reading falls before year 1 or after year 9999 still compares: before or after every instant, without raising |
| Civil.AddMonths | taskScheduler.py:126-132 | `_add_months` lands exactly `months` months later, and raises only when the year leaves 1..9999. The day is kept, or clamped to the last day of the target month. The time of day is kept |
| Civil.ReplaceYear | taskScheduler.py:160 | `replace(year=y)` changes only the year, and raises exactly when y is out of range or the date is Feb 29 of a non-leap target year |
| DateLiteral.AttachTz | taskScheduler.py:37-54 | naive fields are read in the TZID zone when it is known and the result is in range. Otherwise they are read in the server zone, and as UTC as a last resort |
| DateLiteral.ParseFormatUtc | taskScheduler.py:56-60 | round trip: `_parse_dt_value` of the `YYYYMMDDTHHMMSSZ` text of an instant gives that instant back, whatever the TZID and zone environment |
| Vevent.RuleBody | taskScheduler.py:81 | the rule body is the text after the first `:` of the line, or the whole line when it has none |
| Vevent.RuleOf | taskScheduler.py:87-99 | the rule keeps every parsed part; a missing INTERVAL is 1 and a missing COUNT is None |
| Vevent.RuleConversions | taskScheduler.py:87-98 | INTERVAL is `int()` of its text, and 1 when `int()` raises. COUNT is `int()` of its text, and None when `int()` raises |
| Vevent.ParseRrule | taskScheduler.py:80-99 | the loop over `;`-separated parts builds exactly the reference rule of the line |
| Vevent.LaterPartWins | taskScheduler.py:83-86 | a later `KEY=VALUE` part overrides an earlier one under the upper-cased, stripped key with the stripped value |
| Vevent.ParseRenderedRule | taskScheduler.py:80-99 | round trip: parsing `RRULE:FREQ=f;INTERVAL=n` gives FREQ f, INTERVAL n as an integer, and no COUNT |
| Vevent.ScanLine | taskScheduler.py:108-119 | a DTSTART line with a `:` sets the start value to its stripped text after the first `:`. It sets the TZID to the text after `;TZID=` in its head, and keeps the earlier TZID when the head has none. An RRULE line replaces the rule. Any other line leaves the start value and the TZID alone, and only an RRULE line changes the rule |
| Vevent.ParseVevent | taskScheduler.py:102-123 | the loop over the non-blank stripped lines yields exactly the reference trigger, or the reference error |
| Vevent.ScanAll | taskScheduler.py:107-119 | the `for ln in lines` loop leaves the TZID, DTSTART value and RRULE that the reference scan `ScanLines` gives for the same lines (the last DTSTART with a colon, its TZID or the one before, the last RRULE) |
| Vevent.NoDtstartLine | taskScheduler.py:120-121 | without a DTSTART line carrying `:`, no start value is found, so the VEVENT is rejected |
| Vevent.LastDtstartWins | taskScheduler.py:107-117 | when several DTSTART lines are present, the last one gives the start value |
| Vevent.LastRruleWins | taskScheduler.py:118-119 | when several RRULE lines are present, the last one gives the rule |
| Vevent.NoRruleLine | taskScheduler.py:106-119 | without an RRULE line there is no rule, so the trigger is a one-shot |
| Vevent.ParseRenderedVevent | taskScheduler.py:102-123 | round trip: a rendered `DTSTART:…Z` line and optional RRULE line parse back to the same start instant and rule |
| Recurrence.FreqOf | taskScheduler.py:143 | a missing or empty FREQ means DAILY |
| Recurrence.EffectiveInterval | taskScheduler.py:144 | the interval used is never 0. It is the parsed INTERVAL unless that is 0, which becomes 1 |
| Recurrence.AdvanceMoves | taskScheduler.py:149-160 | one step of a positive interval moves strictly later, and one step of a negative interval moves strictly earlier, for every frequency |
| Recurrence.NextRunAfter | taskScheduler.py:135-169 | the `while` loop returns exactly the reference outcome (an occurrence, none, or a raise) |
| Recurrence.WalkOccurrence | taskScheduler.py:149-169 | a returned occurrence is the k-th iterate of the step, strictly after the watermark. Every earlier iterate is at or before it. COUNT and UNTIL were respected |
| Recurrence.NextRunIsFirstOccurrence | taskScheduler.py:135-169 | `_next_run_after` returns the first iterate of start by INTERVAL units of FREQ that is strictly after `after`. It is the start itself exactly when the start is already later. The step count stays under COUNT and the occurrence is not after UNTIL |
| Recurrence.WalkFindsOccurrence | taskScheduler.py:149-169 | conversely, the first iterate strictly after the watermark, reached inside COUNT and not after UNTIL, is what the loop returns |
| Recurrence.NextRunFindsFirstOccurrence | taskScheduler.py:135-169 | conversely, when the start advanced k times is the first candidate after `after`, within COUNT and not after UNTIL, `_next_run_after` returns it. With `NextRunIsFirstOccurrence`, the result is exactly the first occurrence after the watermark |
| Recurrence.OneShotOccurrence | taskScheduler.py:138-141 | without a rule, the answer is the start exactly when the start is after `after`; it never raises |
| Recurrence.LaterStartReturned | taskScheduler.py:138-149 | a start already after `after` is returned as it is, without stepping |
| Recurrence.BadUntilRaises | taskScheduler.py:146-147 | an UNTIL that does not parse raises out of `_next_run_after` |
| Recurrence.UnknownFreqEndsAtOnce | taskScheduler.py:161-162 | an unknown FREQ gives no occurrence once the start is not after `after` |
| Recurrence.NegativeIntervalNeverOccurs | taskScheduler.py:144-160 | a negative INTERVAL never yields an occurrence when stepping is needed; the walk leaves the date range instead of looping forever |
| Recurrence.LateWatermarkNeverOccurs | taskScheduler.py:138-169 | a watermark after every instant is never passed: no occurrence is found, and the loop ends or raises at the edge of the range |
| Recurrence.ForwardIsLater | taskScheduler.py:149-160 | with a forward step, every iterate is at or after its origin |
| Recurrence.StickyMonthlyClamp | taskScheduler.py:157-158 | MONTHLY from Jan 31, 2024 gives Feb 29 and then Mar 29, while two months in one step give Mar 31 |
| Recurrence.LeapDayYearlyRaises | taskScheduler.py:159-160 | YEARLY from Feb 29 into a non-leap year raises instead of clamping |
| Recurrence.StuckStartRaises | taskScheduler.py:149-160 | without UNTIL, a start at or before the watermark whose first advancement leaves years 1..9999 (or has no date) raises, before COUNT is consulted |
| Recurrence.FailedStepRaises | taskScheduler.py:149-160 | a step that leaves the date range raises out of the loop |
| TaskStore.LoadTasks | taskTools.py:39-54 | a list document is the task list, a `{"tasks": [...]}` document gives its list, and every other case (missing, corrupt, other shape) is empty |
| TaskStore.SavedListLoadsBack | taskTools.py:39-58 | round trip: a saved list loads back unchanged, in either document shape |
| TaskStore.MinimalCheck | taskTools.py:61-72 | the error is "Empty VEVENT" exactly when there are no non-blank lines. It passes exactly when some stripped line starts with DTSTART and holds `:`. Otherwise it is "VEVENT missing DTSTART" |
| TaskStore.DecodableIsMinimal | taskTools.py:61-70 | every VEVENT the scheduler can decode passes the minimal check |
| TaskStore.EmptyDtstartPasses | taskTools.py:67 | `DTSTART:` with no value passes the minimal check, yet the scheduler rejects it as missing DTSTART |
| TaskStore.TargetSession | taskTools.py:93 | the stripped explicit session id is used when non-empty, otherwise the effective session id, otherwise "" |
| TaskStore.ScheduleTask | taskTools.py:76-116 | an invalid VEVENT and a missing session are reported as errors with nothing saved. Otherwise the new task (not completed, not deleted, never run) is appended to the stored list and returned without its `deleted` key |
| TaskStore.ListingOf | taskTools.py:133-143 | a listed task copies its fields and is "completed" exactly when its `completed` flag is set, and "upcoming" otherwise |
| TaskStore.VisibleMembers | taskTools.py:131 | the visible tasks are exactly the stored tasks not marked deleted |
| TaskStore.VisibleKeepsOrder | taskTools.py:131 | visible tasks keep their stored order |
| TaskStore.CheckTasks | taskTools.py:120-146 | the listing has one entry per visible task, in order, and the count is its length |
| TaskStore.ListingStatus | taskTools.py:134 | each listing entry comes from a stored, non-deleted task, and its status is "completed" exactly when that task is completed |
| TaskStore.KeptMembers | taskTools.py:157-164 | the remaining tasks are exactly the stored tasks other than the live ones with the given id |
| TaskStore.KeptKeepsOrder | taskTools.py:158-164 | the remaining tasks keep their stored order |
| TaskStore.KeptAccounts | taskTools.py:157-169 | remaining plus removed is the stored count |
| TaskStore.NothingRemoved | taskTools.py:158-166 | nothing is removed exactly when no live task has the id |
| TaskStore.KeptWhole | taskTools.py:157-164 | when no live task has the id, the list is kept whole |
| TaskStore.DeleteTask | taskTools.py:150-171 | "not found" exactly when no live task has the id, with nothing saved. Otherwise the remaining list is saved and its length reported |
| TaskStore.DeleteIsIdempotent | taskTools.py:159-164 | after a delete no live task with that id remains, so a second delete reports not found |
| Scheduler.LastRunOf | taskScheduler.py:218-221 | an absent or empty `last_run_at` is no last run, and only text `fromisoformat` rejects raises. A naive stamp is read as UTC. An aware stamp is kept and compared by its UTC reading, so a readable stamp never makes the tick raise |
| Scheduler.Watermark | taskScheduler.py:226 | the watermark is the last run when there is one. Otherwise it is one second before the start, and that subtraction raises only at the first second of year 1 |
| Scheduler.UpdatedChanges | taskScheduler.py:229-254 | only a successful injection or a close changes a task. An injection stores the scheduled instant as `last_run_at` and completes a one-shot. A close sets `completed` alone. Nothing else changes and `completed` is never reset |
| Scheduler.Decide | taskScheduler.py:206-236 | the per-task branch chain gives exactly the reference decision |
| Scheduler.Apply | taskScheduler.py:236-254 | applying a decision gives the reference update, one callback call exactly for a firing, and `changed` exactly when the task changed |
| Scheduler.Sweep | taskScheduler.py:206-262 | the loop stops at the first decision that raises. The calls made are those of the firing tasks before it. A full pass gives every task its update and `changed` exactly when some task changed |
| Scheduler.Tick | taskScheduler.py:202-265 | a tick returns the reference result: the callback calls in order, then an abort, a save of the updated list, or no save |
| Scheduler.PlanOfDecoded | taskScheduler.py:207-216 | a live task whose trigger decodes is decided by its trigger alone |
| Scheduler.FiredOccurrence | taskScheduler.py:218-236 | a fired occurrence is due (at or before now). It is strictly after the last run, or at or after the start when there was none. A one-shot fires only at its start and only when not completed. The call carries the stripped session id and the prompt |
| Scheduler.FiresIffDue | taskScheduler.py:226-236 | a task with a next occurrence fires exactly when that occurrence is at or before now, and then fires it; otherwise it is skipped |
| Scheduler.ClosedOneShot | taskScheduler.py:228-233 | only a not yet completed one-shot whose last run is not before its start is closed |
| Scheduler.RecurringNeverCompleted | taskScheduler.py:252-253 | a tick never changes `completed` of a recurring task |
| Scheduler.StampReadsBack | taskScheduler.py:219-221 | a stored `last_run_at` stamp reads back as the instant it records, when `fromisoformat` reads isoformat output back |
| Scheduler.NoRefire | taskScheduler.py:218-254 | after a successful firing, a later tick fires the task only at an occurrence strictly after the recorded one, and never fires a one-shot again |
| Scheduler.EarlyStampFiresStart | taskScheduler.py:218-236 | a stamp whose UTC reading falls before year 1 (`0001-01-01T00:00:00+01:00`) does not stop the tick: the task fires at its start once the start is due |
| Scheduler.LateStampNeverFires | taskScheduler.py:218-236 | a stamp whose UTC reading falls after year 9999 is never passed: the task never fires, and an open one-shot is closed |
| Scheduler.TickSaves | taskScheduler.py:204-265 | a tick saves only when some task changed. The saved list has the same tasks, in order, with identity, session, prompt, trigger, creation time and deletion flag unchanged and `completed` never reset. A task differs only where its decision changed it |
| Scheduler.FreshStartFires | taskScheduler.py:226-236 | a task never run whose start has passed fires its start first, after the `start - 1s` watermark |
| Scheduler.FreshOneShotFires | taskScheduler.py:202-236 | a freshly scheduled one-shot `DTSTART:…Z` task fires at its start once the start has passed |
| Scheduler.FreshRecurringFiresEarliest | taskScheduler.py:202-236 | a freshly scheduled recurring task fires its earliest occurrence (the start) first, not the latest one due |
| Scheduler.RenderedRuleHasNoUntil | taskScheduler.py:146-147 | a rendered `FREQ=…;INTERVAL=…` rule has no UNTIL, so its evaluation cannot raise on UNTIL |
| Table.TrimEdges | tableTools.py:26-30 | dropping the outer empty cells removes at most two cells and keeps only cells that were there |
| Table.RuleLineRedrawn | tableTools.py:12-17 | a rule line longer than 3 becomes its indent in spaces, then one `─` per non-whitespace character (at least one) |
| Table.CleanLineIdempotent | tableTools.py:12-17 | redrawing a redrawn line changes nothing |
| Table.PipeIsNotRule | tableTools.py:21-24 | a line holding `\|` is never a rule line, so the last row condition never decides |
| Table.ClassifiedRow | tableTools.py:19-32 | a line becomes a row only when it holds `\|` (so it is not redrawn), at least two of them, is not a numbered item, and gives at least two cells. No cell holds `\|` or starts or ends with whitespace, and two cells are non-empty. Every other line is kept as the redraw left it |
| Table.FramedLine | tableTools.py:12-32 | a line framed by `\|` is neither redrawn nor excluded by the candidate test, so it is a row exactly when more than one of its trimmed cells is non-empty |
| Table.Pass | tableTools.py:9-58 | the loop with the `in_table` flag and the `table_rows` buffer emits exactly the reference output lines. Buffered rows are flushed before the next non-row line and at the end |
| Table.FixMarkdownTables | tableTools.py:3-60 | the result is the reference output lines joined with `\n` |
| Table.LineAccounting | tableTools.py:43-58 | the output has one line per input line plus one per separator. Each input line's output sits at its position in input order, so no line is lost or reordered |
| Table.SeparatorPlacement | tableTools.py:40-42 | right after the first row of each run, when no cell holds `---` or `===`, comes a separator with as many cells as that row |
| Table.NoRowsNoSeparators | tableTools.py:43-55 | a text without table rows comes out line for line as its lines after the rule redraw |
| Table.HeaderThenRuleDoubled | tableTools.py:32-42 | only a run's first row is checked for `---`, so a header followed by a `\|---\|---\|` line is given a second separator |
| Table.ResultSplitsIntoFixed | tableTools.py:4-60 | no output line holds a newline, so splitting the result at `\n` gives back exactly the output lines |
| Status.MarkedReport | statusTools.py:31-47 | after a mark the session reads active. It shows the given label (or the type's default when the label is empty) and reports searching exactly for type `search` |
| Status.ClearedReport | statusTools.py:50-78 | after a clear the session reads active exactly until 1.2 s later. It keeps the same label, and reports searching only while lingering and only for type `search` |
| Status.NoRecordReport | statusTools.py:70-78 | a session with no record reads inactive, with label "Working…" and no searching |
| Status.ClearTwice | statusTools.py:56-65 | two clears equal one clear at the later time |
| Status.MarkThenClear | statusTools.py:31-78 | a mark then a clear shows the marked label, active and searching only until 1.2 s after the clear |
| Status.Effective | statusTools.py:26-28 | the effective id is the context-bound id when non-empty, else the fallback |
| Status.Target | statusTools.py:33-35 | a mark or clear acts only when the effective id exists and is non-empty |
| Status.StatusBoard.constructor | statusTools.py:9-11 | at import no id is bound and no session has a record |
| Status.StatusBoard.SetCurrentSessionId | statusTools.py:15-17 | binds the context id; a non-empty one becomes the effective id; the fallback and the records are untouched |
| Status.StatusBoard.SetFallbackSessionId | statusTools.py:20-23 | sets the fallback, which is then effective exactly when no non-empty context id overrides it |
| Status.StatusBoard.MarkStatus | statusTools.py:31-47 | with an effective session, only its record is replaced by the marked record, keeping the other keys. Without one, nothing changes |
| Status.StatusBoard.ClearToolStatus | statusTools.py:50-65 | with an effective session, only its record is replaced by the cleared record. Without one, nothing changes |
| Status.StatusBoard.GetToolStatus | statusTools.py:68-78 | reports searching only for an active session whose stored type is `search`; an unknown session reads inactive |
| Status.MarkAndClear | statusTools.py:31-78 | a tool's mark then clear leaves its session showing its label for the linger time, and every other session reads as before |

## Left out

- File I/O and JSON: `_atomic_write_json`, `save_tasks`, `json.load` and `os.replace` (taskTools.py:25-58). The store is an in-memory list. A save is returned as the list that would be written. Atomic rename is an operating-system guarantee.
- JSON values of any type: task fields are typed. A missing or null text field reads as empty, and `completed`/`deleted` are booleans, where the source tests Python truthiness.
- Time-zone resolution (`ZoneInfo`, the server's local zone) and `datetime.fromisoformat` (taskScheduler.py:37-54, 71-77, 219): these are library behaviour. The `Env` parameter supplies them as abstract functions.
- Clocks, ids and randomness: `datetime.now`, `time.time()`, `uuid.uuid4()` and `_now_iso_utc` are parameters (`now`, `newId`, `createdAt`).
- The asyncio lifecycle: `start`, `stop`, `_run_loop` and `__init__` (taskScheduler.py:172-200). This is concurrency and cancellation. One tick is modelled. An exception escaping it is the `Aborted` result, which `_run_loop` swallows.
- The injection callback: an oracle `ok(i)` says whether the call for the task at position `i` succeeded. Its own effects are not modelled.
- Scheduler.Tick: does not model the status side effects of a tick. These are `set_current_session_id`, `set_fallback_session_id`, and helpers that statusTools.py does not define (`mark_running_scheduled_task`, `clear_tool_status_for_session_now`). The callback call records the stripped session id instead.
- TaskStore tools: the status helpers they call (`mark_scheduling_task`, `mark_checking_tasks`, `mark_deleting_task`, `get_effective_session_id`, `clear_tool_status`) are not modelled. The effective session id is a parameter of `ScheduleTask`.
- `due_tolerance` and `DEFAULT_CHECK_INTERVAL_SECONDS`: stored but never read by the modelled code.
- Sub-second precision: instants have one-second resolution. The `fromisoformat` fallback accepts fractions such as `2025-01-01T09:00:00.250000` (taskScheduler.py:71-77), and `isoformat()` writes them back into `last_run_at` (taskScheduler.py:251). The abstract `fromisoformat` of `Env` returns whole seconds, so fractional starts and stamps are not modelled.
- Text.ParseInt: models `int()` on ASCII digits, a sign and single underscores. Other Unicode decimal digits are not accepted.
- DateLiteral.Strptime: the digit positions of the `%Y`, `%m`, `%d`, `%H`, `%M` and `%S` groups accept ASCII digits only. CPython's `_strptime` patterns use `\d`, which also matches other Unicode decimal digits, and `int()` then reads them.
- Table.IsNumberedItem: `\d` is the ASCII digits, where Python's `re` also matches other Unicode decimal digits.
- Text.Upper: upper-cases ASCII letters only. Python's `str.upper` also maps non-ASCII letters, some of them onto ASCII ones ('ı' to 'I', 'ſ' to 'S'). So the source reads `FREQ=daıly` as DAILY and the key `ınterval` as INTERVAL (taskScheduler.py:86, 143), and the model does not.
- `str.splitlines`: a line boundary splits wherever it appears. `\r\n` therefore gives an extra empty line, which the blank-line filter removes in every use here.
- Status.StatusBoard: models one execution context. `ContextVar` gives each asyncio task or thread its own `_current_session_id`, and the model keeps the value of the running context only.
- Status: clock readings are `real` parameters instead of `time.time()`. `updated_at` is stored but never read.
- The status helpers `mark_searching` … `mark_visiting_website` (statusTools.py:81-109): each is `_mark_status` with a fixed label and type, so `MarkStatus` covers them.
