/**
  One pass of `TaskScheduler._tick` (taskScheduler.py:202-265): for every
  stored task, decide whether its next occurrence is due, inject its
  prompt through the callback, record the occurrence, and save the list
  once at the end if anything changed. An exception that escapes the loop
  (an unreadable `last_run_at`, a watermark before year 1, or a raise in
  `_next_run_after`) ends the tick before the save.

  The callback is an oracle `ok`: `ok(i)` says whether injecting the task
  at position `i` succeeded. `now` and the environment `env` (time zones and
  `fromisoformat`) are inputs.
 */
module Scheduler {
  import opened Wrappers
  import opened Text
  import opened Civil
  import opened DateLiteral
  import opened Vevent
  import opened Recurrence
  import opened TaskStore

  /** What the tick does with one task. */
  datatype Decision =
    | Skip                              // left as it is
    | Close                             // a one-shot that has run and has nothing left is marked completed
    | Fire(at: Instant, oneShot: bool, call: Call)  // the occurrence `at` is due: `call` goes to the callback
    | Abort                             // an exception escapes `_tick`

  /**
    `last_run_at` read back (taskScheduler.py:219-221): absent or empty is
    no last run (`Some(None)`); text `fromisoformat` rejects raises (`None`);
    a naive value is taken as UTC. An aware value is kept as it is and
    compared by its UTC reading, which may lie just outside the range: a
    readable stamp never makes the tick raise.
   */
  function LastRunOf(text: Option<string>, env: Env): (r: Option<Option<DateTime>>)
    ensures (text.None? || text.value == "") ==> r == Some(None)
    ensures text.Some? && text.value != "" ==>
              && (r.None? <==> env.isoFallback(text.value).None?)
              && (r.Some? ==> r.value.Some?)
    ensures text.Some? && text.value != "" && env.isoFallback(text.value).Some? ==>
              var iso := env.isoFallback(text.value).value;
              && (iso.offset.None? ==> r == Some(Some(iso.fields)))
              && (iso.offset.Some? && Seconds(iso.fields) - iso.offset.value < 0 ==>
                    forall c: Instant :: Before(r.value.value, c))
              && (iso.offset.Some? && Seconds(iso.fields) - iso.offset.value >= MaxSeconds ==>
                    forall c: Instant :: Before(c, r.value.value))
              && (iso.offset.Some? && AddSeconds(iso.fields, -iso.offset.value).Some? ==>
                    r == Some(AddSeconds(iso.fields, -iso.offset.value)))
  {
    if text.None? || text.value == "" then Some(None)
    else match env.isoFallback(text.value)
      case None => None
      case Some(IsoValue(fields, None)) => Some(Some(fields))
      case Some(IsoValue(fields, Some(offset))) => Some(Some(UtcReading(fields, offset)))
  }

  /**
    `last_run or (start_utc - timedelta(seconds=1))`; None is the
    OverflowError of the first second of year 1.
   */
  function Watermark(start: Instant, last: Option<DateTime>): (w: Option<DateTime>)
    ensures last.Some? ==> w == last
    ensures last.None? ==> (w.None? <==> Seconds(start) == 0)
    ensures last.None? && w.Some? ==> Valid(w.value) && Seconds(w.value) + 1 == Seconds(start) && Before(w.value, start)
  {
    match last
    case Some(l) => Some(l)
    case None =>
      OrdinalBounds(start);
      var w := AddSeconds(start, -1);
      if w.Some? then SecondsOrder(w.value, start); w else None
  }

  /** The decision for a task: skip deleted tasks and tasks whose trigger does not decode. */
  function Plan(t: Task, now: Instant, env: Env): Decision {
    if t.deleted then Skip
    else match TriggerOf(t.vevent, env)
      case Failure(_) => Skip
      case Success(trigger) => PlanTrigger(t, trigger, now, env)
  }

  /** The decision for a live task with a decoded trigger. */
  function PlanTrigger(t: Task, trigger: Trigger, now: Instant, env: Env): Decision {
    match LastRunOf(t.lastRunAt, env)
    case None => Abort
    case Some(last) =>
      if trigger.rule.None? && t.completed then Skip
      else match Watermark(trigger.start, last)
        case None => Abort
        case Some(after) => Due(t, trigger, last, NextRun(trigger.start, trigger.rule, after, env), now)
  }

  /** The decision once `_next_run_after` has answered `next`. */
  function Due(t: Task, trigger: Trigger, last: Option<DateTime>, next: Outcome, now: Instant): Decision {
    match next
    case Raises => Abort
    case NoOccurrence => if trigger.rule.None? && !t.completed && last.Some? then Close else Skip
    case Occurs(at) => if AtOrBefore(at, now) then Fire(at, trigger.rule.None?, CallOf(t)) else Skip
  }

  /** Whether the decision sets `changed`, given the callback's success `ok`. */
  predicate Changes(d: Decision, ok: bool) {
    d.Close? || (d.Fire? && ok)
  }

  /**
    The record after the decision. Only a successful injection or a close
    changes it: the injection stores the scheduled instant (not the time it
    ran) and closes a one-shot; `completed` is never reset.
   */
  function Updated(t: Task, d: Decision, ok: bool): Task {
    match d
    case Close => t.(completed := true)
    case Fire(at, oneShot, _) =>
      if ok then t.(lastRunAt := Some(IsoFormat(at)), completed := oneShot || t.completed) else t
    case _ => t
  }

  /**
    Only a successful injection or a close changes a record: the injection
    stores the scheduled instant (not the time it ran) and closes a
    one-shot; a close sets `completed` alone. Identity, session, prompt,
    trigger, creation time and the soft-delete flag never change, and
    `completed` is never reset.
   */
  lemma UpdatedChanges(t: Task, d: Decision, ok: bool, u: Task)
    requires u == Updated(t, d, ok)
    ensures !Changes(d, ok) ==> u == t
    ensures u.id == t.id && u.sessionId == t.sessionId && u.prompt == t.prompt && u.vevent == t.vevent
    ensures u.createdAt == t.createdAt && u.deleted == t.deleted
    ensures t.completed ==> u.completed
    ensures d.Fire? && ok ==> u.lastRunAt == Some(IsoFormat(d.at)) && (u.completed <==> d.oneShot || t.completed)
    ensures d.Close? ==> u.completed && u.lastRunAt == t.lastRunAt
  {
  }

  /** A call of the injection callback: the stripped session id and the prompt. */
  datatype Call = Call(sessionId: string, prompt: string)

  function CallOf(t: Task): Call {
    Call(Strip(t.sessionId), t.prompt)
  }

  // ---------------------------------------------------------------------------
  // The loop over the task list.

  /** The decision for every task of the list, in order. */
  function Decisions(tasks: seq<Task>, now: Instant, env: Env): (ds: seq<Decision>)
    ensures |ds| == |tasks|
  {
    seq(|tasks|, i requires 0 <= i < |tasks| => Plan(tasks[i], now, env))
  }

  /** The position of the first decision that raises, or `|ds|` when none does. */
  function FirstAbort(ds: seq<Decision>): (k: nat)
    ensures k <= |ds|
    ensures forall j :: 0 <= j < k ==> !ds[j].Abort?
    ensures k < |ds| ==> ds[k].Abort?
  {
    if |ds| == 0 then 0
    else if ds[0].Abort? then 0
    else FirstAbort(ds[1..]) + 1
  }

  /** The list once the first `k` tasks have been visited: each of them updated in place by its decision. */
  function Swept(tasks: seq<Task>, ds: seq<Decision>, ok: nat -> bool, k: nat): (ts: seq<Task>)
    requires k <= |tasks| == |ds|
    ensures |ts| == |tasks|
  {
    seq(|tasks|, j requires 0 <= j < |tasks| => if j < k then Updated(tasks[j], ds[j], ok(j)) else tasks[j])
  }

  /** The callback calls made while visiting the first `k` tasks, in store order, successful or not. */
  function CallsBefore(ds: seq<Decision>, k: nat): (calls: seq<Call>)
    requires k <= |ds|
    ensures |calls| <= k
  {
    if k == 0 then []
    else CallsBefore(ds, k - 1) + (if ds[k - 1].Fire? then [ds[k - 1].call] else [])
  }

  /** Whether visiting one of the first `k` tasks set `changed`. */
  predicate ChangedBefore(ds: seq<Decision>, ok: nat -> bool, k: nat)
    requires k <= |ds|
  {
    exists j :: 0 <= j < k && Changes(ds[j], ok(j))
  }

  /** How a tick ends: it raised (nothing saved), it saved the list, or nothing changed. */
  datatype TickEnd = Aborted | Saved(tasks: seq<Task>) | NotSaved

  datatype TickResult = TickResult(calls: seq<Call>, end: TickEnd)

  /**
    `_tick` over the loaded list `tasks`: the tasks are visited in store
    order up to the first one that raises. A raise ends the tick with
    nothing saved; otherwise the list, updated in place, is saved once if
    some task changed.
   */
  function TickOf(tasks: seq<Task>, now: Instant, ok: nat -> bool, env: Env): TickResult {
    var ds := Decisions(tasks, now, env);
    var stop := FirstAbort(ds);
    TickResult(CallsBefore(ds, stop),
               if stop < |ds| then Aborted
               else if ChangedBefore(ds, ok, |ds|) then Saved(Swept(tasks, ds, ok, |ds|))
               else NotSaved)
  }

  /** The body of the loop for one task, up to the callback: what `_tick` decides for `t`. */
  method Decide(t: Task, now: Instant, env: Env) returns (d: Decision)
    ensures d == Plan(t, now, env)
  {
    if t.deleted {
      return Skip;
    }
    var parsed := ParseVevent(t.vevent, env);
    if parsed.Failure? {
      return Skip;
    }
    var trigger := parsed.value;
    assert Plan(t, now, env) == PlanTrigger(t, trigger, now, env);
    var last := LastRunOf(t.lastRunAt, env);
    if last.None? {
      return Abort;
    }
    if trigger.rule.None? && t.completed {
      return Skip;
    }
    var after := Watermark(trigger.start, last.value);
    if after.None? {
      return Abort;
    }
    var next := NextRunAfter(trigger.start, trigger.rule, after.value, env);
    match next {
      case Raises =>
        d := Abort;
      case NoOccurrence =>
        d := if trigger.rule.None? && !t.completed && last.value.Some? then Close else Skip;
      case Occurs(at) =>
        d := if AtOrBefore(at, now) then Fire(at, trigger.rule.None?, CallOf(t)) else Skip;
    }
  }

  /**
    `_tick(inject_callback)`: the loop updates each task of the list in
    place, collects the callback calls and sets `changed`; the list is
    saved once at the end, and only if something changed.
   */
  method Tick(tasks: seq<Task>, now: Instant, ok: nat -> bool, env: Env) returns (r: TickResult)
    ensures r == TickOf(tasks, now, ok, env)
  {
    ghost var ds := Decisions(tasks, now, env);
    forall j | 0 <= j < |ds|
      ensures ds[j] == Plan(At(tasks, j), now, env)
    {
    }
    var current, calls, changed, stop := Sweep(tasks, ds, now, ok, env);
    if stop < |tasks| {
      return TickResult(calls, Aborted);
    }
    if changed {
      return TickResult(calls, Saved(current));
    }
    return TickResult(calls, NotSaved);
  }

  /** The task at position `j`; it names the place where a decision is tied to its task. */
  function At(tasks: seq<Task>, j: nat): Task
    requires j < |tasks|
  {
    tasks[j]
  }

  /**
    The `for t in tasks` loop, given the decisions `ds` it will make: it
    stops at the first task whose decision raises (`stop`), or visits them
    all (`stop == |tasks|`).
   */
  method Sweep(tasks: seq<Task>, ghost ds: seq<Decision>, now: Instant, ok: nat -> bool, env: Env)
      returns (current: seq<Task>, calls: seq<Call>, changed: bool, stop: nat)
    requires |ds| == |tasks|
    requires forall j {:trigger At(tasks, j)} :: 0 <= j < |ds| ==> ds[j] == Plan(At(tasks, j), now, env)
    ensures stop == FirstAbort(ds) && calls == CallsBefore(ds, stop)
    ensures stop == |ds| ==> current == Swept(tasks, ds, ok, |ds|) && (changed <==> ChangedBefore(ds, ok, |ds|))
  {
    current, calls, changed := tasks, [], false;
    var i := 0;
    while i < |tasks|
      invariant 0 <= i <= |tasks|
      invariant forall j :: 0 <= j < i ==> !ds[j].Abort?
      invariant current == Swept(tasks, ds, ok, i)
      invariant calls == CallsBefore(ds, i)
      invariant changed <==> ChangedBefore(ds, ok, i)
    {
      SweptStep(tasks, ds, ok, i);
      var t := current[i];
      var d := DecideAt(tasks, ds, i, t, now, env);
      if d.Abort? {
        FirstAbortAt(ds, i);
        return current, calls, changed, i;
      }
      var u, fired, touched := Apply(t, d, ok(i));
      ChangedStep(ds, ok, i);
      CallsStep(ds, i);
      current := current[i := u];
      calls := calls + fired;
      changed := changed || touched;
      i := i + 1;
    }
    FirstAbortAt(ds, |ds|);
    stop := |tasks|;
  }

  /** The decision the loop makes for the task at position `i`, which is `ds[i]`. */
  method DecideAt(tasks: seq<Task>, ghost ds: seq<Decision>, i: nat, t: Task, now: Instant, env: Env) returns (d: Decision)
    requires i < |ds| == |tasks| && t == tasks[i]
    requires forall j {:trigger At(tasks, j)} :: 0 <= j < |ds| ==> ds[j] == Plan(At(tasks, j), now, env)
    ensures d == ds[i]
  {
    d := Decide(t, now, env);
    assert t == At(tasks, i);
  }

  /** Visiting the task at position `i` updates that position and no other. */
  lemma SweptStep(tasks: seq<Task>, ds: seq<Decision>, ok: nat -> bool, i: nat)
    requires i < |tasks| == |ds|
    ensures Swept(tasks, ds, ok, i)[i] == tasks[i]
    ensures Swept(tasks, ds, ok, i + 1) == Swept(tasks, ds, ok, i)[i := Updated(tasks[i], ds[i], ok(i))]
  {
  }

  lemma CallsStep(ds: seq<Decision>, i: nat)
    requires i < |ds|
    ensures CallsBefore(ds, i + 1) == CallsBefore(ds, i) + (if ds[i].Fire? then [ds[i].call] else [])
  {
  }

  lemma ChangedStep(ds: seq<Decision>, ok: nat -> bool, i: nat)
    requires i < |ds|
    ensures ChangedBefore(ds, ok, i + 1) <==> ChangedBefore(ds, ok, i) || Changes(ds[i], ok(i))
  {
    if Changes(ds[i], ok(i)) {
      assert 0 <= i < i + 1 && Changes(ds[i], ok(i));
    }
  }

  /** `FirstAbort` is the first position whose decision raises. */
  lemma FirstAbortAt(ds: seq<Decision>, k: nat)
    requires k <= |ds| && (forall j :: 0 <= j < k ==> !ds[j].Abort?) && (k < |ds| ==> ds[k].Abort?)
    ensures FirstAbort(ds) == k
  {
  }

  /**
    The rest of the loop body for a decision that did not raise: a close
    marks the task completed; a due task is handed to the callback and, if
    that succeeded, stamped with its scheduled occurrence.
   */
  method Apply(t: Task, d: Decision, ok: bool) returns (u: Task, fired: seq<Call>, touched: bool)
    requires !d.Abort?
    ensures u == Updated(t, d, ok)
    ensures fired == (if d.Fire? then [d.call] else [])
    ensures touched == Changes(d, ok)
  {
    u, fired, touched := t, [], false;
    if d.Close? {
      u := t.(completed := true);
      touched := true;
    } else if d.Fire? {
      fired := [d.call];
      if ok {
        u := t.(lastRunAt := Some(IsoFormat(d.at)), completed := d.oneShot || t.completed);
        touched := true;
      }
    }
  }

  // ---------------------------------------------------------------------------
  // What a tick promises about each task.

  /** A live task whose trigger decodes is decided on its decoded trigger. */
  lemma PlanOfDecoded(t: Task, now: Instant, env: Env, trigger: Trigger)
    requires !t.deleted && TriggerOf(t.vevent, env) == Success(trigger)
    ensures Plan(t, now, env) == PlanTrigger(t, trigger, now, env)
  {
  }

  /**
    A task fires only for an occurrence that is due (`now >= next_run`) and
    strictly after its watermark: after the last run when there is one,
    else at or after the start. So the recorded `last_run_at` only moves
    forward. A one-shot fires only at its start and only while it is not
    completed; the callback gets the stripped session id and the prompt.
   */
  lemma FiredOccurrence(t: Task, trigger: Trigger, now: Instant, env: Env)
    requires PlanTrigger(t, trigger, now, env).Fire?
    ensures var d := PlanTrigger(t, trigger, now, env);
      && AtOrBefore(d.at, now)
      && d.oneShot == trigger.rule.None?
      && d.call == Call(Strip(t.sessionId), t.prompt)
      && LastRunOf(t.lastRunAt, env).Some?
      && (LastRunOf(t.lastRunAt, env).value.Some? ==> Before(LastRunOf(t.lastRunAt, env).value.value, d.at))
      && (LastRunOf(t.lastRunAt, env).value.None? ==> AtOrBefore(trigger.start, d.at))
      && (trigger.rule.None? ==> d.at == trigger.start && !t.completed)
  {
    var last := LastRunOf(t.lastRunAt, env).value;
    var after := Watermark(trigger.start, last).value;
    var at := PlanTrigger(t, trigger, now, env).at;
    assert NextRun(trigger.start, trigger.rule, after, env) == Occurs(at);
    if trigger.rule.Some? {
      var _ := NextRunIsFirstOccurrence(trigger.start, trigger.rule.value, after, env, at);
    }
    if last.None? {
      SecondsOrder(after, at);
      SecondsOrder(trigger.start, at);
    }
  }

  /**
    Conversely, once the next occurrence `at` after the watermark is known,
    the task fires exactly when `now` is at or after it, and for that
    occurrence.
   */
  lemma FiresIffDue(t: Task, trigger: Trigger, now: Instant, env: Env, last: Option<DateTime>, after: DateTime, at: Instant)
    requires LastRunOf(t.lastRunAt, env) == Some(last) && !(trigger.rule.None? && t.completed)
    requires Watermark(trigger.start, last) == Some(after)
    requires NextRun(trigger.start, trigger.rule, after, env) == Occurs(at)
    ensures PlanTrigger(t, trigger, now, env).Fire? <==> AtOrBefore(at, now)
    ensures PlanTrigger(t, trigger, now, env).Fire? ==> PlanTrigger(t, trigger, now, env).at == at
    ensures !PlanTrigger(t, trigger, now, env).Fire? ==> PlanTrigger(t, trigger, now, env) == Skip
  {
  }

  /**
    A close happens only to a one-shot that is not yet completed, has a
    readable `last_run_at`, and has no occurrence after it.
   */
  lemma ClosedOneShot(t: Task, trigger: Trigger, now: Instant, env: Env)
    requires PlanTrigger(t, trigger, now, env).Close?
    ensures trigger.rule.None? && !t.completed
    ensures LastRunOf(t.lastRunAt, env).Some? && LastRunOf(t.lastRunAt, env).value.Some?
    ensures !Before(LastRunOf(t.lastRunAt, env).value.value, trigger.start)
  {
  }

  /** A recurring task is never marked completed, not even when its rule is exhausted. */
  lemma RecurringNeverCompleted(t: Task, trigger: Trigger, now: Instant, env: Env, ok: bool)
    requires trigger.rule.Some?
    ensures Updated(t, PlanTrigger(t, trigger, now, env), ok).completed == t.completed
  {
  }

  /**
    The text `isoformat()` writes for a UTC instant is read back by
    `fromisoformat` as that instant with offset zero; this is the one fact
    about the library the idempotence lemmas rest on.
   */
  predicate ReadsBack(env: Env, at: Instant) {
    env.isoFallback(IsoFormat(at)) == Some(IsoValue(at, Some(0)))
  }

  /** The stored `last_run_at` of a successful fire reads back as the scheduled instant. */
  lemma StampReadsBack(at: Instant, env: Env)
    requires ReadsBack(env, at)
    ensures LastRunOf(Some(IsoFormat(at)), env) == Some(Some(at))
  {
    AddNothing(at);
  }

  /**
    Idempotence: after a successful fire of `at`, any later tick (at any
    `now2`) fires that task only for an occurrence strictly after `at`, so
    the same occurrence is never injected twice; a one-shot is skipped
    for good.
   */
  lemma NoRefire(t: Task, trigger: Trigger, now: Instant, now2: Instant, env: Env)
    requires PlanTrigger(t, trigger, now, env).Fire?
    requires ReadsBack(env, PlanTrigger(t, trigger, now, env).at)
    ensures var at := PlanTrigger(t, trigger, now, env).at;
            var u := Updated(t, PlanTrigger(t, trigger, now, env), true);
            && (PlanTrigger(u, trigger, now2, env).Fire? ==> Before(at, PlanTrigger(u, trigger, now2, env).at))
            && (trigger.rule.None? ==> PlanTrigger(u, trigger, now2, env) == Skip)
  {
    var d := PlanTrigger(t, trigger, now, env);
    var u := Updated(t, d, true);
    FiredOccurrence(t, trigger, now, env);
    StampReadsBack(d.at, env);
    assert u.lastRunAt == Some(IsoFormat(d.at));
    assert LastRunOf(u.lastRunAt, env) == Some(Some(d.at));
    if PlanTrigger(u, trigger, now2, env).Fire? {
      FiredOccurrence(u, trigger, now2, env);
    }
  }

  /**
    What a tick saves: the same tasks in the same order, each with its
    identity, session, prompt, trigger, creation time and soft-delete flag
    unchanged and `completed` never reset; a task differs from what was
    loaded only where its decision changed it, and some task did change.
    A tick that saves nothing changed nothing.
   */
  lemma TickSaves(tasks: seq<Task>, now: Instant, ok: nat -> bool, env: Env)
    ensures var ds := Decisions(tasks, now, env);
            var end := TickOf(tasks, now, ok, env).end;
      && (end.Saved? ==> ChangedBefore(ds, ok, |tasks|))
      && (end.NotSaved? ==> forall j :: 0 <= j < |tasks| ==> !Changes(ds[j], ok(j)))
      && (end.Saved? ==>
            |end.tasks| == |tasks| &&
            forall j :: 0 <= j < |tasks| ==>
              && end.tasks[j].id == tasks[j].id && end.tasks[j].sessionId == tasks[j].sessionId
              && end.tasks[j].prompt == tasks[j].prompt && end.tasks[j].vevent == tasks[j].vevent
              && end.tasks[j].createdAt == tasks[j].createdAt && end.tasks[j].deleted == tasks[j].deleted
              && (tasks[j].completed ==> end.tasks[j].completed)
              && (end.tasks[j] != tasks[j] ==> Changes(ds[j], ok(j))))
  {
    var ds := Decisions(tasks, now, env);
    var end := TickOf(tasks, now, ok, env).end;
    if end.Saved? {
      forall j | 0 <= j < |tasks|
        ensures end.tasks[j] == Updated(tasks[j], ds[j], ok(j))
      {
      }
      forall j | 0 <= j < |tasks|
        ensures var u := Updated(tasks[j], ds[j], ok(j));
          && u.id == tasks[j].id && u.sessionId == tasks[j].sessionId && u.prompt == tasks[j].prompt
          && u.vevent == tasks[j].vevent && u.createdAt == tasks[j].createdAt && u.deleted == tasks[j].deleted
          && (tasks[j].completed ==> u.completed) && (u != tasks[j] ==> Changes(ds[j], ok(j)))
      {
        UpdatedChanges(tasks[j], ds[j], ok(j), Updated(tasks[j], ds[j], ok(j)));
      }
    }
  }

  /**
    A stamp whose UTC reading falls before year 1 (such as
    `0001-01-01T00:00:00+01:00`) does not make the tick raise: every start
    is after it, so the start is the next occurrence and fires once due.
   */
  lemma EarlyStampFiresStart(t: Task, trigger: Trigger, now: Instant, env: Env, fields: Instant, offset: int)
    requires t.lastRunAt.Some? && t.lastRunAt.value != ""
    requires env.isoFallback(t.lastRunAt.value) == Some(IsoValue(fields, Some(offset)))
    requires Seconds(fields) - offset < 0
    requires !(trigger.rule.None? && t.completed) && AtOrBefore(trigger.start, now)
    requires trigger.rule.Some? ==> UntilOf(trigger.rule.value, env) != Some(None)
    ensures PlanTrigger(t, trigger, now, env) == Fire(trigger.start, trigger.rule.None?, CallOf(t))
  {
    var last := LastRunOf(t.lastRunAt, env).value.value;
    assert Before(last, trigger.start);
    if trigger.rule.Some? {
      LaterStartReturned(trigger.start, trigger.rule.value, last, env);
    }
  }

  /**
    A stamp whose UTC reading falls after year 9999 is never passed: the
    task never fires again; a one-shot not yet completed is closed, and a
    recurring task is skipped or the tick raises at the edge of the range.
   */
  lemma LateStampNeverFires(t: Task, trigger: Trigger, now: Instant, env: Env, fields: Instant, offset: int)
    requires t.lastRunAt.Some? && t.lastRunAt.value != ""
    requires env.isoFallback(t.lastRunAt.value) == Some(IsoValue(fields, Some(offset)))
    requires Seconds(fields) - offset >= MaxSeconds
    ensures !PlanTrigger(t, trigger, now, env).Fire?
    ensures trigger.rule.None? && !t.completed ==> PlanTrigger(t, trigger, now, env) == Close
  {
    var last := LastRunOf(t.lastRunAt, env).value.value;
    LateWatermarkNeverOccurs(trigger.start, trigger.rule, last, env);
  }

  // ---------------------------------------------------------------------------
  // Scenarios.

  /** The record `schedule_task` writes for a trigger text, before any tick. */
  predicate Fresh(t: Task) {
    !t.deleted && !t.completed && t.lastRunAt.None?
  }

  /**
    A fresh task whose start is at or before `now` fires for its start:
    the watermark is one second before the start, so the start itself is
    the first occurrence after it, whatever the rule.
   */
  lemma FreshStartFires(t: Task, trigger: Trigger, now: Instant, env: Env)
    requires Fresh(t) && Seconds(trigger.start) > 0 && AtOrBefore(trigger.start, now)
    requires trigger.rule.Some? ==> UntilOf(trigger.rule.value, env) != Some(None)
    ensures PlanTrigger(t, trigger, now, env) == Fire(trigger.start, trigger.rule.None?, CallOf(t))
  {
    var after := Watermark(trigger.start, None).value;
    if trigger.rule.Some? {
      LaterStartReturned(trigger.start, trigger.rule.value, after, env);
    }
  }

  /**
    A new one-shot task (`DTSTART:<start>` and no RRULE) fires on the first
    tick at or after its start, for its start; on success it is closed
    and `NoRefire` skips it on every later tick.
   */
  lemma FreshOneShotFires(t: Task, start: Instant, now: Instant, env: Env)
    requires Fresh(t) && t.vevent == RenderVevent(start, None)
    requires Seconds(start) > 0 && AtOrBefore(start, now)
    ensures Plan(t, now, env) == Fire(start, true, CallOf(t))
  {
    var trigger := Trigger(start, None);
    assert TriggerOf(t.vevent, env) == Success(trigger) by {
      ParseRenderedVevent(start, None, env);
    }
    PlanOfDecoded(t, now, env, trigger);
    FreshStartFires(t, trigger, now, env);
  }

  /**
    A new recurring task (`DTSTART:<start>` and `RRULE:FREQ=<freq>;INTERVAL=<n>`)
    fires, on its first tick at or after the start, for the start itself:
    the earliest occurrence not yet run, however many have passed since.
   */
  lemma FreshRecurringFiresEarliest(t: Task, start: Instant, freq: string, interval: int, now: Instant, env: Env)
    requires Fresh(t) && IsWord(freq) && t.vevent == RenderVevent(start, Some((freq, interval)))
    requires Seconds(start) > 0 && AtOrBefore(start, now)
    ensures Plan(t, now, env) == Fire(start, false, CallOf(t))
  {
    var rule := RuleFromLine(RenderRule(freq, interval));
    var trigger := Trigger(start, Some(rule));
    assert TriggerOf(t.vevent, env) == Success(trigger) by {
      ParseRenderedVevent(start, Some((freq, interval)), env);
    }
    RenderedRuleHasNoUntil(freq, interval, env);
    PlanOfDecoded(t, now, env, trigger);
    FreshStartFires(t, trigger, now, env);
  }

  /** The rule line of `RenderVevent` has no UNTIL part. */
  lemma RenderedRuleHasNoUntil(freq: string, interval: int, env: Env)
    requires IsWord(freq)
    ensures UntilOf(RuleFromLine(RenderRule(freq, interval)), env).None?
  {
    var r := RuleFromLine(RenderRule(freq, interval));
    ParseRenderedRule(freq, interval);
    assert "UNTIL"[0] != "FREQ"[0] && "UNTIL"[0] != "INTERVAL"[0];
    assert "UNTIL" !in r.fields;
  }
}
