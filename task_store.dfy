/**
  The task store of taskTools.py: the list of scheduled tasks, how it is
  loaded, and the three tools that work on the whole list (schedule,
  list, delete). The JSON file is an in-memory sequence of records; a
  tool's save is returned as the list it would write (`None`: no save).
 */
module TaskStore {
  import opened Wrappers
  import opened Text
  import opened DateLiteral
  import opened Vevent

  /**
    One stored task, with the fields `schedule_task` writes. A missing or
    null text field reads as empty, except `last_run_at`, whose null is
    kept apart from text.
   */
  datatype Task = Task(id: string, sessionId: string, prompt: string, vevent: string,
                       createdAt: string, lastRunAt: Option<string>, completed: bool, deleted: bool)

  // ---------------------------------------------------------------------------
  // load_tasks

  /** A JSON value, as far as `load_tasks` looks into it. */
  datatype Json = JList(items: seq<Task>) | JObject(tasks: Option<Json>) | JScalar

  /** The store file: absent, not valid JSON, or a parsed document. */
  datatype StoreFile = Missing | Corrupt | Parsed(doc: Json)

  /**
    `load_tasks()`: a top-level list is the task list, a dictionary whose
    `"tasks"` is a list is the legacy format, and anything else (other
    shapes, a missing or corrupt file) is the empty list.
   */
  function LoadTasks(file: StoreFile): (tasks: seq<Task>)
    ensures file.Parsed? && file.doc.JList? ==> tasks == file.doc.items
    ensures file.Parsed? && file.doc.JObject? && file.doc.tasks.Some? && file.doc.tasks.value.JList?
            ==> tasks == file.doc.tasks.value.items
    ensures !(file.Parsed? && (file.doc.JList? || (file.doc.JObject? && file.doc.tasks.Some? && file.doc.tasks.value.JList?)))
            ==> tasks == []
  {
    match file
    case Parsed(JList(items)) => items
    case Parsed(JObject(Some(JList(items)))) => items
    case _ => []
  }

  /** What `save_tasks` writes is a top-level list, and it loads back unchanged; so does the legacy wrapper. */
  lemma SavedListLoadsBack(tasks: seq<Task>)
    ensures LoadTasks(Parsed(JList(tasks))) == tasks
    ensures LoadTasks(Parsed(JObject(Some(JList(tasks))))) == tasks
  {
  }

  // ---------------------------------------------------------------------------
  // _parse_vevent_minimal

  /**
    `_parse_vevent_minimal(vevent)`: None when the text has a stripped line
    that starts with `DTSTART` and holds a `:`, otherwise the error message.
   */
  function MinimalCheck(vevent: string): (err: Option<string>)
    ensures err == Some("Empty VEVENT") <==> NonBlankLines(vevent) == []
    ensures err.None? <==> exists i :: 0 <= i < |NonBlankLines(vevent)| && IsDtstartLine(NonBlankLines(vevent)[i])
    ensures err.Some? ==> err.value == "Empty VEVENT" || err.value == "VEVENT missing DTSTART"
  {
    var lines := NonBlankLines(vevent);
    if |lines| == 0 then Some("Empty VEVENT")
    else if HasDtstartLine(lines) then None
    else Some("VEVENT missing DTSTART")
  }

  /** `any(ln.startswith("DTSTART") and ":" in ln for ln in lines)`. */
  predicate HasDtstartLine(lines: seq<string>)
  {
    exists i :: 0 <= i < |lines| && IsDtstartLine(lines[i])
  }

  /**
    The minimal check is weaker than `parse_vevent`: whatever `parse_vevent`
    accepts passes it.
   */
  lemma DecodableIsMinimal(vevent: string, env: Env)
    requires TriggerOf(vevent, env).Success?
    ensures MinimalCheck(vevent).None?
  {
    var lines := NonBlankLines(vevent);
    if !HasDtstartLine(lines) {
      NoDtstartLine(lines);
    }
  }

  /** `DTSTART:` with an empty value passes the minimal check but `parse_vevent` rejects it. */
  lemma EmptyDtstartPasses(env: Env)
    ensures MinimalCheck("DTSTART:").None?
    ensures TriggerOf("DTSTART:", env) == Failure(MissingDtstart)
  {
    EmptyDtstartLines();
    EmptyDtstartScan();
  }

  lemma EmptyDtstartLines()
    ensures NonBlankLines("DTSTART:") == ["DTSTART:"] && IsDtstartLine("DTSTART:")
  {
    assert IsPlainLine("DTSTART:");
    NonBlankOneLine("DTSTART:");
  }

  lemma EmptyDtstartScan()
    ensures ScanLines(["DTSTART:"]) == Scan(None, Some(""), None)
  {
    assert "DTSTART:" == "DTSTART" + [':'] + "";
    SplitOnceAt("DTSTART", "", ':');
    NotContainsFirst("DTSTART", ";TZID=");
    assert ScanLines(["DTSTART:"]) == ScanLine(Empty, "DTSTART:") by {
      ScanTwoLines("DTSTART:", "DTSTART:");
    }
  }

  // ---------------------------------------------------------------------------
  // schedule_task

  /** The task as the tool returns it: every field but `deleted`. */
  datatype PublicTask = PublicTask(id: string, sessionId: string, prompt: string, vevent: string,
                                   createdAt: string, lastRunAt: Option<string>, completed: bool)

  function Public(t: Task): PublicTask {
    PublicTask(t.id, t.sessionId, t.prompt, t.vevent, t.createdAt, t.lastRunAt, t.completed)
  }

  datatype ScheduleResponse = Scheduled(task: PublicTask) | ScheduleError(message: string)

  const NoSessionMessage: string := "No session_id available to associate with the task."

  /**
    The session a new task belongs to: the stripped argument, else the
    effective session of the status module (`effective`), else none.
   */
  function TargetSession(sessionId: string, effective: Option<string>): (sid: string)
    ensures Strip(sessionId) != "" ==> sid == Strip(sessionId)
    ensures Strip(sessionId) == "" ==> sid == effective.GetOr("")
  {
    if Strip(sessionId) != "" then Strip(sessionId) else effective.GetOr("")
  }

  /**
    `schedule_task(prompt, vevent, session_id)`, with the loaded list
    `stored`, the effective session id, a fresh id (`uuid4().hex`) and the
    creation time as inputs. The saved list is returned, or `None` when
    the tool saves nothing.
   */
  method ScheduleTask(stored: seq<Task>, prompt: string, vevent: string, sessionId: string,
                      effective: Option<string>, newId: string, createdAt: string)
      returns (r: ScheduleResponse, saved: Option<seq<Task>>)
    ensures MinimalCheck(vevent).Some? ==> r == ScheduleError(MinimalCheck(vevent).value) && saved.None?
    ensures MinimalCheck(vevent).None? && TargetSession(sessionId, effective) == ""
            ==> r == ScheduleError(NoSessionMessage) && saved.None?
    ensures r.Scheduled? <==> MinimalCheck(vevent).None? && TargetSession(sessionId, effective) != ""
    ensures r.Scheduled? ==>
              var task := Task(newId, TargetSession(sessionId, effective), prompt, vevent, createdAt, None, false, false);
              saved == Some(stored + [task]) && r.task == Public(task)
  {
    var err := MinimalCheck(vevent);
    if err.Some? {
      return ScheduleError(err.value), None;
    }
    var sid := TargetSession(sessionId, effective);
    if sid == "" {
      return ScheduleError(NoSessionMessage), None;
    }
    var tasks := stored;
    var task := Task(newId, sid, prompt, vevent, createdAt, None, false, false);
    tasks := tasks + [task];
    saved := Some(tasks);
    r := Scheduled(Public(task));
  }

  // ---------------------------------------------------------------------------
  // check_tasks

  datatype Status = Completed | Upcoming

  /** One entry of the list `check_tasks` returns. */
  datatype Listing = Listing(id: string, sessionId: string, prompt: string, vevent: string,
                             createdAt: string, lastRunAt: Option<string>, status: Status)

  function ListingOf(t: Task): (l: Listing)
    ensures l.status == Completed <==> t.completed
    ensures l.id == t.id && l.sessionId == t.sessionId && l.prompt == t.prompt && l.vevent == t.vevent
    ensures l.createdAt == t.createdAt && l.lastRunAt == t.lastRunAt
  {
    Listing(t.id, t.sessionId, t.prompt, t.vevent, t.createdAt, t.lastRunAt, if t.completed then Completed else Upcoming)
  }

  /** `[t for t in tasks if not t.get("deleted")]`. */
  function Visible(tasks: seq<Task>): (v: seq<Task>)
    ensures |v| <= |tasks|
  {
    if |tasks| == 0 then []
    else Visible(tasks[..|tasks| - 1]) + (if tasks[|tasks| - 1].deleted then [] else [tasks[|tasks| - 1]])
  }

  /** The visible tasks are exactly the stored tasks that are not deleted. */
  lemma {:induction false} VisibleMembers(tasks: seq<Task>)
    ensures forall t :: t in Visible(tasks) <==> t in tasks && !t.deleted
    decreases |tasks|
  {
    if |tasks| > 0 {
      var init := tasks[..|tasks| - 1];
      VisibleMembers(init);
      assert tasks == init + [tasks[|tasks| - 1]];
    }
  }

  /** The visible tasks keep the store's order: a visible task follows every visible task stored before it. */
  lemma {:induction false} VisibleKeepsOrder(tasks: seq<Task>, i: nat, j: nat)
    requires i < j < |tasks| && !tasks[i].deleted && !tasks[j].deleted
    ensures exists a, b :: 0 <= a < b < |Visible(tasks)| && Visible(tasks)[a] == tasks[i] && Visible(tasks)[b] == tasks[j]
    decreases |tasks|
  {
    var init := tasks[..|tasks| - 1];
    if j < |tasks| - 1 {
      assert init[i] == tasks[i] && init[j] == tasks[j];
      VisibleKeepsOrder(init, i, j);
      var a, b :| 0 <= a < b < |Visible(init)| && Visible(init)[a] == tasks[i] && Visible(init)[b] == tasks[j];
      assert Visible(tasks)[a] == tasks[i] && Visible(tasks)[b] == tasks[j];
    } else {
      assert init[i] == tasks[i];
      VisibleMembers(init);
      assert tasks[i] in Visible(init);
      var a :| 0 <= a < |Visible(init)| && Visible(init)[a] == tasks[i];
      var b := |Visible(init)|;
      assert Visible(tasks)[a] == tasks[i] && Visible(tasks)[b] == tasks[j];
    }
  }

  /**
    `check_tasks()` over the loaded list `stored`: the listing of every
    task not deleted, in store order, and its length. Nothing is saved.
   */
  method CheckTasks(stored: seq<Task>) returns (out: seq<Listing>, count: nat)
    ensures |out| == |Visible(stored)| && count == |out|
    ensures forall i :: 0 <= i < |out| ==> out[i] == ListingOf(Visible(stored)[i])
  {
    var visible := Visible(stored);
    out := [];
    var i := 0;
    while i < |visible|
      invariant 0 <= i <= |visible|
      invariant |out| == i
      invariant forall k :: 0 <= k < i ==> out[k] == ListingOf(visible[k])
    {
      out := out + [ListingOf(visible[i])];
      i := i + 1;
    }
    count := |out|;
  }

  /** A listing says `completed` exactly for a stored task that is not deleted and is completed. */
  lemma ListingStatus(stored: seq<Task>, out: seq<Listing>, i: nat)
    requires |out| == |Visible(stored)| && i < |out|
    requires forall k :: 0 <= k < |out| ==> out[k] == ListingOf(Visible(stored)[k])
    ensures Visible(stored)[i] in stored && !Visible(stored)[i].deleted
    ensures out[i].status == Completed <==> Visible(stored)[i].completed
  {
    VisibleMembers(stored);
    assert Visible(stored)[i] in Visible(stored);
  }

  // ---------------------------------------------------------------------------
  // delete_task

  /** A record `delete_task(id)` removes: the id matches and it is not already soft-deleted. */
  predicate Removes(t: Task, id: string) {
    t.id == id && !t.deleted
  }

  /** The list `delete_task(id)` builds: every record it does not remove, in order. */
  function Kept(tasks: seq<Task>, id: string): (kept: seq<Task>)
    ensures |kept| <= |tasks|
  {
    if |tasks| == 0 then []
    else Kept(tasks[..|tasks| - 1], id) + (if Removes(tasks[|tasks| - 1], id) then [] else [tasks[|tasks| - 1]])
  }

  /** The kept records are exactly the stored records that are not removed. */
  lemma {:induction false} KeptMembers(tasks: seq<Task>, id: string)
    ensures forall t :: t in Kept(tasks, id) <==> t in tasks && !Removes(t, id)
    decreases |tasks|
  {
    if |tasks| > 0 {
      var init := tasks[..|tasks| - 1];
      KeptMembers(init, id);
      assert tasks == init + [tasks[|tasks| - 1]];
    }
  }

  /** The kept records keep the store's order: a kept record follows every kept record stored before it. */
  lemma {:induction false} KeptKeepsOrder(tasks: seq<Task>, id: string, i: nat, j: nat)
    requires i < j < |tasks| && !Removes(tasks[i], id) && !Removes(tasks[j], id)
    ensures exists a, b :: 0 <= a < b < |Kept(tasks, id)| && Kept(tasks, id)[a] == tasks[i] && Kept(tasks, id)[b] == tasks[j]
    decreases |tasks|
  {
    var init := tasks[..|tasks| - 1];
    if j < |tasks| - 1 {
      assert init[i] == tasks[i] && init[j] == tasks[j];
      KeptKeepsOrder(init, id, i, j);
      var a, b :| 0 <= a < b < |Kept(init, id)| && Kept(init, id)[a] == tasks[i] && Kept(init, id)[b] == tasks[j];
      assert Kept(tasks, id)[a] == tasks[i] && Kept(tasks, id)[b] == tasks[j];
    } else {
      assert init[i] == tasks[i];
      KeptMembers(init, id);
      assert tasks[i] in Kept(init, id);
      var a :| 0 <= a < |Kept(init, id)| && Kept(init, id)[a] == tasks[i];
      var b := |Kept(init, id)|;
      assert Kept(tasks, id)[a] == tasks[i] && Kept(tasks, id)[b] == tasks[j];
    }
  }

  /** Number of records `delete_task(id)` removes. */
  function RemovedCount(tasks: seq<Task>, id: string): nat {
    if |tasks| == 0 then 0
    else RemovedCount(tasks[..|tasks| - 1], id) + (if Removes(tasks[|tasks| - 1], id) then 1 else 0)
  }

  /** Every record is either kept or counted as removed. */
  lemma {:induction false} KeptAccounts(tasks: seq<Task>, id: string)
    ensures |Kept(tasks, id)| + RemovedCount(tasks, id) == |tasks|
    decreases |tasks|
  {
    if |tasks| > 0 {
      KeptAccounts(tasks[..|tasks| - 1], id);
    }
  }

  /** Nothing is removed exactly when no record matches. */
  lemma {:induction false} NothingRemoved(tasks: seq<Task>, id: string)
    ensures RemovedCount(tasks, id) == 0 <==> forall i :: 0 <= i < |tasks| ==> !Removes(tasks[i], id)
    decreases |tasks|
  {
    if |tasks| > 0 {
      var init := tasks[..|tasks| - 1];
      NothingRemoved(init, id);
      assert forall i :: 0 <= i < |init| ==> init[i] == tasks[i];
    }
  }

  /** When no record matches, the list is kept whole. */
  lemma {:induction false} KeptWhole(tasks: seq<Task>, id: string)
    requires forall i :: 0 <= i < |tasks| ==> !Removes(tasks[i], id)
    ensures Kept(tasks, id) == tasks
    decreases |tasks|
  {
    if |tasks| > 0 {
      var init := tasks[..|tasks| - 1];
      assert forall i :: 0 <= i < |init| ==> init[i] == tasks[i];
      KeptWhole(init, id);
      assert init + [tasks[|tasks| - 1]] == tasks;
    }
  }

  datatype DeleteResponse = Deleted(message: string, remaining: nat) | DeleteError(message: string)

  /**
    `delete_task(task_id)` over the loaded list `stored`: the loop keeps
    every record it does not remove; when none was removed nothing is
    saved and the answer is "not found".
   */
  method DeleteTask(stored: seq<Task>, id: string) returns (r: DeleteResponse, saved: Option<seq<Task>>)
    ensures r.DeleteError? <==> forall i :: 0 <= i < |stored| ==> !Removes(stored[i], id)
    ensures r.DeleteError? ==> r.message == "Task '" + id + "' not found." && saved.None?
    ensures r.Deleted? ==> saved == Some(Kept(stored, id)) && r.remaining == |Kept(stored, id)|
                           && r.message == "Task '" + id + "' deleted."
  {
    var kept: seq<Task> := [];
    var found := false;
    var i := 0;
    while i < |stored|
      invariant 0 <= i <= |stored|
      invariant kept == Kept(stored[..i], id)
      invariant found <==> exists k :: 0 <= k < i && Removes(stored[k], id)
    {
      assert stored[..i + 1][..i] == stored[..i];
      assert Kept(stored[..i + 1], id) == kept + (if Removes(stored[i], id) then [] else [stored[i]]);
      if Removes(stored[i], id) {
        found := true;
      } else {
        kept := kept + [stored[i]];
      }
      i := i + 1;
    }
    assert stored[..|stored|] == stored;
    if !found {
      return DeleteError("Task '" + id + "' not found."), None;
    }
    return Deleted("Task '" + id + "' deleted.", |kept|), Some(kept);
  }

  /** After a successful delete no live record with that id remains, so a second delete reports "not found". */
  lemma DeleteIsIdempotent(stored: seq<Task>, id: string)
    ensures forall i :: 0 <= i < |Kept(stored, id)| ==> !Removes(Kept(stored, id)[i], id)
  {
    KeptMembers(stored, id);
    forall i | 0 <= i < |Kept(stored, id)|
      ensures !Removes(Kept(stored, id)[i], id)
    {
      assert Kept(stored, id)[i] in Kept(stored, id);
    }
  }
}
