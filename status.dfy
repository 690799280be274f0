/**
  Per-session tool status (statusTools.py): a process-wide board that maps
  a session id to the status record of the tool running for it, the
  session id bound to the running context, and a process-wide fallback id
  for worker threads. Tools mark and clear the status of the effective
  session; the UI reads a session's status, which lingers for
  `LingerSeconds` after the last change.

  Clock readings are passed in as `now` (seconds, as `time.time()` gives
  them).
 */
module Status {
  import opened Wrappers

  /** `_STATUS_LINGER_SECONDS`. */
  const LingerSeconds: real := 1.2

  /**
    A stored status record. Every key is optional, as in the dictionary
    the source keeps: a record first created by a clear has no label and
    no type.
   */
  datatype Record = Record(
    active: Option<bool>,
    labelText: Option<string>,
    kind: Option<string>,
    searching: Option<bool>,
    updatedAt: Option<real>,
    lingerUntil: Option<real>)

  /** `{}`: the record of a session that has none. */
  const NoRecord := Record(None, None, None, None, None, None)

  /** The record `_mark_status` stores: active, with the new label and type, lingering from `now`. */
  function Marked(prev: Record, labelText: string, kind: string, now: real): Record {
    prev.(active := Some(true), labelText := Some(labelText), kind := Some(kind),
          searching := Some(kind == "search"), updatedAt := Some(now),
          lingerUntil := Some(now + LingerSeconds))
  }

  /** The record `clear_tool_status` stores: inactive, label and type kept, lingering from `now`. */
  function Cleared(prev: Record, now: real): Record {
    prev.(active := Some(false), searching := Some(false), updatedAt := Some(now),
          lingerUntil := Some(now + LingerSeconds))
  }

  /** What `get_tool_status` returns to the UI. */
  datatype View = View(active: bool, labelText: string, searching: bool)

  /** The label shown when the record has none (or an empty one). */
  function DefaultLabel(kind: Option<string>): string {
    if kind == Some("search") then "Searching…" else "Working…"
  }

  /** The view of a stored record at time `now` (statusTools.py:72-78). */
  function Report(r: Record, now: real): View {
    var lingerUntil := r.lingerUntil.GetOr(0.0);
    var active := r.active == Some(true) || lingerUntil > now;
    var labelText := if r.labelText.Some? && r.labelText.value != "" then r.labelText.value else DefaultLabel(r.kind);
    View(active, labelText, active && r.kind == Some("search"))
  }

  /**
    Right after a mark, and for ever after until the next clear, the
    session is active, shows the given label (or the default for its type
    when the label is empty) and reports searching exactly for type
    `search`, whatever the record held before.
   */
  lemma MarkedReport(prev: Record, labelText: string, kind: string, now: real, t: real)
    ensures Report(Marked(prev, labelText, kind, now), t).active
    ensures Report(Marked(prev, labelText, kind, now), t).searching <==> kind == "search"
    ensures Report(Marked(prev, labelText, kind, now), t).labelText
            == if labelText != "" then labelText else DefaultLabel(Some(kind))
  {
  }

  /**
    After a clear the session stays active for `LingerSeconds` exactly
    (strictly before `now + LingerSeconds`), keeps showing the same label
    as before the clear, and reports searching only while it lingers and
    only for type `search`.
   */
  lemma ClearedReport(prev: Record, now: real, t: real)
    ensures Report(Cleared(prev, now), t).active <==> t < now + LingerSeconds
    ensures Report(Cleared(prev, now), t).labelText == Report(prev, t).labelText
    ensures Report(Cleared(prev, now), t).searching <==> t < now + LingerSeconds && prev.kind == Some("search")
  {
  }

  /** A session with no record is reported inactive, with the generic label, at any time a clock gives. */
  lemma NoRecordReport(now: real)
    requires now >= 0.0
    ensures Report(NoRecord, now) == View(false, "Working…", false)
  {
  }

  /** Clearing twice is clearing once at the later time: the earlier clear leaves no trace. */
  lemma ClearTwice(prev: Record, now1: real, now2: real)
    ensures Cleared(Cleared(prev, now1), now2) == Cleared(prev, now2)
  {
  }

  /** A mark followed by a clear shows the marked label until the linger after the clear runs out. */
  lemma MarkThenClear(prev: Record, labelText: string, kind: string, now1: real, now2: real, t: real)
    requires labelText != ""
    ensures Report(Cleared(Marked(prev, labelText, kind, now1), now2), t)
            == View(t < now2 + LingerSeconds, labelText, t < now2 + LingerSeconds && kind == "search")
  {
    ClearedReport(Marked(prev, labelText, kind, now1), now2, t);
    MarkedReport(prev, labelText, kind, now1, t);
  }

  /** `sid or fallback`: the context-bound id when it is non-empty, the fallback otherwise. */
  function Effective(current: Option<string>, fallback: Option<string>): (r: Option<string>)
    ensures current.Some? && current.value != "" ==> r == current
    ensures (current.None? || current.value == "") ==> r == fallback
  {
    if current.Some? && current.value != "" then current else fallback
  }

  /** `if not session_id: return`: the id a mark or clear acts on, when there is one. */
  function Target(id: Option<string>): (r: Option<string>)
    ensures r.Some? <==> id.Some? && id.value != ""
    ensures r.Some? ==> r == id
  {
    if id.Some? && id.value != "" then id else None
  }

  /** The module-level state of statusTools.py, as one object. */
  class StatusBoard {
    /** `_current_session_id` as seen from the running context. */
    var current: Option<string>
    /** `_fallback_session_id`. */
    var fallback: Option<string>
    /** `_session_tool_status`. */
    var statuses: map<string, Record>

    /** The state at import: no ids bound, no records. */
    constructor()
      ensures current == None && fallback == None && statuses == map[]
    {
      current := None;
      fallback := None;
      statuses := map[];
    }

    /** `_get_effective_session_id`. */
    function EffectiveSessionId(): Option<string>
      reads this
    {
      Effective(current, fallback)
    }

    /** `_session_tool_status.get(session_id) or {}`. */
    function Lookup(id: string): Record
      reads this
    {
      if id in statuses then statuses[id] else NoRecord
    }

    /** `set_current_session_id`: binds `id` for the running context; the fallback and the records are untouched. */
    method SetCurrentSessionId(id: string)
      modifies this
      ensures current == Some(id) && fallback == old(fallback) && statuses == old(statuses)
      ensures id != "" ==> EffectiveSessionId() == Some(id)
    {
      current := Some(id);
    }

    /**
      `set_fallback_session_id`: sets the process-wide fallback, which
      becomes the effective id only while no non-empty id is bound to the
      running context.
     */
    method SetFallbackSessionId(id: string)
      modifies this
      ensures fallback == Some(id) && current == old(current) && statuses == old(statuses)
      ensures EffectiveSessionId() == Some(id) <==> (current.None? || current.value == "" || current.value == id)
    {
      fallback := Some(id);
    }

    /**
      `_mark_status`: when there is an effective session, its record gets
      the new label and type and becomes active; no other session's
      record changes, and without an effective session nothing changes.
     */
    method MarkStatus(labelText: string, kind: string, now: real)
      modifies this
      ensures current == old(current) && fallback == old(fallback)
      ensures Target(old(EffectiveSessionId())).None? ==> statuses == old(statuses)
      ensures Target(old(EffectiveSessionId())).Some? ==>
                var id := old(EffectiveSessionId()).value;
                statuses == old(statuses)[id := Marked(old(Lookup(id)), labelText, kind, now)]
    {
      var sessionId := EffectiveSessionId();
      if sessionId.None? || sessionId.value == "" {
        return;
      }
      var prev := Lookup(sessionId.value);
      statuses := statuses[sessionId.value := Marked(prev, labelText, kind, now)];
    }

    /**
      `clear_tool_status`: when there is an effective session, its record
      becomes inactive and lingers from `now`, keeping its label and
      type; nothing else changes.
     */
    method ClearToolStatus(now: real)
      modifies this
      ensures current == old(current) && fallback == old(fallback)
      ensures Target(old(EffectiveSessionId())).None? ==> statuses == old(statuses)
      ensures Target(old(EffectiveSessionId())).Some? ==>
                var id := old(EffectiveSessionId()).value;
                statuses == old(statuses)[id := Cleared(old(Lookup(id)), now)]
    {
      var sessionId := EffectiveSessionId();
      if sessionId.None? || sessionId.value == "" {
        return;
      }
      var prev := Lookup(sessionId.value);
      statuses := statuses[sessionId.value := Cleared(prev, now)];
    }

    /** `get_tool_status`: the view of the session's record at time `now`; a pure read. */
    function GetToolStatus(id: string, now: real): (v: View)
      reads this
      ensures v.searching ==> v.active && id in statuses && statuses[id].kind == Some("search")
      ensures id !in statuses && now >= 0.0 ==> v == View(false, "Working…", false)
    {
      Report(Lookup(id), now)
    }
  }

  /**
    A tool run as the source's tools do it: mark, then clear. Read at a
    later time `t`, the session that ran it shows the tool's label and is
    active until `LingerSeconds` after the clear; every other session
    reads as before.
   */
  method MarkAndClear(board: StatusBoard, labelText: string, kind: string, now1: real, now2: real, t: real, other: string)
      returns (v: View, w: View)
    requires labelText != ""
    requires board.current.Some? && board.current.value != ""
    requires other != board.current.value
    modifies board
    ensures v == View(t < now2 + LingerSeconds, labelText, t < now2 + LingerSeconds && kind == "search")
    ensures w == old(board.GetToolStatus(other, t))
  {
    board.MarkStatus(labelText, kind, now1);
    board.ClearToolStatus(now2);
    MarkThenClear(old(board.Lookup(board.current.value)), labelText, kind, now1, now2, t);
    v := board.GetToolStatus(board.current.value, t);
    w := board.GetToolStatus(other, t);
  }
}
