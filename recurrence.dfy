/**
  `_next_run_after` (taskScheduler.py:135-169): the first occurrence of a
  trigger strictly after a watermark. Occurrences are the start instant
  advanced again and again by INTERVAL units of FREQ, each step taken from
  the previous, already clamped, candidate; COUNT and UNTIL end the series.
 */
module Recurrence {
  import opened Wrappers
  import opened Text
  import opened Civil
  import opened DateLiteral
  import opened Vevent

  datatype Freq = Hourly | Daily | Weekly | Monthly | Yearly | Unknown

  /** `(rrule.get("FREQ") or "DAILY").upper()`, read as one of the five frequencies. */
  function FreqOf(rule: Rule): (f: Freq)
    ensures ("FREQ" !in rule.fields || rule.fields["FREQ"] == "") ==> f == Daily
  {
    var name := if "FREQ" in rule.fields && rule.fields["FREQ"] != "" then Upper(rule.fields["FREQ"]) else "DAILY";
    if name == "HOURLY" then Hourly
    else if name == "DAILY" then Daily
    else if name == "WEEKLY" then Weekly
    else if name == "MONTHLY" then Monthly
    else if name == "YEARLY" then Yearly
    else Unknown
  }

  /** `int(rrule.get("INTERVAL") or 1)`: a zero INTERVAL counts as 1, so the step is never zero. */
  function EffectiveInterval(rule: Rule): (n: int)
    ensures n != 0
    ensures rule.interval != 0 ==> n == rule.interval
  {
    if rule.interval == 0 then 1 else rule.interval
  }

  /**
    One advancement of a candidate; None is the exception Python raises
    (OverflowError leaving the datetime range, ValueError from `replace`
    on a year out of range or on February 29 in a common year). An unknown
    FREQ has no advancement.
   */
  function Advance(c: Instant, freq: Freq, interval: int): Option<Instant> {
    match freq
    case Hourly => AddSeconds(c, interval * 3600)
    case Daily => AddSeconds(c, interval * SecondsPerDay)
    case Weekly => AddSeconds(c, interval * 7 * SecondsPerDay)
    case Monthly => AddMonths(c, interval)
    case Yearly => ReplaceYear(c, c.year + interval)
    case Unknown => None
  }

  /** A positive interval moves a candidate strictly later, a negative one strictly earlier. */
  lemma AdvanceMoves(c: Instant, freq: Freq, interval: int)
    requires Advance(c, freq, interval).Some?
    ensures interval > 0 ==> Before(c, Advance(c, freq, interval).value)
    ensures interval < 0 ==> Before(Advance(c, freq, interval).value, c)
  {
    var n := Advance(c, freq, interval).value;
    if freq == Monthly || freq == Yearly {
      assert MonthIndex(n.year, n.month) == MonthIndex(c.year, c.month) + (if freq == Monthly then interval else 12 * interval);
    } else {
      SecondsOrder(c, n);
      SecondsOrder(n, c);
    }
  }

  /** One advancement, as the function the loop applies to its candidate. */
  function StepOf(freq: Freq, interval: int): Instant -> Option<Instant> {
    c => Advance(c, freq, interval)
  }

  /** Every advancement `step` makes goes strictly later (`forward`) or strictly earlier. */
  ghost predicate Moves(step: Instant -> Option<Instant>, forward: bool) {
    forall c: Instant :: step(c).Some? ==> if forward then Before(c, step(c).value) else Before(step(c).value, c)
  }

  lemma StepMoves(freq: Freq, interval: int)
    requires interval != 0
    ensures Moves(StepOf(freq, interval), interval > 0)
  {
    forall c: Instant | StepOf(freq, interval)(c).Some?
      ensures if interval > 0 then Before(c, StepOf(freq, interval)(c).value)
              else Before(StepOf(freq, interval)(c).value, c)
    {
      AdvanceMoves(c, freq, interval);
    }
  }

  /** How `_next_run_after` ends: with an occurrence, with None, or by raising. */
  datatype Outcome = Occurs(at: Instant) | NoOccurrence | Raises

  /** The loop's measure: the distance to the end of the range it walks towards. */
  function Room(c: Instant, forward: bool): nat {
    RankBounds(c);
    if forward then MaxRank - Rank(c) else Rank(c)
  }

  /**
    The `while candidate <= after` loop from candidate `c` after `idx`
    advancements by `step`: an unknown FREQ ends it with None; otherwise
    advance, then stop with None once `idx` reaches COUNT or the candidate
    passes UNTIL.
   */
  function Walk(c: Instant, after: DateTime, freq: Freq, step: Instant -> Option<Instant>, forward: bool,
                count: Option<int>, until: Option<Instant>, idx: nat): Outcome
    requires Moves(step, forward)
    decreases Room(c, forward)
  {
    if Before(after, c) then Occurs(c)
    else if freq == Unknown then NoOccurrence
    else match step(c)
      case None => Raises
      case Some(n) =>
        if count.Some? && idx + 1 >= count.value then NoOccurrence
        else if until.Some? && Before(until.value, n) then NoOccurrence
        else
          RankBounds(n);
          Walk(n, after, freq, step, forward, count, until, idx + 1)
  }

  /** The UNTIL part, when present and non-empty, parsed as UTC; None inside Some is a parse error. */
  function UntilOf(rule: Rule, env: Env): Option<Option<Instant>> {
    if "UNTIL" in rule.fields && rule.fields["UNTIL"] != "" then Some(ParseDtValue(rule.fields["UNTIL"], None, env))
    else None
  }

  /** The series a rule describes, walked from `start` with UNTIL already parsed. */
  function Series(start: Instant, rule: Rule, after: DateTime, until: Option<Instant>): Outcome {
    var interval := EffectiveInterval(rule);
    StepMoves(FreqOf(rule), interval);
    Walk(start, after, FreqOf(rule), StepOf(FreqOf(rule), interval), interval > 0, rule.count, until, 0)
  }

  /** `_next_run_after(start, rrule, after)`. */
  function NextRun(start: Instant, rule: Option<Rule>, after: DateTime, env: Env): Outcome {
    match rule
    case None => if Before(after, start) then Occurs(start) else NoOccurrence
    case Some(r) =>
      match UntilOf(r, env)
      case Some(None) => Raises
      case Some(Some(until)) => Series(start, r, after, Some(until))
      case None => Series(start, r, after, None)
  }

  /** An UNTIL text that does not parse raises. */
  lemma BadUntilRaises(start: Instant, rule: Rule, after: DateTime, env: Env)
    requires UntilOf(rule, env) == Some(None)
    ensures NextRun(start, Some(rule), after, env) == Raises
  {
  }

  /** Otherwise the rule's series is walked, bounded by the parsed UNTIL when there is one. */
  lemma NextRunOfRule(start: Instant, rule: Rule, after: DateTime, env: Env, until: Option<Instant>)
    requires UntilOf(rule, env) != Some(None) && until == UntilOf(rule, env).GetOr(None)
    ensures NextRun(start, Some(rule), after, env) == Series(start, rule, after, until)
  {
    match UntilOf(rule, env)
    case None =>
    case Some(_) =>
  }

  /** `_next_run_after`: the loop advancing `candidate` and counting `idx`. */
  method NextRunAfter(start: Instant, rule: Option<Rule>, after: DateTime, env: Env) returns (r: Outcome)
    ensures r == NextRun(start, rule, after, env)
  {
    var candidate := start;
    var idx: nat := 0;
    if rule.None? {
      return if Before(after, candidate) then Occurs(candidate) else NoOccurrence;
    }
    var freq := FreqOf(rule.value);
    var interval := EffectiveInterval(rule.value);
    var countLimit := rule.value.count;
    var untilField := UntilOf(rule.value, env);
    if untilField == Some(None) {
      BadUntilRaises(start, rule.value, after, env);
      return Raises;
    }
    var until := if untilField.Some? then untilField.value else None;
    NextRunOfRule(start, rule.value, after, env, until);
    ghost var step := StepOf(freq, interval);
    StepMoves(freq, interval);
    while AtOrBefore(candidate, after)
      invariant Walk(candidate, after, freq, step, interval > 0, countLimit, until, idx) == NextRun(start, rule, after, env)
      decreases Room(candidate, interval > 0)
    {
      if freq == Unknown {
        return NoOccurrence;
      }
      var next := Advance(candidate, freq, interval);
      assert next == step(candidate);
      if next.None? {
        return Raises;
      }
      RankBounds(next.value);
      idx := idx + 1;
      candidate := next.value;
      if countLimit.Some? && idx >= countLimit.value {
        return NoOccurrence;
      }
      if until.Some? && Before(until.value, candidate) {
        return NoOccurrence;
      }
    }
    return Occurs(candidate);
  }

  // ---------------------------------------------------------------------------
  // What an occurrence is.

  /** The candidate after `k` advancements by `step` from `c`, each from the previous one. */
  function Iterate(c: Instant, step: Instant -> Option<Instant>, k: nat): Option<Instant>
    decreases k
  {
    if k == 0 then Some(c)
    else match step(c)
      case None => None
      case Some(n) => Iterate(n, step, k - 1)
  }

  /**
    The first `k` candidates from `c`, each the advancement of the one
    before, exist and are all at or before `after`.
   */
  ghost predicate Quiet(c: Instant, step: Instant -> Option<Instant>, after: DateTime, k: nat)
    decreases k
  {
    k == 0 || (AtOrBefore(c, after) && (k > 1 ==> step(c).Some? && Quiet(step(c).value, step, after, k - 1)))
  }

  /** `Quiet` read as a statement about every earlier iterate. */
  lemma {:induction false} QuietIterates(c: Instant, step: Instant -> Option<Instant>, after: DateTime, k: nat)
    requires Quiet(c, step, after, k)
    ensures forall j :: 0 <= j < k ==> Iterate(c, step, j).Some? && AtOrBefore(Iterate(c, step, j).value, after)
    decreases k
  {
    if k > 1 {
      var n := step(c).value;
      QuietIterates(n, step, after, k - 1);
      forall j | 0 < j < k
        ensures Iterate(c, step, j).Some? && AtOrBefore(Iterate(c, step, j).value, after)
      {
        assert Iterate(c, step, j) == Iterate(n, step, j - 1);
      }
    }
  }

  /** Conversely, earlier iterates at or before `after` make the walk `Quiet`. */
  lemma {:induction false} IteratesQuiet(c: Instant, step: Instant -> Option<Instant>, after: DateTime, k: nat)
    requires forall j :: 0 <= j < k ==> Iterate(c, step, j).Some? && AtOrBefore(Iterate(c, step, j).value, after)
    ensures Quiet(c, step, after, k)
    decreases k
  {
    if k > 0 {
      assert Iterate(c, step, 0) == Some(c);
      if k > 1 {
        assert Iterate(c, step, 1).Some?;
        var n := step(c).value;
        forall j | 0 <= j < k - 1
          ensures Iterate(n, step, j).Some? && AtOrBefore(Iterate(n, step, j).value, after)
        {
          assert Iterate(c, step, j + 1) == Iterate(n, step, j);
        }
        IteratesQuiet(n, step, after, k - 1);
      }
    }
  }

  /**
    What `Walk` returns as an occurrence is the `k`-th candidate, strictly
    after `after`, every earlier candidate is at or before `after` (so it is
    the first one after it), fewer than COUNT advancements were made in all,
    and an advanced occurrence is not after UNTIL.
   */
  lemma {:induction false} WalkOccurrence(c: Instant, after: DateTime, freq: Freq, step: Instant -> Option<Instant>,
                                          forward: bool, count: Option<int>, until: Option<Instant>, idx: nat, t: Instant)
      returns (k: nat)
    requires Moves(step, forward)
    requires Walk(c, after, freq, step, forward, count, until, idx) == Occurs(t)
    ensures Iterate(c, step, k) == Some(t)
    ensures Before(after, t)
    ensures Quiet(c, step, after, k)
    ensures k > 0 ==> freq != Unknown
    ensures k > 0 && count.Some? ==> idx + k < count.value
    ensures k > 0 && until.Some? ==> AtOrBefore(t, until.value)
    decreases Room(c, forward)
  {
    if Before(after, c) {
      k := 0;
    } else {
      var n := WalkOn(c, after, freq, step, forward, count, until, idx, t);
      var k' := WalkOccurrence(n, after, freq, step, forward, count, until, idx + 1, t);
      k := k' + 1;
      assert Iterate(c, step, k) == Iterate(n, step, k');
    }
  }

  /** A walk that finds an occurrence past a candidate at or before `after` went on to the next candidate. */
  lemma WalkOn(c: Instant, after: DateTime, freq: Freq, step: Instant -> Option<Instant>, forward: bool,
               count: Option<int>, until: Option<Instant>, idx: nat, t: Instant) returns (n: Instant)
    requires Moves(step, forward) && AtOrBefore(c, after)
    requires Walk(c, after, freq, step, forward, count, until, idx) == Occurs(t)
    ensures freq != Unknown && step(c) == Some(n) && Room(n, forward) < Room(c, forward)
    ensures !(count.Some? && idx + 1 >= count.value) && !(until.Some? && Before(until.value, n))
    ensures Walk(n, after, freq, step, forward, count, until, idx + 1) == Occurs(t)
  {
    n := step(c).value;
    RankBounds(n);
  }

  /** A candidate at or before `after` whose advancement passes COUNT and UNTIL hands the walk on to it. */
  lemma WalkStep(c: Instant, n: Instant, after: DateTime, freq: Freq, step: Instant -> Option<Instant>, forward: bool,
                 count: Option<int>, until: Option<Instant>, idx: nat)
    requires Moves(step, forward) && AtOrBefore(c, after) && freq != Unknown && step(c) == Some(n)
    requires !(count.Some? && idx + 1 >= count.value) && !(until.Some? && Before(until.value, n))
    ensures Walk(c, after, freq, step, forward, count, until, idx) == Walk(n, after, freq, step, forward, count, until, idx + 1)
  {
  }

  /**
    A non-None result of `_next_run_after` with a rule is the start
    advanced `k` times by INTERVAL units of FREQ, strictly after `after`,
    the first such candidate, and inside COUNT and UNTIL. With `k == 0` it is
    the start itself, returned without consulting FREQ, COUNT or UNTIL.
   */
  lemma NextRunIsFirstOccurrence(start: Instant, rule: Rule, after: DateTime, env: Env, t: Instant)
      returns (k: nat)
    requires NextRun(start, Some(rule), after, env) == Occurs(t)
    ensures Iterate(start, StepOf(FreqOf(rule), EffectiveInterval(rule)), k) == Some(t)
    ensures Before(after, t)
    ensures forall j :: 0 <= j < k ==>
              Iterate(start, StepOf(FreqOf(rule), EffectiveInterval(rule)), j).Some? &&
              AtOrBefore(Iterate(start, StepOf(FreqOf(rule), EffectiveInterval(rule)), j).value, after)
    ensures k == 0 <==> Before(after, start)
    ensures k > 0 ==> FreqOf(rule) != Unknown
    ensures k > 0 && rule.count.Some? ==> k < rule.count.value
    ensures k > 0 && UntilOf(rule, env).Some? ==> AtOrBefore(t, UntilOf(rule, env).value.value)
  {
    var until := if UntilOf(rule, env).Some? then UntilOf(rule, env).value else None;
    var freq, interval := FreqOf(rule), EffectiveInterval(rule);
    NextRunOfRule(start, rule, after, env, until);
    StepMoves(freq, interval);
    k := WalkOccurrence(start, after, freq, StepOf(freq, interval), interval > 0, rule.count, until, 0, t);
    QuietIterates(start, StepOf(freq, interval), after, k);
    if k > 0 {
      assert Iterate(start, StepOf(freq, interval), 0) == Some(start);
    }
  }

  /**
    Conversely, the first candidate strictly after `after`, reached with
    fewer than COUNT advancements in all and not after UNTIL, is what
    `Walk` returns.
   */
  lemma {:induction false} WalkFindsOccurrence(c: Instant, after: DateTime, freq: Freq, step: Instant -> Option<Instant>,
                                               forward: bool, count: Option<int>, until: Option<Instant>, idx: nat,
                                               k: nat, t: Instant)
    requires Moves(step, forward)
    requires Iterate(c, step, k) == Some(t) && Before(after, t)
    requires Quiet(c, step, after, k)
    requires k > 0 ==> freq != Unknown
    requires k > 0 && count.Some? ==> idx + k < count.value
    requires k > 0 && until.Some? ==> AtOrBefore(t, until.value)
    ensures Walk(c, after, freq, step, forward, count, until, idx) == Occurs(t)
    decreases k
  {
    if k > 0 {
      var n := step(c).value;
      RankBounds(n);
      assert Iterate(c, step, k) == Iterate(n, step, k - 1);
      assert k == 1 ==> n == t;
      assert !(until.Some? && Before(until.value, n));
      WalkStep(c, n, after, freq, step, forward, count, until, idx);
      WalkFindsOccurrence(n, after, freq, step, forward, count, until, idx + 1, k - 1, t);
    }
  }

  /**
    The converse of `NextRunIsFirstOccurrence`: when the start advanced `k`
    times is the first candidate strictly after `after`, those advancements
    did not exhaust COUNT and it is not after UNTIL, `_next_run_after`
    returns it. Together the two lemmas say that the result is exactly the
    first occurrence after the watermark.
   */
  lemma NextRunFindsFirstOccurrence(start: Instant, rule: Rule, after: DateTime, env: Env, k: nat, t: Instant)
    requires UntilOf(rule, env) != Some(None)
    requires Iterate(start, StepOf(FreqOf(rule), EffectiveInterval(rule)), k) == Some(t) && Before(after, t)
    requires forall j :: 0 <= j < k ==>
               Iterate(start, StepOf(FreqOf(rule), EffectiveInterval(rule)), j).Some? &&
               AtOrBefore(Iterate(start, StepOf(FreqOf(rule), EffectiveInterval(rule)), j).value, after)
    requires k > 0 ==> FreqOf(rule) != Unknown
    requires k > 0 && rule.count.Some? ==> k < rule.count.value
    requires k > 0 && UntilOf(rule, env).Some? ==> AtOrBefore(t, UntilOf(rule, env).value.value)
    ensures NextRun(start, Some(rule), after, env) == Occurs(t)
  {
    var until := if UntilOf(rule, env).Some? then UntilOf(rule, env).value else None;
    var freq, interval := FreqOf(rule), EffectiveInterval(rule);
    NextRunOfRule(start, rule, after, env, until);
    StepMoves(freq, interval);
    IteratesQuiet(start, StepOf(freq, interval), after, k);
    WalkFindsOccurrence(start, after, freq, StepOf(freq, interval), interval > 0, rule.count, until, 0, k, t);
  }

  /** Without a rule the start is the only occurrence: it is returned exactly when it is after `after`. */
  lemma OneShotOccurrence(start: Instant, after: DateTime, env: Env)
    ensures NextRun(start, None, after, env).Occurs? <==> Before(after, start)
    ensures NextRun(start, None, after, env).Occurs? ==> NextRun(start, None, after, env).at == start
    ensures !NextRun(start, None, after, env).Raises?
  {
  }

  /** A start after the watermark is returned as it is, unless UNTIL does not parse. */
  lemma LaterStartReturned(start: Instant, rule: Rule, after: DateTime, env: Env)
    requires Before(after, start)
    requires UntilOf(rule, env) != Some(None)
    ensures NextRun(start, Some(rule), after, env) == Occurs(start)
  {
  }

  /** An unknown FREQ gives None as soon as one advancement is needed. */
  lemma UnknownFreqEndsAtOnce(start: Instant, rule: Rule, after: DateTime, env: Env)
    requires FreqOf(rule) == Unknown && AtOrBefore(start, after)
    ensures NextRun(start, Some(rule), after, env) != Occurs(start)
    ensures NextRun(start, Some(rule), after, env).Occurs? == false
  {
  }

  /**
    A negative INTERVAL walks backwards: once the start is at or before the
    watermark no occurrence is ever found, and the loop ends with None or by
    raising when it leaves the datetime range.
   */
  lemma NegativeIntervalNeverOccurs(start: Instant, rule: Rule, after: DateTime, env: Env)
    requires EffectiveInterval(rule) < 0 && AtOrBefore(start, after)
    ensures !NextRun(start, Some(rule), after, env).Occurs?
  {
    var until := if UntilOf(rule, env).Some? then UntilOf(rule, env).value else None;
    var freq, interval := FreqOf(rule), EffectiveInterval(rule);
    if UntilOf(rule, env) != Some(None) {
      NextRunOfRule(start, rule, after, env, until);
      StepMoves(freq, interval);
      WalkBackward(start, after, freq, StepOf(freq, interval), rule.count, until, 0);
    }
  }

  /** Walking backwards from at or before the watermark never gets past it. */
  lemma {:induction false} WalkBackward(c: Instant, after: DateTime, freq: Freq, step: Instant -> Option<Instant>,
                                        count: Option<int>, until: Option<Instant>, idx: nat)
    requires Moves(step, false) && AtOrBefore(c, after)
    ensures !Walk(c, after, freq, step, false, count, until, idx).Occurs?
    decreases Room(c, false)
  {
    if freq != Unknown && step(c).Some? {
      var n := step(c).value;
      RankBounds(n);
      WalkBackward(n, after, freq, step, count, until, idx + 1);
    }
  }

  /**
    A watermark after every instant (the reading of an aware stamp late on
    9999-12-31 with a negative offset) is never passed: no occurrence is
    found, and the loop ends with None or raises at the edge of the range.
   */
  lemma LateWatermarkNeverOccurs(start: Instant, rule: Option<Rule>, after: DateTime, env: Env)
    requires forall c: Instant :: Before(c, after)
    ensures !NextRun(start, rule, after, env).Occurs?
  {
    assert Before(start, after);
    if rule.Some? && UntilOf(rule.value, env) != Some(None) {
      var r := rule.value;
      var until := if UntilOf(r, env).Some? then UntilOf(r, env).value else None;
      var freq, interval := FreqOf(r), EffectiveInterval(r);
      NextRunOfRule(start, r, after, env, until);
      StepMoves(freq, interval);
      WalkBelow(start, after, freq, StepOf(freq, interval), interval > 0, r.count, until, 0);
    }
  }

  /** A walk that stays below `after` whatever it reaches never returns an occurrence. */
  lemma {:induction false} WalkBelow(c: Instant, after: DateTime, freq: Freq, step: Instant -> Option<Instant>,
                                     forward: bool, count: Option<int>, until: Option<Instant>, idx: nat)
    requires Moves(step, forward) && forall c': Instant :: Before(c', after)
    ensures !Walk(c, after, freq, step, forward, count, until, idx).Occurs?
    decreases Room(c, forward)
  {
    assert Before(c, after);
    if freq != Unknown && step(c).Some? {
      var n := step(c).value;
      RankBounds(n);
      WalkBelow(n, after, freq, step, forward, count, until, idx + 1);
    }
  }

  /** With a positive INTERVAL every occurrence is at or after the start. */
  lemma {:induction false} ForwardIsLater(c: Instant, step: Instant -> Option<Instant>, k: nat)
    requires Moves(step, true) && Iterate(c, step, k).Some?
    ensures AtOrBefore(c, Iterate(c, step, k).value)
    decreases k
  {
    if k > 0 {
      var n := step(c).value;
      assert Iterate(c, step, k) == Iterate(n, step, k - 1);
      ForwardIsLater(n, step, k - 1);
    }
  }

  // ---------------------------------------------------------------------------
  // Calendar steps.

  /**
    MONTHLY steps from the clamped candidate, so clamping sticks: from
    January 31 of 2024 the next candidates are February 29 and March 29,
    not March 31 as two months from the start would give.
   */
  lemma StickyMonthlyClamp()
    ensures Iterate(DateTime(2024, 1, 31, 9, 0, 0), StepOf(Monthly, 1), 1) == Some(DateTime(2024, 2, 29, 9, 0, 0))
    ensures Iterate(DateTime(2024, 1, 31, 9, 0, 0), StepOf(Monthly, 1), 2) == Some(DateTime(2024, 3, 29, 9, 0, 0))
    ensures AddMonths(DateTime(2024, 1, 31, 9, 0, 0), 2) == Some(DateTime(2024, 3, 31, 9, 0, 0))
  {
    var jan := DateTime(2024, 1, 31, 9, 0, 0);
    var feb := DateTime(2024, 2, 29, 9, 0, 0);
    var mar := DateTime(2024, 3, 29, 9, 0, 0);
    var step := StepOf(Monthly, 1);
    assert step(jan) == Some(feb) by {
      assert AddMonths(jan, 1) == Some(feb);
    }
    assert step(feb) == Some(mar) by {
      assert AddMonths(feb, 1) == Some(mar);
    }
    assert Iterate(jan, step, 2) == Iterate(feb, step, 1);
  }

  /**
    YEARLY from February 29 raises at the first advancement that lands in a
    common year, before COUNT is consulted.
   */
  lemma LeapDayYearlyRaises(start: Instant, rule: Rule, after: DateTime, env: Env)
    requires start.month == 2 && start.day == 29 && AtOrBefore(start, after)
    requires FreqOf(rule) == Yearly && !IsLeap(start.year + EffectiveInterval(rule))
    requires UntilOf(rule, env).None?
    ensures NextRun(start, Some(rule), after, env) == Raises
  {
    LeapDayHasNoYearly(start, EffectiveInterval(rule));
    StuckStartRaises(start, rule, after, env);
  }

  /** A start at or before `after` whose first advancement leaves the range raises, when UNTIL is absent. */
  lemma StuckStartRaises(start: Instant, rule: Rule, after: DateTime, env: Env)
    requires AtOrBefore(start, after) && FreqOf(rule) != Unknown && UntilOf(rule, env).None?
    requires Advance(start, FreqOf(rule), EffectiveInterval(rule)) == None
    ensures NextRun(start, Some(rule), after, env) == Raises
  {
    var freq, interval := FreqOf(rule), EffectiveInterval(rule);
    NextRunOfRule(start, rule, after, env, None);
    StepMoves(freq, interval);
    FailedStepRaises(start, after, freq, StepOf(freq, interval), interval > 0, rule.count, None, 0);
  }

  /** February 29 has no counterpart in a common year. */
  lemma LeapDayHasNoYearly(c: Instant, interval: int)
    requires c.month == 2 && c.day == 29 && !IsLeap(c.year + interval)
    ensures Advance(c, Yearly, interval) == None
  {
  }

  /** An advancement that raises ends the walk with the exception. */
  lemma FailedStepRaises(c: Instant, after: DateTime, freq: Freq, step: Instant -> Option<Instant>, forward: bool,
                         count: Option<int>, until: Option<Instant>, idx: nat)
    requires Moves(step, forward) && AtOrBefore(c, after) && freq != Unknown && step(c) == None
    ensures Walk(c, after, freq, step, forward, count, until, idx) == Raises
  {
  }
}
