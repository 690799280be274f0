/**
  The trigger text of a scheduled task: `_parse_rrule` (taskScheduler.py:80-99)
  and `parse_vevent` (taskScheduler.py:102-123). A trigger is a VEVENT-like
  snippet holding a DTSTART line (section 3.8.2.4 of RFC 5545) and an
  optional RRULE line (section 3.8.5.3) whose FREQ, INTERVAL, COUNT and
  UNTIL parts (section 3.3.10) drive the recurrence.
 */
module Vevent {
  import opened Wrappers
  import opened Text
  import opened Civil
  import opened DateLiteral

  // ---------------------------------------------------------------------------
  // _parse_rrule

  /**
    The dictionary `_parse_rrule` returns: the stripped text of every
    `KEY=VALUE` part under its upper-cased key, with INTERVAL converted to an
    integer (1 when absent or not a number) and COUNT to an integer or None.
   */
  datatype Rule = Rule(fields: map<string, string>, interval: int, count: Option<int>)

  /** The text after the first `:` of the RRULE line, or the whole line when it has none. */
  function RuleBody(line: string): (body: string)
    ensures ':' in line ==> |body| < |line| && line[|line| - |body| - 1] == ':' && body == line[|line| - |body|..]
    ensures ':' !in line ==> body == line
  {
    match SplitOnce(line, ':')
    case None => line
    case Some((head, body)) => assert line[|head|] == ':' && line[|head| + 1..] == body; body
  }

  /** One part entered into the dictionary: a part without `=` is ignored. */
  function AddPart(fields: map<string, string>, part: string): map<string, string> {
    match SplitOnce(part, '=')
    case None => fields
    case Some((k, v)) => fields[Upper(Strip(k)) := Strip(v)]
  }

  /** The dictionary built from `parts` left to right, so a later key overwrites an earlier one. */
  function PartsOf(parts: seq<string>): map<string, string> {
    if |parts| == 0 then map[] else AddPart(PartsOf(parts[..|parts| - 1]), parts[|parts| - 1])
  }

  /** INTERVAL and COUNT as `int()` reads them. */
  function RuleOf(fields: map<string, string>): (r: Rule)
    ensures r.fields == fields
    ensures "INTERVAL" !in fields ==> r.interval == 1
    ensures "COUNT" !in fields ==> r.count == None
  {
    var interval := if "INTERVAL" in fields then ParseInt(fields["INTERVAL"]).GetOr(1) else 1;
    var count := if "COUNT" in fields then ParseInt(fields["COUNT"]) else None;
    Rule(fields, interval, count)
  }

  /**
    The `try`/`except` conversions of `_parse_rrule`: INTERVAL is the number
    `int()` reads from its text, and 1 when `int()` raises; COUNT is that
    number, and None when `int()` raises.
   */
  lemma RuleConversions(fields: map<string, string>)
    ensures "INTERVAL" in fields && ParseInt(fields["INTERVAL"]).None? ==> RuleOf(fields).interval == 1
    ensures "INTERVAL" in fields && ParseInt(fields["INTERVAL"]).Some? ==> RuleOf(fields).interval == ParseInt(fields["INTERVAL"]).value
    ensures "COUNT" in fields && ParseInt(fields["COUNT"]).None? ==> RuleOf(fields).count == None
    ensures "COUNT" in fields && ParseInt(fields["COUNT"]).Some? ==> RuleOf(fields).count == ParseInt(fields["COUNT"])
  {
  }

  /** `_parse_rrule(line)`. */
  function RuleFromLine(line: string): Rule {
    RuleOf(PartsOf(Split(RuleBody(line), ';')))
  }

  /** `_parse_rrule`: the loop over the `;`-separated parts fills the dictionary. */
  method ParseRrule(line: string) returns (r: Rule)
    ensures r == RuleFromLine(line)
  {
    var body := match SplitOnce(line, ':') case None => line case Some((_, b)) => b;
    var parts := Split(body, ';');
    var fields: map<string, string> := map[];
    var i := 0;
    while i < |parts|
      invariant 0 <= i <= |parts|
      invariant fields == PartsOf(parts[..i])
    {
      assert parts[..i + 1][..i] == parts[..i];
      match SplitOnce(parts[i], '=') {
        case Some((k, v)) => fields := fields[Upper(Strip(k)) := Strip(v)];
        case None =>
      }
      i := i + 1;
    }
    assert parts[..|parts|] == parts;
    var interval := 1;
    if "INTERVAL" in fields {
      match ParseInt(fields["INTERVAL"]) {
        case Some(n) => interval := n;
        case None => interval := 1;
      }
    }
    var count := None;
    if "COUNT" in fields {
      count := ParseInt(fields["COUNT"]);
    }
    r := Rule(fields, interval, count);
  }

  /** A later `KEY=VALUE` part overwrites an earlier one with the same key; other keys are kept. */
  lemma LaterPartWins(parts: seq<string>, k: string, v: string)
    requires '=' !in k
    ensures PartsOf(parts + [Part(k, v)]) == PartsOf(parts)[Upper(Strip(k)) := Strip(v)]
  {
    SplitOnceAt(k, v, '=');
    assert (parts + [Part(k, v)])[..|parts|] == parts;
  }

  /** An upper-case word: a FREQ value as RFC 5545 spells it. */
  predicate IsWord(w: string) {
    |w| >= 1 && forall i :: 0 <= i < |w| ==> 'A' <= w[i] <= 'Z'
  }

  /** The RRULE line for a frequency and an interval. */
  function RenderRule(freq: string, interval: int): string {
    "RRULE" + [':'] + (Part("FREQ", freq) + [';'] + Part("INTERVAL", IntToString(interval)))
  }

  /** `KEY=VALUE`. */
  function Part(key: string, value: string): string {
    key + ['='] + value
  }

  lemma IntToStringChars(n: int)
    ensures forall i :: 0 <= i < |IntToString(n)| ==> IsDigit(IntToString(n)[i]) || IntToString(n)[i] == '-'
    ensures |IntToString(n)| >= 1 && !IsSpace(IntToString(n)[0]) && !IsSpace(IntToString(n)[|IntToString(n)| - 1])
  {
  }

  lemma FieldOfPart(fields: map<string, string>, key: string, v: string)
    requires IsWord(key) && |v| >= 1 && !IsSpace(v[0]) && !IsSpace(v[|v| - 1])
    ensures AddPart(fields, Part(key, v)) == fields[key := v]
  {
    SplitOnceAt(key, v, '=');
    NoSpaceStrip(key);
    NoSpaceStrip(v);
    UpperOfUpper(key);
  }

  /** Text without `;`, `=`, `:` or spaces: an upper-case word or the digits of a number. */
  predicate IsPlainValue(v: string) {
    |v| >= 1 && forall i :: 0 <= i < |v| ==> 'A' <= v[i] <= 'Z' || IsDigit(v[i]) || v[i] == '-'
  }

  lemma PlainPart(key: string, value: string)
    requires IsWord(key) && IsPlainValue(value)
    ensures ';' !in Part(key, value) && ':' !in Part(key, value)
  {
  }

  lemma RuleBodyAfterName(body: string)
    ensures RuleBody("RRULE" + [':'] + body) == body
  {
    SplitOnceAt("RRULE", body, ':');
  }

  /** The parts of the line `RenderRule` writes. */
  lemma RenderedRuleParts(freq: string, digits: string)
    requires IsPlainValue(freq) && IsPlainValue(digits)
    ensures Split(RuleBody("RRULE" + [':'] + (Part("FREQ", freq) + [';'] + Part("INTERVAL", digits))), ';')
            == [Part("FREQ", freq), Part("INTERVAL", digits)]
  {
    var p1 := Part("FREQ", freq);
    var p2 := Part("INTERVAL", digits);
    RuleBodyAfterName(p1 + [';'] + p2);
    PlainPart("FREQ", freq);
    PlainPart("INTERVAL", digits);
    SplitTwo(p1, p2, ';');
  }

  lemma TwoParts(k1: string, v1: string, k2: string, v2: string)
    requires IsWord(k1) && |v1| >= 1 && !IsSpace(v1[0]) && !IsSpace(v1[|v1| - 1])
    requires IsWord(k2) && |v2| >= 1 && !IsSpace(v2[0]) && !IsSpace(v2[|v2| - 1])
    ensures PartsOf([Part(k1, v1), Part(k2, v2)]) == map[k1 := v1][k2 := v2]
  {
    var a := Part(k1, v1);
    var b := Part(k2, v2);
    var parts := [a, b];
    assert [a][..0] == [];
    assert PartsOf([a]) == AddPart(map[], a);
    FieldOfPart(map[], k1, v1);
    assert parts[..1] == [a];
    assert PartsOf(parts) == AddPart(PartsOf([a]), b);
    FieldOfPart(map[k1 := v1], k2, v2);
  }

  lemma RuleKeysAreWords()
    ensures IsWord("FREQ") && IsWord("INTERVAL")
  {
  }

  lemma RuleOfTwoFields(freq: string, digits: string, interval: int)
    requires ParseInt(digits) == Some(interval)
    ensures RuleOf(map["FREQ" := freq]["INTERVAL" := digits]) == Rule(map["FREQ" := freq, "INTERVAL" := digits], interval, None)
  {
    var fields := map["FREQ" := freq]["INTERVAL" := digits];
    assert "COUNT" != "FREQ" && "COUNT" != "INTERVAL";
    assert "COUNT" !in fields;
  }

  /** A word neither starts nor ends with whitespace. */
  lemma WordEnds(w: string)
    requires IsWord(w)
    ensures !IsSpace(w[0]) && !IsSpace(w[|w| - 1])
  {
    assert 'A' <= w[0] <= 'Z' && 'A' <= w[|w| - 1] <= 'Z';
  }

  lemma RenderedRuleSplit(freq: string, interval: int)
    requires IsWord(freq)
    ensures Split(RuleBody(RenderRule(freq, interval)), ';') == [Part("FREQ", freq), Part("INTERVAL", IntToString(interval))]
  {
    var digits := IntToString(interval);
    IntToStringChars(interval);
    assert IsPlainValue(freq) && IsPlainValue(digits);
    RenderedRuleParts(freq, digits);
  }

  /** The dictionary of the line `RenderRule` writes. */
  lemma RenderedRuleFields(freq: string, interval: int)
    requires IsWord(freq)
    ensures PartsOf(Split(RuleBody(RenderRule(freq, interval)), ';')) == map["FREQ" := freq]["INTERVAL" := IntToString(interval)]
  {
    var digits := IntToString(interval);
    RenderedRuleSplit(freq, interval);
    IntToStringChars(interval);
    RuleKeysAreWords();
    WordEnds(freq);
    TwoParts("FREQ", freq, "INTERVAL", digits);
  }

  /** `_parse_rrule` reads back the frequency and interval of the line `RenderRule` writes. */
  lemma ParseRenderedRule(freq: string, interval: int)
    requires IsWord(freq)
    ensures RuleFromLine(RenderRule(freq, interval))
            == Rule(map["FREQ" := freq, "INTERVAL" := IntToString(interval)], interval, None)
  {
    RenderedRuleFields(freq, interval);
    ParseIntOfIntToString(interval);
    RuleOfTwoFields(freq, IntToString(interval), interval);
  }

  // ---------------------------------------------------------------------------
  // parse_vevent

  /** What the line loop of `parse_vevent` keeps: the TZID, the DTSTART value and the rule. */
  datatype Scan = Scan(tzid: Option<string>, dtstart: Option<string>, rule: Option<Rule>)

  const Empty: Scan := Scan(None, None, None)

  /** A DTSTART line `parse_vevent` reads: it starts with `DTSTART` and has a `:`. */
  predicate IsDtstartLine(ln: string) {
    StartsWith(ln, "DTSTART") && ':' in ln
  }

  /** An RRULE line: it starts with `RRULE` (so it is no DTSTART line). */
  predicate IsRruleLine(ln: string) {
    StartsWith(ln, "RRULE")
  }

  /** No line is both a DTSTART line and an RRULE line. */
  lemma DtstartIsNotRrule(ln: string)
    ensures StartsWith(ln, "DTSTART") ==> !IsRruleLine(ln)
  {
    if StartsWith(ln, "DTSTART") {
      assert ln[0] == "DTSTART"[0] != "RRULE"[0];
    }
  }

  /**
    One stripped line: a DTSTART line sets the value after its first `:` and,
    when its head holds `;TZID=`, the zone after it; an RRULE line replaces
    the rule; anything else, and a DTSTART line without `:`, is skipped.
   */
  function ScanLine(st: Scan, ln: string): (r: Scan)
    ensures IsDtstartLine(ln) ==> r.dtstart == Some(Strip(SplitOnce(ln, ':').value.1))
    ensures IsDtstartLine(ln) ==>
              var head := SplitOnce(ln, ':').value.0;
              && (Contains(head, ";TZID=") ==> r.tzid == After(head, ";TZID="))
              && (!Contains(head, ";TZID=") ==> r.tzid == st.tzid)
    ensures !IsDtstartLine(ln) ==> r.dtstart == st.dtstart && r.tzid == st.tzid
    ensures IsRruleLine(ln) ==> r.rule == Some(RuleFromLine(ln))
    ensures !IsRruleLine(ln) ==> r.rule == st.rule
  {
    DtstartIsNotRrule(ln);
    if StartsWith(ln, "DTSTART") then
      match SplitOnce(ln, ':')
      case None => st
      case Some((head, dtval)) =>
        var tzid := match After(head, ";TZID=") case Some(z) => Some(z) case None => st.tzid;
        st.(tzid := tzid, dtstart := Some(Strip(dtval)))
    else if StartsWith(ln, "RRULE") then st.(rule := Some(RuleFromLine(ln)))
    else st
  }

  /** The state after the lines, in order. */
  function ScanLines(lines: seq<string>): Scan {
    if |lines| == 0 then Empty else ScanLine(ScanLines(lines[..|lines| - 1]), lines[|lines| - 1])
  }

  /** The decoded trigger: the first occurrence in UTC and the optional rule. */
  datatype Trigger = Trigger(start: Instant, rule: Option<Rule>)

  /** The ValueErrors `parse_vevent` raises. */
  datatype VeventError = MissingDtstart | UnrecognizedDatetime

  /** `parse_vevent(vevent)`. */
  function TriggerOf(vevent: string, env: Env): Result<Trigger, VeventError> {
    var st := ScanLines(NonBlankLines(vevent));
    if st.dtstart.None? || st.dtstart.value == "" then Failure(MissingDtstart)
    else match ParseDtValue(st.dtstart.value, st.tzid, env)
      case None => Failure(UnrecognizedDatetime)
      case Some(start) => Success(Trigger(start, st.rule))
  }

  /** `parse_vevent`: the loop over the non-blank lines overwrites `tzid`, `dtstart_val` and `rrule`. */
  /** Scanning one more line applies `ScanLine` to the scan so far. */
  lemma ScanOneMore(lines: seq<string>, i: nat)
    requires i < |lines|
    ensures ScanLines(lines[..i + 1]) == ScanLine(ScanLines(lines[..i]), lines[i])
  {
    assert lines[..i + 1][..i] == lines[..i];
  }

  /** The `for line in lines` scan, keeping the last DTSTART, its TZID and the last RRULE. */
  method ScanAll(lines: seq<string>) returns (tzid: Option<string>, dtstart: Option<string>, rule: Option<Rule>)
    ensures Scan(tzid, dtstart, rule) == ScanLines(lines)
  {
    tzid, dtstart, rule := None, None, None;
    var i := 0;
    while i < |lines|
      invariant 0 <= i <= |lines|
      invariant Scan(tzid, dtstart, rule) == ScanLines(lines[..i])
    {
      var ln := lines[i];
      ScanOneMore(lines, i);
      if StartsWith(ln, "DTSTART") {
        match SplitOnce(ln, ':') {
          case None =>
          case Some((head, dtval)) =>
            tzid := match After(head, ";TZID=") case Some(z) => Some(z) case None => tzid;
            dtstart := Some(Strip(dtval));
        }
      } else if StartsWith(ln, "RRULE") {
        var parsed := ParseRrule(ln);
        rule := Some(parsed);
      }
      i := i + 1;
    }
    assert lines[..|lines|] == lines;
  }

  method ParseVevent(vevent: string, env: Env) returns (r: Result<Trigger, VeventError>)
    ensures r == TriggerOf(vevent, env)
  {
    var tzid, dtstart, rule := ScanAll(NonBlankLines(vevent));
    if dtstart.None? || dtstart.value == "" {
      return Failure(MissingDtstart);
    }
    match ParseDtValue(dtstart.value, tzid, env) {
      case None => r := Failure(UnrecognizedDatetime);
      case Some(start) => r := Success(Trigger(start, rule));
    }
  }

  /** Without a DTSTART line that has a `:` there is no DTSTART value, so `parse_vevent` raises. */
  lemma {:induction false} NoDtstartLine(lines: seq<string>)
    requires forall i :: 0 <= i < |lines| ==> !IsDtstartLine(lines[i])
    ensures ScanLines(lines).dtstart.None?
  {
    if |lines| > 0 {
      NoDtstartLine(lines[..|lines| - 1]);
    }
  }

  /** The DTSTART value in force is the stripped text after the `:` of the last DTSTART line. */
  lemma {:induction false} LastDtstartWins(lines: seq<string>, i: nat)
    requires i < |lines| && IsDtstartLine(lines[i])
    requires forall j :: i < j < |lines| ==> !IsDtstartLine(lines[j])
    ensures ScanLines(lines).dtstart == Some(Strip(SplitOnce(lines[i], ':').value.1))
  {
    if i < |lines| - 1 {
      var init := lines[..|lines| - 1];
      assert init[i] == lines[i];
      LastDtstartWins(init, i);
    }
  }

  /** The rule in force is the one parsed from the last RRULE line: a later RRULE line replaces an earlier one. */
  lemma {:induction false} LastRruleWins(lines: seq<string>, i: nat)
    requires i < |lines| && IsRruleLine(lines[i])
    requires forall j :: i < j < |lines| ==> !IsRruleLine(lines[j])
    ensures ScanLines(lines).rule == Some(RuleFromLine(lines[i]))
  {
    if i < |lines| - 1 {
      var init := lines[..|lines| - 1];
      assert init[i] == lines[i];
      LastRruleWins(init, i);
    }
  }

  /** Without an RRULE line there is no rule: the trigger is a one-shot. */
  lemma {:induction false} NoRruleLine(lines: seq<string>)
    requires forall i :: 0 <= i < |lines| ==> !IsRruleLine(lines[i])
    ensures ScanLines(lines).rule.None?
  {
    if |lines| > 0 {
      NoRruleLine(lines[..|lines| - 1]);
    }
  }

  /** The trigger text for a UTC start and an optional frequency and interval. */
  function RenderVevent(start: Instant, rule: Option<(string, int)>): string {
    var dtstart := "DTSTART:" + FormatUtc(start);
    match rule
    case None => dtstart
    case Some((freq, interval)) => dtstart + "\n" + RenderRule(freq, interval)
  }

  /** Printable ASCII without blanks: text that `strip` and `splitlines` leave whole. */
  predicate IsPlainLine(s: string) {
    |s| >= 1 && forall i :: 0 <= i < |s| ==> '!' <= s[i] <= '~'
  }

  lemma NonBlankOneLine(a: string)
    requires IsPlainLine(a)
    ensures NonBlankLines(a) == [a]
  {
    SplitLinesOfLine(a);
    NoSpaceStrip(a);
    assert [a][1..] == [];
  }

  lemma NonBlankTwoLines(a: string, b: string)
    requires IsPlainLine(a) && IsPlainLine(b)
    ensures NonBlankLines(a + "\n" + b) == [a, b]
  {
    assert SplitLines(a + "\n" + b) == [a, b] by {
      assert a + "\n" + b == a + ['\n'] + b;
      SplitLinesAfterLine(a, '\n', b);
      SplitLinesOfLine(b);
      assert [a] + [b] == [a, b];
    }
    NoSpaceStrip(a);
    NoSpaceStrip(b);
    assert [a, b][1..] == [b] && [b][1..] == [];
    assert StripNonBlank([b]) == [b];
  }

  lemma ScanTwoLines(a: string, b: string)
    ensures ScanLines([a]) == ScanLine(Empty, a)
    ensures ScanLines([a, b]) == ScanLine(ScanLine(Empty, a), b)
  {
    assert [a][..0] == [];
    assert [a, b][..1] == [a];
  }

  lemma DtstartLineIsPlain(t: Instant)
    ensures IsPlainLine("DTSTART:" + FormatUtc(t))
  {
    FormatUtcLayout(t);
    var s := FormatUtc(t);
    forall i | 0 <= i < 16
      ensures '!' <= s[i] <= '~'
    {
      if i < 4 { assert s[i] == s[0..4][i]; }
      else if 4 <= i < 6 { assert s[i] == s[4..6][i - 4]; }
      else if 6 <= i < 8 { assert s[i] == s[6..8][i - 6]; }
      else if 9 <= i < 11 { assert s[i] == s[9..11][i - 9]; }
      else if 11 <= i < 13 { assert s[i] == s[11..13][i - 11]; }
      else if 13 <= i < 15 { assert s[i] == s[13..15][i - 13]; }
    }
  }

  lemma RuleLineIsPlain(freq: string, interval: int)
    requires IsWord(freq)
    ensures IsPlainLine(RenderRule(freq, interval))
  {
    IntToStringChars(interval);
  }

  /** A `;` that is not in the text rules out any marker starting with it. */
  lemma {:induction false} NotContainsFirst(s: string, marker: string)
    requires |marker| > 0 && marker[0] !in s
    ensures !Contains(s, marker)
    decreases |s|
  {
    if |s| > 0 {
      NotContainsFirst(s[1..], marker);
    }
  }

  /** The DTSTART line `RenderVevent` writes sets the value and no zone. */
  lemma ScanDtstartLine(st: Scan, t: Instant)
    ensures ScanLine(st, "DTSTART:" + FormatUtc(t)) == st.(dtstart := Some(FormatUtc(t)))
  {
    var f := FormatUtc(t);
    DtstartHead(f);
    DtstartHeadHasNoZone();
    FormatUtcIsStripped(t);
    ScanZonelessDtstart(st, "DTSTART:" + f, "DTSTART", f);
  }

  lemma DtstartHead(value: string)
    ensures StartsWith("DTSTART:" + value, "DTSTART")
    ensures SplitOnce("DTSTART:" + value, ':') == Some(("DTSTART", value))
  {
    assert ("DTSTART:" + value)[..7] == "DTSTART";
    assert "DTSTART:" + value == "DTSTART" + [':'] + value;
    SplitOnceAt("DTSTART", value, ':');
  }

  lemma DtstartHeadHasNoZone()
    ensures After("DTSTART", ";TZID=").None?
  {
    NotContainsFirst("DTSTART", ";TZID=");
  }

  /** A DTSTART line whose head names no zone sets the stripped value and keeps the zone. */
  lemma ScanZonelessDtstart(st: Scan, ln: string, head: string, value: string)
    requires StartsWith(ln, "DTSTART") && SplitOnce(ln, ':') == Some((head, value))
    requires After(head, ";TZID=").None? && Strip(value) == value
    ensures ScanLine(st, ln) == st.(dtstart := Some(value))
  {
  }

  lemma FormatUtcIsStripped(t: Instant)
    ensures Strip(FormatUtc(t)) == FormatUtc(t)
  {
    var f := FormatUtc(t);
    assert IsPlainLine(f) by {
      DtstartLineIsPlain(t);
      assert forall i :: 0 <= i < |f| ==> f[i] == ("DTSTART:" + f)[i + 8];
    }
    NoSpaceStrip(f);
  }

  /** The non-blank lines of `RenderVevent`'s text are its DTSTART line and, with a rule, its RRULE line. */
  lemma RenderedLines(start: Instant, rule: Option<(string, int)>)
    requires rule.Some? ==> IsWord(rule.value.0)
    ensures NonBlankLines(RenderVevent(start, rule))
            == ["DTSTART:" + FormatUtc(start)] + (if rule.None? then [] else [RenderRule(rule.value.0, rule.value.1)])
  {
    DtstartLineIsPlain(start);
    if rule.Some? {
      RuleLineIsPlain(rule.value.0, rule.value.1);
      NonBlankTwoLines("DTSTART:" + FormatUtc(start), RenderRule(rule.value.0, rule.value.1));
    } else {
      NonBlankOneLine("DTSTART:" + FormatUtc(start));
    }
  }

  /** The RRULE line `RenderVevent` writes replaces the rule and nothing else. */
  lemma ScanRuleLine(st: Scan, freq: string, interval: int)
    ensures ScanLine(st, RenderRule(freq, interval)) == st.(rule := Some(RuleFromLine(RenderRule(freq, interval))))
  {
    var line := RenderRule(freq, interval);
    assert line[..5] == "RRULE";
    assert !StartsWith(line, "DTSTART") by {
      assert line[0] != "DTSTART"[0];
    }
  }

  /** The line loop over `RenderVevent`'s text ends with its start text, no zone, and its rule. */
  lemma ScanRendered(start: Instant, rule: Option<(string, int)>)
    requires rule.Some? ==> IsWord(rule.value.0)
    ensures ScanLines(NonBlankLines(RenderVevent(start, rule)))
            == Scan(None, Some(FormatUtc(start)), if rule.None? then None else Some(RuleFromLine(RenderRule(rule.value.0, rule.value.1))))
  {
    var first := "DTSTART:" + FormatUtc(start);
    RenderedLines(start, rule);
    ScanDtstartLine(Empty, start);
    if rule.Some? {
      var second := RenderRule(rule.value.0, rule.value.1);
      ScanTwoLines(first, second);
      ScanRuleLine(ScanLine(Empty, first), rule.value.0, rule.value.1);
    } else {
      ScanTwoLines(first, first);
    }
  }

  /** `parse_vevent` reads back the start and rule of the text `RenderVevent` writes. */
  lemma ParseRenderedVevent(start: Instant, rule: Option<(string, int)>, env: Env)
    requires rule.Some? ==> IsWord(rule.value.0)
    ensures TriggerOf(RenderVevent(start, rule), env)
            == Success(Trigger(start, if rule.None? then None else Some(RuleFromLine(RenderRule(rule.value.0, rule.value.1)))))
  {
    ScanRendered(start, rule);
    ParseFormatUtc(start, None, env);
  }
}
