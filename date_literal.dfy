/**
  `_parse_dt_value` (taskScheduler.py:26-77): the DTSTART / UNTIL literal
  grammar. `datetime.strptime` is modelled as CPython matches it: each
  directive is a regular-expression group with alternatives tried left to
  right (`%m` is `1[0-2]|0[1-9]|[1-9]`, so one-digit fields are accepted),
  literals match case-insensitively, the first match found by backtracking
  wins, and it must reach the end of the text ("unconverted data remains"
  otherwise); the fields must then form a valid `datetime`.
  Time-zone lookup and `datetime.fromisoformat` are library behaviour outside
  this model and come in through `Env`.
 */
module DateLiteral {
  import opened Wrappers
  import opened Text
  import opened Civil

  /**
    The environment `_parse_dt_value` consults: the UTC offset (seconds) the
    zone named by a TZID gives a naive local time (`None` when `ZoneInfo`
    does not know the name), the server's current UTC offset
    (`datetime.now().astimezone()`), and `datetime.fromisoformat`.
   */
  datatype Env = Env(
    zoneOffset: (string, Instant) -> Option<int>,
    localOffset: int,
    isoFallback: string -> Option<IsoValue>)

  /** What `fromisoformat` returns: civil fields and, for an aware value, its UTC offset. */
  datatype IsoValue = IsoValue(fields: Instant, offset: Option<int>)

  // ---------------------------------------------------------------------------
  // strptime

  /** One character position of a directive's regular expression. */
  datatype CharClass = InRange(lo: char, hi: char) | Letter(upper: char)

  type Alternative = seq<CharClass>

  datatype Directive = Year | Month | Day | Hour | Minute | Second | Literal(c: char)

  const Digit: CharClass := InRange('0', '9')

  function Ch(c: char): CharClass {
    InRange(c, c)
  }

  /** The alternatives of each directive's group, in the order the regex tries them. */
  function Alternatives(d: Directive): (alts: seq<Alternative>)
    ensures 1 <= |alts| <= 5
  {
    match d
    case Year => [[Digit, Digit, Digit, Digit]]
    case Month => [[Ch('1'), InRange('0', '2')], [Ch('0'), InRange('1', '9')], [InRange('1', '9')]]
    case Day => [[Ch('3'), InRange('0', '1')], [InRange('1', '2'), Digit], [Ch('0'), InRange('1', '9')],
                 [InRange('1', '9')], [Ch(' '), InRange('1', '9')]]
    case Hour => [[Ch('2'), InRange('0', '3')], [InRange('0', '1'), Digit], [Digit]]
    case Minute => [[InRange('0', '5'), Digit], [Digit]]
    case Second => [[Ch('6'), InRange('0', '1')], [InRange('0', '5'), Digit], [Digit]]
    case Literal(c) => [[Letter(c)]]
  }

  function Lower(c: char): char {
    if 'A' <= c <= 'Z' then (c as int + 32) as char else c
  }

  predicate ClassMatches(k: CharClass, c: char) {
    match k
    case InRange(lo, hi) => lo <= c <= hi
    case Letter(u) => c == u || c == Lower(u)
  }

  predicate AltMatches(alt: Alternative, s: string, pos: nat) {
    pos + |alt| <= |s| && forall j :: 0 <= j < |alt| ==> ClassMatches(alt[j], s[pos + j])
  }

  /** `int()` of a matched group: its digits, ignoring the blank `%d` may start with. */
  function GroupValue(t: string): (n: nat) {
    if |t| == 0 then 0
    else
      var last := t[|t| - 1];
      if IsDigit(last) then GroupValue(t[..|t| - 1]) * 10 + DigitValue(last) else GroupValue(t[..|t| - 1])
  }

  /**
    The first match of the directives `fmt` against `s` from `pos`, in
    backtracking order: one value per directive and the end position.
   */
  function Match(fmt: seq<Directive>, s: string, pos: nat): (r: Option<(seq<int>, nat)>)
    ensures r.Some? ==> |r.value.0| == |fmt| && (fmt == [] ==> r.value.1 == pos) && (fmt != [] ==> pos <= r.value.1 <= |s|)
    decreases |fmt|, 6
  {
    if |fmt| == 0 then Some(([], pos)) else TryAlternatives(fmt, s, pos, 0)
  }

  function TryAlternatives(fmt: seq<Directive>, s: string, pos: nat, k: nat): (r: Option<(seq<int>, nat)>)
    requires |fmt| > 0
    ensures r.Some? ==> |r.value.0| == |fmt| && pos <= r.value.1 <= |s|
    decreases |fmt|, |Alternatives(fmt[0])| - k
  {
    var alts := Alternatives(fmt[0]);
    if k >= |alts| then None
    else if AltMatches(alts[k], s, pos) then
      match Match(fmt[1..], s, pos + |alts[k]|)
      case Some((vals, end)) => Some(([GroupValue(s[pos..pos + |alts[k]|])] + vals, end))
      case None => TryAlternatives(fmt, s, pos, k + 1)
    else TryAlternatives(fmt, s, pos, k + 1)
  }

  /** The five formats `_parse_dt_value` tries, by name. */
  datatype Format = SecondsZ | MinutesZ | SecondsLocal | MinutesLocal | DateOnly

  /** `%Y%m%dT%H%M%SZ`, `%Y%m%dT%H%MZ`, `%Y%m%dT%H%M%S`, `%Y%m%dT%H%M`, `%Y%m%d`. */
  function Directives(f: Format): (fmt: seq<Directive>)
    ensures |fmt| >= 3
  {
    var date := [Year, Month, Day];
    match f
    case SecondsZ => date + [Literal('T'), Hour, Minute, Second, Literal('Z')]
    case MinutesZ => date + [Literal('T'), Hour, Minute, Literal('Z')]
    case SecondsLocal => date + [Literal('T'), Hour, Minute, Second]
    case MinutesLocal => date + [Literal('T'), Hour, Minute]
    case DateOnly => date
  }

  /** The datetime fields a match of `f` denotes; absent time fields are zero. */
  function Fields(f: Format, vals: seq<int>): DateTime
    requires |vals| == |Directives(f)|
  {
    var hour := if f == DateOnly then 0 else vals[4];
    var minute := if f == DateOnly then 0 else vals[5];
    var second := if f == SecondsZ || f == SecondsLocal then vals[6] else 0;
    DateTime(vals[0], vals[1], vals[2], hour, minute, second)
  }

  /** `datetime.strptime(v, f)`; None is the ValueError it raises. */
  function Strptime(v: string, f: Format): Option<Instant> {
    match Match(Directives(f), v, 0)
    case None => None
    case Some((vals, end)) =>
      var dt := Fields(f, vals);
      if end == |v| && Valid(dt) then Some(dt) else None
  }

  // ---------------------------------------------------------------------------
  // _parse_dt_value

  /**
    `_attach_tz`: read naive fields in the TZID zone, else in the server's
    zone, else as UTC. An offset that pushes the instant out of range raises
    inside a `try` and falls through to the next choice.
   */
  function AttachTz(dt: Instant, tzid: Option<string>, env: Env): (r: Instant)
    ensures ViaZone(dt, tzid, env).Some? ==> r == ViaZone(dt, tzid, env).value
    ensures ViaZone(dt, tzid, env).None? && AddSeconds(dt, -env.localOffset).None? ==> r == dt
  {
    match ViaZone(dt, tzid, env)
    case Some(u) => u
    case None =>
      match AddSeconds(dt, -env.localOffset)
      case Some(u) => u
      case None => dt
  }

  /** The instant naive fields denote in the TZID zone, when the zone is known and the result in range. */
  function ViaZone(dt: Instant, tzid: Option<string>, env: Env): Option<Instant> {
    if tzid.None? || tzid.value == "" then None
    else match env.zoneOffset(tzid.value, dt)
      case None => None
      case Some(offset) => AddSeconds(dt, -offset)
  }

  /** The naive formats in order; the first that parses wins. */
  function ParseNaive(v: string, tzid: Option<string>, env: Env): Option<Instant> {
    match Strptime(v, SecondsLocal)
    case Some(dt) => Some(AttachTz(dt, tzid, env))
    case None =>
      match Strptime(v, MinutesLocal)
      case Some(dt) => Some(AttachTz(dt, tzid, env))
      case None =>
        match Strptime(v, DateOnly)
        case Some(dt) => Some(AttachTz(dt, tzid, env))
        case None =>
          match env.isoFallback(v)
          case None => None
          case Some(IsoValue(fields, None)) => Some(AttachTz(fields, tzid, env))
          case Some(IsoValue(fields, Some(off))) => AddSeconds(fields, -off)
  }

  /**
    `_parse_dt_value(value, tzid)`; None is the ValueError "Unrecognized
    datetime format". A trailing `Z` first selects the UTC formats; when they
    fail the `Z` is dropped and the local formats are tried on the rest.
   */
  function ParseDtValue(value: string, tzid: Option<string>, env: Env): Option<Instant> {
    var v := Strip(value);
    if EndsWith(v, 'Z') then
      match Strptime(v, SecondsZ)
      case Some(dt) => Some(dt)
      case None =>
        match Strptime(v, MinutesZ)
        case Some(dt) => Some(dt)
        case None => ParseNaive(v[..|v| - 1], tzid, env)
    else
      ParseNaive(v, tzid, env)
  }

  // ---------------------------------------------------------------------------
  // The canonical UTC form parses back to the instant it renders.

  function Digit1(n: int): char
    requires 0 <= n <= 9
  {
    ('0' as int + n) as char
  }

  function Pad2(n: int): string
    requires 0 <= n <= 99
  {
    [Digit1(n / 10), Digit1(n % 10)]
  }

  function Pad4(n: int): string
    requires 0 <= n <= 9999
  {
    Pad2(n / 100) + Pad2(n % 100)
  }

  /** `YYYYMMDDTHHMMSSZ`, the basic UTC form of section 3.3.5 of RFC 5545. */
  function FormatUtc(t: Instant): (s: string)
    ensures |s| == 16
  {
    Pad4(t.year) + Pad2(t.month) + Pad2(t.day) + "T" + Pad2(t.hour) + Pad2(t.minute) + Pad2(t.second) + "Z"
  }

  /**
    `datetime.isoformat()` of a UTC instant, `YYYY-MM-DDTHH:MM:SS+00:00`;
    instants here have no fraction of a second, so none is written.
   */
  function IsoFormat(t: Instant): (s: string)
    ensures |s| == 25
  {
    Pad4(t.year) + "-" + Pad2(t.month) + "-" + Pad2(t.day) + "T" + Pad2(t.hour) + ":" + Pad2(t.minute) + ":"
    + Pad2(t.second) + "+00:00"
  }

  /** The first alternative of `d` that matches at `pos`, as (index, width, value). */
  function FirstLocalMatch(d: Directive, s: string, pos: nat, k: nat): Option<(nat, nat)>
    decreases |Alternatives(d)| - k
  {
    var alts := Alternatives(d);
    if k >= |alts| then None
    else if AltMatches(alts[k], s, pos) then Some((|alts[k]|, GroupValue(s[pos..pos + |alts[k]|])))
    else FirstLocalMatch(d, s, pos, k + 1)
  }

  /** When the first locally matching alternative lets the rest match, backtracking keeps it. */
  lemma {:induction false} MatchFirst(fmt: seq<Directive>, s: string, pos: nat, k: nat, w: nat, v: nat, vals: seq<int>, end: nat)
    requires |fmt| > 0
    requires FirstLocalMatch(fmt[0], s, pos, k) == Some((w, v))
    requires Match(fmt[1..], s, pos + w) == Some((vals, end))
    ensures TryAlternatives(fmt, s, pos, k) == Some(([v] + vals, end))
    decreases |Alternatives(fmt[0])| - k
  {
    var alts := Alternatives(fmt[0]);
    if !AltMatches(alts[k], s, pos) {
      MatchFirst(fmt, s, pos, k + 1, w, v, vals, end);
    }
  }

  lemma MatchCons(d: Directive, rest: seq<Directive>, s: string, pos: nat, w: nat, v: nat, vals: seq<int>, end: nat)
    requires FirstLocalMatch(d, s, pos, 0) == Some((w, v))
    requires Match(rest, s, pos + w) == Some((vals, end))
    ensures Match([d] + rest, s, pos) == Some(([v] + vals, end))
  {
    assert ([d] + rest)[1..] == rest;
    MatchFirst([d] + rest, s, pos, 0, w, v, vals, end);
  }

  lemma SkipAlternative(d: Directive, s: string, pos: nat, k: nat)
    requires k < |Alternatives(d)| && !AltMatches(Alternatives(d)[k], s, pos)
    ensures FirstLocalMatch(d, s, pos, k) == FirstLocalMatch(d, s, pos, k + 1)
  {
  }

  lemma TakeAlternative(d: Directive, s: string, pos: nat, k: nat)
    requires k < |Alternatives(d)| && AltMatches(Alternatives(d)[k], s, pos)
    ensures FirstLocalMatch(d, s, pos, k)
            == Some((|Alternatives(d)[k]|, GroupValue(s[pos..pos + |Alternatives(d)[k]|])))
  {
  }

  lemma DigitFacts(n: int)
    requires 0 <= n <= 9
    ensures IsDigit(Digit1(n)) && DigitValue(Digit1(n)) == n
  {
  }

  lemma {:induction false} Pad2Value(n: int)
    requires 0 <= n <= 99
    ensures GroupValue(Pad2(n)) == n
  {
    var s := Pad2(n);
    DigitFacts(n / 10);
    DigitFacts(n % 10);
    assert s[..1] == [Digit1(n / 10)];
    assert s[..1][..0] == [];
    assert GroupValue(s[..1]) == n / 10;
  }

  /** The two characters at `pos` are those of `Pad2(n)`, so a two-character alternative yields `n`. */
  lemma TwoDigitsAt(d: Directive, s: string, pos: nat, n: int, k: nat)
    requires 0 <= n <= 99 && pos + 2 <= |s| && s[pos..pos + 2] == Pad2(n)
    requires k < |Alternatives(d)| && |Alternatives(d)[k]| == 2
    requires ClassMatches(Alternatives(d)[k][0], Digit1(n / 10)) && ClassMatches(Alternatives(d)[k][1], Digit1(n % 10))
    ensures FirstLocalMatch(d, s, pos, k) == Some((2, n))
  {
    assert s[pos] == Digit1(n / 10) && s[pos + 1] == Digit1(n % 10);
    Pad2Value(n);
    TakeAlternative(d, s, pos, k);
  }

  lemma FirstDigitAt(d: Directive, s: string, pos: nat, n: int, k: nat)
    requires 0 <= n <= 99 && pos + 2 <= |s| && s[pos..pos + 2] == Pad2(n)
    requires k < |Alternatives(d)| && |Alternatives(d)[k]| >= 1
    requires !ClassMatches(Alternatives(d)[k][0], Digit1(n / 10))
    ensures FirstLocalMatch(d, s, pos, k) == FirstLocalMatch(d, s, pos, k + 1)
  {
    assert s[pos] == Digit1(n / 10);
    SkipAlternative(d, s, pos, k);
  }

  lemma MonthField(s: string, pos: nat, n: int)
    requires 1 <= n <= 12 && pos + 2 <= |s| && s[pos..pos + 2] == Pad2(n)
    ensures FirstLocalMatch(Month, s, pos, 0) == Some((2, n))
  {
    if n >= 10 {
      TwoDigitsAt(Month, s, pos, n, 0);
    } else {
      FirstDigitAt(Month, s, pos, n, 0);
      TwoDigitsAt(Month, s, pos, n, 1);
    }
  }

  lemma DayField(s: string, pos: nat, n: int)
    requires 1 <= n <= 31 && pos + 2 <= |s| && s[pos..pos + 2] == Pad2(n)
    ensures FirstLocalMatch(Day, s, pos, 0) == Some((2, n))
  {
    if n >= 30 {
      TwoDigitsAt(Day, s, pos, n, 0);
    } else if n >= 10 {
      FirstDigitAt(Day, s, pos, n, 0);
      TwoDigitsAt(Day, s, pos, n, 1);
    } else {
      FirstDigitAt(Day, s, pos, n, 0);
      FirstDigitAt(Day, s, pos, n, 1);
      TwoDigitsAt(Day, s, pos, n, 2);
    }
  }

  lemma HourField(s: string, pos: nat, n: int)
    requires 0 <= n <= 23 && pos + 2 <= |s| && s[pos..pos + 2] == Pad2(n)
    ensures FirstLocalMatch(Hour, s, pos, 0) == Some((2, n))
  {
    if n >= 20 {
      TwoDigitsAt(Hour, s, pos, n, 0);
    } else {
      FirstDigitAt(Hour, s, pos, n, 0);
      TwoDigitsAt(Hour, s, pos, n, 1);
    }
  }

  lemma MinuteField(s: string, pos: nat, n: int)
    requires 0 <= n <= 59 && pos + 2 <= |s| && s[pos..pos + 2] == Pad2(n)
    ensures FirstLocalMatch(Minute, s, pos, 0) == Some((2, n))
  {
    TwoDigitsAt(Minute, s, pos, n, 0);
  }

  lemma SecondField(s: string, pos: nat, n: int)
    requires 0 <= n <= 59 && pos + 2 <= |s| && s[pos..pos + 2] == Pad2(n)
    ensures FirstLocalMatch(Second, s, pos, 0) == Some((2, n))
  {
    FirstDigitAt(Second, s, pos, n, 0);
    TwoDigitsAt(Second, s, pos, n, 1);
  }

  lemma YearField(s: string, pos: nat, n: int)
    requires 0 <= n <= 9999
    requires pos + 4 <= |s| && s[pos..pos + 4] == Pad4(n)
    ensures FirstLocalMatch(Year, s, pos, 0) == Some((4, n))
  {
    var t := Pad4(n);
    DigitFacts(n / 100 / 10);
    DigitFacts(n / 100 % 10);
    DigitFacts(n % 100 / 10);
    DigitFacts(n % 100 % 10);
    assert t[..3][..2] == Pad2(n / 100);
    Pad2Value(n / 100);
    assert GroupValue(t[..3]) == n / 100 * 10 + n % 100 / 10;
    assert GroupValue(t) == n;
    assert s[pos..pos + 4] == t;
    assert forall j :: 0 <= j < 4 ==> s[pos + j] == t[j];
    TakeAlternative(Year, s, pos, 0);
  }

  lemma LiteralField(s: string, pos: nat, c: char)
    requires pos < |s| && s[pos] == c && !IsDigit(c)
    ensures FirstLocalMatch(Literal(c), s, pos, 0) == Some((1, 0))
  {
    assert s[pos..pos + 1] == [c];
    assert [c][..0] == [];
    TakeAlternative(Literal(c), s, pos, 0);
  }

  /** Where each field of `FormatUtc(t)` sits. */
  lemma FormatUtcLayout(t: Instant)
    ensures var s := FormatUtc(t);
      && s[0..4] == Pad4(t.year) && s[4..6] == Pad2(t.month) && s[6..8] == Pad2(t.day) && s[8] == 'T'
      && s[9..11] == Pad2(t.hour) && s[11..13] == Pad2(t.minute) && s[13..15] == Pad2(t.second) && s[15] == 'Z'
  {
  }

  /** A time part `THHMMSSZ` at position 8 of a 16-character text matches the rest of `%Y%m%dT%H%M%SZ`. */
  lemma MatchTimePart(s: string, hour: int, minute: int, second: int)
    requires |s| == 16 && 0 <= hour <= 23 && 0 <= minute <= 59 && 0 <= second <= 59
    requires s[8] == 'T' && s[9..11] == Pad2(hour) && s[11..13] == Pad2(minute) && s[13..15] == Pad2(second) && s[15] == 'Z'
    ensures Match(TimePart, s, 8) == Some(([0, hour, minute, second, 0], 16))
  {
    MatchSecondsZ(s, second);
    MatchClock(s, hour, minute, [Second, Literal('Z')], [second, 0], 16);
    ConsFive(Literal('T'), Hour, Minute, Second, Literal('Z'));
    ConsFive(0, hour, minute, second, 0);
  }

  lemma ConsFive<T>(a: T, b: T, c: T, d: T, e: T)
    ensures [a] + ([b] + ([c] + [d, e])) == [a, b, c, d, e]
  {
  }

  lemma ConsPair<T>(a: T, b: T)
    ensures [a] + [] == [a] && [a] + [b] == [a, b]
  {
  }

  /** `SSZ` at position 13. */
  lemma MatchSecondsZ(s: string, second: int)
    requires |s| == 16 && 0 <= second <= 59 && s[13..15] == Pad2(second) && s[15] == 'Z'
    ensures Match([Second, Literal('Z')], s, 13) == Some(([second, 0], 16))
  {
    LiteralField(s, 15, 'Z');
    MatchCons(Literal('Z'), [], s, 15, 1, 0, [], 16);
    ConsPair(Literal('Z'), Literal('Z'));
    ConsPair(0, 0);
    SecondField(s, 13, second);
    MatchCons(Second, [Literal('Z')], s, 13, 2, second, [0], 16);
    ConsPair(Second, Literal('Z'));
    ConsPair(second, 0);
  }

  /** `THHMM` at position 8 extends any match of the directives after it. */
  lemma MatchClock(s: string, hour: int, minute: int, rest: seq<Directive>, vals: seq<int>, end: nat)
    requires |s| >= 13 && 0 <= hour <= 23 && 0 <= minute <= 59
    requires s[8] == 'T' && s[9..11] == Pad2(hour) && s[11..13] == Pad2(minute)
    requires Match(rest, s, 13) == Some((vals, end))
    ensures Match([Literal('T')] + ([Hour] + ([Minute] + rest)), s, 8) == Some(([0] + ([hour] + ([minute] + vals)), end))
  {
    MinuteField(s, 11, minute);
    MatchCons(Minute, rest, s, 11, 2, minute, vals, end);
    HourField(s, 9, hour);
    MatchCons(Hour, [Minute] + rest, s, 9, 2, hour, [minute] + vals, end);
    LiteralField(s, 8, 'T');
    MatchCons(Literal('T'), [Hour] + ([Minute] + rest), s, 8, 1, 0, [hour] + ([minute] + vals), end);
  }

  const TimePart: seq<Directive> := [Literal('T'), Hour, Minute, Second, Literal('Z')]

  /** A date part `YYYYMMDD` at the start of `s` extends any match of the directives after it. */
  lemma MatchDatePart(s: string, year: int, month: int, day: int, rest: seq<Directive>, vals: seq<int>, end: nat)
    requires |s| >= 8 && 0 <= year <= 9999 && 1 <= month <= 12 && 1 <= day <= 31
    requires s[0..4] == Pad4(year) && s[4..6] == Pad2(month) && s[6..8] == Pad2(day)
    requires Match(rest, s, 8) == Some((vals, end))
    ensures Match([Year, Month, Day] + rest, s, 0) == Some(([year, month, day] + vals, end))
  {
    DayField(s, 6, day);
    MatchCons(Day, rest, s, 6, 2, day, vals, end);
    MonthField(s, 4, month);
    MatchCons(Month, [Day] + rest, s, 4, 2, month, [day] + vals, end);
    YearField(s, 0, year);
    MatchCons(Year, [Month] + ([Day] + rest), s, 0, 4, year, [month] + ([day] + vals), end);
    ConsThree(Year, Month, Day, rest);
    ConsThree(year, month, day, vals);
  }

  lemma ConsThree<T>(a: T, b: T, c: T, rest: seq<T>)
    ensures [a] + ([b] + ([c] + rest)) == [a, b, c] + rest
  {
  }

  lemma SecondsZParts(year: int, month: int, day: int, hour: int, minute: int, second: int)
    ensures Directives(SecondsZ) == [Year, Month, Day] + TimePart
    ensures [year, month, day] + [0, hour, minute, second, 0] == [year, month, day, 0, hour, minute, second, 0]
  {
  }

  /** `FormatUtc(t)` matches `%Y%m%dT%H%M%SZ` with the fields of `t`. */
  lemma MatchFormatUtc(t: Instant)
    ensures Match(Directives(SecondsZ), FormatUtc(t), 0)
            == Some(([t.year, t.month, t.day, 0, t.hour, t.minute, t.second, 0], 16))
  {
    var s := FormatUtc(t);
    FormatUtcLayout(t);
    MatchTimePart(s, t.hour, t.minute, t.second);
    MatchDatePart(s, t.year, t.month, t.day, TimePart, [0, t.hour, t.minute, t.second, 0], 16);
    SecondsZParts(t.year, t.month, t.day, t.hour, t.minute, t.second);
  }

  /** `_parse_dt_value(FormatUtc(t), tzid)` gives back `t`, whatever the zone settings. */
  lemma ParseFormatUtc(t: Instant, tzid: Option<string>, env: Env)
    ensures ParseDtValue(FormatUtc(t), tzid, env) == Some(t)
  {
    var s := FormatUtc(t);
    MatchFormatUtc(t);
    FormatUtcLayout(t);
    NoSpaceStrip(s);
    assert Strptime(s, SecondsZ) == Some(t);
  }
}
