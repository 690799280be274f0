/**
  `fix_markdown_tables` (tableTools.py:3-60): a single pass over the lines
  of a chat answer that redraws rule lines as box-drawing underlines,
  rewrites table rows as `| a | b |`, and inserts a `| --- | ... |`
  separator after the first row of every run of table rows.

  The source works line by line with a buffering state machine (the
  `in_table` flag and the `table_rows` buffer). `Fixed` is the reference
  it is proved against: each input line in turn yields its own output
  line (`Out`), followed by a separator when it starts a table run.
 */
module Table {
  import opened Wrappers
  import opened Text

  // ---------------------------------------------------------------------------
  // Rule lines (tableTools.py:12-17).

  /** The character class `[─━═\-_—–−\s]`. */
  predicate InRuleClass(c: char) {
    || c == '─' || c == '━' || c == '═' || c == '-' || c == '_'
    || c == '—' || c == '–' || c == '−' || IsSpace(c)
  }

  /** `re.match(r'^[─━═\-_—–−\s]+$', s)` on text that `strip` produced (so `$` is the end). */
  predicate IsRuleText(s: string) {
    |s| >= 1 && forall i :: 0 <= i < |s| ==> InRuleClass(s[i])
  }

  /** `len(re.sub(r'\s', '', s))`: the characters of `s` that are not whitespace. */
  function NonSpaceCount(s: string): (n: nat)
    ensures n <= |s|
  {
    if |s| == 0 then 0 else NonSpaceCount(s[..|s| - 1]) + (if IsSpace(s[|s| - 1]) then 0 else 1)
  }

  /** `c * n`. */
  function Repeat(c: char, n: nat): (r: string)
    ensures |r| == n && forall i :: 0 <= i < n ==> r[i] == c
  {
    seq(n, _ => c)
  }

  /** `len(line) - len(line.lstrip())`. */
  function Indent(line: string): nat {
    |line| - |LStrip(line)|
  }

  /** A line the first step redraws: stripped, it is longer than 3 and made of rule characters. */
  predicate IsRuleLine(line: string) {
    |Strip(line)| > 3 && IsRuleText(Strip(line))
  }

  /**
    `clean_line` after the first step: a rule line becomes its indent in
    spaces followed by `─` once per character that is not whitespace;
    every other line is kept as it is.
   */
  function CleanLine(line: string): string {
    var stripped := Strip(line);
    if |stripped| > 3 && IsRuleText(stripped) then
      var n := NonSpaceCount(stripped);
      if n > 0 then Repeat(' ', Indent(line)) + Repeat('─', n) else line
    else line
  }

  /** Text that neither starts nor ends with whitespace has at least one character that is not whitespace. */
  lemma NonSpaceOfStripped(s: string)
    requires |s| > 0 && !IsSpace(s[|s| - 1])
    ensures NonSpaceCount(s) > 0
  {
  }

  /**
    A rule line is redrawn as its indent and exactly one `─` per
    non-whitespace character: whitespace inside it is dropped, the indent
    is kept, and the line is never dropped (there is always a `─`).
   */
  lemma RuleLineRedrawn(line: string)
    requires IsRuleLine(line)
    ensures NonSpaceCount(Strip(line)) > 0
    ensures CleanLine(line) == Repeat(' ', Indent(line)) + Repeat('─', NonSpaceCount(Strip(line)))
  {
    NonSpaceOfStripped(Strip(line));
  }

  /** Redrawing is idempotent: a redrawn line is left alone by a second pass. */
  lemma CleanLineIdempotent(line: string)
    ensures CleanLine(CleanLine(line)) == CleanLine(line)
  {
    if IsRuleLine(line) {
      RuleLineRedrawn(line);
      var k, n := Indent(line), NonSpaceCount(Strip(line));
      var redrawn := Repeat(' ', k) + Repeat('─', n);
      RedrawnShape(k, n);
      if n > 3 {
        AllNonSpace(Repeat('─', n));
        assert IsRuleText(Repeat('─', n));
      }
    }
  }

  /** Spaces then box-drawing dashes: stripping leaves the dashes, and the indent is the spaces. */
  lemma RedrawnShape(k: nat, n: nat)
    requires n > 0
    ensures Strip(Repeat(' ', k) + Repeat('─', n)) == Repeat('─', n)
    ensures Indent(Repeat(' ', k) + Repeat('─', n)) == k
  {
    var s := Repeat(' ', k) + Repeat('─', n);
    var dashes := Repeat('─', n);
    LStripSpaces(k, dashes);
    assert !IsSpace('─');
    NoSpaceStrip(dashes);
    assert RStrip(dashes) == dashes;
  }

  lemma {:induction false} LStripSpaces(k: nat, rest: string)
    requires |rest| > 0 && !IsSpace(rest[0])
    ensures LStrip(Repeat(' ', k) + rest) == rest
    decreases k
  {
    if k > 0 {
      assert (Repeat(' ', k) + rest)[1..] == Repeat(' ', k - 1) + rest;
      LStripSpaces(k - 1, rest);
    } else {
      assert Repeat(' ', 0) + rest == rest;
    }
  }

  lemma {:induction false} AllNonSpace(s: string)
    requires forall i :: 0 <= i < |s| ==> !IsSpace(s[i])
    ensures NonSpaceCount(s) == |s|
    decreases |s|
  {
    if |s| > 0 {
      AllNonSpace(s[..|s| - 1]);
    }
  }

  // ---------------------------------------------------------------------------
  // Table rows (tableTools.py:19-42).

  /** `re.match(r'^\d+\.\s+.*', s)`: digits, a dot, then whitespace. */
  predicate IsNumberedItem(s: string) {
    var k := DigitPrefix(s);
    k >= 1 && k + 1 < |s| && s[k] == '.' && IsSpace(s[k + 1])
  }

  /** The length of the run of digits `s` starts with. */
  function DigitPrefix(s: string): (k: nat)
    ensures k <= |s| && (forall i :: 0 <= i < k ==> IsDigit(s[i])) && (k < |s| ==> !IsDigit(s[k]))
  {
    if |s| > 0 && IsDigit(s[0]) then DigitPrefix(s[1..]) + 1 else 0
  }

  /** `[cell.strip() for cell in parts]`. */
  function StripAll(parts: seq<string>): (r: seq<string>)
    ensures |r| == |parts| && forall i :: 0 <= i < |r| ==> r[i] == Strip(parts[i])
  {
    seq(|parts|, i requires 0 <= i < |parts| => Strip(parts[i]))
  }

  /** Drop an empty first cell, then an empty last cell (the outer pipes of `| a | b |`). */
  function TrimEdges(cells: seq<string>): (r: seq<string>)
    ensures |cells| - 2 <= |r| <= |cells|
    ensures forall k :: 0 <= k < |r| ==> r[k] in cells
  {
    var a := if |cells| > 0 && cells[0] == "" then cells[1..] else cells;
    if |a| > 0 && a[|a| - 1] == "" then a[..|a| - 1] else a
  }

  /** `len([c for c in cells if c.strip()])`. */
  function NonEmptyCount(cells: seq<string>): nat {
    if |cells| == 0 then 0 else NonEmptyCount(cells[..|cells| - 1]) + (if cells[|cells| - 1] != "" then 1 else 0)
  }

  /** The condition of tableTools.py:21-24 on the stripped line. */
  predicate IsRowCandidate(sl: string) {
    '|' in sl && Count(sl, '|') >= 2 && !IsNumberedItem(sl) && !IsRuleText(sl)
  }

  /** The cells of a line that is a table row, or `None` when the line is not rewritten as one. */
  function RowCells(cleanLine: string): (cells: Option<seq<string>>) {
    var sl := Strip(cleanLine);
    if IsRowCandidate(sl) then
      var cells := TrimEdges(StripAll(Split(sl, '|')));
      if |cells| > 0 && NonEmptyCount(cells) > 1 then Some(cells) else None
    else None
  }

  /** A line containing `|` is never a rule line, so the last test of the candidate condition never decides. */
  lemma PipeIsNotRule(sl: string)
    requires '|' in sl
    ensures !IsRuleText(sl)
  {
    var i :| 0 <= i < |sl| && sl[i] == '|';
    assert !InRuleClass(sl[i]);
  }

  /** Whether line `line` of the input is rewritten as a table row. */
  predicate IsRow(line: string) {
    RowCells(CleanLine(line)).Some?
  }

  /** `sep.join(parts)` for a separator of several characters. */
  function JoinWith(parts: seq<string>, sep: string): string {
    if |parts| == 0 then ""
    else if |parts| == 1 then parts[0]
    else parts[0] + sep + JoinWith(parts[1..], sep)
  }

  /** `'| ' + ' | '.join(cells) + ' |'`. */
  function RenderRow(cells: seq<string>): string {
    "| " + JoinWith(cells, " | ") + " |"
  }

  /** `'| ' + ' | '.join(['---'] * n) + ' |'`. */
  function SeparatorRow(n: nat): string {
    RenderRow(seq(n, _ => "---"))
  }

  /** `not any('---' in cell or '===' in cell for cell in cells)`. */
  predicate NeedsSeparator(cells: seq<string>) {
    forall i :: 0 <= i < |cells| ==> !Contains(cells[i], "---") && !Contains(cells[i], "===")
  }

  /** How the pass treats one input line: rewritten as a table row, or copied after the first step. */
  datatype Line = Plain(text: string) | Row(cells: seq<string>)

  /** The treatment of one input line (tableTools.py:10-32). */
  function Classify(line: string): Line {
    var clean := CleanLine(line);
    match RowCells(clean)
    case Some(cells) => Row(cells)
    case None => Plain(clean)
  }

  /** The output line for a treated line. */
  function Render(l: Line): string {
    match l
    case Plain(text) => text
    case Row(cells) => RenderRow(cells)
  }

  /**
    The row test of tableTools.py:19-32, read from its outcome: a line is
    rewritten as a row only when it holds `|` (so it is no rule line and
    is not redrawn), at least two of them, is not a numbered list item,
    and gives at least two cells, none holding `|` or starting or ending
    with whitespace, two of which are non-empty. Every other line is
    kept as the rule redraw left it.
   */
  lemma ClassifiedRow(line: string)
    ensures Classify(line).Plain? ==> Classify(line).text == CleanLine(line)
    ensures Classify(line).Row? ==>
              var cells := Classify(line).cells;
              && CleanLine(line) == line
              && Count(Strip(line), '|') >= 2 && !IsNumberedItem(Strip(line))
              && |cells| >= 2
              && (forall k :: 0 <= k < |cells| ==>
                    '|' !in cells[k] && (cells[k] == [] || (!IsSpace(cells[k][0]) && !IsSpace(cells[k][|cells[k]| - 1]))))
              && exists i, j :: 0 <= i < j < |cells| && cells[i] != "" && cells[j] != ""
  {
    var clean := CleanLine(line);
    match RowCells(clean)
    case None =>
    case Some(cells) =>
      RowCellsShape(clean, cells);
      RuleLineHasNoPipe(line);
  }

  /**
    A line that starts and ends with `|` passes the rule redraw and the
    candidate test unchanged, so it is a row exactly when more than one of
    its trimmed cells is non-empty, and is kept as it is otherwise.
   */
  lemma FramedLine(line: string, cells: seq<string>)
    requires |line| > 1 && line[0] == '|' && line[|line| - 1] == '|'
    requires cells == TrimEdges(StripAll(Split(line, '|')))
    ensures NonEmptyCount(cells) > 1 ==> Classify(line) == Row(cells)
    ensures NonEmptyCount(cells) <= 1 ==> Classify(line) == Plain(line)
  {
    assert !IsSpace('|');
    NoSpaceStrip(line);
    PipeIsNotRule(line);
    assert line[|line| - 1] in line;
    assert CleanLine(line) == line;
    FramedCount(line);
    assert DigitPrefix(line) == 0;
    assert IsRowCandidate(line);
  }

  lemma FramedCount(line: string)
    requires |line| > 1 && line[0] == '|' && line[|line| - 1] == '|'
    ensures Count(line, '|') >= 2
  {
    assert line == [line[0]] + line[1..|line| - 1] + [line[|line| - 1]];
    assert multiset(line) == multiset([line[0]]) + multiset(line[1..|line| - 1]) + multiset([line[|line| - 1]]);
  }

  /** A redrawn rule line holds no `|`. */
  lemma RuleLineHasNoPipe(line: string)
    ensures IsRuleLine(line) ==> '|' !in Strip(CleanLine(line))
  {
    if IsRuleLine(line) {
      RuleLineRedrawn(line);
      RedrawnShape(Indent(line), NonSpaceCount(Strip(line)));
      RepeatHasOnly('─', NonSpaceCount(Strip(line)), '|');
    }
  }

  /** The cells of a row: the stripped line passed the candidate test, and the cells are trimmed pieces between pipes. */
  lemma RowCellsShape(clean: string, cells: seq<string>)
    requires RowCells(clean) == Some(cells)
    ensures '|' in Strip(clean) && Count(Strip(clean), '|') >= 2 && !IsNumberedItem(Strip(clean))
    ensures |cells| >= 2
    ensures forall k :: 0 <= k < |cells| ==>
              '|' !in cells[k] && (cells[k] == [] || (!IsSpace(cells[k][0]) && !IsSpace(cells[k][|cells[k]| - 1])))
    ensures exists i, j :: 0 <= i < j < |cells| && cells[i] != "" && cells[j] != ""
  {
    var sl := Strip(clean);
    CellsShape(sl);
    NonEmptyPair(cells);
  }

  /** The trimmed pieces of a line between pipes hold no `|` and neither start nor end with whitespace. */
  lemma CellsShape(sl: string)
    ensures forall k :: 0 <= k < |TrimEdges(StripAll(Split(sl, '|')))| ==>
              var c := TrimEdges(StripAll(Split(sl, '|')))[k];
              '|' !in c && (c == [] || (!IsSpace(c[0]) && !IsSpace(c[|c| - 1])))
  {
    var parts := Split(sl, '|');
    forall k | 0 <= k < |parts|
      ensures '|' !in Strip(parts[k])
    {
      StripKeepsOut(parts[k], '|');
    }
  }

  /** A run of one character holds no other character. */
  lemma RepeatHasOnly(c: char, n: nat, d: char)
    requires c != d
    ensures d !in Repeat(c, n)
  {
  }

  /** More than one non-empty cell means two non-empty cells at distinct positions. */
  lemma {:induction false} NonEmptyPair(cells: seq<string>)
    requires NonEmptyCount(cells) > 1
    ensures exists i, j :: 0 <= i < j < |cells| && cells[i] != "" && cells[j] != ""
    decreases |cells|
  {
    var init := cells[..|cells| - 1];
    if NonEmptyCount(init) > 1 {
      NonEmptyPair(init);
      var i, j :| 0 <= i < j < |init| && init[i] != "" && init[j] != "";
      assert cells[i] == init[i] && cells[j] == init[j];
    } else {
      NonEmptyOne(init);
      var i :| 0 <= i < |init| && init[i] != "";
      assert cells[i] == init[i];
      assert cells[|cells| - 1] != "";
    }
  }

  /** At least one non-empty cell means a non-empty cell somewhere. */
  lemma {:induction false} NonEmptyOne(cells: seq<string>)
    requires NonEmptyCount(cells) > 0
    ensures exists i :: 0 <= i < |cells| && cells[i] != ""
    decreases |cells|
  {
    var init := cells[..|cells| - 1];
    if cells[|cells| - 1] == "" {
      NonEmptyOne(init);
      var i :| 0 <= i < |init| && init[i] != "";
      assert cells[i] == init[i];
    }
  }

  /** The treatment of every input line. */
  function Classes(lines: seq<string>): (ks: seq<Line>)
    ensures |ks| == |lines|
  {
    seq(|lines|, i requires 0 <= i < |lines| => Classify(lines[i]))
  }

  // ---------------------------------------------------------------------------
  // The reference: every line in turn, and where separators go.

  /** Line `i` is the first row of a run of table rows. */
  predicate StartsRun(ks: seq<Line>, i: nat)
    requires i < |ks|
  {
    ks[i].Row? && (i == 0 || !ks[i - 1].Row?)
  }

  /** A separator is inserted after line `i`: it starts a run and no cell of it holds `---` or `===`. */
  predicate SeparatorAfter(ks: seq<Line>, i: nat)
    requires i < |ks|
  {
    StartsRun(ks, i) && NeedsSeparator(ks[i].cells)
  }

  /** What line `i` contributes to the output: its own line, then its separator if any. */
  function Image(ks: seq<Line>, i: nat): seq<string>
    requires i < |ks|
  {
    [Render(ks[i])] + (if SeparatorAfter(ks, i) then [SeparatorRow(|ks[i].cells|)] else [])
  }

  /** The output lines for the first `k` input lines. */
  function Images(ks: seq<Line>, k: nat): seq<string>
    requires k <= |ks|
  {
    if k == 0 then [] else Images(ks, k - 1) + Image(ks, k - 1)
  }

  /** The output lines `fix_markdown_tables` produces for the lines of its input. */
  function Fixed(lines: seq<string>): seq<string> {
    Images(Classes(lines), |lines|)
  }

  /** The number of separators inserted after the first `k` lines. */
  function SeparatorCount(ks: seq<Line>, k: nat): nat
    requires k <= |ks|
  {
    if k == 0 then 0 else SeparatorCount(ks, k - 1) + (if SeparatorAfter(ks, k - 1) then 1 else 0)
  }

  /** Where the output of input line `i` starts: after every earlier line and separator. */
  function Position(ks: seq<Line>, i: nat): nat
    requires i <= |ks|
  {
    i + SeparatorCount(ks, i)
  }

  /**
    Line accounting: the output of the first `k` lines has one line per
    input line plus one per inserted separator, and input line `i` comes
    out at its `Position`, in input order. So no line is lost, duplicated
    or reordered, and the only extra lines are separators.
   */
  lemma {:induction false} LineAccounting(ks: seq<Line>, k: nat)
    requires k <= |ks|
    ensures |Images(ks, k)| == k + SeparatorCount(ks, k)
    ensures forall i {:trigger Position(ks, i)} :: 0 <= i < k ==>
              (Position(ks, i) < |Images(ks, k)| && Images(ks, k)[Position(ks, i)] == Render(ks[i]))
    decreases k
  {
    if k > 0 {
      LineAccounting(ks, k - 1);
      var prev, last := Images(ks, k - 1), Image(ks, k - 1);
      assert Images(ks, k) == prev + last;
      forall i | 0 <= i < k
        ensures Position(ks, i) < |Images(ks, k)|
        ensures Images(ks, k)[Position(ks, i)] == Render(ks[i])
      {
        if i < k - 1 {
          SeparatorCountGrows(ks, i + 1, k - 1);
          assert prev[Position(ks, i)] == Render(ks[i]);
        }
      }
    }
  }

  /**
    The separators: the line right after the output of a line that
    starts a run without `---` or `===` in its cells is a separator row
    with as many cells as that row.
   */
  lemma {:induction false} SeparatorPlacement(ks: seq<Line>, k: nat)
    requires k <= |ks|
    ensures |Images(ks, k)| == k + SeparatorCount(ks, k)
    ensures forall i {:trigger Position(ks, i)} :: 0 <= i < k && SeparatorAfter(ks, i) ==>
              (Position(ks, i) + 1 < |Images(ks, k)| && Images(ks, k)[Position(ks, i) + 1] == SeparatorRow(|ks[i].cells|))
    decreases k
  {
    if k > 0 {
      SeparatorPlacement(ks, k - 1);
      var prev, last := Images(ks, k - 1), Image(ks, k - 1);
      assert Images(ks, k) == prev + last;
      forall i | 0 <= i < k && SeparatorAfter(ks, i)
        ensures Position(ks, i) + 1 < |Images(ks, k)|
        ensures Images(ks, k)[Position(ks, i) + 1] == SeparatorRow(|ks[i].cells|)
      {
        if i < k - 1 {
          SeparatorCountGrows(ks, i + 1, k - 1);
          assert prev[Position(ks, i) + 1] == SeparatorRow(|ks[i].cells|);
        }
      }
    }
  }

  /** Line `i - 1` and its separator come before the output of line `j - 1`, for `i <= j`. */
  lemma {:induction false} SeparatorCountGrows(ks: seq<Line>, i: nat, j: nat)
    requires 1 <= i <= j <= |ks|
    ensures SeparatorCount(ks, i - 1) + (if SeparatorAfter(ks, i - 1) then 1 else 0) <= SeparatorCount(ks, j)
    decreases j - i
  {
    if i < j {
      SeparatorCountGrows(ks, i, j - 1);
    }
  }

  /** A text without table rows comes out line for line as its lines after the first step. */
  lemma {:induction false} NoRowsNoSeparators(ks: seq<Line>, k: nat)
    requires k <= |ks| && forall i :: 0 <= i < |ks| ==> ks[i].Plain?
    ensures Images(ks, k) == seq(k, i requires 0 <= i < k => ks[i].text)
    decreases k
  {
    if k > 0 {
      NoRowsNoSeparators(ks, k - 1);
    }
  }

  /**
    As written, only the first row of a run is looked at for `---`: a
    header row followed by the usual `|---|---|` line (which is itself
    read as a row of `---` cells) gets a second separator of its own.
   */
  lemma HeaderThenRuleDoubled(ks: seq<Line>, i: nat, n: nat)
    requires i + 1 < |ks| && StartsRun(ks, i) && |ks[i].cells| == n && NeedsSeparator(ks[i].cells)
    requires ks[i + 1] == Row(seq(n, _ => "---"))
    ensures Position(ks, i) + 2 < |Images(ks, i + 2)|
    ensures Images(ks, i + 2)[Position(ks, i) + 1] == SeparatorRow(n)
    ensures Images(ks, i + 2)[Position(ks, i) + 2] == SeparatorRow(n)
  {
    LineAccounting(ks, i + 2);
    SeparatorPlacement(ks, i + 2);
    SeparatorCountGrows(ks, i + 1, i + 1);
  }

  // ---------------------------------------------------------------------------
  // The output text splits back into the output lines.

  lemma {:induction false} SplitKeepsOut(s: string, sep: char, c: char)
    requires c !in s
    ensures forall k :: 0 <= k < |Split(s, sep)| ==> c !in Split(s, sep)[k]
    decreases |s|
  {
    if |s| > 0 {
      SplitKeepsOut(s[1..], sep, c);
    }
  }

  lemma StripKeepsOut(s: string, c: char)
    requires c !in s
    ensures c !in Strip(s)
  {
    var l := LStrip(s);
    var r := RStrip(l);
    forall i | 0 <= i < |r|
      ensures r[i] != c
    {
      assert r[i] == l[i] == s[|s| - |l| + i];
    }
  }

  lemma {:induction false} JoinWithKeepsOut(parts: seq<string>, sep: string, c: char)
    requires c !in sep && forall k :: 0 <= k < |parts| ==> c !in parts[k]
    ensures c !in JoinWith(parts, sep)
    decreases |parts|
  {
    if |parts| > 1 {
      JoinWithKeepsOut(parts[1..], sep, c);
    }
  }

  lemma CleanKeepsOut(line: string)
    requires '\n' !in line
    ensures '\n' !in CleanLine(line)
  {
    if IsRuleLine(line) {
      RuleLineRedrawn(line);
    }
  }

  lemma CellsKeepOut(sl: string)
    requires '\n' !in sl
    ensures forall k :: 0 <= k < |TrimEdges(StripAll(Split(sl, '|')))| ==> '\n' !in TrimEdges(StripAll(Split(sl, '|')))[k]
  {
    var parts := Split(sl, '|');
    SplitKeepsOut(sl, '|', '\n');
    forall k | 0 <= k < |parts|
      ensures '\n' !in Strip(parts[k])
    {
      StripKeepsOut(parts[k], '\n');
    }
  }

  /** A redrawn or rewritten line never holds a newline when the input line does not. */
  lemma RenderKeepsOut(line: string)
    requires '\n' !in line
    ensures '\n' !in Render(Classify(line))
  {
    var clean := CleanLine(line);
    CleanKeepsOut(line);
    if RowCells(clean).Some? {
      StripKeepsOut(clean, '\n');
      CellsKeepOut(Strip(clean));
      JoinWithKeepsOut(RowCells(clean).value, " | ", '\n');
    }
  }

  lemma SeparatorKeepsOut(n: nat)
    ensures '\n' !in SeparatorRow(n)
  {
    JoinWithKeepsOut(seq(n, _ => "---"), " | ", '\n');
  }

  lemma {:induction false} ImagesKeepOut(ks: seq<Line>, k: nat)
    requires k <= |ks| && forall i :: 0 <= i < |ks| ==> '\n' !in Render(ks[i])
    ensures forall x :: x in Images(ks, k) ==> '\n' !in x
    decreases k
  {
    if k > 0 {
      ImagesKeepOut(ks, k - 1);
      if SeparatorAfter(ks, k - 1) {
        SeparatorKeepsOut(|ks[k - 1].cells|);
      }
    }
  }

  /**
    No output line holds a newline, so splitting the result of
    `fix_markdown_tables` at `\n` gives back exactly the output lines of
    the reference.
   */
  lemma ResultSplitsIntoFixed(text: string)
    ensures Split(Join(Fixed(Split(text, '\n')), '\n'), '\n') == Fixed(Split(text, '\n'))
  {
    var lines := Split(text, '\n');
    var ks := Classes(lines);
    forall i | 0 <= i < |ks|
      ensures '\n' !in Render(ks[i])
    {
      RenderKeepsOut(lines[i]);
    }
    ImagesKeepOut(ks, |lines|);
    LineAccounting(ks, |lines|);
    var out := Fixed(lines);
    assert forall k :: 0 <= k < |out| ==> out[k] in out;
    SplitJoin(out, '\n');
  }

  // ---------------------------------------------------------------------------
  // The source's single pass.

  /**
    `fix_markdown_tables(text)`: split at `\n`, run the pass over the
    lines, and join the output with `\n`.
   */
  method FixMarkdownTables(text: string) returns (result: string)
    ensures result == Join(Fixed(Split(text, '\n')), '\n')
  {
    var lines := Split(text, '\n');
    ghost var ks := Classes(lines);
    forall j | 0 <= j < |lines|
      ensures ks[j] == Classify(At(lines, j))
    {
    }
    var cleaned := Pass(lines, ks);
    result := Join(cleaned, '\n');
  }

  /** Line `j` of `lines`; quantified facts about the treatment of line `j` are stated on this term. */
  function At(lines: seq<string>, j: nat): string
    requires j < |lines|
  {
    lines[j]
  }

  /**
    The loop of tableTools.py:9-58 over the treatments `ks` of the lines:
    rows are buffered in `tableRows` while a run lasts and flushed before
    the next line that is not a row and at the end, so the lines produced
    are the reference `Images`.
   */
  method Pass(lines: seq<string>, ghost ks: seq<Line>) returns (cleaned: seq<string>)
    requires |ks| == |lines|
    requires forall j {:trigger At(lines, j)} :: 0 <= j < |lines| ==> ks[j] == Classify(At(lines, j))
    ensures cleaned == Images(ks, |lines|)
  {
    cleaned := [];
    var inTable := false;
    var tableRows: seq<string> := [];
    for i := 0 to |lines|
      invariant inTable <==> i > 0 && ks[i - 1].Row?
      invariant inTable <==> tableRows != []
      invariant cleaned + tableRows == Images(ks, i)
    {
      assert Images(ks, i + 1) == Images(ks, i) + Image(ks, i);
      ghost var before := cleaned + tableRows;
      var line := TreatAt(lines, ks, i);
      match line
      case Row(cells) => {
        ghost var starts := !inTable;
        assert SeparatorAfter(ks, i) <==> starts && NeedsSeparator(cells);
        if !inTable {
          inTable := true;
          tableRows := [];
        }
        tableRows := tableRows + [RenderRow(cells)];
        if |tableRows| == 1 && NeedsSeparator(cells) {
          tableRows := tableRows + [SeparatorRow(|cells|)];
        }
        assert cleaned + tableRows == before + Image(ks, i);
      }
      case Plain(cleanLine) => {
        if inTable {
          cleaned := cleaned + tableRows;
          tableRows := [];
          inTable := false;
        }
        cleaned := cleaned + [cleanLine];
        assert cleaned + tableRows == before + Image(ks, i);
      }
    }
    if inTable && tableRows != [] {
      cleaned := cleaned + tableRows;
    }
  }

  /** The treatment of line `i` (tableTools.py:10-32): the rule-line redraw, then the row test and its cells. */
  method TreatAt(lines: seq<string>, ghost ks: seq<Line>, i: nat) returns (line: Line)
    requires |ks| == |lines| && i < |lines|
    requires forall j {:trigger At(lines, j)} :: 0 <= j < |lines| ==> ks[j] == Classify(At(lines, j))
    ensures line == ks[i]
  {
    assert ks[i] == Classify(At(lines, i));
    var cleanLine := CleanLine(lines[i]);
    var row := RowCells(cleanLine);
    line := if row.Some? then Row(row.value) else Plain(cleanLine);
  }
}
