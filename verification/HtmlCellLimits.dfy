/** Two texts in which a link of the comment stripper reaches over a cell or a row of a table. */
module HtmlCellLimits {

  import opened Wrappers
  import opened GfmCells
  import opened GfmLines
  import opened GfmTables
  import GfmTablesExact
  import opened HtmlScan
  import opened HtmlStrip
  import HtmlStripFacts
  import HtmlCells
  import opened TableSeparators

  // ----- Lines and tables of a short text ----------------------------------

  predicate Unbroken(s: string) {
    forall i :: 0 <= i < |s| ==> !IsLineBreak(s[i])
  }

  /** A terminator by itself: `\n`, or a `\r` with no `\n` after it. */
  predicate Ends(c: char, rest: string) {
    c == '\n' || (c == '\r' && !(rest != "" && rest[0] == '\n'))
  }

  lemma {:induction false} LineLengthIs(a: string, c: char, rest: string)
    requires Unbroken(a) && Ends(c, rest)
    ensures LineLength(a + ([c] + rest)) == |a| + 1
  {
    var s := a + ([c] + rest);
    if a == "" {
      assert s == [c] + rest;
      assert rest != "" ==> s[1] == rest[0];
    } else {
      assert s[0] == a[0];
      assert s[1..] == a[1..] + ([c] + rest);
      LineLengthIs(a[1..], c, rest);
    }
  }

  lemma TrimmedLine(a: string, c: char)
    requires Unbroken(a) && c in "\r\n"
    ensures Unterminated(a + [c]) == a
  {
    assert (a + [c])[..|a|] == a;
    assert a != "" ==> !IsLineBreak(a[|a| - 1]);
    assert TrimRight(a, '\n') == a == TrimRight(a, '\r');
  }

  lemma LineIs(text: string, offset: nat, a: string, c: char, facts: Recognizer)
    requires offset + |a| < |text| && text[offset..offset + |a|] == a && text[offset + |a|] == c
    requires Unbroken(a) && c in "\r\n" && (c == '\r' && offset + |a| + 1 < |text| ==> text[offset + |a| + 1] != '\n')
    ensures LinesFrom(text, offset, facts)
         == [Line(offset, offset + |a| + 1, a, facts(a))] + LinesFrom(text, offset + |a| + 1, facts)
  {
    hide LineLength, Unterminated, LinesFrom, Unbroken;
    var rest := text[offset + |a| + 1..];
    assert text[offset..] == a + ([c] + rest);
    LineLengthIs(a, c, rest);
    assert text[offset..offset + |a| + 1] == a + [c];
    TrimmedLine(a, c);
    assert LineAt(text, offset, facts) == Line(offset, offset + |a| + 1, a, facts(a));
    LineFirst(text, offset, facts);
  }

  lemma LineFirst(text: string, offset: nat, facts: Recognizer)
    requires offset < |text|
    ensures LinesFrom(text, offset, facts)
         == [LineAt(text, offset, facts)] + LinesFrom(text, LineAt(text, offset, facts).end, facts)
  {
    hide LineAt;
  }

  lemma LinesEnd(text: string, facts: Recognizer)
    ensures LinesFrom(text, |text|, facts) == []
  {
  }

  /** A header and a delimiter, both ordinary lines with as many cells, begin a table. */
  predicate HeadsTable(lines: seq<Line>) {
    && |lines| >= 2
    && (forall i :: 0 <= i < |lines| ==> lines[i].facts == ORDINARY)
    && SplitCells(lines[0].text) != [] && |SplitCells(lines[0].text)| == |SplitCells(lines[1].text)|
    && IsDelimiterRow(SplitCells(lines[1].text))
  }

  lemma {:induction false} Bare(lines: seq<Line>, i: nat)
    requires i < |lines| && forall j :: 0 <= j < |lines| ==> lines[j].facts == ORDINARY
    ensures !Inside(RegionBefore(lines, i)) && !Literal(lines, i) && !InContainer(lines, i)
  {
    hide ContinuesParagraph, NextTable;
    if i > 0 { Bare(lines, i - 1); }
  }

  /** A line with cells is neither blank nor indented code. */
  lemma CellsShow(l: Line)
    requires l.facts == ORDINARY && SplitCells(l.text) != []
    ensures !EndsTable(l) && !ClosesParagraph(l)
  {
    hide Strip, IndentWidth, UnescapedPipes, Inner;
  }

  lemma FirstTable(lines: seq<Line>)
    requires HeadsTable(lines)
    ensures Span(0, BodyEnd(lines, 2)) in Spans(lines, true)
  {
    hide SplitCells, EndsTable, ClosesParagraph, Literal, InContainer, BodyEnd, Spans;
    CellsShow(lines[0]);
    CellsShow(lines[1]);
    forall i: nat | i < |lines| ensures !Literal(lines, i) && !InContainer(lines, i) { Bare(lines, i); }
    GfmTablesExact.TablesExactly(lines, true, Span(0, BodyEnd(lines, 2)));
    assert GfmTablesExact.Candidate(lines, true, 0);
    assert GfmTablesExact.Begins(lines, true, 0);
  }

  /** A line with a single pipe, not at its ends, has two cells. */
  lemma TwoCells(line: string, k: nat)
    requires 0 < k < |line| - 1 && line[k] == '|' && line[k - 1] != '\\'
    requires forall i :: 0 <= i < |line| && i != k ==> line[i] != '|'
    requires !IsBlankChar(line[0]) && !IsBlankChar(line[|line| - 1])
    ensures SplitCells(line) == [line[..k], line[k + 1..]]
  {
    hide PipesFrom;
    assert Strip(line) == line && IndentWidth(line) == 0;
    OnePipe(line, 0, k);
    assert Inner(line) == line;
    assert Pieces(line, 0, [k]) == [line[0..k], line[k + 1..]];
  }

  lemma {:induction false} OnePipe(line: string, from: nat, k: nat)
    requires k < |line| && line[k] == '|' && (k > 0 ==> line[k - 1] != '\\')
    requires forall i :: 0 <= i < |line| && i != k ==> line[i] != '|'
    ensures PipesFrom(line, from) == if from <= k then [k] else []
    decreases |line| - from
  {
    if from < |line| { OnePipe(line, from + 1, k); }
  }

  // ----- Runs over a short text --------------------------------------------

  /** A run never takes back a link. */
  lemma {:induction false} FormedStays(p: Page, s: State, f: Formed)
    requires s.i <= |p.text| && f in s.formed
    ensures f in Run(p, s).formed
    decreases |p.text| - s.i
  {
    hide PieceAt, LabelsAfter, FormedAt;
    if s.i < |p.text| { FormedStays(p, Step(p, s), f); }
  }

  predicate Ordinary(c: char) { c !in "`<[]\n|" }

  /** The run passes over characters that mean nothing. */
  lemma {:induction false} PassesOver(p: Page, s: State, j: nat) returns (out: string)
    requires s.i <= j <= |p.text| && forall k :: s.i <= k < j ==> Ordinary(p.text[k])
    ensures Run(p, s) == Run(p, State(j, out, s.labels, s.formed))
    decreases j - s.i
  {
    hide PieceAt, LabelsAfter, FormedAt;
    if s.i == j {
      out := s.out;
    } else {
      OrdinaryStep(p, s);
      out := PassesOver(p, Step(p, s), j);
    }
  }

  lemma OrdinaryStep(p: Page, s: State)
    requires s.i < |p.text| && Ordinary(p.text[s.i])
    ensures Step(p, s) == State(s.i + 1, s.out + [p.text[s.i]], s.labels, s.formed)
  {
    hide EscapedAt, Tail;
    HtmlStripFacts.NoComment(p.text, s.i);
    assert KindAt(p, s.i, s.labels) == Kind.Plain;
    assert s.formed + [] == s.formed;
  }

  lemma OpensAtStart(p: Page)
    requires p.text != "" && p.text[0] == '['
    ensures Step(p, START) == State(1, "[", [Opener(false, true, 0)], [])
  {
    hide Tail;
    HtmlStripFacts.NoComment(p.text, 0);
    assert !EscapedAt(p.text, 0);
    assert KindAt(p, 0, []) == Open;
    assert [] + [Opener(false, true, 0)] == [Opener(false, true, 0)];
  }

  /** A short destination closes the only open label. */
  lemma ClosesLink(p: Page, i: nat, out: string)
    requires 0 < i && i + 4 <= |p.text| && p.text[i..i + 4] == "](u)" && p.text[i - 1] != '\\'
    requires forall k :: k in p.separators && k < |p.text| ==> p.text[k] in "|\n\r"
    ensures Formed(false, 0, i, i + 4) in Run(p, State(i, out, [Opener(false, true, 0)], [])).formed
  {
    hide Run, PieceAt, LabelsAfter, KindAt, Tail;
    var s := State(i, out, [Opener(false, true, 0)], []);
    CloseKind(p, i, s.labels);
    ShortTail(p, i);
    assert Forms(p, i, s.labels);
    assert PieceAt(p, i, s.labels) == Tail(p, i).value by { HtmlStripFacts.FormsTail(p, i, s.labels); }
    assert FormedAt(p, i, s.labels) == [Formed(false, 0, i, i + 4)];
    var f := Formed(false, 0, i, i + 4);
    assert [] + [f] == [f];
    FormedStays(p, Step(p, s), f);
    RunStep(p, s);
  }

  lemma RunStep(p: Page, s: State)
    requires s.i < |p.text|
    ensures Run(p, s) == Run(p, Step(p, s))
  {
    hide Step;
  }

  lemma CloseKind(p: Page, i: nat, labels: seq<Opener>)
    requires 0 < i < |p.text| && p.text[i] == ']' && p.text[i - 1] != '\\' && labels != []
    ensures KindAt(p, i, labels) == Close
  {
    HtmlStripFacts.NoComment(p.text, i);
    assert !EscapedAt(p.text, i);
  }

  lemma ShortTail(p: Page, i: nat)
    requires i + 4 <= |p.text| && p.text[i..i + 4] == "](u)"
    requires forall k :: k in p.separators && k < |p.text| ==> p.text[k] in "|\n\r"
    ensures Tail(p, i).Some? && Tail(p, i).value.after == i + 4
  {
    var t := p.text;
    assert t[i..i + 4][1] == t[i + 1] && t[i..i + 4][2] == t[i + 2] && t[i..i + 4][3] == t[i + 3];
    assert TitleStart(t, i) == i + 3 by { ShortTarget(t, i); }
    hide TitleStart;
    assert Title(t, i + 3) == Some(Piece(i + 3, ""));
    assert LinkTail(t, i).Some? && LinkTail(t, i).value.after == i + 4;
    assert t[i..i + 4][0] == t[i];
    assert !HtmlStrip.SeparatorIn(p, i, i + 3);
  }

  lemma ShortTarget(t: string, i: nat)
    requires i + 4 <= |t| && t[i + 2] == 'u' && t[i + 3] == ')'
    ensures TitleStart(t, i) == i + 3
  {
    assert BareStop(t, i + 3, 0) == i + 3;
    assert BareStop(t, i + 2, 0) == i + 3;
    assert SkipSpace(t, i + 2) == i + 2 && SkipSpace(t, i + 3) == i + 3;
  }

  // ----- A pipe inside a code span -----------------------------------------

  /** A table of two columns whose header is a link with a pipe in a code span. */
  const PIPED: string := "[a`|`](u)\n-|-\n"
  const PIPED_HEADER: string := "[a`|`](u)"

  lemma PipedLines(facts: Recognizer)
    requires facts(PIPED_HEADER) == facts("-|-") == ORDINARY
    ensures LinesOf(PIPED, facts) == [Line(0, 10, PIPED_HEADER, ORDINARY), Line(10, 14, "-|-", ORDINARY)]
  {
    hide LinesFrom;
    assert PIPED[0..9] == PIPED_HEADER && PIPED[10..13] == "-|-";
    LineIs(PIPED, 0, PIPED_HEADER, '\n', facts);
    LineIs(PIPED, 10, "-|-", '\n', facts);
    LinesEnd(PIPED, facts);
  }

  lemma PipedTable(lines: seq<Line>)
    requires lines == [Line(0, 10, PIPED_HEADER, ORDINARY), Line(10, 14, "-|-", ORDINARY)]
    ensures IsSeparator(lines, 3)
  {
    hide SplitCells, BodyEnd, Spans, IsDelimiterRow;
    TwoCells(PIPED_HEADER, 3);
    TwoCells("-|-", 1);
    assert IsDelimiterRow(["-", "-"]) by { DashesDelimit(); }
    assert "-|-"[..1] == "-" && "-|-"[2..] == "-";
    FirstTable(lines);
    assert SeparatesIn(lines[0], 3);
  }

  lemma DashesDelimit()
    ensures IsDelimiterRow(["-", "-"])
  {
    assert "-"[1..] == "";
    assert IsDelimiterCell("-");
  }

  lemma PipedSpan(p: Page)
    requires p.text == PIPED
    ensures KindAt(p, 2, []) == Backtick && !EscapedAt(PIPED, 2) && CodeSpan(PIPED, 2).after == 5
  {
    var t := PIPED;
    assert RunEnd(t, 2) == 3 && RunEnd(t, 4) == 5;
    assert CloserFrom(t, 4, 1) == Some(4);
    assert CloserFrom(t, 3, 1) == Some(4);
  }

  /** The link forms although the pipe at offset 3 separates two cells of the table. */
  lemma PipeInCodeSpan(facts: Recognizer, boundary: nat -> bool, alpha: char -> bool, alnum: char -> bool)
    requires facts(PIPED_HEADER) == facts("-|-") == ORDINARY
    ensures Formed(false, 0, 5, 9) in Run(PageOf(PIPED, facts, boundary, alpha, alnum), START).formed
    ensures IsSeparator(LinesOf(PIPED, facts), 3)
    ensures !HtmlCells.OneCell(LinesOf(PIPED, facts), Formed(false, 0, 5, 9))
  {
    hide Run, Step, LinesFrom, SeparatorIndex, IsSeparator, KindAt, CodeSpan;
    var p := PageOf(PIPED, facts, boundary, alpha, alnum);
    PipedLines(facts);
    PipedTable(LinesOf(PIPED, facts));
    KnownSeparators(PIPED, facts);
    OpensAtStart(p);
    RunStep(p, START);
    var out := PassesOver(p, State(1, "[", [Opener(false, true, 0)], []), 2);
    var s := State(2, out, [Opener(false, true, 0)], []);
    RunStep(p, s);
    SpanStep(p, s);
    ClosesLink(p, 5, Step(p, s).out);
  }

  lemma SpanStep(p: Page, s: State)
    requires p.text == PIPED && s.i == 2 && s.formed == []
    ensures Step(p, s).i == 5 && Step(p, s).labels == s.labels && Step(p, s).formed == []
  {
    hide KindAt, CodeSpan, EscapedAt, Tail;
    PipedSpan(p);
    HtmlCells.LabelsAside(p, 2, s.labels);
  }

  /** Separators of the page are pipes and line ends. */
  lemma KnownSeparators(text: string, facts: Recognizer)
    ensures forall k :: k in SeparatorIndex(LinesOf(text, facts)) && k < |text| ==> text[k] in "|\n\r"
  {
    hide LinesFrom, SeparatorIndex, IsSeparator, Partition;
    LinesPartition(text, 0, facts);
    SeparatorsExact(text, LinesOf(text, facts));
    forall k | k in SeparatorIndex(LinesOf(text, facts)) ensures k < |text| && text[k] in "|\n\r" {
      HtmlCells.SeparatorChars(text, facts, k);
    }
  }

  // ----- A row that ends in a carriage return ------------------------------

  /** A table of one column with a link from its header to its second row. */
  const RETURNS: string := "[a\r:-\rb](u)\n"

  lemma ReturnsLines(facts: Recognizer)
    requires facts("[a") == facts(":-") == facts("b](u)") == ORDINARY
    ensures LinesOf(RETURNS, facts)
         == [Line(0, 3, "[a", ORDINARY), Line(3, 6, ":-", ORDINARY), Line(6, 12, "b](u)", ORDINARY)]
  {
    hide LinesFrom;
    assert RETURNS[0..2] == "[a" && RETURNS[3..5] == ":-" && RETURNS[6..11] == "b](u)";
    LineIs(RETURNS, 0, "[a", '\r', facts);
    LineIs(RETURNS, 3, ":-", '\r', facts);
    LineIs(RETURNS, 6, "b](u)", '\n', facts);
    LinesEnd(RETURNS, facts);
  }

  lemma ReturnsTable(lines: seq<Line>)
    requires lines == [Line(0, 3, "[a", ORDINARY), Line(3, 6, ":-", ORDINARY), Line(6, 12, "b](u)", ORDINARY)]
    ensures IsSeparator(lines, 2)
  {
    hide SplitCells, BodyEnd, Spans, IsDelimiterRow;
    OneCell("[a");
    OneCell(":-");
    DelimiterText();
    FirstTable(lines);
    assert SeparatesIn(lines[0], 2);
  }

  /** The link forms although the carriage return at offset 2 ends the table's header. */
  lemma ReturnInLabel(facts: Recognizer, boundary: nat -> bool, alpha: char -> bool, alnum: char -> bool)
    requires facts("[a") == facts(":-") == facts("b](u)") == ORDINARY
    ensures Formed(false, 0, 7, 11) in Run(PageOf(RETURNS, facts, boundary, alpha, alnum), START).formed
    ensures IsSeparator(LinesOf(RETURNS, facts), 2)
    ensures !HtmlCells.OneCell(LinesOf(RETURNS, facts), Formed(false, 0, 7, 11))
  {
    hide Run, Step, LinesFrom, SeparatorIndex, IsSeparator, KindAt;
    var p := PageOf(RETURNS, facts, boundary, alpha, alnum);
    ReturnsLines(facts);
    ReturnsTable(LinesOf(RETURNS, facts));
    KnownSeparators(RETURNS, facts);
    OpensAtStart(p);
    RunStep(p, START);
    var out := PassesOver(p, State(1, "[", [Opener(false, true, 0)], []), 7);
    ClosesLink(p, 7, out);
  }
}
