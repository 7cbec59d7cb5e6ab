/**
  * The conditions `find_tables` tests (scripts/gfm_table.py), said of the lines as they are
  * written: their characters and which patterns they match.
  */
module GfmWritten {

  import opened Wrappers
  import opened GfmCells
  import opened GfmLines
  import opened GfmTables
  import opened GfmTablesExact
  import opened GfmPatterns

  // ----- Cells -------------------------------------------------------------

  /** Indented code, a blank line, or a lone pipe. */
  ghost predicate Cellless(text: string) {
    IndentWidth(text) >= 4 || Blanks(text) || Trims(text, "|")
  }

  lemma BlankStrips(text: string)
    ensures Strip(text) == "" <==> Blanks(text)
  {
    StripExactly(text, "");
    if Blanks(text) { assert Blanks("") && text == text + "" + ""; }
    if Trims(text, "") {
      var a, b :| Blanks(a) && Blanks(b) && text == a + "" + b;
      forall i | 0 <= i < |text| ensures text[i] == ' ' || text[i] == '\t' {
        assert text[i] == if i < |a| then a[i] else b[i - |a|];
      }
    }
  }

  /** A line has no cells just in these cases. */
  lemma CelllessExactly(text: string)
    ensures SplitCells(text) == [] <==> Cellless(text)
  {
    hide Strip, Inner, PipesFrom, IndentWidth;
    BlankStrips(text);
    StripExactly(text, "|");
    PipesFromSpec(Inner(text), 0);
    if !HoldsNoCell(text) && UnescapedPipes(Strip(text)) != [] {
      SomePiece(Inner(text), 0, UnescapedPipes(Inner(text)));
    }
  }

  lemma SomePiece(body: string, start: nat, pipes: seq<nat>)
    requires Cuts(body, start, pipes)
    ensures Pieces(body, start, pipes) != []
  {
  }

  /** A pipe that no backslash stands right before. */
  predicate LivePipe(s: string, k: nat) {
    k < |s| && s[k] == '|' && (k > 0 ==> s[k - 1] != '\\')
  }

  predicate HasPipe(s: string) {
    exists k :: 0 <= k < |s| && LivePipe(s, k)
  }

  /** The body between its outer pipes, where it has them. */
  function Unframed(body: string): string {
    var rest := if body != "" && body[0] == '|' then body[1..] else body;
    if rest != "" && LivePipe(rest, |rest| - 1) then rest[..|rest| - 1] else rest
  }

  lemma {:induction false} PiecesUnpiped(body: string, start: nat)
    requires start <= |body| && (start > 0 ==> body[start - 1] == '|')
    ensures Cuts(body, start, PipesFrom(body, start))
    ensures forall c :: c in Pieces(body, start, PipesFrom(body, start)) ==> !HasPipe(c)
    decreases |body| - start
  {
    hide Pieces, PipesFrom, Cuts, HasPipe;
    PipesFromSpec(body, start);
    var pipes := PipesFrom(body, start);
    if pipes == [] {
      PieceUnpiped(body, start, |body|);
      assert body[start..|body|] == body[start..];
      assert Pieces(body, start, pipes) == [body[start..]] by { NoCut(body, start); }
    } else {
      var k := pipes[0];
      FirstPipe(body, start);
      PieceUnpiped(body, start, k);
      PiecesUnpiped(body, k + 1);
      FirstCut(body, start);
    }
  }

  lemma NoCut(body: string, start: nat)
    requires start <= |body| && PipesFrom(body, start) == []
    ensures Cuts(body, start, []) && Pieces(body, start, []) == [body[start..]]
  {
  }

  lemma {:induction false} FirstPipe(body: string, start: nat)
    requires start <= |body| && PipesFrom(body, start) != []
    ensures var k := PipesFrom(body, start)[0];
            && start <= k < |body| && Delimits(body, k)
            && forall j :: start <= j < k ==> !Delimits(body, j)
    decreases |body| - start
  {
    if !Delimits(body, start) { FirstPipe(body, start + 1); }
  }

  lemma {:induction false} RestOfPipes(body: string, start: nat)
    requires start <= |body| && PipesFrom(body, start) != []
    ensures PipesFrom(body, start)[1..] == PipesFrom(body, PipesFrom(body, start)[0] + 1)
    decreases |body| - start
  {
    if !Delimits(body, start) { RestOfPipes(body, start + 1); }
  }

  lemma FirstCut(body: string, start: nat)
    requires start <= |body| && PipesFrom(body, start) != [] && Cuts(body, start, PipesFrom(body, start))
    requires PipesFrom(body, start)[0] < |body|
    ensures var k := PipesFrom(body, start)[0];
            && Cuts(body, k + 1, PipesFrom(body, k + 1))
            && Pieces(body, start, PipesFrom(body, start))
               == [body[start..k]] + Pieces(body, k + 1, PipesFrom(body, k + 1))
  {
    hide PipesFrom;
    RestOfPipes(body, start);
  }

  lemma PieceUnpiped(body: string, start: nat, k: nat)
    requires start <= k <= |body| && (start > 0 ==> body[start - 1] == '|')
    requires forall j :: start <= j < k ==> !Delimits(body, j)
    ensures !HasPipe(body[start..k])
  {
    var c := body[start..k];
    forall m | 0 <= m < |c| ensures !LivePipe(c, m) {
      assert !Delimits(body, start + m);
      assert m > 0 ==> c[m - 1] == body[start + m - 1];
    }
  }

  /** The cells of a line: its body alone where it has no pipe; else what joins to the body between
      its outer pipes, with no pipe in any of them. */
  lemma CellsExactly(text: string, body: string)
    requires !Cellless(text) && Trims(text, body)
    ensures !HasPipe(body) ==> SplitCells(text) == [body]
    ensures HasPipe(body) ==>
              JoinCells(SplitCells(text)) == Unframed(body) && forall c :: c in SplitCells(text) ==> !HasPipe(c)
  {
    hide Strip, PipesFrom, IndentWidth, Pieces, Inner, Unframed, HasPipe, JoinCells;
    StripExactly(text, body);
    CelllessExactly(text);
    PipesFromSpec(body, 0);
    assert UnescapedPipes(body) == [] <==> !HasPipe(body) by { PipesExactly(body); }
    BlankStrips(text);
    StripExactly(text, "|");
    assert !HoldsNoCell(text);
    JoinSplit(text);
    assert Inner(text) == Unframed(body) by { InnerExactly(text, body); }
    if HasPipe(body) { PiecesUnpiped(Inner(text), 0); }
  }

  lemma InnerExactly(text: string, body: string)
    requires Strip(text) == body
    ensures Inner(text) == Unframed(body)
  {
    hide Strip;
  }

  lemma PipesExactly(body: string)
    ensures UnescapedPipes(body) == [] <==> !HasPipe(body)
  {
    hide PipesFrom;
    PipesFromSpec(body, 0);
    if UnescapedPipes(body) != [] {
      assert UnescapedPipes(body)[0] in UnescapedPipes(body);
      assert LivePipe(body, UnescapedPipes(body)[0]);
    }
    if HasPipe(body) {
      var k :| 0 <= k < |body| && LivePipe(body, k);
      assert Delimits(body, k) && k in UnescapedPipes(body);
    }
  }

  // ----- Rows --------------------------------------------------------------

  /** An ATX heading, a thematic break, a block quote, a list item, or a fence that opens. */
  predicate StartsBlock(f: Facts) {
    || f.atx || f.thematic || f.quote || f.list
    || (f.fence.Some? && (f.fence.value.mark == '`' ==> !f.fence.value.backtickInInfo))
  }

  /** A line that continues a table: it has cells and starts no block and no HTML. */
  ghost predicate TableRow(l: Line) {
    !Cellless(l.text) && !StartsBlock(l.facts) && !l.facts.anyHtmlStart
  }

  lemma BodyRowExactly(l: Line)
    ensures IsBodyRow(l) <==> TableRow(l)
  {
    hide IndentWidth, SplitCells;
    CelllessExactly(l.text);
    BlankStrips(l.text);
  }

  /** The rows of a table are such lines, and the line below it is not. */
  lemma RowsExactly(lines: seq<Line>, interrupting: bool, s: Span)
    requires s in Spans(lines, interrupting)
    ensures s.start + 2 <= s.end <= |lines|
    ensures forall k :: s.start + 2 <= k < s.end ==> TableRow(lines[k])
    ensures s.end < |lines| ==> !TableRow(lines[s.end])
  {
    hide Scan, IsBodyRow, TableRow, Spans;
    SpansAreScan(lines, interrupting);
    SpanFacts(lines, interrupting, 0, false, s);
    TablesExactly(lines, interrupting, s);
    forall k | s.start + 2 <= k < s.end ensures TableRow(lines[k]) { BodyRowExactly(lines[k]); }
    if s.end < |lines| { BodyRowExactly(lines[s.end]); }
  }

  // ----- Headers -----------------------------------------------------------

  /** A line after which no paragraph goes on. */
  predicate EndsParagraph(l: Line) {
    Blanks(l.text) || StartsBlock(l.facts) || l.facts.setext || l.facts.interrupting
  }

  lemma EndsParagraphExactly(l: Line)
    ensures ClosesParagraph(l) <==> EndsParagraph(l)
  {
    BlankStrips(l.text);
  }

  /** A delimiter row: each cell matches the pattern, and the line underlines no heading. */
  ghost predicate DelimiterLine(l: Line) {
    TableRow(l) && !l.facts.setext && forall c :: c in SplitCells(l.text) ==> DelimiterCell(c)
  }

  lemma DelimiterLineExactly(lines: seq<Line>, i: nat)
    requires i < |lines|
    ensures DelimitsTable(lines, i) <==> DelimiterLine(lines[i]) && !Literal(lines, i)
  {
    hide IsDelimiterCell, DelimiterCell, SplitCells, IndentWidth, Literal;
    var l := lines[i];
    CelllessExactly(l.text);
    BlankStrips(l.text);
    var cells := SplitCells(l.text);
    forall c ensures IsDelimiterCell(c) <==> DelimiterCell(c) { DelimiterCellExactly(c); }
    assert IsDelimiterRow(cells) <==> cells != [] && forall c :: c in cells ==> DelimiterCell(c);
  }

  /** Line `j` starts a quote or a list item, and down to line `k` nothing visible stands at the margin. */
  predicate HeldBy(lines: seq<Line>, j: nat, k: nat) {
    && j <= k < |lines| && (lines[j].facts.quote || lines[j].facts.list)
    && forall m :: j < m <= k ==> !(lines[m].facts.visible && !lines[m].facts.startsWithSpace)
  }

  lemma {:induction false} InContainerExactly(lines: seq<Line>, k: nat)
    requires k < |lines|
    ensures InContainer(lines, k) <==> exists j: nat :: HeldBy(lines, j, k)
  {
    var f := lines[k].facts;
    if f.quote || f.list {
      assert HeldBy(lines, k, k);
    } else if k > 0 {
      InContainerExactly(lines, k - 1);
      if !(f.visible && !f.startsWithSpace) {
        var above := k - 1;
        if j: nat :| HeldBy(lines, j, above) { assert HeldBy(lines, j, k); }
        if j: nat :| HeldBy(lines, j, k) { assert HeldBy(lines, j, above); }
      }
    }
  }

  lemma {:induction false} ChunkExactly(lines: seq<Line>, i: nat, k: nat)
    requires k <= i < |lines|
    ensures ChunkStart(lines, i) <= k <==> forall m :: k <= m < i ==> lines[m].facts.visible
  {
    if i > 0 && lines[i - 1].facts.visible && k < i { ChunkExactly(lines, i - 1, k); }
  }

  /** A quote or a list item holds the header, its delimiter, or a visible line right above them. */
  predicate HoldsHeader(lines: seq<Line>, i: nat, j: nat, k: nat) {
    k <= i + 1 && HeldBy(lines, j, k) && forall m :: k <= m < i ==> m < |lines| && lines[m].facts.visible
  }

  lemma ContainedExactly(lines: seq<Line>, i: nat)
    requires i + 1 < |lines|
    ensures Contained(lines, i) <==> exists j: nat, k: nat :: HoldsHeader(lines, i, j, k)
  {
    hide InContainer, ChunkStart, HeldBy;
    if Contained(lines, i) {
      var k :| ChunkStart(lines, i) <= k < i + 2 && InContainer(lines, k);
      InContainerExactly(lines, k);
      var j: nat :| HeldBy(lines, j, k);
      if k <= i { ChunkExactly(lines, i, k); }
      assert HoldsHeader(lines, i, j, k);
    }
    if j: nat, k: nat :| HoldsHeader(lines, i, j, k) {
      InContainerExactly(lines, k);
      if k <= i { ChunkExactly(lines, i, k); }
      assert ChunkStart(lines, i) <= k < i + 2 && InContainer(lines, k);
    }
  }

  /** Header and delimiter where a table may begin, in either mode. */
  ghost predicate HeaderWritten(lines: seq<Line>, interrupting: bool, i: nat) {
    && i + 1 < |lines|
    && !Literal(lines, i) && !EndsParagraph(lines[i]) && !Cellless(lines[i].text)
    && !Literal(lines, i + 1) && DelimiterLine(lines[i + 1])
    && |SplitCells(lines[i].text)| == |SplitCells(lines[i + 1].text)|
    && (interrupting || i == 0 || Literal(lines, i - 1) || EndsParagraph(lines[i - 1]))
    && !exists j: nat, k: nat :: HoldsHeader(lines, i, j, k)
  }

  lemma CandidateExactly(lines: seq<Line>, interrupting: bool, i: nat)
    ensures Candidate(lines, interrupting, i) <==> HeaderWritten(lines, interrupting, i)
  {
    hide Literal, Cellless, DelimiterLine, SplitCells, ClosesParagraph, EndsParagraph, Contained, HoldsHeader,
      EndsTable;
    if i + 1 < |lines| {
      EndsParagraphExactly(lines[i]);
      if i > 0 { EndsParagraphExactly(lines[i - 1]); }
      CelllessExactly(lines[i].text);
      DelimiterLineExactly(lines, i + 1);
      ContainedExactly(lines, i);
      NoUnderline(lines, i);
    }
  }

  /** A line that ends no paragraph underlines nothing. */
  lemma NoUnderline(lines: seq<Line>, i: nat)
    requires i < |lines|
    ensures !ClosesParagraph(lines[i]) ==> !lines[i].facts.setext && !UnderlinesHeading(lines, i)
  {
  }

  /** The delimiter does not fit the line above it. */
  ghost predicate MisfitWritten(lines: seq<Line>, i: nat) {
    && i + 1 < |lines|
    && !Literal(lines, i) && !EndsParagraph(lines[i])
    && !Literal(lines, i + 1) && DelimiterLine(lines[i + 1])
    && (Cellless(lines[i].text) || |SplitCells(lines[i].text)| != |SplitCells(lines[i + 1].text)|)
  }

  lemma MisfitExactly(lines: seq<Line>, i: nat)
    ensures Misfit(lines, i) <==> MisfitWritten(lines, i)
  {
    hide Literal, Cellless, DelimiterLine, SplitCells, ClosesParagraph, EndsParagraph, EndsTable;
    if i + 1 < |lines| {
      EndsParagraphExactly(lines[i]);
      CelllessExactly(lines[i].text);
      DelimiterLineExactly(lines, i + 1);
      NoUnderline(lines, i);
    }
  }

  // ----- Literal regions ---------------------------------------------------

  /** A fence that opens here: three backticks or more without a backtick after them, or tildes. */
  predicate FenceAt(l: Line, fence: Fence) {
    l.facts.fence == Some(fence) && (fence.mark == '`' ==> !fence.backtickInInfo)
  }

  predicate NoFence(l: Line) {
    l.facts.fence.None? || (l.facts.fence.value.mark == '`' && l.facts.fence.value.backtickInInfo)
  }

  /** A fence of the same mark, at least as long. */
  predicate ClosesTheFence(fence: Fence, l: Line) {
    l.facts.fenceClose.Some? && l.facts.fenceClose.value.0 == fence.mark && l.facts.fenceClose.value.1 >= fence.length
  }

  /** Lines from `i` through `k` are literal, and if `k` closes the region it ends there. */
  ghost predicate LiteralFrom(lines: seq<Line>, i: nat, k: nat, closes: bool) {
    && i < k < |lines| && (forall j :: i <= j <= k ==> Literal(lines, j))
    && (closes ==> !Inside(RegionBefore(lines, k + 1)))
  }

  /** A code fence is literal down to the first line that closes it. */
  lemma FenceRegion(lines: seq<Line>, i: nat, k: nat, fence: Fence)
    requires i < k < |lines| && !Inside(RegionBefore(lines, i)) && FenceAt(lines[i], fence)
    requires forall j :: i < j < k ==> !ClosesTheFence(fence, lines[j])
    ensures LiteralFrom(lines, i, k, ClosesTheFence(fence, lines[k]))
  {
    hide RegionBefore, Literal;
    RegionExtent(lines, i, k);
  }

  /** An HTML start of conditions 1 to 6 down to the first line with its end; on its own line it may end at once. */
  lemma HtmlRegion(lines: seq<Line>, i: nat, k: nat, end: HtmlEnd)
    requires i < k < |lines| && !Inside(RegionBefore(lines, i))
    requires NoFence(lines[i]) && lines[i].facts.htmlStart == Some(end)
    requires forall j :: i <= j < k ==> end !in lines[j].facts.htmlEnds
    ensures LiteralFrom(lines, i, k, end in lines[k].facts.htmlEnds)
  {
    hide RegionBefore, Literal;
    RegionExtent(lines, i, k);
  }

  lemma HtmlLine(lines: seq<Line>, i: nat, end: HtmlEnd)
    requires i < |lines| && !Inside(RegionBefore(lines, i))
    requires NoFence(lines[i]) && lines[i].facts.htmlStart == Some(end) && end in lines[i].facts.htmlEnds
    ensures Literal(lines, i) && !Inside(RegionBefore(lines, i + 1))
  {
    hide OpensTable, ContinuesParagraph;
  }

  /** A tag alone on its line, where no paragraph is open or a table is, down to the next blank line. */
  lemma TagRegion(lines: seq<Line>, i: nat, k: nat)
    requires i < k < |lines| && !Inside(RegionBefore(lines, i))
    requires NoFence(lines[i]) && lines[i].facts.htmlStart.None? && lines[i].facts.bareTag
    requires !RegionBefore(lines, i).paragraph || RegionBefore(lines, i).table
    requires forall j :: i < j < k ==> BlankLine !in lines[j].facts.htmlEnds
    ensures LiteralFrom(lines, i, k, BlankLine in lines[k].facts.htmlEnds)
  {
    hide RegionBefore, Literal;
    RegionExtent(lines, i, k);
  }

  /** Any other line outside a region is not literal, and opens none. */
  lemma NoRegion(lines: seq<Line>, i: nat)
    requires i < |lines| && !Inside(RegionBefore(lines, i))
    requires NoFence(lines[i]) && lines[i].facts.htmlStart.None?
    requires lines[i].facts.bareTag ==> RegionBefore(lines, i).paragraph && !RegionBefore(lines, i).table
    ensures !Literal(lines, i) && !Inside(RegionBefore(lines, i + 1))
  {
    hide OpensTable, ContinuesParagraph;
  }

  /** A line that ends a table's body: blank, indented code, or the start of a block or of HTML. */
  predicate TableStops(l: Line) {
    Blanks(l.text) || IndentWidth(l.text) >= 4 || StartsBlock(l.facts) || l.facts.anyHtmlStart
  }

  lemma TableStopsExactly(l: Line)
    ensures EndsTable(l) <==> TableStops(l)
  {
    hide IndentWidth;
    BlankStrips(l.text);
  }

  /** A line that a paragraph may go on with. */
  predicate ParagraphLine(lines: seq<Line>, m: nat) {
    && m < |lines| && !Literal(lines, m) && !EndsParagraph(lines[m])
    && !(RegionBefore(lines, m).table && TableStops(lines[m]))
  }

  /** A paragraph that began on line `j`, which is not indented code, is open before line `i`. */
  predicate OpenSince(lines: seq<Line>, j: nat, i: nat) {
    j < i <= |lines| && IndentWidth(lines[j].text) < 4 && forall m :: j <= m < i ==> ParagraphLine(lines, m)
  }

  lemma {:induction false} ParagraphExactly(lines: seq<Line>, i: nat)
    requires i <= |lines|
    ensures RegionBefore(lines, i).paragraph <==> exists j: nat :: OpenSince(lines, j, i)
  {
    hide IndentWidth, EndsTable, TableStops, EndsParagraph, ClosesParagraph, NextTable;
    if i > 0 {
      var above := i - 1;
      ParagraphExactly(lines, above);
      EndsParagraphExactly(lines[above]);
      TableStopsExactly(lines[above]);
      assert RegionBefore(lines, i).paragraph
          <==> ParagraphLine(lines, above)
               && (RegionBefore(lines, above).paragraph || IndentWidth(lines[above].text) < 4);
      if RegionBefore(lines, i).paragraph {
        if j: nat :| OpenSince(lines, j, above) {
          assert OpenSince(lines, j, i);
        } else {
          assert OpenSince(lines, above, i);
        }
      }
      if j: nat :| OpenSince(lines, j, i) {
        assert ParagraphLine(lines, above);
        if j < above { assert OpenSince(lines, j, above); }
      }
    }
  }

  /** The table that `_literal_lines` saw begin on line `j` is still open before line `i`. */
  predicate TableSince(lines: seq<Line>, j: nat, i: nat) {
    && j < i <= |lines| && OpensTable(lines, j)
    && !(RegionBefore(lines, j).table && TableStops(lines[j]))
    && (forall m :: j <= m < i ==> !Literal(lines, m)) && forall m :: j < m < i ==> !TableStops(lines[m])
  }

  lemma {:induction false} TableExactly(lines: seq<Line>, i: nat)
    requires i <= |lines|
    ensures RegionBefore(lines, i).table <==> exists j: nat :: TableSince(lines, j, i)
  {
    hide EndsTable, TableStops, ContinuesParagraph, OpensTable;
    if i > 0 {
      var above := i - 1;
      TableExactly(lines, above);
      TableStopsExactly(lines[above]);
      if RegionBefore(lines, i).table {
        if j: nat :| TableSince(lines, j, above) {
          assert TableSince(lines, j, i);
        } else {
          assert TableSince(lines, above, i);
        }
      }
      if j: nat :| TableSince(lines, j, i) {
        assert !Literal(lines, above);
        if j < above {
          assert !TableStops(lines[above]);
          assert TableSince(lines, j, above);
        }
      }
    }
  }

  /** Header and delimiter of as many cells, the text of both given without list marker or indent. */
  ghost predicate Underlines(header: string, delimiter: string) {
    && !Cellless(header) && !Cellless(delimiter) && |SplitCells(header)| == |SplitCells(delimiter)|
    && forall c :: c in SplitCells(delimiter) ==> DelimiterCell(c)
  }

  lemma UnderlinesExactly(header: string, delimiter: string)
    ensures Underlines(header, delimiter)
       <==> && SplitCells(header) != [] && IsDelimiterRow(SplitCells(delimiter))
            && |SplitCells(header)| == |SplitCells(delimiter)|
  {
    hide SplitCells, Cellless, IsDelimiterCell, DelimiterCell;
    CelllessExactly(header);
    CelllessExactly(delimiter);
    forall c ensures IsDelimiterCell(c) <==> DelimiterCell(c) { DelimiterCellExactly(c); }
  }

  /** Where no list marker stands before the header and neither line is indented code. */
  lemma OpensTablePlainly(lines: seq<Line>, i: nat)
    requires i + 1 < |lines| && lines[i].facts.listPrefix.None?
    requires IndentWidth(lines[i].text) < 4 && IndentWidth(lines[i + 1].text) < 4
    ensures OpensTable(lines, i)
       <==> && Underlines(lines[i].text, lines[i + 1].text)
            && !lines[i + 1].facts.setext && !TableStops(lines[i + 1])
  {
    hide SplitCells, IndentWidth, IsDelimiterRow, Underlines, EndsTable, TableStops;
    UnderlinesExactly(lines[i].text, lines[i + 1].text);
    TableStopsExactly(lines[i + 1]);
  }

  /** Behind a list marker of `n` characters the delimiter stands as far in as the header. */
  lemma OpensTableListed(lines: seq<Line>, i: nat, n: nat)
    requires i + 1 < |lines| && lines[i].facts.listPrefix == Some(n)
    requires n <= |lines[i].text| && n <= |lines[i + 1].text| && Blanks(lines[i + 1].text[..n])
    ensures OpensTable(lines, i)
       <==> && Underlines(lines[i].text[n..], lines[i + 1].text[n..])
            && !lines[i + 1].facts.setext && !TableStops(lines[i + 1])
  {
    hide SplitCells, IndentWidth, IsDelimiterRow, Underlines, EndsTable, TableStops, Strip;
    BlankStrips(lines[i + 1].text[..n]);
    UnderlinesExactly(lines[i].text[n..], lines[i + 1].text[n..]);
    TableStopsExactly(lines[i + 1]);
  }

  /** A list item above, with nothing visible at the margin since. */
  predicate ItemAbove(lines: seq<Line>, j: nat, position: nat) {
    && j < position <= |lines| && lines[j].facts.list
    && forall m :: j < m < position ==>
         !lines[m].facts.list ==> !(lines[m].facts.visible && !lines[m].facts.startsWithSpace)
  }

  lemma {:induction false} UnderItemExactly(lines: seq<Line>, position: nat)
    requires position <= |lines|
    ensures UnderListItem(lines, position) <==> exists j: nat :: ItemAbove(lines, j, position)
  {
    if position > 0 {
      var above := position - 1;
      UnderItemExactly(lines, above);
      var f := lines[above].facts;
      if f.list {
        assert ItemAbove(lines, above, position);
      } else if !(f.visible && !f.startsWithSpace) {
        if j: nat :| ItemAbove(lines, j, above) { assert ItemAbove(lines, j, position); }
        if j: nat :| ItemAbove(lines, j, position) { assert ItemAbove(lines, j, above); }
      }
    }
  }

  /** A line indented four columns is read without its indent where it may belong to a list item. */
  ghost predicate ReadWithoutIndent(lines: seq<Line>, k: nat, text: string) {
    k < |lines| &&
    if IndentWidth(lines[k].text) >= 4 && exists j: nat :: ItemAbove(lines, j, k)
    then (exists a :: Blanks(a) && lines[k].text == a + text) && (text != "" ==> text[0] != ' ' && text[0] != '\t')
    else text == lines[k].text
  }

  /** So it is for the header and the delimiter of a table without a list marker before it. */
  lemma OpensTableIndented(lines: seq<Line>, i: nat, header: string, delimiter: string)
    requires i + 1 < |lines| && lines[i].facts.listPrefix.None?
    requires ReadWithoutIndent(lines, i, header) && ReadWithoutIndent(lines, i + 1, delimiter)
    ensures OpensTable(lines, i)
       <==> && Underlines(header, delimiter)
            && !lines[i + 1].facts.setext && !TableStops(lines[i + 1])
  {
    hide SplitCells, IndentWidth, IsDelimiterRow, Underlines, EndsTable, TableStops, UnderListItem, ItemAbove,
      ReadWithoutIndent;
    CellsWithoutIndent(lines, i, i, header);
    CellsWithoutIndent(lines, i, i + 1, delimiter);
    UnderlinesExactly(header, delimiter);
    TableStopsExactly(lines[i + 1]);
  }

  lemma CellsWithoutIndent(lines: seq<Line>, i: nat, k: nat, text: string)
    requires i < |lines| && lines[i].facts.listPrefix.None? && ReadWithoutIndent(lines, k, text)
    ensures OpeningCells(lines, i, k) == SplitCells(text)
  {
    hide SplitCells, IndentWidth, UnderListItem, ItemAbove, StripLeft;
    UnderItemExactly(lines, k);
    if IndentWidth(lines[k].text) >= 4 && exists j: nat :: ItemAbove(lines, j, k) {
      var a :| Blanks(a) && lines[k].text == a + text;
      LeftOf(a, text);
    }
  }
}
