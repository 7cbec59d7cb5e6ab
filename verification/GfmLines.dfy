/** Physical lines, the facts the block-start patterns decide about them, and the
    lines inside literal regions (scripts/gfm_table.py). */
module GfmLines {
  import opened Wrappers
  import opened GfmCells

  /** A run of backticks or tildes, and whether its info string holds a backtick. */
  datatype Fence = Fence(mark: char, length: nat, backtickInInfo: bool)

  /** What closes a raw-HTML region, by the start condition that opened it. */
  datatype HtmlEnd = CloseTag | InstructionEnd | CDataEnd | CommentEnd | DeclarationEnd | BlankLine

  /** The verdicts of the regular expressions on one line of text. */
  datatype Facts = Facts(
    atx: bool, setext: bool, thematic: bool, quote: bool, list: bool,
    listPrefix: Option<nat>,             // end of the list marker and the space after it
    fence: Option<Fence>,                // fence opening
    fenceClose: Option<(char, nat)>,     // fence closing
    htmlStart: Option<HtmlEnd>,          // first matching HTML block start (conditions 1 to 6)
    htmlEnds: set<HtmlEnd>,              // end conditions found in the line
    bareTag: bool,                       // a complete tag alone (condition 7)
    interrupting: bool,                  // any start that may interrupt a paragraph
    anyHtmlStart: bool,                  // any of the seven start conditions
    visible: bool,                       // the line holds a non-space character
    startsWithSpace: bool)

  /** The patterns overlap: the general ones match whatever the specific ones do. */
  predicate Consistent(f: Facts) {
    && (f.htmlStart.Some? ==> f.interrupting)
    && (f.interrupting || f.bareTag ==> f.anyHtmlStart)
  }

  datatype Line = Line(start: nat, end: nat, text: string, facts: Facts)

  predicate ConsistentLines(lines: seq<Line>) { forall i :: 0 <= i < |lines| ==> Consistent(lines[i].facts) }

  predicate OpensFence(f: Facts) {
    f.fence.Some? && !(f.fence.value.mark == '`' && f.fence.value.backtickInInfo)
  }

  /** `ends_table`: the line cannot continue a table body. */
  predicate EndsTable(l: Line) {
    || Strip(l.text) == ""
    || IndentWidth(l.text) >= 4
    || l.facts.atx || l.facts.thematic || l.facts.quote || l.facts.list
    || OpensFence(l.facts)
    || l.facts.anyHtmlStart
  }

  /** `_closes_paragraph`: the line cannot continue the paragraph above it. */
  predicate ClosesParagraph(l: Line) {
    || Strip(l.text) == ""
    || l.facts.atx || l.facts.setext || l.facts.thematic || l.facts.quote || l.facts.list
    || OpensFence(l.facts)
    || l.facts.interrupting
  }

  /** Only a setext underline closes a paragraph without ending a table body. */
  lemma OnlySetextDiffers(l: Line)
    requires Consistent(l.facts) && ClosesParagraph(l) && !EndsTable(l)
    ensures l.facts.setext
  {
  }

  // ---------------------------------------------------------------- delimiter rows

  function SkipDashes(s: string): string { if s != [] && s[0] == '-' then SkipDashes(s[1..]) else s }

  /** `^[ \t]*:?-+:?[ \t]*$` */
  predicate IsDelimiterCell(cell: string) {
    var s := StripLeft(cell);
    var dashes := if s != [] && s[0] == ':' then s[1..] else s;
    var rest := SkipDashes(dashes);
    var tail := if rest != [] && rest[0] == ':' then rest[1..] else rest;
    dashes != [] && dashes[0] == '-' && StripLeft(tail) == []
  }

  predicate IsDelimiterRow(cells: seq<string>) {
    cells != [] && forall i :: 0 <= i < |cells| ==> IsDelimiterCell(cells[i])
  }

  // ---------------------------------------------------------------- does a table open here

  function Drop(s: string, n: nat): string { if n <= |s| then s[n..] else [] }
  function Take(s: string, n: nat): string { if n <= |s| then s[..n] else s }

  /** Whether some list marker above, before a visible line at column zero, may hold
      the indented line as its content. */
  predicate UnderListItem(lines: seq<Line>, above: nat)
    requires above <= |lines|
  {
    above > 0 &&
    (lines[above - 1].facts.list ||
     (!(lines[above - 1].facts.visible && !lines[above - 1].facts.startsWithSpace) && UnderListItem(lines, above - 1)))
  }

  /** The cells `_opens_table` reads on a line, its list marker or indent removed. */
  function OpeningCells(lines: seq<Line>, header: nat, position: nat): seq<string>
    requires header < |lines| && position < |lines|
  {
    var text := lines[position].text;
    var prefix := lines[header].facts.listPrefix;
    if prefix.Some? && (position == header || Strip(Take(text, prefix.value)) == "")
        then SplitCells(Drop(text, prefix.value))
    else if IndentWidth(text) < 4 then SplitCells(text)
    else if UnderListItem(lines, position) then SplitCells(StripLeft(text))
    else SplitCells(text)
  }

  predicate OpensTable(lines: seq<Line>, index: nat)
    requires index < |lines|
  {
    index + 1 < |lines| &&
    var header, delimiter := OpeningCells(lines, index, index), OpeningCells(lines, index, index + 1);
    && header != [] && IsDelimiterRow(delimiter) && |header| == |delimiter|
    && !lines[index + 1].facts.setext && !EndsTable(lines[index + 1])
  }

  predicate NextTable(table: bool, literal: bool, lines: seq<Line>, index: nat)
    requires index < |lines|
  {
    if literal || (table && EndsTable(lines[index])) then false else table || OpensTable(lines, index)
  }

  predicate ContinuesParagraph(paragraph: bool, literal: bool, table: bool, l: Line) {
    && !literal && !ClosesParagraph(l)
    && (paragraph || IndentWidth(l.text) < 4)
    && !(table && EndsTable(l))
  }

  // ---------------------------------------------------------------- literal lines

  /** The state of `_literal_lines` between two lines. */
  datatype Region = Region(fence: Option<(char, nat)>, html: Option<HtmlEnd>, paragraph: bool, table: bool)

  const OUTSIDE := Region(None, None, false, false)

  predicate Inside(r: Region) { r.fence.Some? || r.html.Some? }

  predicate ClosesFence(fence: (char, nat), f: Facts) {
    f.fenceClose.Some? && f.fenceClose.value.0 == fence.0 && f.fenceClose.value.1 >= fence.1
  }

  /** A line outside every region that starts one. */
  predicate Opens(r: Region, l: Line) {
    OpensFence(l.facts) || l.facts.htmlStart.Some? || ((!r.paragraph || r.table) && l.facts.bareTag)
  }

  predicate IsLiteral(r: Region, l: Line) { Inside(r) || Opens(r, l) }

  function NextRegion(r: Region, lines: seq<Line>, index: nat): Region
    requires index < |lines|
  {
    var l := lines[index];
    var f := l.facts;
    var literal := IsLiteral(r, l);
    Region(
      if r.fence.Some? then (if ClosesFence(r.fence.value, f) then None else r.fence)
      else if r.html.Some? || !OpensFence(f) then None
      else Some((f.fence.value.mark, f.fence.value.length)),
      if r.fence.Some? then None
      else if r.html.Some? then (if r.html.value in f.htmlEnds then None else r.html)
      else if OpensFence(f) then None
      else if f.htmlStart.Some? then (if f.htmlStart.value in f.htmlEnds then None else f.htmlStart)
      else if literal then Some(BlankLine)
      else None,
      ContinuesParagraph(r.paragraph, literal, r.table, l),
      NextTable(r.table, literal, lines, index))
  }

  function RegionBefore(lines: seq<Line>, index: nat): Region
    requires index <= |lines|
  {
    if index == 0 then OUTSIDE else NextRegion(RegionBefore(lines, index - 1), lines, index - 1)
  }

  predicate Literal(lines: seq<Line>, index: nat)
    requires index < |lines|
  {
    IsLiteral(RegionBefore(lines, index), lines[index])
  }

  lemma RegionAtTop(lines: seq<Line>)
    ensures RegionBefore(lines, 0) == OUTSIDE
  {
  }

  lemma RegionBelow(lines: seq<Line>, index: nat)
    requires index < |lines|
    ensures RegionBefore(lines, index + 1) == NextRegion(RegionBefore(lines, index), lines, index)
    ensures Literal(lines, index) == IsLiteral(RegionBefore(lines, index), lines[index])
  {
    hide NextRegion, IsLiteral;
  }

  /** `_literal_lines`, one pass over the lines. */
  method LiteralLines(lines: seq<Line>) returns (literal: seq<bool>)
    ensures |literal| == |lines| && forall i :: 0 <= i < |lines| ==> literal[i] == Literal(lines, i)
  {
    hide RegionBefore, Literal, ContinuesParagraph, NextTable, ClosesFence;
    literal := seq(|lines|, _ => false);
    var fence: Option<(char, nat)> := None;
    var htmlEnd: Option<HtmlEnd> := None;
    var paragraph, table := false, false;
    RegionAtTop(lines);
    for index := 0 to |lines|
      invariant |literal| == |lines|
      invariant forall i :: 0 <= i < index ==> literal[i] == Literal(lines, i)
      invariant forall i :: index <= i < |lines| ==> !literal[i]
      invariant Region(fence, htmlEnd, paragraph, table) == RegionBefore(lines, index)
      invariant fence.None? || htmlEnd.None?
    {
      var line := lines[index];
      RegionBelow(lines, index);
      if fence.Some? {
        literal := literal[index := true];
        if ClosesFence(fence.value, line.facts) { fence := None; }
      } else if htmlEnd.Some? {
        literal := literal[index := true];
        if htmlEnd.value in line.facts.htmlEnds { htmlEnd := None; }
      } else if OpensFence(line.facts) {
        fence := Some((line.facts.fence.value.mark, line.facts.fence.value.length));
        literal := literal[index := true];
      } else if line.facts.htmlStart.Some? {
        literal := literal[index := true];
        htmlEnd := if line.facts.htmlStart.value in line.facts.htmlEnds then None else line.facts.htmlStart;
      } else if (!paragraph || table) && line.facts.bareTag {
        literal := literal[index := true];
        htmlEnd := Some(BlankLine);
      }
      var nextParagraph := ContinuesParagraph(paragraph, literal[index], table, line);
      table := NextTable(table, literal[index], lines, index);
      paragraph := nextParagraph;
    }
  }

  /** A literal line below a line that is not literal opens its region, and no line
      that opens a region can continue a table body. */
  lemma FirstLiteralEndsTable(lines: seq<Line>, index: nat)
    requires ConsistentLines(lines) && 0 < index < |lines|
    requires !Literal(lines, index - 1) && Literal(lines, index)
    ensures EndsTable(lines[index])
  {
    assert Consistent(lines[index].facts);
    assert !Inside(RegionBefore(lines, index));
  }

  /** What is open below line `index` if that line starts a region and stays open. */
  function Started(l: Line): Region {
    if OpensFence(l.facts) then OUTSIDE.(fence := Some((l.facts.fence.value.mark, l.facts.fence.value.length)))
    else if l.facts.htmlStart.Some? then OUTSIDE.(html := l.facts.htmlStart)
    else OUTSIDE.(html := Some(BlankLine))
  }

  predicate Closes(r: Region, f: Facts) {
    (r.fence.Some? && ClosesFence(r.fence.value, f)) || (r.fence.None? && r.html.Some? && r.html.value in f.htmlEnds)
  }

  /** A region runs from the line that opens it to the first line that closes it, and
      every line of it is literal whatever else it looks like. Only a raw-HTML start
      of conditions 1 to 6 may close on the line that opens it. */
  lemma {:induction false} RegionExtent(lines: seq<Line>, i: nat, k: nat)
    requires i < k <= |lines| && !Inside(RegionBefore(lines, i)) && Opens(RegionBefore(lines, i), lines[i])
    requires !OpensFence(lines[i].facts) && lines[i].facts.htmlStart.Some?
        ==> lines[i].facts.htmlStart.value !in lines[i].facts.htmlEnds
    requires forall j :: i < j < k ==> !Closes(Started(lines[i]), lines[j].facts)
    ensures RegionBefore(lines, k).fence == Started(lines[i]).fence
    ensures RegionBefore(lines, k).html == Started(lines[i]).html
    ensures forall j :: i <= j < k ==> Literal(lines, j)
    ensures k < |lines| ==> Literal(lines, k)
    ensures k < |lines| && Closes(Started(lines[i]), lines[k].facts) ==> !Inside(RegionBefore(lines, k + 1))
  {
    if i + 1 < k {
      RegionExtent(lines, i, k - 1);
      assert !Closes(Started(lines[i]), lines[k - 1].facts);
    }
  }
}
