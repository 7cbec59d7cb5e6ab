/** Finding the tables of a document (scripts/gfm_table.py, `find_tables`). */
module GfmTables {
  import opened Sequences
  import opened Wrappers
  import opened GfmCells
  import opened GfmLines

  datatype Row = Row(start: nat, end: nat, text: string, cells: seq<string>)

  datatype Table = Table(header: Row, delimiter: Row, rows: seq<Row>)

  function RowOf(l: Line): Row { Row(l.start, l.end, l.text, SplitCells(l.text)) }

  function RowsOf(lines: seq<Line>): (r: seq<Row>)
    ensures |r| == |lines| && forall i :: 0 <= i < |r| ==> r[i] == RowOf(lines[i])
  {
    seq(|lines|, i requires 0 <= i < |lines| => RowOf(lines[i]))
  }

  /** A table as the half-open range of lines it covers. */
  datatype Span = Span(start: nat, end: nat)

  predicate Fits(lines: seq<Line>, s: Span) { s.start + 2 <= s.end <= |lines| }

  function TableAt(lines: seq<Line>, s: Span): Table
    requires Fits(lines, s)
  {
    Table(RowOf(lines[s.start]), RowOf(lines[s.start + 1]), RowsOf(lines[s.start + 2..s.end]))
  }

  // ---------------------------------------------------------------- conditions on a line

  predicate Skipped(lines: seq<Line>, i: nat)
    requires i < |lines|
  {
    Literal(lines, i) || ClosesParagraph(lines[i])
  }

  /** Whether line `i` may sit inside a list item or a block quote. */
  predicate InContainer(lines: seq<Line>, i: nat)
    requires i < |lines|
  {
    var f := lines[i].facts;
    if f.quote || f.list then true
    else if f.visible && !f.startsWithSpace then false
    else i > 0 && InContainer(lines, i - 1)
  }

  predicate BeginsParagraph(lines: seq<Line>, i: nat)
    requires i < |lines|
  {
    !Skipped(lines, i) && (i == 0 || Skipped(lines, i - 1))
  }

  predicate UnderlinesHeading(lines: seq<Line>, i: nat)
    requires i < |lines|
  {
    i > 0 && lines[i].facts.setext && !EndsTable(lines[i - 1])
  }

  predicate DelimitsTable(lines: seq<Line>, i: nat)
    requires i < |lines|
  {
    IsDelimiterRow(SplitCells(lines[i].text)) && !Literal(lines, i) && !EndsTable(lines[i]) && !lines[i].facts.setext
  }

  predicate WidthsDiffer(lines: seq<Line>, i: nat)
    requires i + 1 < |lines|
  {
    SplitCells(lines[i].text) == [] || |SplitCells(lines[i + 1].text)| != |SplitCells(lines[i].text)|
  }

  /** The first line of the chunk of visible lines that ends with line `i`. */
  function ChunkStart(lines: seq<Line>, i: nat): (c: nat)
    requires i < |lines|
    ensures c <= i
  {
    if i > 0 && lines[i - 1].facts.visible then ChunkStart(lines, i - 1) else i
  }

  predicate Contained(lines: seq<Line>, i: nat)
    requires i + 1 < |lines|
  {
    exists k :: ChunkStart(lines, i) <= k < i + 2 && InContainer(lines, k)
  }

  predicate IsBodyRow(l: Line) { !EndsTable(l) && SplitCells(l.text) != [] }

  function BodyEnd(lines: seq<Line>, from: nat): (e: nat)
    requires from <= |lines|
    ensures from <= e <= |lines|
    ensures forall k :: from <= k < e ==> IsBodyRow(lines[k])
    ensures e < |lines| ==> !IsBodyRow(lines[e])
    decreases |lines| - from
  {
    if from < |lines| && IsBodyRow(lines[from]) then BodyEnd(lines, from + 1) else from
  }

  // ---------------------------------------------------------------- the scan

  /** One turn of the main loop: advance a line, or accept a table up to `end`. */
  datatype Move = Advance(burned: bool) | Accept(end: nat)

  function MoveAt(lines: seq<Line>, interrupting: bool, i: nat, burned: bool): Move
    requires i + 1 < |lines|
  {
    if Skipped(lines, i) then Advance(false)
    else if UnderlinesHeading(lines, i) || !DelimitsTable(lines, i + 1) then Advance(burned)
    else if WidthsDiffer(lines, i) then Advance(true)
    else if burned || !(interrupting || BeginsParagraph(lines, i)) || Contained(lines, i) then Advance(burned)
    else Accept(BodyEnd(lines, i + 2))
  }

  function Scan(lines: seq<Line>, interrupting: bool, i: nat, burned: bool): seq<Span>
    decreases |lines| - i
  {
    if i + 1 >= |lines| then []
    else
      match MoveAt(lines, interrupting, i, burned)
      case Advance(b) => Scan(lines, interrupting, i + 1, b)
      case Accept(e) => [Span(i, e)] + Scan(lines, interrupting, e, false)
  }

  function Spans(lines: seq<Line>, interrupting: bool): seq<Span> { Scan(lines, interrupting, 0, false) }

  function TablesAt(lines: seq<Line>, spans: seq<Span>): (r: seq<Table>)
    requires forall k :: 0 <= k < |spans| ==> Fits(lines, spans[k])
    ensures |r| == |spans| && forall k :: 0 <= k < |r| ==> r[k] == TableAt(lines, spans[k])
  {
    seq(|spans|, k requires 0 <= k < |spans| => TableAt(lines, spans[k]))
  }

  /** Tables come in order, do not overlap and lie within the document. */
  predicate Ordered(lines: seq<Line>, from: nat, spans: seq<Span>) {
    && (forall k :: 0 <= k < |spans| ==> from <= spans[k].start && Fits(lines, spans[k]))
    && (forall j, k :: 0 <= j < k < |spans| ==> spans[j].end <= spans[k].start)
  }

  /** What an accepted table is made of. */
  lemma MoveFacts(lines: seq<Line>, interrupting: bool, i: nat, burned: bool)
    requires i + 1 < |lines|
    ensures MoveAt(lines, interrupting, i, burned).Accept? ==>
      && !burned && !Literal(lines, i) && !Literal(lines, i + 1) && IsBodyRow(lines[i + 1])
      && MoveAt(lines, interrupting, i, burned).end == BodyEnd(lines, i + 2)
  {
  }

  lemma {:induction false} ScanOrdered(lines: seq<Line>, interrupting: bool, i: nat, burned: bool)
    ensures Ordered(lines, i, Scan(lines, interrupting, i, burned))
    decreases |lines| - i
  {
    hide MoveAt, Literal, BodyEnd, IsBodyRow;
    if i + 1 < |lines| {
      MoveFacts(lines, interrupting, i, burned);
      match MoveAt(lines, interrupting, i, burned) {
        case Advance(b) => ScanOrdered(lines, interrupting, i + 1, b);
        case Accept(e) => ScanOrdered(lines, interrupting, e, false);
      }
    }
  }

  method Containers(lines: seq<Line>) returns (container: seq<bool>)
    ensures |container| == |lines| && forall i :: 0 <= i < |lines| ==> container[i] == InContainer(lines, i)
  {
    container := [];
    var inside := false;
    for k := 0 to |lines|
      invariant |container| == k && forall i :: 0 <= i < k ==> container[i] == InContainer(lines, i)
      invariant inside == (k > 0 && InContainer(lines, k - 1))
    {
      var f := lines[k].facts;
      if f.quote || f.list {
        inside := true;
      } else if f.visible && !f.startsWithSpace {
        inside := false;
      }
      container := container + [inside];
    }
  }

  method ParagraphStarts(lines: seq<Line>, literal: seq<bool>) returns (begins: seq<bool>)
    requires |literal| == |lines| && forall i :: 0 <= i < |lines| ==> literal[i] == Literal(lines, i)
    ensures |begins| == |lines| && forall i :: 0 <= i < |lines| ==> begins[i] == BeginsParagraph(lines, i)
  {
    begins := seq(|lines|, _ => false);
    var openParagraph := false;
    for k := 0 to |lines|
      invariant |begins| == |lines|
      invariant forall i :: 0 <= i < k ==> begins[i] == BeginsParagraph(lines, i)
      invariant forall i :: k <= i < |lines| ==> !begins[i]
      invariant openParagraph == (k > 0 && !Skipped(lines, k - 1))
    {
      if literal[k] || ClosesParagraph(lines[k]) {
        openParagraph := false;
      } else {
        begins := begins[k := !openParagraph];
        openParagraph := true;
      }
    }
  }

  /** `any(container[chunk:index + 2])` for the chunk above `index`. */
  method MayBeContained(lines: seq<Line>, container: seq<bool>, index: nat) returns (contained: bool)
    requires index + 1 < |lines|
    requires |container| == |lines| && forall i :: 0 <= i < |lines| ==> container[i] == InContainer(lines, i)
    ensures contained == Contained(lines, index)
  {
    var chunk: nat := index;
    while chunk > 0 && lines[chunk - 1].facts.visible
      invariant chunk <= index && ChunkStart(lines, chunk) == ChunkStart(lines, index)
    {
      chunk := chunk - 1;
    }
    contained := exists k :: chunk <= k < index + 2 && container[k];
  }

  ghost predicate Collected(lines: seq<Line>, spans: seq<Span>, tables: seq<Table>) {
    && |tables| == |spans|
    && forall k :: 0 <= k < |spans| ==> Fits(lines, spans[k]) && tables[k] == TableAt(lines, spans[k])
  }

  lemma Collect(lines: seq<Line>, spans: seq<Span>, tables: seq<Table>, s: Span)
    requires Collected(lines, spans, tables) && Fits(lines, s)
    ensures Collected(lines, spans + [s], tables + [TableAt(lines, s)])
  {
  }

  lemma ScanStep(lines: seq<Line>, interrupting: bool, i: nat, burned: bool, done: seq<Span>)
    requires i + 1 < |lines|
    ensures MoveAt(lines, interrupting, i, burned).Advance? ==>
      Scan(lines, interrupting, i, burned)
          == Scan(lines, interrupting, i + 1, MoveAt(lines, interrupting, i, burned).burned)
    ensures MoveAt(lines, interrupting, i, burned).Accept? ==>
      var end := MoveAt(lines, interrupting, i, burned).end;
      i + 2 <= end <= |lines| && done + Scan(lines, interrupting, i, burned)
          == (done + [Span(i, end)]) + Scan(lines, interrupting, end, false)
  {
    hide MoveAt, Literal, BodyEnd, IsBodyRow;
    MoveFacts(lines, interrupting, i, burned);
    if MoveAt(lines, interrupting, i, burned).Accept? {
      var end := MoveAt(lines, interrupting, i, burned).end;
      Associative(done, [Span(i, end)], Scan(lines, interrupting, end, false));
    }
  }

  /** The tests of one turn of the main loop, in the order the source makes them. */
  method Attempt(lines: seq<Line>, literal: seq<bool>, container: seq<bool>, begins: seq<bool>,
                 interrupting: bool, index: nat, burned: bool) returns (move: Move)
    requires index + 1 < |lines|
    requires |literal| == |lines| && forall i :: 0 <= i < |lines| ==> literal[i] == Literal(lines, i)
    requires |container| == |lines| && forall i :: 0 <= i < |lines| ==> container[i] == InContainer(lines, i)
    requires |begins| == |lines| && forall i :: 0 <= i < |lines| ==> begins[i] == BeginsParagraph(lines, i)
    ensures move == MoveAt(lines, interrupting, index, burned)
  {
    hide Literal, ClosesParagraph, EndsTable, SplitCells, IsDelimiterRow, InContainer, Contained, BodyEnd;
    if literal[index] || ClosesParagraph(lines[index]) { return Advance(false); }
    var headerCells := SplitRow(lines[index].text);
    var delimiterCells := SplitRow(lines[index + 1].text);
    var underlinesHeading := index > 0 && lines[index].facts.setext && !EndsTable(lines[index - 1]);
    var delimits := IsDelimiterRow(delimiterCells) && !literal[index + 1]
      && !EndsTable(lines[index + 1]) && !lines[index + 1].facts.setext;
    if underlinesHeading || !delimits { return Advance(burned); }
    if headerCells == [] || |delimiterCells| != |headerCells| { return Advance(true); }
    var contained := MayBeContained(lines, container, index);
    if burned || !(interrupting || begins[index]) || contained { return Advance(burned); }
    var end := ExtendBody(lines, index + 2);
    move := Accept(end);
  }

  lemma CollectNone(lines: seq<Line>, interrupting: bool)
    ensures Collected(lines, [], [])
    ensures [] + Scan(lines, interrupting, 0, false) == Spans(lines, interrupting)
    ensures Ordered(lines, 0, Spans(lines, interrupting))
  {
    ScanOrdered(lines, interrupting, 0, false);
  }

  lemma CollectAll(lines: seq<Line>, interrupting: bool, index: nat, burned: bool, done: seq<Span>, tables: seq<Table>)
    requires index + 1 >= |lines|
    requires done + Scan(lines, interrupting, index, burned) == Spans(lines, interrupting)
    requires Collected(lines, done, tables)
    requires Ordered(lines, 0, Spans(lines, interrupting))
    ensures tables == TablesAt(lines, Spans(lines, interrupting))
  {
    hide TableAt, Spans;
    assert done + [] == done;
  }

  /** `find_tables`. */
  method FindTables(lines: seq<Line>, interrupting: bool) returns (tables: seq<Table>)
    ensures Ordered(lines, 0, Spans(lines, interrupting))
    ensures tables == TablesAt(lines, Spans(lines, interrupting))
  {
    hide Scan, Spans, Ordered, TablesAt, Collected, TableAt, MoveAt, Literal, InContainer, BeginsParagraph;
    var literal := LiteralLines(lines);
    var container := Containers(lines);
    var begins := ParagraphStarts(lines, literal);
    CollectNone(lines, interrupting);
    tables := [];
    var index := 0;
    var burned := false;
    ghost var done: seq<Span> := [];
    while index + 1 < |lines|
      invariant done + Scan(lines, interrupting, index, burned) == Spans(lines, interrupting)
      invariant Collected(lines, done, tables)
      decreases |lines| - index
    {
      ScanStep(lines, interrupting, index, burned, done);
      var move := Attempt(lines, literal, container, begins, interrupting, index, burned);
      match move {
        case Advance(b) =>
          burned := b;
          index := index + 1;
        case Accept(end) =>
          Collect(lines, done, tables, Span(index, end));
          tables := tables + [TableAt(lines, Span(index, end))];
          done := done + [Span(index, end)];
          burned := false;
          index := end;
      }
    }
    CollectAll(lines, interrupting, index, burned, done, tables);
  }

  /** Body rows follow until a line that ends the table or declares no cell. */
  method ExtendBody(lines: seq<Line>, from: nat) returns (end: nat)
    requires from <= |lines|
    ensures end == BodyEnd(lines, from)
  {
    end := from;
    while end < |lines| && !EndsTable(lines[end]) && SplitCells(lines[end].text) != []
      invariant from <= end <= |lines| && BodyEnd(lines, end) == BodyEnd(lines, from)
    {
      end := end + 1;
    }
  }

  // ---------------------------------------------------------------- main results

  lemma {:induction false} BodyEndUnique(lines: seq<Line>, from: nat, later: nat)
    requires from <= later <= |lines| && later <= BodyEnd(lines, from)
    ensures BodyEnd(lines, later) == BodyEnd(lines, from)
    decreases later - from
  {
    if from < later {
      assert IsBodyRow(lines[from]);
      BodyEndUnique(lines, from + 1, later);
    }
  }

  /** At one line the two scans differ only in that the interrupting one accepts more. */
  lemma MovesCompare(lines: seq<Line>, i: nat, strict: bool, loose: bool)
    requires i + 1 < |lines| && (loose ==> strict)
    ensures var m, n := MoveAt(lines, false, i, strict), MoveAt(lines, true, i, loose);
      && (m.Accept? ==> n == m)
      && (n.Advance? ==> m.Advance? && (n.burned ==> m.burned))
  {
  }

  lemma AcceptedInBody(lines: seq<Line>, from: nat, j: nat)
    requires from <= j + 1 < |lines| && j < BodyEnd(lines, from) && IsBodyRow(lines[j + 1])
    ensures BodyEnd(lines, j + 2) == BodyEnd(lines, from)
  {
    BodyEndUnique(lines, from, j + 1);
    BodyEndUnique(lines, from, j + 2);
  }

  /** A strict scan started inside a body that ends at `e` finds tables that end at
      `e`, or passes `e` exactly. */
  lemma {:induction false} StrictInsideBody(lines: seq<Line>, from: nat, e: nat, j: nat, burned: bool, s: Span)
      returns (after: bool)
    requires from <= |lines| && e == BodyEnd(lines, from) && from <= j + 1 <= e + 1
    requires s in Scan(lines, false, j, burned)
    ensures (s.end == e && s.start >= j) || s in Scan(lines, false, e, after)
    decreases e - j
  {
    hide MoveAt, Literal, IsBodyRow, BodyEnd;
    after := burned;
    if j < e {
      MoveFacts(lines, false, j, burned);
      match MoveAt(lines, false, j, burned) {
        case Advance(b) =>
          after := StrictInsideBody(lines, from, e, j + 1, b, s);
        case Accept(f) =>
          AcceptedInBody(lines, from, j);
          after := false;
      }
    }
  }

  /** Every table of a strict scan is a table of the interrupting scan or a tail of
      one that ends on the same line. */
  lemma {:induction false} StrictWithinInterrupting(lines: seq<Line>, i: nat, strict: bool, loose: bool,
      s: Span) returns (t: Span)
    requires loose ==> strict
    requires s in Scan(lines, false, i, strict)
    ensures t in Scan(lines, true, i, loose) && t.end == s.end && t.start <= s.start
    decreases |lines| - i
  {
    hide MoveAt, BodyEnd, IsBodyRow, Literal;
    MovesCompare(lines, i, strict, loose);
    MoveFacts(lines, true, i, loose);
    MoveFacts(lines, false, i, strict);
    var m, n := MoveAt(lines, false, i, strict), MoveAt(lines, true, i, loose);
    if m.Accept? {
      if s == Span(i, m.end) { t := s; } else { t := StrictWithinInterrupting(lines, m.end, false, false, s); }
    } else if n.Accept? {
      var after := StrictInsideBody(lines, i + 2, n.end, i + 1, m.burned, s);
      if s.end == n.end && s.start >= i + 1 {
        t := Span(i, n.end);
      } else {
        t := StrictWithinInterrupting(lines, n.end, after, false, s);
      }
    } else {
      t := StrictWithinInterrupting(lines, i + 1, m.burned, n.burned, s);
    }
  }

  predicate Covers(spans: seq<Span>, k: nat) { exists s :: s in spans && s.start <= k < s.end }

  /** Asking for interrupting tables never uncovers a line. */
  lemma InterruptingCoversMore(lines: seq<Line>, k: nat)
    requires Covers(Spans(lines, false), k)
    ensures Covers(Spans(lines, true), k)
  {
    var s :| s in Spans(lines, false) && s.start <= k < s.end;
    var t := StrictWithinInterrupting(lines, 0, false, false, s);
  }

  /** Every table found starts and ends where the conditions say. */
  lemma {:induction false} SpanFacts(lines: seq<Line>, interrupting: bool, i: nat, burned: bool, s: Span)
    requires s in Scan(lines, interrupting, i, burned)
    ensures Fits(lines, s) && s.end == BodyEnd(lines, s.start + 2)
    ensures !Literal(lines, s.start) && !Literal(lines, s.start + 1)
    decreases |lines| - i
  {
    hide MoveAt, Literal, BodyEnd, IsBodyRow;
    MoveFacts(lines, interrupting, i, burned);
    match MoveAt(lines, interrupting, i, burned) {
      case Advance(b) => SpanFacts(lines, interrupting, i + 1, b, s);
      case Accept(e) => if s != Span(i, e) { SpanFacts(lines, interrupting, e, false, s); }
    }
  }

  /** No line of a table is literal, although the body is extended without asking. */
  lemma {:induction false} NoLiteralRow(lines: seq<Line>, interrupting: bool, s: Span, k: nat)
    requires ConsistentLines(lines)
    requires s in Spans(lines, interrupting) && s.start <= k < s.end
    ensures k < |lines| && !Literal(lines, k)
  {
    hide Scan, Literal, SplitCells, EndsTable;
    SpanFacts(lines, interrupting, 0, false, s);
    if k >= s.start + 2 {
      NoLiteralRow(lines, interrupting, s, k - 1);
      assert IsBodyRow(lines[k]);
      if Literal(lines, k) { FirstLiteralEndsTable(lines, k); }
    }
  }

  lemma {:induction false} AcceptedStart(lines: seq<Line>, interrupting: bool, i: nat, burned: bool, s: Span)
    requires s in Scan(lines, interrupting, i, burned)
    ensures Fits(lines, s) && !Skipped(lines, s.start) && DelimitsTable(lines, s.start + 1)
    ensures interrupting || BeginsParagraph(lines, s.start)
    ensures !WidthsDiffer(lines, s.start) && !Contained(lines, s.start)
    decreases |lines| - i
  {
    hide Skipped, DelimitsTable, BeginsParagraph, BodyEnd, WidthsDiffer, Contained, UnderlinesHeading;
    match MoveAt(lines, interrupting, i, burned) {
      case Advance(b) => AcceptedStart(lines, interrupting, i + 1, b, s);
      case Accept(e) => if s != Span(i, e) { AcceptedStart(lines, interrupting, e, false, s); }
    }
  }

  predicate BelowUnderline(lines: seq<Line>, k: nat) { 0 < k <= |lines| && lines[k - 1].facts.setext }

  /** A strict table is itself a table of the interrupting scan unless it starts in
      the body of one; then the row above it is a setext underline, which closes a
      paragraph but continues a table body. */
  lemma LostInsideTable(lines: seq<Line>, s: Span)
    requires ConsistentLines(lines) && s in Spans(lines, false)
    ensures s in Spans(lines, true) <==> forall t :: t in Spans(lines, true) ==> !(t.start < s.start < t.end)
    ensures forall t :: t in Spans(lines, true) && t.start < s.start < t.end ==>
      t.end == s.end && t.start + 3 <= s.start && BelowUnderline(lines, s.start)
  {
    hide Scan;
    var t0 := StrictWithinInterrupting(lines, 0, false, false, s);
    SpanFacts(lines, false, 0, false, s);
    ScanOrdered(lines, true, 0, false);
    forall t | t in Spans(lines, true) && t.start < s.start < t.end
      ensures t == t0 && t.start + 3 <= s.start && BelowUnderline(lines, s.start)
    {
      Overlap(lines, t, t0, s.start);
      RowAboveLostTable(lines, s, t);
    }
    if s in Spans(lines, true) {
      forall t | t in Spans(lines, true) ensures !(t.start < s.start < t.end) {
        if t.start < s.start < t.end { Overlap(lines, t, s, s.start); }
      }
    }
  }

  lemma Overlap(lines: seq<Line>, t: Span, u: Span, k: nat)
    requires Ordered(lines, 0, Spans(lines, true))
    requires t in Spans(lines, true) && u in Spans(lines, true)
    requires t.start <= k < t.end && u.start <= k < u.end
    ensures t == u
  {
    hide Scan;
    var i :| 0 <= i < |Spans(lines, true)| && Spans(lines, true)[i] == t;
    var j :| 0 <= j < |Spans(lines, true)| && Spans(lines, true)[j] == u;
  }

  lemma RowAboveLostTable(lines: seq<Line>, s: Span, t: Span)
    requires ConsistentLines(lines)
    requires s in Spans(lines, false) && t in Spans(lines, true) && t.start < s.start < t.end
    ensures t.start + 3 <= s.start && BelowUnderline(lines, s.start)
  {
    hide Scan, SplitCells, Literal, EndsTable, ClosesParagraph;
    AcceptedStart(lines, false, 0, false, s);
    AcceptedStart(lines, true, 0, false, t);
    SpanFacts(lines, true, 0, false, t);
    NoLiteralRow(lines, true, t, s.start - 1);
    assert s.start - 1 >= t.start + 2 ==> IsBodyRow(lines[s.start - 1]);
    assert !EndsTable(lines[t.start + 1]) && !lines[t.start + 1].facts.setext;
    assert ClosesParagraph(lines[s.start - 1]);
    if s.start - 1 >= t.start + 1 { OnlySetextDiffers(lines[s.start - 1]); }
  }

  // ---------------------------------------------------------------- a table lost to an underline

  const ORDINARY := Facts(false, false, false, false, false, None, None, None, None, {}, false, false, false,
      true, false)

  /** `p`, a one-column table, an underline that continues its body, and a second
      header with its delimiter. */
  const UNDERLINED: seq<Line> := [
    Line(0, 2, "p", ORDINARY),
    Line(2, 4, "h", ORDINARY),
    Line(4, 7, ":-", ORDINARY),
    Line(7, 11, "===", ORDINARY.(setext := true)),
    Line(11, 13, "h", ORDINARY),
    Line(13, 16, ":-", ORDINARY)]

  lemma OneCell(text: string)
    requires text != [] && text[0] !in " \t|" && text[|text| - 1] !in " \t|"
    requires forall k :: 0 <= k < |text| ==> text[k] != '|'
    ensures SplitCells(text) == [text] && Strip(text) == text && IndentWidth(text) == 0
  {
    NoPipes(text, 0);
  }

  lemma {:induction false} NoPipes(text: string, k: nat)
    requires forall k :: 0 <= k < |text| ==> text[k] != '|'
    ensures PipesFrom(text, k) == []
    decreases |text| - k
  {
    if k < |text| { NoPipes(text, k + 1); }
  }

  lemma DelimiterText()
    ensures IsDelimiterRow([":-"]) && !IsDelimiterRow(["==="]) && !IsDelimiterRow(["h"]) && !IsDelimiterRow(["p"])
  {
    assert ":-"[1..] == "-" && "-"[1..] == "";
    assert IsDelimiterCell(":-");
    assert !IsDelimiterCell(["==="][0]) && !IsDelimiterCell(["h"][0]) && !IsDelimiterCell(["p"][0]);
  }

  /** What the model says of each of the six lines. */
  predicate AsExpected(i: nat)
    requires i < 6
  {
    var l := UNDERLINED[i];
    && SplitCells(l.text) == [l.text] && !EndsTable(l) && (ClosesParagraph(l) <==> i == 3)
    && !Literal(UNDERLINED, i) && !InContainer(UNDERLINED, i)
  }

  lemma {:induction false} LineAsExpected(i: nat)
    requires i < 6
    ensures AsExpected(i)
  {
    hide SplitCells, Strip, IndentWidth;
    OneCell(UNDERLINED[i].text);
    NoRegions(i);
    hide Literal, InContainer;
  }

  lemma {:induction false} NoRegions(i: nat)
    requires i < 6
    ensures !Inside(RegionBefore(UNDERLINED, i)) && !Literal(UNDERLINED, i) && !InContainer(UNDERLINED, i)
  {
    hide ContinuesParagraph, NextTable;
    assert UNDERLINED[i].facts == ORDINARY || UNDERLINED[i].facts == ORDINARY.(setext := true);
    if i > 0 {
      NoRegions(i - 1);
    }
  }

  lemma NextMove(lines: seq<Line>, interrupting: bool, i: nat)
    requires i + 1 < |lines|
    ensures MoveAt(lines, interrupting, i, false) == Advance(false) ==>
      Scan(lines, interrupting, i, false) == Scan(lines, interrupting, i + 1, false)
    ensures MoveAt(lines, interrupting, i, false) == Accept(|lines|) ==>
      Scan(lines, interrupting, i, false) == [Span(i, |lines|)]
  {
    hide MoveAt;
  }

  lemma MovesAsExpected()
    ensures MoveAt(UNDERLINED, false, 4, false) == MoveAt(UNDERLINED, true, 1, false) == Accept(6)
    ensures forall i :: 0 <= i < 4 ==> MoveAt(UNDERLINED, false, i, false) == Advance(false)
    ensures MoveAt(UNDERLINED, true, 0, false) == Advance(false)
  {
    hide Literal, SplitCells, EndsTable, ClosesParagraph, InContainer, IsDelimiterRow;
    forall i: nat | i < 6 ensures AsExpected(i) { LineAsExpected(i); }
    DelimiterText();
    var ls := UNDERLINED;
    assert AsExpected(0) && AsExpected(1) && AsExpected(2) && AsExpected(3) && AsExpected(4) && AsExpected(5);
    assert forall i :: 0 <= i < 5 ==> !Contained(ls, i) by {
      assert forall i :: 0 <= i < 6 ==> AsExpected(i) ==> !InContainer(ls, i);
    }
    assert BodyEnd(ls, 6) == 6 && BodyEnd(ls, 3) == 6;
  }

  /** Plain inclusion of the strict tables fails. */
  lemma StrictTableLost()
    ensures Spans(UNDERLINED, false) == [Span(4, 6)] && Spans(UNDERLINED, true) == [Span(1, 6)]
  {
    hide MoveAt, Scan;
    MovesAsExpected();
    NextMove(UNDERLINED, false, 0);
    NextMove(UNDERLINED, false, 1);
    NextMove(UNDERLINED, false, 2);
    NextMove(UNDERLINED, false, 3);
    NextMove(UNDERLINED, false, 4);
    NextMove(UNDERLINED, true, 0);
    NextMove(UNDERLINED, true, 1);
  }
}
