/**
  * The tables of a document said without the scan of `find_tables`
  * (scripts/gfm_table.py): which lines begin one, and which lie inside one.
  */
module GfmTablesExact {

  import opened GfmCells
  import opened GfmLines
  import opened GfmTables

  // ----- Conditions on the lines -------------------------------------------

  /** A delimiter row follows that does not fit the row above it. */
  predicate Misfit(lines: seq<Line>, i: nat) {
    && i + 1 < |lines|
    && !Skipped(lines, i) && !UnderlinesHeading(lines, i)
    && DelimitsTable(lines, i + 1) && WidthsDiffer(lines, i)
  }

  /** Header and delimiter fit, where a paragraph may be interrupted or begins, outside containers. */
  predicate Candidate(lines: seq<Line>, interrupting: bool, i: nat) {
    && i + 1 < |lines|
    && !Skipped(lines, i) && !UnderlinesHeading(lines, i)
    && DelimitsTable(lines, i + 1) && !WidthsDiffer(lines, i)
    && (interrupting || BeginsParagraph(lines, i)) && !Contained(lines, i)
  }

  /** A misfit above, outside tables, spoils the lines below it down to the paragraph's end. */
  predicate Burned(lines: seq<Line>, interrupting: bool, i: nat)
    decreases i, 0
  {
    && 0 < i <= |lines|
    && !Skipped(lines, i - 1)
    && (Burned(lines, interrupting, i - 1)
        || (Misfit(lines, i - 1) && !InTable(lines, interrupting, i - 1)))
  }

  predicate Begins(lines: seq<Line>, interrupting: bool, i: nat)
    decreases i, 1
  {
    Candidate(lines, interrupting, i) && !Burned(lines, interrupting, i)
  }

  /** Rows `from` up to and including `to` continue a table's body. */
  predicate BodyRows(lines: seq<Line>, from: nat, to: nat) {
    to < |lines| && forall k :: from <= k <= to ==> IsBodyRow(lines[k])
  }

  /** Below a line that begins a table, with nothing but its rows in between. */
  predicate InTable(lines: seq<Line>, interrupting: bool, i: nat)
    decreases i, 0
  {
    exists h :: 0 <= h < i && Begins(lines, interrupting, h) && BodyRows(lines, h + 2, i)
  }

  // ----- The scan finds just these -----------------------------------------

  /** What the scan has seen when it stands at line `i` with the flag `burned`. */
  ghost predicate Stands(lines: seq<Line>, interrupting: bool, i: nat, burned: bool) {
    && i <= |lines|
    && burned == Burned(lines, interrupting, i)
    && (i < |lines| ==> !InTable(lines, interrupting, i))
  }

  /** The delimiter of a table could itself continue a body. */
  lemma DelimiterIsRow(lines: seq<Line>, i: nat)
    requires i < |lines| && DelimitsTable(lines, i)
    ensures IsBodyRow(lines[i])
  {
  }

  lemma InsideFrom(lines: seq<Line>, interrupting: bool, h: nat, i: nat)
    requires h < i < |lines| && Begins(lines, interrupting, h) && BodyRows(lines, h + 2, i)
    ensures InTable(lines, interrupting, i)
  {
    hide Begins, BodyRows;
  }

  lemma FewerRows(lines: seq<Line>, from: nat, to: nat)
    requires to + 1 < |lines| && !BodyRows(lines, from, to)
    ensures !BodyRows(lines, from, to + 1)
  {
  }

  /** A line below one that is neither a header nor inside a table is not inside one. */
  lemma NotInsideBelow(lines: seq<Line>, interrupting: bool, i: nat)
    requires i + 1 < |lines| && !InTable(lines, interrupting, i) && !Begins(lines, interrupting, i)
    ensures !InTable(lines, interrupting, i + 1)
  {
    hide Begins, BodyRows;
    forall h | 0 <= h < i + 1 && Begins(lines, interrupting, h)
      ensures !BodyRows(lines, h + 2, i + 1)
    {
      assert h < i && !BodyRows(lines, h + 2, i);
      FewerRows(lines, h + 2, i);
    }
  }

  /** Where the scan advances, no table begins, and it goes on with the right flag. */
  lemma AdvanceStands(lines: seq<Line>, interrupting: bool, i: nat, burned: bool)
    requires i + 1 < |lines| && Stands(lines, interrupting, i, burned)
    requires MoveAt(lines, interrupting, i, burned).Advance?
    ensures !Begins(lines, interrupting, i)
    ensures Stands(lines, interrupting, i + 1, MoveAt(lines, interrupting, i, burned).burned)
  {
    hide InTable, Skipped, UnderlinesHeading, DelimitsTable, WidthsDiffer, Contained, BeginsParagraph;
    NotInsideBelow(lines, interrupting, i);
  }

  lemma AcceptBegins(lines: seq<Line>, interrupting: bool, i: nat, burned: bool)
    requires i + 1 < |lines| && Stands(lines, interrupting, i, burned)
    requires MoveAt(lines, interrupting, i, burned).Accept?
    ensures Begins(lines, interrupting, i) && DelimitsTable(lines, i + 1)
    ensures MoveAt(lines, interrupting, i, burned) == Accept(BodyEnd(lines, i + 2))
  {
    hide InTable, Skipped, UnderlinesHeading, DelimitsTable, WidthsDiffer, Contained, BeginsParagraph, BodyEnd;
  }

  /** No flag is raised inside a table. */
  lemma {:induction false} NotBurnedInside(lines: seq<Line>, interrupting: bool, i: nat, k: nat)
    requires i + 1 < |lines| && Begins(lines, interrupting, i)
    requires i <= k <= BodyEnd(lines, i + 2)
    ensures !Burned(lines, interrupting, k)
  {
    hide InTable, Skipped, UnderlinesHeading, DelimitsTable, WidthsDiffer, Contained, BeginsParagraph;
    if k > i {
      NotBurnedInside(lines, interrupting, i, k - 1);
      if k - 1 > i { InsideFrom(lines, interrupting, i, k - 1); }
    }
  }

  lemma AcceptStands(lines: seq<Line>, interrupting: bool, i: nat)
    requires i + 1 < |lines| && Begins(lines, interrupting, i)
    ensures Stands(lines, interrupting, BodyEnd(lines, i + 2), false)
  {
    var e := BodyEnd(lines, i + 2);
    NotBurnedInside(lines, interrupting, i, e);
    if e < |lines| { EndNotInside(lines, interrupting, i); }
  }

  lemma EndNotInside(lines: seq<Line>, interrupting: bool, i: nat)
    requires i + 1 < |lines| && Begins(lines, interrupting, i) && BodyEnd(lines, i + 2) < |lines|
    ensures !InTable(lines, interrupting, BodyEnd(lines, i + 2))
  {
    hide Begins, BodyRows, IsBodyRow, BodyEnd;
    var e := BodyEnd(lines, i + 2);
    forall h: nat | h < e && Begins(lines, interrupting, h) ensures !BodyRows(lines, h + 2, e) {
      if h + 1 == e { NotADelimiter(lines, interrupting, h); } else { NotARow(lines, h + 2, e); }
    }
  }

  lemma NotADelimiter(lines: seq<Line>, interrupting: bool, h: nat)
    requires Begins(lines, interrupting, h)
    ensures h + 1 < |lines| && IsBodyRow(lines[h + 1])
  {
    hide Burned, Skipped, UnderlinesHeading, WidthsDiffer, Contained, BeginsParagraph, IsBodyRow, DelimitsTable;
    DelimiterIsRow(lines, h + 1);
  }

  lemma NotARow(lines: seq<Line>, from: nat, to: nat)
    requires from <= to < |lines| && !IsBodyRow(lines[to])
    ensures !BodyRows(lines, from, to)
  {
    hide IsBodyRow;
  }

  /** From where it stands, the scan finds the tables that begin below, outside others. */
  lemma {:induction false} ScanExact(lines: seq<Line>, interrupting: bool, i: nat, burned: bool, s: Span)
    requires Stands(lines, interrupting, i, burned)
    ensures s in Scan(lines, interrupting, i, burned)
       <==> i <= s.start && IsTable(lines, interrupting, s)
    decreases |lines| - i
  {
    hide MoveAt, Stands, Begins, InTable, BodyEnd, BodyRows;
    if i + 1 < |lines| {
      match MoveAt(lines, interrupting, i, burned) {
        case Advance(b) =>
          AdvanceStands(lines, interrupting, i, burned);
          ScanExact(lines, interrupting, i + 1, b, s);
        case Accept(e) =>
          AcceptBegins(lines, interrupting, i, burned);
          AcceptStands(lines, interrupting, i);
          ScanExact(lines, interrupting, e, false, s);
          StandsOutside(lines, interrupting, i, burned);
          if i < s.start < e { RowsInside(lines, interrupting, i, s.start); }
      }
    }
  }

  lemma StandsOutside(lines: seq<Line>, interrupting: bool, i: nat, burned: bool)
    requires i < |lines| && Stands(lines, interrupting, i, burned)
    ensures !InTable(lines, interrupting, i)
  {
  }

  lemma RowsInside(lines: seq<Line>, interrupting: bool, i: nat, k: nat)
    requires i + 1 < |lines| && Begins(lines, interrupting, i) && i < k < BodyEnd(lines, i + 2)
    ensures InTable(lines, interrupting, k)
  {
    hide Begins, InTable;
    InsideFrom(lines, interrupting, i, k);
  }

  // ----- Main results ------------------------------------------------------

  /** A table begins at the span's start, outside other tables, and its rows end where the span does. */
  predicate IsTable(lines: seq<Line>, interrupting: bool, s: Span) {
    && s.start + 1 < |lines|
    && Begins(lines, interrupting, s.start) && !InTable(lines, interrupting, s.start)
    && s.end == BodyEnd(lines, s.start + 2)
  }

  /** The tables found in either mode are those the lines call for. */
  lemma TablesExactly(lines: seq<Line>, interrupting: bool, s: Span)
    ensures s in Spans(lines, interrupting) <==> IsTable(lines, interrupting, s)
  {
    hide Scan, IsTable;
    StartStands(lines, interrupting);
    ScanExact(lines, interrupting, 0, false, s);
  }

  lemma StartStands(lines: seq<Line>, interrupting: bool)
    ensures Stands(lines, interrupting, 0, false)
  {
  }

  /**
    * A strict table is lost to the interrupting scan if and only if three lines or more
    * above it an interrupting table begins whose rows run on past its header.
    */
  lemma StrictTableKept(lines: seq<Line>, s: Span)
    requires ConsistentLines(lines) && s in Spans(lines, false)
    ensures s in Spans(lines, true) <==> !InTable(lines, true, s.start)
    ensures s in Spans(lines, true)
       <==> !exists h :: 0 <= h && h + 3 <= s.start && Begins(lines, true, h) && BodyRows(lines, h + 2, s.start)
    ensures !BelowUnderline(lines, s.start) ==> s in Spans(lines, true)
  {
    hide Scan, Spans, Begins, BodyRows, InTable, BodyEnd;
    SpansAreScan(lines, false);
    SpansAreScan(lines, true);
    SpanFacts(lines, false, 0, false, s);
    var t := StrictWithinInterrupting(lines, 0, false, false, s);
    TablesExactly(lines, true, s);
    TablesExactly(lines, true, t);
    if t != s { RowsInside(lines, true, t.start, s.start); }
    LostInsideTable(lines, s);
    if InTable(lines, true, s.start) { NoNearHeader(lines, s); }
    NotNear(lines, s.start);
  }

  lemma SpansAreScan(lines: seq<Line>, interrupting: bool)
    ensures Spans(lines, interrupting) == Scan(lines, interrupting, 0, false)
  {
  }

  /** Any header that runs on past line `i` puts it inside a table. */
  lemma NotNear(lines: seq<Line>, i: nat)
    requires i < |lines|
    ensures (exists h :: 0 <= h && h + 3 <= i && Begins(lines, true, h) && BodyRows(lines, h + 2, i))
       ==> InTable(lines, true, i)
  {
    hide Begins, BodyRows;
  }

  /** What holds a lost table begins three lines or more above it. */
  lemma NoNearHeader(lines: seq<Line>, s: Span)
    requires ConsistentLines(lines) && s in Spans(lines, false) && s.start < |lines|
    requires InTable(lines, true, s.start)
    ensures exists h :: 0 <= h && h + 3 <= s.start && Begins(lines, true, h) && BodyRows(lines, h + 2, s.start)
  {
    hide Scan, Spans, Burned, Contained, WidthsDiffer, UnderlinesHeading;
    SpansAreScan(lines, false);
    AcceptedStart(lines, false, 0, false, s);
    var h :| 0 <= h < s.start && Begins(lines, true, h) && BodyRows(lines, h + 2, s.start);
    NearHeader(lines, h, s.start);
  }

  /** No paragraph begins on a table's delimiter row, nor right below it. */
  lemma NearHeader(lines: seq<Line>, h: nat, i: nat)
    requires ConsistentLines(lines) && h < i < |lines| && Begins(lines, true, h)
    requires BeginsParagraph(lines, i)
    ensures h + 3 <= i
  {
    hide Burned, Contained, WidthsDiffer, UnderlinesHeading, Literal, SplitCells, EndsTable, ClosesParagraph;
    assert !Skipped(lines, h) && DelimitsTable(lines, h + 1);
    if i == h + 2 && ClosesParagraph(lines[h + 1]) { OnlySetextDiffers(lines[h + 1]); }
  }

  /** Where no strict header stands right below a setext underline, every strict table is kept. */
  lemma StrictTablesKept(lines: seq<Line>)
    requires ConsistentLines(lines)
    requires forall i :: 0 < i < |lines| && lines[i - 1].facts.setext ==> !Candidate(lines, false, i)
    ensures forall s :: s in Spans(lines, false) ==> s in Spans(lines, true)
  {
    hide Spans, Candidate, InTable;
    forall s | s in Spans(lines, false) ensures s in Spans(lines, true) {
      TablesExactly(lines, false, s);
      StrictTableKept(lines, s);
      assert Candidate(lines, false, s.start);
    }
  }
}
