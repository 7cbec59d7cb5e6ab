/** The physical lines of a text, and the index of cell and row separators built on
    its tables (scripts/gfm_table.py `_lines`, scripts/check_verity_provenance.py
    `_table_separators` and `_separator_in`). */
module TableSeparators {
  import opened Sequences
  import opened GfmCells
  import opened GfmLines
  import opened GfmTables

  // ---------------------------------------------------------------- lines

  /** The line boundaries `str.splitlines` recognises besides CR LF. */
  predicate IsLineBreak(c: char) {
    c in ['\n', '\r', '\U{0B}', '\U{0C}', '\U{1C}', '\U{1D}', '\U{1E}', '\U{85}', '\U{2028}', '\U{2029}']
  }

  /** Length of the line that starts `text`, its terminator included. */
  function LineLength(text: string): (n: nat)
    ensures n <= |text| && (text != [] ==> n > 0)
  {
    if text == [] then 0
    else if text[0] == '\r' && |text| > 1 && text[1] == '\n' then 2
    else if IsLineBreak(text[0]) then 1
    else 1 + LineLength(text[1..])
  }

  /** `raw.rstrip("\n").rstrip("\r")`. */
  function Unterminated(raw: string): (line: string)
    ensures line <= raw
    ensures |line| == |raw| || raw[|raw| - 1] in "\r\n"
  {
    var s := TrimRight(raw, '\n');
    TrimRight(s, '\r')
  }

  function TrimRight(s: string, c: char): (r: string)
    ensures r <= s && (|r| < |s| ==> s[|s| - 1] == c)
  {
    if s != [] && s[|s| - 1] == c then TrimRight(s[..|s| - 1], c) else s
  }

  /** The verdicts of the patterns, as a function of the text of a line. */
  type Recognizer = string -> Facts

  ghost predicate LineText(text: string, l: Line) {
    l.start <= l.end <= |text| && l.text <= text[l.start..l.end]
    && (|l.text| < l.end - l.start ==> text[l.end - 1] in "\r\n")
  }

  /** The line that starts at `offset`. */
  function LineAt(text: string, offset: nat, facts: Recognizer): (l: Line)
    requires offset < |text|
    ensures l.start == offset < l.end <= |text| && LineText(text, l)
  {
    var n := LineLength(text[offset..]);
    var raw := text[offset..offset + n];
    assert raw[|raw| - 1] == text[offset + n - 1];
    Line(offset, offset + n, Unterminated(raw), facts(Unterminated(raw)))
  }

  function LinesFrom(text: string, offset: nat, facts: Recognizer): seq<Line>
    requires offset <= |text|
    decreases |text| - offset
  {
    if offset == |text| then []
    else
      var l := LineAt(text, offset, facts);
      [l] + LinesFrom(text, l.end, facts)
  }

  function LinesOf(text: string, facts: Recognizer): seq<Line> { LinesFrom(text, 0, facts) }

  /** `_lines`. */
  method Lines(text: string, facts: Recognizer) returns (rows: seq<Line>)
    ensures rows == LinesOf(text, facts)
  {
    rows := [];
    var offset := 0;
    while offset < |text|
      invariant offset <= |text|
      invariant rows + LinesFrom(text, offset, facts) == LinesOf(text, facts)
    {
      var row := LineAt(text, offset, facts);
      Associative(rows, [row], LinesFrom(text, row.end, facts));
      rows := rows + [row];
      offset := row.end;
    }
    assert rows + [] == rows;
  }

  /** Lines partition `text` from `offset` on and agree with its characters. */
  ghost predicate Partition(text: string, offset: nat, lines: seq<Line>) {
    && (lines == [] ==> offset == |text|)
    && (lines != [] ==> lines[0].start == offset && lines[|lines| - 1].end == |text|)
    && (forall i :: 0 <= i < |lines| ==> lines[i].start < lines[i].end <= |text|)
    && (forall i :: 0 < i < |lines| ==> lines[i - 1].end == lines[i].start)
    && (forall i :: 0 <= i < |lines| ==> LineText(text, lines[i]))
  }

  lemma {:induction false} LinesPartition(text: string, offset: nat, facts: Recognizer)
    requires offset <= |text|
    ensures Partition(text, offset, LinesFrom(text, offset, facts))
    decreases |text| - offset
  {
    hide LineText, LineAt, Partition;
    if offset < |text| {
      var l := LineAt(text, offset, facts);
      LinesPartition(text, l.end, facts);
      Prepend(text, l, LinesFrom(text, l.end, facts));
    } else {
      EmptyPartition(text);
    }
  }

  lemma EmptyPartition(text: string)
    ensures Partition(text, |text|, [])
  {
  }

  lemma Prepend(text: string, first: Line, rest: seq<Line>)
    requires first.start < first.end <= |text| && LineText(text, first) && Partition(text, first.end, rest)
    ensures Partition(text, first.start, [first] + rest)
  {
    var all := [first] + rest;
    forall i | 0 < i < |all| ensures all[i - 1].end == all[i].start {
      assert i > 1 ==> rest[i - 2].end == rest[i - 1].start;
    }
  }

  lemma {:induction false} LinesAscend(text: string, offset: nat, lines: seq<Line>, i: nat, j: nat)
    requires Partition(text, offset, lines) && i < j < |lines|
    ensures lines[i].end <= lines[j].start
    decreases j - i
  {
    assert lines[j - 1].end == lines[j].start;
    if i + 1 < j { LinesAscend(text, offset, lines, i, j - 1); }
  }

  // ---------------------------------------------------------------- separators

  function Shifted(pipes: seq<nat>, base: nat): (r: seq<nat>)
    ensures |r| == |pipes| && forall i :: 0 <= i < |r| ==> r[i] == base + pipes[i]
  {
    seq(|pipes|, i requires 0 <= i < |pipes| => base + pipes[i])
  }

  /** The cell separators of a row, then the end of its line if it has one. */
  function RowSeparators(r: Row): seq<nat> {
    Shifted(UnescapedPipes(r.text), r.start) +
    (if r.end > r.start + |r.text| then [r.end - 1] else [])
  }

  function AllSeparators(rows: seq<Row>): seq<nat> {
    if rows == [] then [] else RowSeparators(rows[0]) + AllSeparators(rows[1..])
  }

  function TableRows(t: Table): seq<Row> { [t.header, t.delimiter] + t.rows }

  function Flatten(tables: seq<Table>): seq<Row> {
    if tables == [] then [] else TableRows(tables[0]) + Flatten(tables[1..])
  }

  lemma {:induction false} SeparatorsAppend(a: seq<Row>, b: seq<Row>)
    ensures AllSeparators(a + b) == AllSeparators(a) + AllSeparators(b)
  {
    if a == [] {
      assert a + b == b;
    } else {
      assert (a + b)[1..] == a[1..] + b;
      SeparatorsAppend(a[1..], b);
    }
  }

  /** `_table_separators`. */
  method Separators(lines: seq<Line>) returns (separators: seq<nat>)
    ensures Ordered(lines, 0, Spans(lines, true))
    ensures separators == AllSeparators(Flatten(TablesAt(lines, Spans(lines, true))))
  {
    hide Scan, RowSeparators, TableAt, TableRows;
    var tables := FindTables(lines, true);
    separators := [];
    var rest := tables;
    while rest != []
      invariant separators + AllSeparators(Flatten(rest)) == AllSeparators(Flatten(tables))
      decreases |rest|
    {
      SeparatorsAppend(TableRows(rest[0]), Flatten(rest[1..]));
      Associative(separators, AllSeparators(TableRows(rest[0])), AllSeparators(Flatten(rest[1..])));
      separators := ExtendBy(separators, TableRows(rest[0]));
      rest := rest[1..];
    }
    assert separators + [] == separators;
  }

  method ExtendBy(before: seq<nat>, rows: seq<Row>) returns (separators: seq<nat>)
    ensures separators == before + AllSeparators(rows)
  {
    hide RowSeparators;
    separators := before;
    var rest := rows;
    while rest != []
      invariant separators + AllSeparators(rest) == before + AllSeparators(rows)
      decreases |rest|
    {
      Associative(separators, RowSeparators(rest[0]), AllSeparators(rest[1..]));
      separators := separators + RowSeparators(rest[0]);
      rest := rest[1..];
    }
    assert separators + [] == separators;
  }

  predicate Ascending(ns: seq<nat>) { forall i, j :: 0 <= i < j < |ns| ==> ns[i] < ns[j] }

  predicate Within(ns: seq<nat>, low: nat, high: nat) { forall i :: 0 <= i < |ns| ==> low <= ns[i] < high }

  lemma RowSeparatorsAscend(r: Row)
    requires r.start + |r.text| <= r.end
    ensures Ascending(RowSeparators(r)) && Within(RowSeparators(r), r.start, r.end)
  {
    PipesFromCut(r.text, 0);
  }

  /** Rows that come one after another in the text. */
  predicate Chained(rows: seq<Row>) {
    && (forall i :: 0 <= i < |rows| ==> rows[i].start + |rows[i].text| <= rows[i].end)
    && (forall i, j :: 0 <= i < j < |rows| ==> rows[i].end <= rows[j].start)
  }

  lemma {:induction false} AllSeparatorsAscend(rows: seq<Row>, low: nat, high: nat)
    requires Chained(rows) && forall i :: 0 <= i < |rows| ==> low <= rows[i].start && rows[i].end <= high
    ensures Ascending(AllSeparators(rows)) && Within(AllSeparators(rows), low, high)
  {
    if rows != [] {
      RowSeparatorsAscend(rows[0]);
      AllSeparatorsAscend(rows[1..], rows[0].end, high);
    }
  }

  lemma {:induction false} AllSeparatorsMember(rows: seq<Row>, p: nat)
    ensures p in AllSeparators(rows) <==> exists i :: 0 <= i < |rows| && p in RowSeparators(rows[i])
  {
    hide RowSeparators;
    if rows != [] {
      AllSeparatorsMember(rows[1..], p);
      assert forall i :: 0 < i < |rows| ==> rows[i] == rows[1..][i - 1];
      if p in AllSeparators(rows[1..]) {
        var i :| 0 <= i < |rows[1..]| && p in RowSeparators(rows[1..][i]);
        assert rows[i + 1] == rows[1..][i];
      }
    }
  }

  lemma RowsOfTable(lines: seq<Line>, s: Span)
    requires Fits(lines, s)
    ensures TableRows(TableAt(lines, s)) == RowsOf(lines[s.start..s.end])
  {
  }

  /** `r` is the row of a line at or below `from`. */
  predicate RowFrom(lines: seq<Line>, from: nat, r: Row) {
    exists k :: from <= k < |lines| && r == RowOf(lines[k])
  }

  /** The rows of all tables are the covered lines, in order. */
  lemma {:induction false} FlattenedRows(text: string, lines: seq<Line>, from: nat, spans: seq<Span>)
    requires Partition(text, 0, lines) && Ordered(lines, from, spans)
    ensures Chained(Flatten(TablesAt(lines, spans)))
    ensures forall r :: r in Flatten(TablesAt(lines, spans)) ==> RowFrom(lines, from, r)
    decreases |spans|
  {
    hide Partition, Chained, RowOf, TableRows, TableAt;
    if spans != [] {
      var s := spans[0];
      assert TablesAt(lines, spans)[1..] == TablesAt(lines, spans[1..]);
      FlattenedRows(text, lines, s.end, spans[1..]);
      RowsOfTable(lines, s);
      ChainedSlice(text, lines, s.start, s.end);
      var rest := Flatten(TablesAt(lines, spans[1..]));
      forall x, y | x in RowsOf(lines[s.start..s.end]) && y in rest ensures x.end <= y.start {
        SliceMember(lines, s.start, s.end, x);
        RowsApart(text, lines, s, x, y);
      }
      ChainedAppend(RowsOf(lines[s.start..s.end]), rest);
      forall r | r in RowsOf(lines[s.start..s.end]) ensures RowFrom(lines, from, r) {
        SliceMember(lines, s.start, s.end, r);
      }
    } else {
      EmptyChain();
    }
  }

  lemma EmptyChain()
    ensures Chained([])
  {
  }

  lemma RowsApart(text: string, lines: seq<Line>, s: Span, x: Row, y: Row)
    requires Partition(text, 0, lines) && RowIn(lines, s, x) && RowFrom(lines, s.end, y)
    ensures x.end <= y.start
  {
    var i :| s.start <= i < s.end && i < |lines| && x == RowOf(lines[i]);
    var j :| s.end <= j < |lines| && y == RowOf(lines[j]);
    LinesAscend(text, 0, lines, i, j);
  }

  lemma LineFits(text: string, lines: seq<Line>, i: nat)
    requires Partition(text, 0, lines) && i < |lines|
    ensures lines[i].start + |lines[i].text| <= lines[i].end
  {
    assert LineText(text, lines[i]);
  }

  lemma ChainedSlice(text: string, lines: seq<Line>, a: nat, b: nat)
    requires Partition(text, 0, lines) && a <= b <= |lines|
    ensures Chained(RowsOf(lines[a..b]))
  {
    hide Partition;
    var rows := RowsOf(lines[a..b]);
    forall i | 0 <= i < |rows| ensures rows[i].start + |rows[i].text| <= rows[i].end {
      LineFits(text, lines, a + i);
    }
    forall i, j | 0 <= i < j < |rows| ensures rows[i].end <= rows[j].start {
      LinesAscend(text, 0, lines, a + i, a + j);
    }
  }

  lemma ChainedAppend(a: seq<Row>, b: seq<Row>)
    requires Chained(a) && Chained(b) && forall x, y :: x in a && y in b ==> x.end <= y.start
    ensures Chained(a + b)
  {
    var rows := a + b;
    forall i, j | 0 <= i < j < |rows| ensures rows[i].end <= rows[j].start {
      if i < |a| <= j { assert rows[i] in a && rows[j] in b; }
    }
  }

  predicate RowIn(lines: seq<Line>, s: Span, r: Row) {
    exists k :: s.start <= k < s.end && k < |lines| && r == RowOf(lines[k])
  }

  lemma {:induction false} FlattenedMembers(lines: seq<Line>, spans: seq<Span>, r: Row)
    requires forall k :: 0 <= k < |spans| ==> Fits(lines, spans[k])
    ensures r in Flatten(TablesAt(lines, spans)) <==> exists s :: s in spans && RowIn(lines, s, r)
  {
    hide RowIn, TableRows, TableAt;
    if spans != [] {
      var s := spans[0];
      assert TablesAt(lines, spans)[1..] == TablesAt(lines, spans[1..]);
      FlattenedMembers(lines, spans[1..], r);
      RowsOfTable(lines, s);
      SliceMember(lines, s.start, s.end, r);
      assert forall t :: t in spans <==> t == s || t in spans[1..];
    }
  }

  lemma SliceMember(lines: seq<Line>, a: nat, b: nat, r: Row)
    requires a <= b <= |lines|
    ensures r in RowsOf(lines[a..b]) <==> RowIn(lines, Span(a, b), r)
  {
    if r in RowsOf(lines[a..b]) {
      var i :| 0 <= i < b - a && RowsOf(lines[a..b])[i] == r;
      assert r == RowOf(lines[a + i]);
    }
    if RowIn(lines, Span(a, b), r) {
      var k :| a <= k < b && r == RowOf(lines[k]);
      assert RowsOf(lines[a..b])[k - a] == r;
    }
  }

  // ---------------------------------------------------------------- main results

  /** `p` separates cells or rows: it is an unescaped pipe of a line of a table, or
      the last character of that line's terminator. */
  predicate IsSeparator(lines: seq<Line>, p: nat) {
    exists s, k :: s in Spans(lines, true) && s.start <= k < s.end && k < |lines| && SeparatesIn(lines[k], p)
  }

  predicate SeparatesIn(l: Line, p: nat) {
    || (l.start <= p < l.start + |l.text| && Delimits(l.text, p - l.start))
    || (l.start + |l.text| < l.end && p == l.end - 1)
  }

  lemma RowSeparatorsExact(l: Line, p: nat)
    ensures p in RowSeparators(RowOf(l)) <==> SeparatesIn(l, p)
  {
    PipesFromSpec(l.text, 0);
    var pipes := UnescapedPipes(l.text);
    if SeparatesIn(l, p) && l.start <= p < l.start + |l.text| {
      assert p - l.start in pipes;
      var i :| 0 <= i < |pipes| && pipes[i] == p - l.start;
      assert Shifted(pipes, l.start)[i] == p;
    }
    if p in Shifted(pipes, l.start) {
      var i :| 0 <= i < |pipes| && Shifted(pipes, l.start)[i] == p;
      assert pipes[i] in pipes;
    }
  }

  function SeparatorIndex(lines: seq<Line>): seq<nat> {
    ScanOrdered(lines, true, 0, false);
    AllSeparators(Flatten(TablesAt(lines, Spans(lines, true))))
  }

  /** The index holds exactly the separators of the tables, in ascending order. */
  lemma SeparatorsExact(text: string, lines: seq<Line>)
    requires Partition(text, 0, lines)
    ensures Ascending(SeparatorIndex(lines))
    ensures forall p :: p in SeparatorIndex(lines) <==> IsSeparator(lines, p)
  {
    hide Scan, RowSeparators, SeparatesIn;
    ScanOrdered(lines, true, 0, false);
    var rows := Flatten(TablesAt(lines, Spans(lines, true)));
    IndexAscends(text, lines);
    forall p: nat ensures p in SeparatorIndex(lines) <==> IsSeparator(lines, p) {
      AllSeparatorsMember(rows, p);
      if p in SeparatorIndex(lines) {
        var i :| 0 <= i < |rows| && p in RowSeparators(rows[i]);
        FlattenedMembers(lines, Spans(lines, true), rows[i]);
        var s, k :| s in Spans(lines, true) && s.start <= k < s.end && k < |lines| && rows[i] == RowOf(lines[k]);
        RowSeparatorsExact(lines[k], p);
      }
      if IsSeparator(lines, p) {
        var s, k :| s in Spans(lines, true) && s.start <= k < s.end && k < |lines| && SeparatesIn(lines[k], p);
        RowSeparatorsExact(lines[k], p);
        FlattenedMembers(lines, Spans(lines, true), RowOf(lines[k]));
        assert RowIn(lines, s, RowOf(lines[k]));
      }
    }
  }

  lemma IndexAscends(text: string, lines: seq<Line>)
    requires Partition(text, 0, lines)
    ensures Ascending(SeparatorIndex(lines))
  {
    hide Scan, RowSeparators;
    ScanOrdered(lines, true, 0, false);
    var rows := Flatten(TablesAt(lines, Spans(lines, true)));
    FlattenedRows(text, lines, 0, Spans(lines, true));
    forall i | 0 <= i < |rows| ensures rows[i].end <= |text| {
      assert rows[i] in rows;
      var k :| 0 <= k < |lines| && rows[i] == RowOf(lines[k]);
    }
    AllSeparatorsAscend(rows, 0, |text|);
  }

  /** `bisect_left`: the first position whose element is at least `x`. */
  method BisectLeft(a: seq<nat>, x: nat) returns (lo: nat)
    requires Ascending(a)
    ensures lo <= |a|
    ensures forall i :: 0 <= i < lo ==> a[i] < x
    ensures forall i :: lo <= i < |a| ==> x <= a[i]
  {
    lo := 0;
    var hi := |a|;
    while lo < hi
      invariant lo <= hi <= |a|
      invariant forall i :: 0 <= i < lo ==> a[i] < x
      invariant forall i :: hi <= i < |a| ==> x <= a[i]
    {
      var mid := (lo + hi) / 2;
      if a[mid] < x { lo := mid + 1; } else { hi := mid; }
    }
  }

  /** `_separator_in`: the binary search agrees with a scan of `[low, high)`. */
  method SeparatorIn(separators: seq<nat>, low: nat, high: nat) returns (found: bool)
    requires Ascending(separators)
    ensures found <==> exists p :: p in separators && low <= p < high
  {
    var k := BisectLeft(separators, low);
    found := k < |separators| && separators[k] < high;
    assert found ==> separators[k] in separators;
  }

  /** The separators of the tables of a text. */
  method Index(text: string, facts: Recognizer) returns (separators: seq<nat>)
    ensures separators == SeparatorIndex(LinesOf(text, facts)) && Ascending(separators)
  {
    hide SeparatorIndex, IsSeparator, Partition;
    var lines := Lines(text, facts);
    LinesPartition(text, 0, facts);
    SeparatorsExact(text, lines);
    separators := Separators(lines);
    IsIndex(lines, separators);
  }

  lemma IsIndex(lines: seq<Line>, separators: seq<nat>)
    requires Ordered(lines, 0, Spans(lines, true))
    requires separators == AllSeparators(Flatten(TablesAt(lines, Spans(lines, true))))
    ensures separators == SeparatorIndex(lines)
  {
  }

  /** The whole query on a text: is there a separator of one of its tables between
      `low` and `high`? */
  method CrossesSeparator(text: string, facts: Recognizer, low: nat, high: nat) returns (found: bool)
    ensures found <==> exists p :: low <= p < high && IsSeparator(LinesOf(text, facts), p)
  {
    hide SeparatorIndex, IsSeparator, Partition;
    var separators := Index(text, facts);
    LinesPartition(text, 0, facts);
    SeparatorsExact(text, LinesOf(text, facts));
    found := SeparatorIn(separators, low, high);
  }
}
