/** Splitting a GFM table row into cells (scripts/gfm_table.py). */
module GfmCells {
  import opened Sequences

  const TAB_STOP := 4

  /** Columns of leading whitespace, tabs advancing to the next four-column stop. */
  function IndentFrom(line: string, width: nat): nat {
    if line == [] then width
    else if line[0] == ' ' then IndentFrom(line[1..], width + 1)
    else if line[0] == '\t' then IndentFrom(line[1..], width + TAB_STOP - width % TAB_STOP)
    else width
  }

  function IndentWidth(line: string): nat { IndentFrom(line, 0) }

  predicate IsBlankChar(c: char) { c == ' ' || c == '\t' }

  function StripLeft(s: string): string {
    if s != [] && IsBlankChar(s[0]) then StripLeft(s[1..]) else s
  }

  function StripRight(s: string): string {
    if s != [] && IsBlankChar(s[|s| - 1]) then StripRight(s[..|s| - 1]) else s
  }

  /** `line.strip(" \t")`. */
  function Strip(s: string): string { StripRight(StripLeft(s)) }

  /** A pipe written directly after a backslash is cell content. */
  predicate Delimits(line: string, k: nat)
    requires k < |line|
  {
    line[k] == '|' && (k == 0 || line[k - 1] != '\\')
  }

  function PipesFrom(line: string, k: nat): seq<nat>
    decreases |line| - k
  {
    if k >= |line| then []
    else if Delimits(line, k) then [k] + PipesFrom(line, k + 1)
    else PipesFrom(line, k + 1)
  }

  /** Offsets of the pipes that delimit cells. */
  function UnescapedPipes(line: string): seq<nat> { PipesFrom(line, 0) }

  /** Ascending positions in `line` from `start` on. */
  predicate Cuts(line: string, start: nat, pipes: seq<nat>) {
    && start <= |line|
    && (forall i :: 0 <= i < |pipes| ==> start <= pipes[i] < |line|)
    && (forall i, j :: 0 <= i < j < |pipes| ==> pipes[i] < pipes[j])
  }

  lemma {:induction false} PipesFromCut(line: string, k: nat)
    requires k <= |line|
    ensures Cuts(line, k, PipesFrom(line, k))
    decreases |line| - k
  {
    if k < |line| { PipesFromCut(line, k + 1); }
  }

  lemma {:induction false} PipesFromMembers(line: string, k: nat, p: nat)
    requires k <= |line|
    ensures p in PipesFrom(line, k) <==> k <= p < |line| && Delimits(line, p)
    decreases |line| - k
  {
    if k < |line| { PipesFromMembers(line, k + 1, p); }
  }

  lemma PipesFromSpec(line: string, k: nat)
    requires k <= |line|
    ensures forall p :: p in PipesFrom(line, k) <==> k <= p < |line| && Delimits(line, p)
    ensures Cuts(line, k, PipesFrom(line, k))
  {
    PipesFromCut(line, k);
    forall p: nat ensures p in PipesFrom(line, k) <==> k <= p < |line| && Delimits(line, p) {
      PipesFromMembers(line, k, p);
    }
  }

  /** The pieces between the given cut positions. */
  function Pieces(body: string, start: nat, pipes: seq<nat>): seq<string>
    requires Cuts(body, start, pipes)
    decreases |pipes|
  {
    if pipes == [] then [body[start..]]
    else [body[start..pipes[0]]] + Pieces(body, pipes[0] + 1, pipes[1..])
  }

  predicate EndsWithPipe(body: string) { |body| > 0 && Delimits(body, |body| - 1) }

  /** The text of a row between its optional outer pipes. */
  function Inner(line: string): string {
    var body := Strip(line);
    var rest := if body != [] && body[0] == '|' then body[1..] else body;
    if EndsWithPipe(rest) then rest[..|rest| - 1] else rest
  }

  predicate HoldsNoCell(line: string) {
    IndentWidth(line) >= 4 || Strip(line) == "" || Strip(line) == "|"
  }

  /** What `split_cells` returns. */
  function SplitCells(line: string): seq<string> {
    if HoldsNoCell(line) then []
    else if UnescapedPipes(Strip(line)) == [] then [Strip(line)]
    else
      PipesFromSpec(Inner(line), 0);
      Pieces(Inner(line), 0, UnescapedPipes(Inner(line)))
  }

  /** `split_cells`, cutting the body at one pipe after another. */
  method SplitRow(line: string) returns (cells: seq<string>)
    ensures cells == SplitCells(line)
  {
    if IndentWidth(line) >= 4 { return []; }
    var body := Strip(line);
    if body == "" || body == "|" { return []; }
    if UnescapedPipes(body) == [] { return [body]; }
    if body[0] == '|' { body := body[1..]; }
    if EndsWithPipe(body) { body := body[..|body| - 1]; }
    assert body == Inner(line);
    PipesFromSpec(body, 0);
    cells := CutAt(body, UnescapedPipes(body));
  }

  /** The cutting loop. */
  method CutAt(body: string, cuts: seq<nat>) returns (cells: seq<string>)
    requires Cuts(body, 0, cuts)
    ensures cells == Pieces(body, 0, cuts)
  {
    var pipes := cuts;
    cells := [];
    var start := 0;
    while pipes != []
      invariant Cuts(body, start, pipes)
      invariant cells + Pieces(body, start, pipes) == Pieces(body, 0, cuts)
      decreases |pipes|
    {
      var k := pipes[0];
      Associative(cells, [body[start..k]], Pieces(body, k + 1, pipes[1..]));
      cells := cells + [body[start..k]];
      start := k + 1;
      pipes := pipes[1..];
    }
    cells := cells + [body[start..]];
  }

  // ---------------------------------------------------------------- joining

  function JoinCells(cells: seq<string>): string {
    if cells == [] then "" else if |cells| == 1 then cells[0] else cells[0] + "|" + JoinCells(cells[1..])
  }

  lemma {:induction false} JoinPieces(body: string, start: nat, pipes: seq<nat>)
    requires Cuts(body, start, pipes) && forall i :: 0 <= i < |pipes| ==> body[pipes[i]] == '|'
    ensures JoinCells(Pieces(body, start, pipes)) == body[start..]
    decreases |pipes|
  {
    if pipes != [] {
      JoinPieces(body, pipes[0] + 1, pipes[1..]);
      var rest := Pieces(body, pipes[0] + 1, pipes[1..]);
      assert ([body[start..pipes[0]]] + rest)[1..] == rest;
      assert body[start..] == body[start..pipes[0]] + "|" + body[pipes[0] + 1..];
    }
  }

  /** Joining the cells of a line gives back its trimmed text without the optional
      outer pipes. */
  lemma JoinSplit(line: string)
    requires SplitCells(line) != []
    ensures JoinCells(SplitCells(line)) == if UnescapedPipes(Strip(line)) == [] then Strip(line) else Inner(line)
  {
    if UnescapedPipes(Strip(line)) != [] {
      var body := Inner(line);
      PipesFromSpec(body, 0);
      var pipes := UnescapedPipes(body);
      assert forall i :: 0 <= i < |pipes| ==> pipes[i] in pipes;
      JoinPieces(body, 0, pipes);
      assert body[0..] == body;
    }
  }

  /** A cell as an author writes it: every pipe escaped, no backslash at the end. */
  predicate PrintableCell(c: string) {
    && (forall k :: 0 <= k < |c| ==> !Delimits(c, k))
    && (c == "" || c[|c| - 1] != '\\')
  }

  predicate PrintableCells(cells: seq<string>) { forall i :: 0 <= i < |cells| ==> PrintableCell(cells[i]) }

  lemma {:induction false} NoPipeInCell(s: string, a: nat, k: nat, b: nat)
    requires a <= k <= b <= |s| && PrintableCell(s[a..b]) && (a == 0 || s[a - 1] == '|')
    ensures PipesFrom(s, k) == PipesFrom(s, b)
    decreases b - k
  {
    if k < b {
      assert !Delimits(s[a..b], k - a);
      assert s[k] == s[a..b][k - a];
      assert k > a ==> s[k - 1] == s[a..b][k - a - 1];
      NoPipeInCell(s, a, k + 1, b);
    }
  }

  /** Reading cells back from any position just after a pipe or at the start. */
  lemma {:induction false} ReadBack(s: string, a: nat, cells: seq<string>)
    requires cells != [] && PrintableCells(cells)
    requires a <= |s| && s[a..] == JoinCells(cells) && (a == 0 || s[a - 1] == '|')
    ensures Cuts(s, a, PipesFrom(s, a)) && Pieces(s, a, PipesFrom(s, a)) == cells
    decreases |cells|
  {
    hide Pieces, PipesFrom, Cuts;
    PipesFromCut(s, a);
    var b := a + |cells[0]|;
    assert s[a..b] == s[a..][..|cells[0]|] == cells[0];
    NoPipeInCell(s, a, a, b);
    if |cells| == 1 {
      assert s[a..] == cells[0];
      LastPiece(s, a);
    } else {
      NextCell(s, a, cells);
      ReadBack(s, b + 1, cells[1..]);
      PipeFound(s, b);
      FirstPiece(s, a, b, PipesFrom(s, b + 1));
    }
  }

  lemma LastPiece(s: string, a: nat)
    requires a <= |s| && PipesFrom(s, a) == PipesFrom(s, |s|)
    ensures Cuts(s, a, PipesFrom(s, a)) && Pieces(s, a, PipesFrom(s, a)) == [s[a..]]
  {
  }

  lemma PipeFound(s: string, b: nat)
    requires b < |s| && Delimits(s, b)
    ensures PipesFrom(s, b) == [b] + PipesFrom(s, b + 1)
  {
  }

  lemma FirstPiece(s: string, a: nat, b: nat, rest: seq<nat>)
    requires a <= b < |s| && Cuts(s, b + 1, rest) && Cuts(s, a, [b] + rest)
    ensures Pieces(s, a, [b] + rest) == [s[a..b]] + Pieces(s, b + 1, rest)
  {
    assert ([b] + rest)[1..] == rest;
  }

  lemma NextCell(s: string, a: nat, cells: seq<string>)
    requires |cells| > 1 && PrintableCells(cells)
    requires a <= |s| && s[a..] == JoinCells(cells) && (a == 0 || s[a - 1] == '|')
    ensures var b := a + |cells[0]|; b < |s| && Delimits(s, b) && s[b + 1..] == JoinCells(cells[1..])
  {
    var b := a + |cells[0]|;
    assert s[b] == s[a..][|cells[0]|] == '|';
    assert b > a ==> s[b - 1] == s[a..][|cells[0]| - 1] == cells[0][|cells[0]| - 1];
    assert s[b + 1..] == s[a..][|cells[0]| + 1..] == JoinCells(cells[1..]);
  }

  lemma StripKeeps(s: string)
    requires s != [] && !IsBlankChar(s[0]) && !IsBlankChar(s[|s| - 1])
    ensures Strip(s) == s
  {
  }

  /** Printing cells between outer pipes and splitting the line gives them back. */
  lemma SplitPrintedRow(cells: seq<string>)
    requires cells != [] && PrintableCells(cells)
    ensures SplitCells("|" + JoinCells(cells) + "|") == cells
  {
    var middle := JoinCells(cells);
    var line := "|" + middle + "|";
    StripKeeps(line);
    assert line[0] == '|' && line[1..] == middle + "|";
    PipesFromSpec(line, 0);
    assert Delimits(line, 0);
    JoinEnd(cells);
    assert EndsWithPipe(middle + "|");
    assert (middle + "|")[..|middle|] == middle;
    assert Inner(line) == middle;
    assert middle[0..] == middle;
    ReadBack(middle, 0, cells);
  }

  lemma {:induction false} JoinEnd(cells: seq<string>)
    requires cells != [] && PrintableCells(cells)
    ensures var s := JoinCells(cells); s == "" || s[|s| - 1] != '\\'
  {
    if |cells| > 1 { JoinEnd(cells[1..]); }
  }
}
