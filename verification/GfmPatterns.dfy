/**
  * The delimiter cells of a table as their pattern is written (scripts/gfm_table.py), and
  * the trimming and indent of a line, said without their scans.
  */
module GfmPatterns {

  import opened Sequences
  import opened GfmCells
  import opened GfmLines

  // ----- Blanks ------------------------------------------------------------

  /** Spaces and tabs only. */
  predicate Blanks(s: string) {
    forall i :: 0 <= i < |s| ==> s[i] == ' ' || s[i] == '\t'
  }

  lemma OneMoreLeft(s: string, a: string, rest: string)
    requires s != [] && IsBlankChar(s[0]) && Blanks(a) && s[1..] == a + rest
    ensures Blanks([s[0]] + a) && s == ([s[0]] + a) + rest
  {
    assert s == [s[0]] + s[1..];
    Associative([s[0]], a, rest);
  }

  lemma {:induction false} LeftExactly(s: string) returns (a: string)
    ensures Blanks(a) && s == a + StripLeft(s)
    ensures StripLeft(s) != [] ==> StripLeft(s)[0] != ' ' && StripLeft(s)[0] != '\t'
  {
    hide Blanks;
    if s != [] && IsBlankChar(s[0]) {
      var more := LeftExactly(s[1..]);
      OneMoreLeft(s, more, StripLeft(s[1..]));
      a := [s[0]] + more;
    } else {
      a := [];
      assert Blanks([]) by { NoBlanks(); }
    }
  }

  lemma NoBlanks()
    ensures Blanks([])
  {
  }

  /** Blanks in front are dropped, and only they. */
  lemma {:induction false} LeftOf(a: string, s: string)
    requires Blanks(a) && (s != [] ==> s[0] != ' ' && s[0] != '\t')
    ensures StripLeft(a + s) == s
  {
    if a == [] {
      assert a + s == s;
    } else {
      assert (a + s)[1..] == a[1..] + s;
      LeftOf(a[1..], s);
    }
  }

  lemma OneMoreRight(s: string, rest: string, b: string)
    requires s != [] && IsBlankChar(s[|s| - 1]) && Blanks(b) && s[..|s| - 1] == rest + b
    ensures Blanks(b + [s[|s| - 1]]) && s == rest + (b + [s[|s| - 1]])
  {
    assert s == s[..|s| - 1] + [s[|s| - 1]];
    Associative(rest, b, [s[|s| - 1]]);
  }

  lemma {:induction false} RightExactly(s: string) returns (b: string)
    ensures Blanks(b) && s == StripRight(s) + b
    ensures StripRight(s) != [] ==>
              StripRight(s)[|StripRight(s)| - 1] != ' ' && StripRight(s)[|StripRight(s)| - 1] != '\t'
  {
    hide Blanks;
    if s != [] && IsBlankChar(s[|s| - 1]) {
      var more := RightExactly(s[..|s| - 1]);
      OneMoreRight(s, StripRight(s[..|s| - 1]), more);
      b := more + [s[|s| - 1]];
    } else {
      b := [];
      assert Blanks([]) by { NoBlanks(); }
      assert s == s + [];
    }
  }

  lemma {:induction false} RightOf(s: string, b: string)
    requires Blanks(b) && (s != [] ==> s[|s| - 1] != ' ' && s[|s| - 1] != '\t')
    ensures StripRight(s + b) == s
  {
    if b == [] {
      assert s + b == s;
    } else {
      var t := s + b;
      assert t[..|t| - 1] == s + b[..|b| - 1];
      RightOf(s, b[..|b| - 1]);
    }
  }

  /** A text between blanks, without any at its own ends. */
  ghost predicate Trims(line: string, s: string) {
    && (s != [] ==> s[0] != ' ' && s[0] != '\t' && s[|s| - 1] != ' ' && s[|s| - 1] != '\t')
    && exists a, b :: Blanks(a) && Blanks(b) && line == a + s + b
  }

  /** Trimming takes the blanks off both ends, and nothing else. */
  lemma StripExactly(line: string, s: string)
    ensures Strip(line) == s <==> Trims(line, s)
  {
    hide StripLeft, StripRight;
    if Strip(line) == s {
      var a := LeftExactly(line);
      var left := StripLeft(line);
      var b := RightExactly(left);
      assert line == a + s + b;
      assert s != [] ==> left[0] == s[0];
    }
    if Trims(line, s) {
      var a, b :| Blanks(a) && Blanks(b) && line == a + s + b;
      if s == [] { OnlyBlanks(line, a, b); } else { BetweenBlanks(line, a, s, b); }
    }
  }

  lemma OnlyBlanks(line: string, a: string, b: string)
    requires Blanks(a) && Blanks(b) && line == a + [] + b
    ensures Strip(line) == []
  {
    hide StripLeft, StripRight;
    assert Blanks(a + b);
    assert line == (a + b) + [];
    LeftOf(a + b, []);
    NoBlanks();
    RightOf([], []);
    assert "" + "" == "";
  }

  lemma BetweenBlanks(line: string, a: string, s: string, b: string)
    requires Blanks(a) && Blanks(b) && line == a + s + b && s != []
    requires s[0] != ' ' && s[0] != '\t' && s[|s| - 1] != ' ' && s[|s| - 1] != '\t'
    ensures Strip(line) == s
  {
    hide StripLeft, StripRight, Blanks;
    assert line == a + (s + b);
    LeftOf(a, s + b);
    RightOf(s, b);
  }

  // ----- Delimiter cells ---------------------------------------------------

  function Dashes(n: nat): (s: string)
    ensures |s| == n && forall i :: 0 <= i < n ==> s[i] == '-'
  {
    seq(n, _ => '-')
  }

  /** A colon or nothing. */
  predicate MaybeColon(s: string) { s == "" || s == ":" }

  /** The pattern `^[ \t]*:?-+:?[ \t]*$`, part by part. */
  predicate CellParts(c: string, a: string, l: string, n: nat, r: string, b: string) {
    Blanks(a) && MaybeColon(l) && n >= 1 && MaybeColon(r) && Blanks(b) && c == a + (l + (Dashes(n) + (r + b)))
  }

  lemma {:induction false} DashesSkipped(n: nat, s: string)
    requires s != [] ==> s[0] != '-'
    ensures SkipDashes(Dashes(n) + s) == s
  {
    if n == 0 {
      assert Dashes(0) + s == s;
    } else {
      assert (Dashes(n) + s)[1..] == Dashes(n - 1) + s;
      DashesSkipped(n - 1, s);
    }
  }

  lemma {:induction false} SkipsDashes(s: string) returns (n: nat)
    ensures s == Dashes(n) + SkipDashes(s)
    ensures SkipDashes(s) != [] ==> SkipDashes(s)[0] != '-'
    ensures s != [] && s[0] == '-' ==> n >= 1
  {
    if s != [] && s[0] == '-' {
      var m := SkipsDashes(s[1..]);
      n := m + 1;
      OneDashMore(m, SkipDashes(s));
      assert s == ['-'] + s[1..];
    } else {
      n := 0;
      assert s == Dashes(0) + s;
    }
  }

  lemma OneDashMore(m: nat, rest: string)
    ensures ['-'] + (Dashes(m) + rest) == Dashes(m + 1) + rest
  {
  }

  lemma PartsRead(c: string, a: string, l: string, n: nat, r: string, b: string)
    requires CellParts(c, a, l, n, r, b)
    ensures IsDelimiterCell(c)
  {
    hide StripLeft, SkipDashes;
    var rest := r + b;
    var dashes := Dashes(n) + rest;
    LeftOf(a, l + dashes);
    assert (if (l + dashes)[0] == ':' then (l + dashes)[1..] else l + dashes) == dashes;
    DashesSkipped(n, rest);
    assert (if rest != [] && rest[0] == ':' then rest[1..] else rest) == b;
    LeftOf(b, []);
    assert b + [] == b;
  }

  lemma PartsFound(c: string)
    requires IsDelimiterCell(c)
    ensures exists a, l, n: nat, r, b :: CellParts(c, a, l, n, r, b)
  {
    hide StripLeft, SkipDashes;
    var a := LeftExactly(c);
    var s := StripLeft(c);
    var l := if s != [] && s[0] == ':' then ":" else "";
    var dashes := if s != [] && s[0] == ':' then s[1..] else s;
    assert s == l + dashes;
    var n := SkipsDashes(dashes);
    var rest := SkipDashes(dashes);
    var r := if rest != [] && rest[0] == ':' then ":" else "";
    var b := if rest != [] && rest[0] == ':' then rest[1..] else rest;
    assert rest == r + b;
    var more := LeftExactly(b);
    assert b == more;
    assert CellParts(c, a, l, n, r, b);
  }

  /** Blanks, perhaps a colon, dashes, perhaps a colon, blanks. */
  ghost predicate DelimiterCell(c: string) {
    exists a, l, n: nat, r, b :: CellParts(c, a, l, n, r, b)
  }

  /** The cell that is recognised is the one the pattern writes. */
  lemma DelimiterCellExactly(c: string)
    ensures IsDelimiterCell(c) <==> DelimiterCell(c)
  {
    hide IsDelimiterCell, CellParts;
    if IsDelimiterCell(c) { PartsFound(c); }
    if a, l, n: nat, r, b :| CellParts(c, a, l, n, r, b) { PartsRead(c, a, l, n, r, b); }
  }

  // ----- Indent ------------------------------------------------------------

  /** Leading blanks only count; a space is one column, a tab goes on to the next multiple of four. */
  lemma IndentExactly(a: string, s: string)
    requires Blanks(a) && (s != [] ==> s[0] != ' ' && s[0] != '\t')
    ensures IndentWidth(s) == 0
    ensures IndentWidth(a + s) == IndentWidth(a)
    ensures IndentWidth(a + [' ']) == IndentWidth(a) + 1
    ensures var w := IndentWidth(a + ['\t']); w % 4 == 0 && IndentWidth(a) < w <= IndentWidth(a) + 4
  {
    IndentMore(a, s, 0);
    IndentMore(a, [' '], 0);
    IndentMore(a, ['\t'], 0);
    IndentMore(a, [], 0);
    assert a + [] == a;
    assert [' '][1..] == [] && ['\t'][1..] == [];
  }

  lemma {:induction false} IndentMore(a: string, s: string, width: nat)
    requires Blanks(a)
    ensures IndentFrom(a + s, width) == IndentFrom(s, IndentFrom(a, width))
  {
    if a == [] {
      assert a + s == s;
    } else {
      assert (a + s)[1..] == a[1..] + s;
      IndentMore(a[1..], s, if a[0] == ' ' then width + 1 else width + TAB_STOP - width % TAB_STOP);
    }
  }
}
