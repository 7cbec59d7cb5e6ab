/**
  * What the scans of `_strip_html_comments` (scripts/check_verity_provenance.py) find,
  * said without scanning.
  */
module HtmlConstructs {

  import opened Sequences
  import opened Wrappers
  import opened HtmlScan

  // ----- Code spans --------------------------------------------------------

  /** A run of just `length` backticks begins at `k`, at or after `from`. */
  predicate RunAt(t: string, from: nat, k: nat, length: nat) {
    && from <= k && k + length <= |t|
    && (k > from ==> t[k - 1] != '`')
    && (forall i :: k <= i < k + length ==> t[i] == '`')
    && (k + length < |t| ==> t[k + length] != '`')
  }

  lemma {:induction false} RunEndExact(t: string, k: nat)
    requires k <= |t|
    ensures forall i :: k <= i < RunEnd(t, k) ==> t[i] == '`'
    ensures RunEnd(t, k) < |t| ==> t[RunEnd(t, k)] != '`'
    decreases |t| - k
  {
    if k < |t| && t[k] == '`' { RunEndExact(t, k + 1); }
  }

  /** Inside a run none begins, and the run itself has one length. */
  lemma RunsInside(t: string, from: nat, k: nat, length: nat, other: nat)
    requires from <= k < |t| && t[k] == '`' && (k > from ==> t[k - 1] != '`') && length > 0
    ensures RunAt(t, from, k, length) <==> RunEnd(t, k) - k == length
    ensures k < other < RunEnd(t, k) ==> !RunAt(t, from, other, length)
  {
    hide RunEnd;
    RunEndExact(t, k);
  }

  /** The span closes at the first run of its own length after the opening run, if there is one. */
  lemma {:induction false} CloserExact(t: string, from: nat, k: nat, length: nat)
    requires from <= k <= |t| && length > 0
    requires from < k ==> t[k - 1] != '`' || (k < |t| ==> t[k] != '`')
    requires forall i :: from <= i < k ==> !RunAt(t, from, i, length)
    ensures match CloserFrom(t, k, length)
            case None => forall i :: from <= i <= |t| ==> !RunAt(t, from, i, length)
            case Some(c) =>
              && RunAt(t, from, c, length)
              && forall i :: from <= i < c ==> !RunAt(t, from, i, length)
    decreases |t| - k
  {
    hide RunEnd;
    if k < |t| {
      CloserStep(t, k, length);
      if t[k] == '`' {
        var lo := RunEnd(t, k);
        RunEndExact(t, k);
        forall i | k < i < lo ensures !RunAt(t, from, i, length) { RunsInside(t, from, k, length, i); }
        RunsInside(t, from, k, length, k);
        if lo - k != length { CloserExact(t, from, lo, length); }
      } else {
        CloserExact(t, from, k + 1, length);
      }
    }
  }

  // ----- Comments ----------------------------------------------------------

  /** A comment ends at the first end mark. */
  lemma {:induction false} CommentEndFirst(t: string, from: nat)
    ensures match CommentEnd(t, from)
            case None => forall e: nat :: from <= e ==> !Begins(t, e, "-->")
            case Some(end) => Begins(t, end, "-->") && forall e: nat :: from <= e < end ==> !Begins(t, e, "-->")
    decreases |t| - from
  {
    hide Begins;
    if from >= |t| {
      forall e: nat | from <= e ensures !Begins(t, e, "-->") { PastEnd(t, e); }
    } else if !Begins(t, from, "-->") {
      CommentEndFirst(t, from + 1);
    }
  }

  lemma PastEnd(t: string, e: nat)
    requires e >= |t|
    ensures !Begins(t, e, "-->")
  {
  }

  // ----- Titles ------------------------------------------------------------

  /** A character that stands for itself. */
  predicate Live(t: string, i: nat, c: char) {
    i < |t| && t[i] == c && !EscapedAt(t, i)
  }

  /** Nothing at `m` keeps a title open at `m` from going on. */
  predicate GoesOn(t: string, m: nat, quote: char)
    requires m < |t|
  {
    && !Live(t, m, Closer(quote))
    && !(quote == '(' && Live(t, m, '('))
    && (t[m] == '\n' ==> !BlankAfter(t, m + 1))
  }

  /** The title that began before `j` ends at `e`: the first live closing mark, no blank line on the way. */
  predicate TitleEnds(t: string, j: nat, e: nat, quote: char) {
    && j <= e < |t| && Live(t, e, Closer(quote))
    && forall m :: j <= m < e ==> GoesOn(t, m, quote)
  }

  lemma {:induction false} OnlyNewlinesConcat(a: string, b: string)
    ensures OnlyNewlines(a + b) == OnlyNewlines(a) + OnlyNewlines(b)
  {
    if a == "" {
      assert a + b == b;
    } else {
      assert (a + b)[1..] == a[1..] + b;
      OnlyNewlinesConcat(a[1..], b);
      Associative(if a[0] == '\n' then "\n" else "", OnlyNewlines(a[1..]), OnlyNewlines(b));
    }
  }

  lemma OnlyNewlinesOne(c: char)
    ensures OnlyNewlines([c]) == if c == '\n' then "\n" else ""
  {
    assert [c][1..] == "";
  }

  /** What the title loop returns for a title that ends at `e`. */
  function TitleText(t: string, j: nat, e: nat, quote: char): Piece
    requires j <= e < |t|
  {
    Piece(e + 1, OnlyNewlines(t[j..e]) + [Closer(quote)])
  }

  /** `r` is what a title read from `j` yields: the interior's line ends and the closing mark, or nothing. */
  ghost predicate TitleRead(t: string, j: nat, quote: char, r: Option<Piece>) {
    && (forall e: nat :: TitleEnds(t, j, e, quote) ==> r == Some(TitleText(t, j, e, quote)))
    && (r.Some? ==> exists e: nat :: TitleEnds(t, j, e, quote))
  }

  /** One character that goes on. */
  lemma TitleSkips(t: string, j: nat, quote: char, r: Option<Piece>)
    requires j < |t| && GoesOn(t, j, quote) && TitleRead(t, j + 1, quote, r)
    ensures TitleRead(t, j, quote, Before(if t[j] == '\n' then "\n" else "", r))
  {
    hide GoesOn, Live, OnlyNewlines, Before;
    forall e: nat | TitleEnds(t, j, e, quote)
      ensures Before(if t[j] == '\n' then "\n" else "", r) == Some(TitleText(t, j, e, quote))
    {
      NotHere(t, j, quote);
      assert TitleEnds(t, j + 1, e, quote);
      assert t[j..e] == [t[j]] + t[j + 1..e];
      OnlyNewlinesConcat([t[j]], t[j + 1..e]);
      OnlyNewlinesOne(t[j]);
      BeforeSome(OnlyNewlines([t[j]]), TitleText(t, j + 1, e, quote));
      Associative(OnlyNewlines([t[j]]), OnlyNewlines(t[j + 1..e]), [Closer(quote)]);
    }
    if r.Some? {
      var e: nat :| TitleEnds(t, j + 1, e, quote);
      assert TitleEnds(t, j, e, quote);
    }
  }

  lemma NotHere(t: string, j: nat, quote: char)
    requires j < |t| && GoesOn(t, j, quote)
    ensures !TitleEnds(t, j, j, quote)
  {
  }

  lemma MustGoOn(t: string, j: nat, e: nat, quote: char)
    ensures TitleEnds(t, j, e, quote) ==> j <= e < |t|
    ensures TitleEnds(t, j, e, quote) && j < e ==> GoesOn(t, j, quote)
    ensures TitleEnds(t, j, e, quote) && j == e ==> Live(t, j, Closer(quote))
  {
  }

  /** A character that does not go on and does not close: no title. */
  lemma TitleStops(t: string, j: nat, quote: char)
    requires j < |t| ==> !GoesOn(t, j, quote) && !Live(t, j, Closer(quote))
    ensures TitleRead(t, j, quote, None)
  {
    hide GoesOn, Live;
    forall e: nat ensures !TitleEnds(t, j, e, quote) {
      MustGoOn(t, j, e, quote);
    }
  }

  lemma InRange(t: string, e: nat, c: char)
    ensures Live(t, e, c) ==> e < |t|
  {
  }

  lemma TitleCloses(t: string, j: nat, quote: char)
    requires Live(t, j, Closer(quote))
    ensures TitleRead(t, j, quote, Some(Piece(j + 1, [Closer(quote)])))
  {
    hide Live, GoesOn;
    InRange(t, j, Closer(quote));
    assert !GoesOn(t, j, quote) by { Closes(t, j, quote); }
    assert OnlyNewlines(t[j..j]) == "" by { assert t[j..j] == ""; }
    assert [] + [Closer(quote)] == [Closer(quote)];
    forall e: nat | TitleEnds(t, j, e, quote)
      ensures Some(Piece(j + 1, [Closer(quote)])) == Some(TitleText(t, j, e, quote))
    {
      MustGoOn(t, j, e, quote);
    }
    assert TitleEnds(t, j, j, quote);
  }

  lemma Closes(t: string, j: nat, quote: char)
    requires j < |t| && Live(t, j, Closer(quote))
    ensures !GoesOn(t, j, quote)
  {
  }

  /** Escapes alternate from the opening mark on, which is not a backslash. */
  lemma {:induction false} TitleExact(t: string, j: nat, quote: char)
    requires j <= |t| && !EscapedAt(t, j) && Delimiter(quote)
    ensures TitleRead(t, j, quote, TitleRest(t, j, quote))
    decreases |t| - j
  {
    hide TitleRest, TitleRead, BlankAfter, Before, EscapedAt;
    if j == |t| {
      TitleRestEnd(t, quote);
      TitleStops(t, j, quote);
    } else {
      TitleRestStep(t, j, quote);
      EscapesAlternate(t, j);
      if t[j] == '\\' {
        AfterBackslash(t, j, quote);
      } else if t[j] == Closer(quote) {
        TitleCloses(t, j, quote);
      } else if (t[j] == '(' && quote == '(') || (t[j] == '\n' && BlankAfter(t, j + 1)) {
        TitleStops(t, j, quote);
      } else {
        TitleExact(t, j + 1, quote);
        TitleSkips(t, j, quote, TitleRest(t, j + 1, quote));
        BeforeNothing(TitleRest(t, j + 1, quote));
      }
    }
  }

  lemma BeforeNothing(r: Option<Piece>)
    ensures Before("", r) == r
  {
    if r.Some? { assert "" + r.value.out == r.value.out; }
  }

  /** A backslash and what it escapes. */
  lemma AfterBackslash(t: string, j: nat, quote: char)
    requires j < |t| && t[j] == '\\' && !EscapedAt(t, j) && Delimiter(quote)
    ensures TitleRead(t, j, quote, TitleRest(t, j, quote))
    decreases |t| - j, 0
  {
    hide TitleRest, TitleRead, BlankAfter, Before, EscapedAt;
    TitleRestStep(t, j, quote);
    EscapesAlternate(t, j);
    if j + 1 == |t| {
      TitleStops(t, j + 1, quote);
      TitleSkips(t, j, quote, None);
      BeforeNone("");
    } else {
      EscapesAlternate(t, j + 1);
      if t[j + 1] == '\n' && BlankAfter(t, j + 2) {
        TitleStops(t, j + 1, quote);
        TitleSkips(t, j, quote, None);
        BeforeNone("");
      } else {
        TitleExact(t, j + 2, quote);
        TitleSkips(t, j + 1, quote, TitleRest(t, j + 2, quote));
        var r := Before(if t[j + 1] == '\n' then "\n" else "", TitleRest(t, j + 2, quote));
        TitleSkips(t, j, quote, r);
        BeforeNothing(r);
        BeforeNothing(TitleRest(t, j + 2, quote));
      }
    }
  }

  /** A title is formed, with its interior's line ends and no more of it, exactly where one ends. */
  lemma TitleFormsExactly(t: string, j: nat, e: nat)
    requires j < |t| && Delimiter(t[j])
    ensures TitleEnds(t, j + 1, e, t[j])
       <==> TitleRest(t, j + 1, t[j]).Some? && TitleRest(t, j + 1, t[j]).value.after == e + 1
    ensures TitleEnds(t, j + 1, e, t[j]) ==>
              TitleRest(t, j + 1, t[j]) == Some(TitleText(t, j + 1, e, t[j]))
  {
    hide TitleRest, TitleEnds, EscapedAt;
    EscapesAlternate(t, j);
    TitleExact(t, j + 1, t[j]);
  }
}
