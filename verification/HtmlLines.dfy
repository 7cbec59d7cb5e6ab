/**
  * The line invariant of the comment stripper (scripts/check_verity_provenance.py): what
  * stands on different lines of the text stays on different lines of the output.
  */
module HtmlLines {

  import opened Subsequences
  import opened HtmlScan
  import opened HtmlStrip
  import opened HtmlStripFacts

  /** The lines of a text, without their line ends. */
  function Split(s: string): (lines: seq<string>)
    ensures |lines| == Newlines(s) + 1
  {
    if s == "" then [""]
    else
      var rest := Split(s[1..]);
      if s[0] == '\n' then [""] + rest else [[s[0]] + rest[0]] + rest[1..]
  }

  /** As many lines, each of them its own line of the text with characters deleted. */
  predicate LineByLine(out: string, text: string) {
    && |Split(out)| == |Split(text)|
    && forall k :: 0 <= k < |Split(text)| ==> Subsequence(Split(out)[k], Split(text)[k])
  }

  lemma {:induction false} FewerNewlines(a: string, b: string)
    requires Subsequence(a, b)
    ensures Newlines(a) <= Newlines(b)
  {
    if a != "" {
      if a[0] == b[0] && Subsequence(a[1..], b[1..]) {
        FewerNewlines(a[1..], b[1..]);
      } else {
        FewerNewlines(a, b[1..]);
      }
    }
  }

  /** The same first character on both sides. */
  lemma SameFirst(a: string, b: string)
    requires a != "" && b != "" && a[0] == b[0] && LineByLine(a[1..], b[1..])
    ensures LineByLine(a, b)
  {
    var la, lb := Split(a[1..]), Split(b[1..]);
    forall k | 0 <= k < |Split(b)| ensures Subsequence(Split(a)[k], Split(b)[k]) {
      if a[0] == '\n' {
        assert k > 0 ==> Split(a)[k] == la[k - 1] && Split(b)[k] == lb[k - 1];
      } else if k == 0 {
        SameHead(a[0], la[0], lb[0]);
      } else {
        assert Split(a)[k] == la[k] && Split(b)[k] == lb[k];
      }
    }
  }

  lemma SameHead(c: char, a: string, b: string)
    requires Subsequence(a, b)
    ensures Subsequence([c] + a, [c] + b)
  {
    assert ([c] + a)[1..] == a && ([c] + b)[1..] == b;
  }

  /** A first character that is deleted, and is no line end. */
  lemma DroppedFirst(a: string, b: string)
    requires b != "" && b[0] != '\n' && LineByLine(a, b[1..])
    ensures LineByLine(a, b)
  {
    var la, lb := Split(a), Split(b[1..]);
    forall k | 0 <= k < |Split(b)| ensures Subsequence(la[k], Split(b)[k]) {
      assert Subsequence(la[k], lb[k]);
      if k == 0 {
        var head := [b[0]] + lb[0];
        assert head[1..] == lb[0];
        Weaken(la[0], head);
      } else {
        assert Split(b)[k] == lb[k];
      }
    }
  }

  lemma {:induction false} LinesMatch(a: string, b: string)
    requires Subsequence(a, b) && Newlines(a) == Newlines(b)
    ensures LineByLine(a, b)
    decreases |b|
  {
    hide LineByLine;
    if b == "" {
      NothingByLine();
    } else if a != "" && a[0] == b[0] && Subsequence(a[1..], b[1..]) {
      LinesMatch(a[1..], b[1..]);
      SameFirst(a, b);
    } else {
      assert Subsequence(a, b[1..]);
      FewerNewlines(a, b[1..]);
      LinesMatch(a, b[1..]);
      DroppedFirst(a, b);
    }
  }

  lemma NothingByLine()
    ensures LineByLine("", "")
  {
  }

  /** Lines keep their own content exactly where the run drops no line end. */
  lemma LinesStayApart(p: Page)
    ensures LineByLine(Run(p, START).out, p.text) <==> !RunLosesLines(p, START)
  {
    hide Run, RunLosesLines, Split;
    LinesKeptExactly(p);
    OutputIsSubsequence(p);
    if !RunLosesLines(p, START) { LinesMatch(Run(p, START).out, p.text); }
  }

  /** In particular where the text holds neither kind of line end, wherever it stands. */
  lemma LinesApartByText(p: Page)
    requires forall i: nat :: !OpenComment(p.text, i) && !LongValue(p, i)
    ensures LineByLine(Run(p, START).out, p.text)
  {
    hide Run, RunLosesLines, LineByLine;
    NothingLost(p, START);
    LinesStayApart(p);
  }
}
