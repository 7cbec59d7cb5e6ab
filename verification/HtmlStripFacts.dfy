/**
  * What every run of the comment stripper keeps: its output is its input with
  * characters deleted, lines are lost in just two ways, and no link holds a link.
  */
module HtmlStripFacts {

  import opened Wrappers
  import opened Subsequences
  import opened HtmlScan
  import opened HtmlStrip
  import TableSeparators

  // ----- Pieces ------------------------------------------------------------

  /** The piece read from `i` prints its stretch with characters deleted. */
  ghost predicate Cut(t: string, i: nat, q: Piece) {
    i <= q.after <= |t| && Subsequence(q.out, t[i..q.after])
  }

  /** How many line ends the piece does not print. */
  ghost function Lost(t: string, i: nat, q: Piece): int
    requires i <= q.after <= |t|
  {
    Newlines(t[i..q.after]) - Newlines(q.out)
  }

  lemma Glue(t: string, i: nat, a: Piece, b: Piece)
    requires Cut(t, i, a) && Cut(t, a.after, b)
    ensures Cut(t, i, Piece(b.after, a.out + b.out))
    ensures Lost(t, i, Piece(b.after, a.out + b.out)) == Lost(t, i, a) + Lost(t, a.after, b)
  {
    hide Subsequence, Newlines;
    assert t[i..b.after] == t[i..a.after] + t[a.after..b.after];
    Concat(a.out, t[i..a.after], b.out, t[a.after..b.after]);
    NewlinesConcat(t[i..a.after], t[a.after..b.after]);
    NewlinesConcat(a.out, b.out);
  }

  lemma Whole(t: string, i: nat, j: nat)
    requires i <= j <= |t|
    ensures Cut(t, i, Piece(j, t[i..j])) && Lost(t, i, Piece(j, t[i..j])) == 0
  {
    Reflexive(t[i..j]);
  }

  lemma JustLines(t: string, i: nat, j: nat)
    requires i <= j <= |t|
    ensures Cut(t, i, Piece(j, OnlyNewlines(t[i..j]))) && Lost(t, i, Piece(j, OnlyNewlines(t[i..j]))) == 0
  {
    OnlyNewlinesKept(t[i..j]);
  }

  lemma Nothing(t: string, i: nat, j: nat)
    requires i <= j <= |t|
    ensures Cut(t, i, Piece(j, "")) && Lost(t, i, Piece(j, "")) == Newlines(t[i..j])
    ensures Lost(t, i, Piece(j, "")) >= 0
    ensures Lost(t, i, Piece(j, "")) == 0 <==> '\n' !in t[i..j]
  {
    HasNewline(t[i..j]);
  }

  lemma Prepend(t: string, i: nat, s: string, j: nat, r: Option<Piece>)
    requires i <= j <= |t| && Cut(t, i, Piece(j, s))
    requires r.Some? && Cut(t, j, r.value)
    ensures Cut(t, i, Before(s, r).value)
    ensures Lost(t, i, Before(s, r).value) == Lost(t, i, Piece(j, s)) + Lost(t, j, r.value)
  {
    hide Subsequence, Newlines;
    Glue(t, i, Piece(j, s), r.value);
  }

  lemma CodeSpanCut(t: string, i: nat)
    requires i < |t| && t[i] == '`'
    ensures Cut(t, i, CodeSpan(t, i)) && Lost(t, i, CodeSpan(t, i)) == 0
  {
    hide Cut, Lost, RunEnd, CloserFrom;
    var j := RunEnd(t, i);
    Whole(t, i, j);
    match CloserFrom(t, j, j - i)
    case None =>
    case Some(k) =>
      Whole(t, i, k + (j - i));
      JustLines(t, i, k + (j - i));
  }

  /** An unterminated comment takes the rest of the text, with its lines. */
  predicate CommentLosesLines(t: string, i: nat)
    requires i < |t|
  {
    CommentEnd(t, i + 4).None? && '\n' in t[i..]
  }

  lemma CommentCut(t: string, i: nat)
    requires i < |t|
    ensures Cut(t, i, CommentPiece(t, i)) && Lost(t, i, CommentPiece(t, i)) >= 0
    ensures Lost(t, i, CommentPiece(t, i)) == 0 <==> !CommentLosesLines(t, i)
  {
    hide Cut, Lost, CommentEnd;
    match CommentEnd(t, i + 4)
    case None =>
      assert t[i..|t|] == t[i..];
      Nothing(t, i, |t|);
    case Some(end) => JustLines(t, i, end + 3);
  }

  lemma ValueCut(t: string, j: nat, stop: nat)
    requires j < stop < |t| && t[stop] == t[j] && t[j] != '\n'
    ensures Cut(t, j, Piece(stop + 1, Value(t, j, stop)))
    ensures Lost(t, j, Piece(stop + 1, Value(t, j, stop))) >= 0
    ensures Lost(t, j, Piece(stop + 1, Value(t, j, stop))) == 0 <==> '\n' !in t[j + 1..stop]
  {
    hide Cut, Lost;
    var content := t[j + 1..stop];
    Whole(t, j, j + 1);
    Whole(t, stop, stop + 1);
    Whole(t, j + 1, stop);
    Nothing(t, j + 1, stop);
    assert [t[j]] == t[j..j + 1] == t[stop..stop + 1];
    var kept := if '\n' in content then "" else content;
    Glue(t, j, Piece(j + 1, [t[j]]), Piece(stop, kept));
    Glue(t, j, Piece(stop, [t[j]] + kept), Piece(stop + 1, [t[j]]));
  }

  lemma {:induction false} TagRestCut(t: string, j: nat)
    requires j <= |t| && TagRest(t, j).Some?
    ensures Cut(t, j, TagRest(t, j).value) && Lost(t, j, TagRest(t, j).value) >= 0
    ensures Lost(t, j, TagRest(t, j).value) == 0 <==> !ValueSpansLines(t, j)
    decreases |t| - j
  {
    hide Cut, Lost, Before, Value, QuoteStop;
    if j == |t| {
      Nothing(t, j, j);
      assert '\n' !in t[j..j];
    } else if t[j] == '\"' || t[j] == '\'' {
      var stop := QuoteStop(t, j + 1, t[j]);
      TagRestCut(t, stop + 1);
      ValueCut(t, j, stop);
      Prepend(t, j, Value(t, j, stop), stop + 1, TagRest(t, stop + 1));
    } else if t[j] == '>' {
      Whole(t, j, j + 1);
      assert t[j..j + 1] == ">";
    } else {
      TagRestCut(t, j + 1);
      Whole(t, j, j + 1);
      assert t[j..j + 1] == [t[j]];
      Prepend(t, j, [t[j]], j + 1, TagRest(t, j + 1));
    }
  }

  /** A tag whose attributes are read to the end, with a value over several lines. */
  predicate TagLosesLines(t: string, i: nat, alnum: char -> bool)
    requires i < |t|
  {
    Tag(t, i, alnum).Some? && ValueSpansLines(t, NameEnd(t, i + 1, alnum))
  }

  lemma TagCut(t: string, i: nat, alnum: char -> bool)
    requires i < |t| && Tag(t, i, alnum).Some?
    ensures Cut(t, i, Tag(t, i, alnum).value) && Lost(t, i, Tag(t, i, alnum).value) >= 0
    ensures Lost(t, i, Tag(t, i, alnum).value) == 0 <==> !TagLosesLines(t, i, alnum)
  {
    hide Cut, Lost, Before, TagRest, ValueSpansLines, NameEnd;
    var j := NameEnd(t, i + 1, alnum);
    TagRestCut(t, j);
    Whole(t, i, j);
    Prepend(t, i, t[i..j], j, TagRest(t, j));
  }

  lemma NewlineCut(t: string, j: nat, k: nat)
    requires j < k <= |t| && k <= j + 2 && t[k - 1] == '\n'
    requires k == j + 2 ==> t[j] != '\n'
    ensures Cut(t, j, Piece(k, "\n")) && Lost(t, j, Piece(k, "\n")) == 0
  {
    hide Cut, Lost;
    Whole(t, k - 1, k);
    assert t[k - 1..k] == "\n";
    Nothing(t, j, k - 1);
    Glue(t, j, Piece(k - 1, ""), Piece(k, "\n"));
    assert "" + "\n" == "\n";
  }

  /** Characters that are not printed, in front of a piece. */
  lemma Skip(t: string, j: nat, k: nat, r: Option<Piece>)
    requires j <= k <= |t| && '\n' !in t[j..k]
    requires r.Some? && Cut(t, k, r.value)
    ensures Cut(t, j, r.value) && Lost(t, j, r.value) == Lost(t, k, r.value)
  {
    hide Cut, Lost;
    Nothing(t, j, k);
    Glue(t, j, Piece(k, ""), r.value);
    assert "" + r.value.out == r.value.out;
  }

  lemma {:induction false} TitleRestCut(t: string, j: nat, quote: char)
    requires j <= |t| && TitleRest(t, j, quote).Some?
    ensures Cut(t, j, TitleRest(t, j, quote).value) && Lost(t, j, TitleRest(t, j, quote).value) == 0
    decreases |t| - j
  {
    hide Cut, Lost, Before, BlankAfter;
    if t[j] == '\\' {
      TitleRestCut(t, j + 2, quote);
      if t[j + 1] == '\n' {
        NewlineCut(t, j, j + 2);
        Prepend(t, j, "\n", j + 2, TitleRest(t, j + 2, quote));
      } else {
        Skip(t, j, j + 2, TitleRest(t, j + 2, quote));
      }
    } else if t[j] == Closer(quote) {
      Whole(t, j, j + 1);
      assert t[j..j + 1] == [t[j]];
    } else {
      TitleRestCut(t, j + 1, quote);
      if t[j] == '\n' {
        NewlineCut(t, j, j + 1);
        Prepend(t, j, "\n", j + 1, TitleRest(t, j + 1, quote));
      } else {
        Skip(t, j, j + 1, TitleRest(t, j + 1, quote));
      }
    }
  }

  lemma TitleCut(t: string, j: nat)
    requires j <= |t| && Title(t, j).Some?
    ensures Cut(t, j, Title(t, j).value) && Lost(t, j, Title(t, j).value) == 0
  {
    hide Cut, Lost, Before, TitleRest;
    if j < |t| && Delimiter(t[j]) {
      TitleRestCut(t, j + 1, t[j]);
      Whole(t, j, j + 1);
      assert t[j..j + 1] == [t[j]];
      Prepend(t, j, [t[j]], j + 1, TitleRest(t, j + 1, t[j]));
    } else {
      Whole(t, j, j);
      assert t[j..j] == "";
    }
  }

  lemma LinkTailCut(t: string, i: nat)
    requires i + 2 <= |t| && LinkTail(t, i).Some?
    ensures Cut(t, i, LinkTail(t, i).value) && Lost(t, i, LinkTail(t, i).value) == 0
  {
    hide Cut, Lost, Before, Title, TitleStart, SkipBlank;
    var j := TitleStart(t, i);
    var title := Title(t, j);
    TitleCut(t, j);
    Whole(t, i, j);
    Prepend(t, i, t[i..j], j, title);
    var k := SkipBlank(t, title.value.after);
    Whole(t, title.value.after, k + 1);
    Glue(t, i, Before(t[i..j], title).value, Piece(k + 1, t[title.value.after..k + 1]));
  }

  // ----- Lines and characters, over a whole run ----------------------------

  /** The two branches that drop a line end: see `CommentLosesLines` and `TagLosesLines`. */
  ghost predicate LosesLines(p: Page, i: nat, labels: seq<Opener>)
    requires i < |p.text|
  {
    match KindAt(p, i, labels)
    case Comment => !EscapedAt(p.text, i) && CommentLosesLines(p.text, i)
    case Markup => TagLosesLines(p.text, i, p.alnum)
    case _ => false
  }

  lemma StepCut(p: Page, i: nat, labels: seq<Opener>)
    requires i < |p.text|
    ensures var q := PieceAt(p, i, labels);
            && Cut(p.text, i, q) && Lost(p.text, i, q) >= 0
            && (Lost(p.text, i, q) == 0 <==> !LosesLines(p, i, labels))
  {
    hide Cut, Lost, EscapedAt, CodeSpan, CommentPiece, Tag, LinkTail, CommentLosesLines, TagLosesLines,
      KindAt, SeparatorIn;
    var t, kind := p.text, KindAt(p, i, labels);
    Whole(t, i, i + 1);
    assert One(t, i) == Piece(i + 1, t[i..i + 1]);
    KindChar(p, i, labels);
    match kind {
      case Backtick => if !EscapedAt(t, i) { CodeSpanCut(t, i); }
      case Comment => if !EscapedAt(t, i) { CommentCut(t, i); }
      case Markup =>
        if Tag(t, i, p.alnum).Some? { TagCut(t, i, p.alnum); } else { NoTagNoLoss(t, i, p.alnum); }
      case Close => if Forms(p, i, labels) { LinkTailCut(t, i); }
      case _ =>
    }
  }

  lemma NoTagNoLoss(t: string, i: nat, alnum: char -> bool)
    requires i < |t| && Tag(t, i, alnum).None?
    ensures !TagLosesLines(t, i, alnum)
  {
    hide Tag;
  }

  /** Somewhere on the run from `s` a line end is dropped. */
  ghost predicate RunLosesLines(p: Page, s: State)
    requires s.i <= |p.text|
    decreases |p.text| - s.i
  {
    s.i < |p.text| && (LosesLines(p, s.i, s.labels) || RunLosesLines(p, Step(p, s)))
  }

  lemma {:induction false} RunCut(p: Page, s: State)
    requires s.i <= |p.text| && Cut(p.text, 0, Piece(s.i, s.out))
    requires Lost(p.text, 0, Piece(s.i, s.out)) >= 0
    ensures Subsequence(Run(p, s).out, p.text)
    ensures Newlines(p.text) - Newlines(Run(p, s).out) >= Lost(p.text, 0, Piece(s.i, s.out))
    ensures Newlines(p.text) - Newlines(Run(p, s).out) == Lost(p.text, 0, Piece(s.i, s.out))
       <==> !RunLosesLines(p, s)
    decreases |p.text| - s.i
  {
    hide PieceAt, LabelsAfter, FormedAt, LosesLines, Subsequence, Newlines;
    if s.i == |p.text| {
      assert p.text[0..s.i] == p.text;
    } else {
      var q := PieceAt(p, s.i, s.labels);
      StepCut(p, s.i, s.labels);
      Glue(p.text, 0, Piece(s.i, s.out), q);
      RunCut(p, Step(p, s));
    }
  }

  lemma AtStart(p: Page)
    ensures Cut(p.text, 0, Piece(0, "")) && Lost(p.text, 0, Piece(0, "")) == 0
  {
    Nothing(p.text, 0, 0);
  }

  /** Nothing is printed that the text does not hold, in its order. */
  lemma OutputIsSubsequence(p: Page)
    ensures Subsequence(Run(p, START).out, p.text)
  {
    hide Subsequence, Run, Newlines;
    AtStart(p);
    RunCut(p, START);
  }

  /**
    * Lines are kept exactly where the run meets no unterminated comment with a line end
    * after it and no tag with a quoted value that holds one.
    */
  lemma LinesKeptExactly(p: Page)
    ensures Newlines(Run(p, START).out) <= Newlines(p.text)
    ensures Newlines(Run(p, START).out) == Newlines(p.text) <==> !RunLosesLines(p, START)
  {
    hide Subsequence, Run, Newlines, RunLosesLines;
    AtStart(p);
    RunCut(p, START);
  }

  /** An unescaped comment opener that is never closed, with a line end after it. */
  predicate OpenComment(t: string, i: nat) {
    i < |t| && Begins(t, i, "<!--") && !EscapedAt(t, i) && CommentLosesLines(t, i)
  }

  /** A tag with a quoted value over several lines. */
  predicate LongValue(p: Page, i: nat) {
    i < |p.text| && OpensTag(p, i) && TagLosesLines(p.text, i, p.alnum)
  }

  /** A text with neither of the two, wherever they stand, keeps all its lines. */
  lemma LinesKeptByText(p: Page)
    requires forall i: nat :: !OpenComment(p.text, i) && !LongValue(p, i)
    ensures Newlines(Run(p, START).out) == Newlines(p.text)
  {
    hide Run, Newlines, RunLosesLines;
    NothingLost(p, START);
    LinesKeptExactly(p);
  }

  lemma {:induction false} NothingLost(p: Page, s: State)
    requires s.i <= |p.text|
    requires forall i: nat :: !OpenComment(p.text, i) && !LongValue(p, i)
    ensures !RunLosesLines(p, s)
    decreases |p.text| - s.i
  {
    hide Step, LosesLines, OpenComment, LongValue;
    if s.i < |p.text| {
      LosesHere(p, s.i, s.labels);
      NothingLost(p, Step(p, s));
    }
  }

  lemma LosesHere(p: Page, i: nat, labels: seq<Opener>)
    requires i < |p.text|
    ensures LosesLines(p, i, labels) ==> OpenComment(p.text, i) || LongValue(p, i)
  {
    hide EscapedAt, CommentLosesLines, TagLosesLines, OpensTag, EndsInlines, Begins;
  }

  /** A comment that never ends loses the lines after it. */
  lemma LostByComment(p: Page)
    requires p.text == "<!--\n"
    ensures Newlines(Run(p, START).out) < Newlines(p.text)
  {
    hide Run, Newlines, PieceAt, LabelsAfter, FormedAt;
    LinesKeptExactly(p);
    assert CommentEnd(p.text, 4).None? by { assert CommentEnd(p.text, 5).None?; }
    assert p.text[0..][4] == '\n';
    LosesAtOnce(p);
  }

  /** An attribute value over two lines loses the line end in it. */
  lemma LostByAttribute(p: Page)
    requires p.text == "<a b=\"\n\">" && p.alpha('a') && p.alnum('a') && !p.alnum(' ')
    ensures Newlines(Run(p, START).out) < Newlines(p.text)
  {
    hide Run, Newlines, TagLosesLines, KindAt, RunLosesLines;
    LinesKeptExactly(p);
    assert LosesLines(p, 0, []) by {
      ValueOverLines(p.text, p.alnum);
      MarkupAtStart(p);
    }
    LosesAtOnce(p);
  }

  lemma MarkupAtStart(p: Page)
    requires |p.text| > 3 && p.text[0] == '<' && p.text[1] == 'a' && p.alpha('a')
    ensures KindAt(p, 0, []) == Markup
  {
    hide EscapedAt, EndsInlines;
    assert p.text[0..4][1] != "<!--"[1];
  }

  lemma LosesAtOnce(p: Page)
    requires p.text != "" && LosesLines(p, 0, [])
    ensures RunLosesLines(p, START)
  {
    hide LosesLines;
  }

  lemma ValueOverLines(t: string, alnum: char -> bool)
    requires t == "<a b=\"\n\">" && alnum('a') && !alnum(' ')
    ensures TagLosesLines(t, 0, alnum)
  {
    assert NameEnd(t, 1, alnum) == 2 by { assert NameEnd(t, 2, alnum) == 2; }
    assert QuoteStop(t, 6, '\"') == 7 by { assert QuoteStop(t, 7, '\"') == 7; }
    assert t[6..7][0] == '\n';
    assert ValueSpansLines(t, 5);
    assert ValueSpansLines(t, 4);
    assert ValueSpansLines(t, 3);
    assert ValueSpansLines(t, 2);
    assert TagRest(t, 8).Some?;
    assert TagRest(t, 5).Some?;
    assert TagRest(t, 4).Some?;
    assert TagRest(t, 3).Some?;
  }

  // ----- Text without markup -----------------------------------------------

  /** No backtick, no angle bracket, no opening square bracket. */
  predicate Unmarked(s: string) {
    forall i :: 0 <= i < |s| ==> s[i] !in "`<["
  }

  lemma {:induction false} UnmarkedRun(p: Page, s: State)
    requires s.i <= |p.text| && Unmarked(p.text)
    requires s.labels == [] && s.out == p.text[..s.i]
    ensures Run(p, s).out == p.text
    decreases |p.text| - s.i
  {
    hide PieceAt, LabelsAfter, FormedAt;
    if s.i == |p.text| {
      assert p.text[..s.i] == p.text;
    } else {
      UnmarkedStep(p, s.i);
      assert p.text[..s.i + 1] == p.text[..s.i] + [p.text[s.i]];
      UnmarkedRun(p, Step(p, s));
    }
  }

  lemma UnmarkedStep(p: Page, i: nat)
    requires i < |p.text| && Unmarked(p.text)
    ensures PieceAt(p, i, []) == Piece(i + 1, [p.text[i]]) && LabelsAfter(p, i, []) == []
  {
    hide EscapedAt, EndsInlines, Tail;
    NoComment(p.text, i);
  }

  lemma NoComment(t: string, i: nat)
    requires i < |t| && t[i] != '<'
    ensures !Begins(t, i, "<!--")
  {
    assert i + 4 <= |t| ==> t[i..i + 4][0] != "<!--"[0];
  }

  /** Such a text is printed as it is, whatever its lines and tables. */
  lemma UnmarkedUnchanged(p: Page)
    requires Unmarked(p.text)
    ensures Run(p, START).out == p.text
  {
    hide Run;
    UnmarkedRun(p, START);
  }

  // ----- No link inside a link ---------------------------------------------

  /**
    * What the stack knows: openers in source order; every construct formed so far
    * lies before the scan; one formed after an opener began lies inside its label,
    * and if it is a link then the opener is an image or cannot form any more.
    */
  ghost predicate Sound(s: State) {
    && (forall k :: 0 <= k < |s.labels| ==> s.labels[k].at < s.i)
    && (forall k, l :: 0 <= k < l < |s.labels| ==> s.labels[k].at < s.labels[l].at)
    && (forall f :: f in s.formed ==> f.from < f.close < f.after <= s.i)
    && (forall f, k :: f in s.formed && 0 <= k < |s.labels| ==> Apart(f, s.labels[k]))
    && (forall a, b :: 0 <= a < b < |s.formed| ==> Laminar(s.formed[a], s.formed[b]))
  }

  /** An open label is not inside a formed construct, and an active link opener has no link after it. */
  predicate Apart(f: Formed, o: Opener) {
    && (o.at < f.from || f.after <= o.at)
    && (o.at < f.from && !f.image && !o.image ==> !o.active)
  }

  /** The one formed later comes after the earlier one, or holds it in its label. */
  predicate Laminar(earlier: Formed, later: Formed) {
    || earlier.after <= later.from
    || (later.from < earlier.from && earlier.after <= later.close && (later.image || earlier.image))
  }

  lemma StepSound(p: Page, s: State)
    requires s.i < |p.text| && Sound(s)
    ensures Sound(Step(p, s))
  {
    hide PieceAt, KindAt, Tail, OpensImage;
    var s' := Step(p, s);
    KindChar(p, s.i, s.labels);
    if Forms(p, s.i, s.labels) {
      FormSound(p, s);
    } else {
      assert FormedAt(p, s.i, s.labels) == [];
      assert s'.formed == s.formed;
      match KindAt(p, s.i, s.labels) {
        case Open => PushSound(p, s);
        case Boundary =>
        case Close => PopSound(s, s');
        case _ =>
      }
    }
  }

  lemma PopSound(s: State, s': State)
    requires Sound(s) && s.labels != [] && s'.labels == s.labels[..|s.labels| - 1]
    requires s'.formed == s.formed && s.i < s'.i
    ensures Sound(s')
  {
  }

  lemma PushSound(p: Page, s: State)
    requires s.i < |p.text| && Sound(s) && KindAt(p, s.i, s.labels) == Open
    ensures Sound(Step(p, s))
  {
    hide PieceAt, KindAt, OpensImage;
    var s' := Step(p, s);
    var n := |s.labels|;
    assert !Forms(p, s.i, s.labels);
    assert s'.formed == s.formed + [] == s.formed;
    assert s'.labels == s.labels + [s'.labels[n]] && s'.labels[n].at == s.i;
    forall f, k | f in s'.formed && 0 <= k < |s'.labels| ensures Apart(f, s'.labels[k]) {
      if k < n { assert Apart(f, s.labels[k]); }
    }
  }

  lemma FormSound(p: Page, s: State)
    requires s.i < |p.text| && Sound(s) && Forms(p, s.i, s.labels)
    ensures Sound(Step(p, s))
  {
    hide PieceAt, KindAt, Tail;
    KindChar(p, s.i, s.labels);
    var s' := Step(p, s);
    var n := |s.labels| - 1;
    var top := s.labels[n];
    var f := Formed(top.image, top.at, s.i, s'.i);
    assert s'.formed == s.formed + [f];
    forall k | 0 <= k < |s'.labels|
      ensures s'.labels[k].at == s.labels[k].at && s'.labels[k].image == s.labels[k].image
      ensures s'.labels[k].active ==> s.labels[k].active
      ensures !f.image && !s'.labels[k].image ==> !s'.labels[k].active
    {
      assert s.labels[..n][k] == s.labels[k];
    }
    forall g, k | g in s'.formed && 0 <= k < |s'.labels| ensures Apart(g, s'.labels[k]) {
      if g in s.formed { assert Apart(g, s.labels[k]); }
    }
    forall a, b | 0 <= a < b < |s'.formed| ensures Laminar(s'.formed[a], s'.formed[b]) {
      if b < |s.formed| {
        assert Laminar(s.formed[a], s.formed[b]);
      } else {
        assert s.formed[a] in s.formed;
        assert Apart(s.formed[a], top);
      }
    }
  }

  lemma {:induction false} RunSound(p: Page, s: State)
    requires s.i <= |p.text| && Sound(s)
    ensures Sound(Run(p, s))
    decreases |p.text| - s.i
  {
    hide Step, Sound;
    if s.i < |p.text| {
      StepSound(p, s);
      RunSound(p, Step(p, s));
    }
  }

  /** What a formed link looks like in the text: live brackets, its tail, one table cell. */
  ghost predicate Shaped(p: Page, f: Formed) {
    && f.from < f.close && f.close + 2 < f.after <= |p.text|
    && LiveAt(p.text, f.from, '[') && LiveAt(p.text, f.close, ']')
    && p.text[f.close + 1] == '(' && p.text[f.after - 1] == ')'
    && (f.image <==> OpensImage(p.text, f.from))
    && !SeparatorIn(p, f.close, f.after - 1)
  }

  predicate LiveAt(t: string, i: nat, c: char) {
    i < |t| && t[i] == c && !EscapedAt(t, i)
  }

  ghost predicate AllShaped(p: Page, s: State) {
    && Sound(s)
    && (forall k :: 0 <= k < |s.labels| ==> Opens(p, s.labels[k]))
    && (forall f :: f in s.formed ==> Shaped(p, f))
  }

  predicate Opens(p: Page, o: Opener) {
    LiveAt(p.text, o.at, '[') && (o.image <==> OpensImage(p.text, o.at))
  }

  lemma KindLive(p: Page, i: nat, labels: seq<Opener>)
    requires i < |p.text|
    ensures KindAt(p, i, labels) == Open ==> LiveAt(p.text, i, '[')
    ensures KindAt(p, i, labels) == Close ==> LiveAt(p.text, i, ']') && labels != []
  {
    hide EscapedAt, EndsInlines, OpensTag;
  }

  lemma TailShape(p: Page, i: nat)
    requires i < |p.text| && Tail(p, i).Some?
    ensures i + 2 < Tail(p, i).value.after <= |p.text|
    ensures p.text[i + 1] == '(' && p.text[Tail(p, i).value.after - 1] == ')'
    ensures !SeparatorIn(p, i, Tail(p, i).value.after - 1)
  {
    hide SeparatorIn, LinkTail;
    TailEnds(p.text, i);
  }

  lemma StepShaped(p: Page, s: State)
    requires s.i < |p.text| && AllShaped(p, s)
    ensures AllShaped(p, Step(p, s))
  {
    hide PieceAt, KindAt, Tail, OpensImage, EscapedAt, SeparatorIn, Sound;
    StepSound(p, s);
    KindLive(p, s.i, s.labels);
    var s' := Step(p, s);
    forall k | 0 <= k < |s'.labels| ensures Opens(p, s'.labels[k]) {
      if k < |s.labels| {
        assert Opens(p, s.labels[k]);
        if k < |s.labels| - 1 { assert s.labels[..|s.labels| - 1][k] == s.labels[k]; }
      }
    }
    if Forms(p, s.i, s.labels) {
      var n := |s.labels| - 1;
      TailShape(p, s.i);
      assert PieceAt(p, s.i, s.labels) == Tail(p, s.i).value by { FormsTail(p, s.i, s.labels); }
      assert Opens(p, s.labels[n]);
      assert s.labels[n].at < s.i by { OpenersBefore(s); }
      assert Shaped(p, FormedAt(p, s.i, s.labels)[0]);
    }
  }

  lemma OpenersBefore(s: State)
    requires Sound(s)
    ensures forall k :: 0 <= k < |s.labels| ==> s.labels[k].at < s.i
  {
  }

  lemma FormsTail(p: Page, i: nat, labels: seq<Opener>)
    requires i < |p.text| && Forms(p, i, labels)
    ensures PieceAt(p, i, labels) == Tail(p, i).value
  {
    hide KindAt, Tail;
  }

  lemma {:induction false} RunShaped(p: Page, s: State)
    requires s.i <= |p.text| && AllShaped(p, s)
    ensures AllShaped(p, Run(p, s))
    decreases |p.text| - s.i
  {
    hide Step, AllShaped;
    if s.i < |p.text| {
      StepShaped(p, s);
      RunShaped(p, Step(p, s));
    }
  }

  /** Every link that forms is written as one, inside one table cell from its `]` on. */
  lemma FormedLinksShaped(p: Page)
    ensures forall f :: f in Run(p, START).formed ==> Shaped(p, f)
  {
    hide Run;
    assert AllShaped(p, START);
    RunShaped(p, START);
  }

  /** The formed link `outer` has `inner` in its label. */
  predicate Holds(outer: Formed, inner: Formed) {
    outer.from < inner.from && inner.after <= outer.close
  }

  /** Formed constructs are apart or one is in the other's label; no link is in a link's. */
  lemma NoLinkInLink(p: Page)
    ensures var formed := Run(p, START).formed;
            forall a, b :: 0 <= a < |formed| && 0 <= b < |formed| && a != b ==>
              && (Holds(formed[a], formed[b]) ==> formed[a].image || formed[b].image)
              && (Holds(formed[a], formed[b]) || Holds(formed[b], formed[a])
                  || formed[a].after <= formed[b].from || formed[b].after <= formed[a].from)
  {
    hide Run;
    assert Sound(START);
    RunSound(p, START);
    var formed := Run(p, START).formed;
    forall a, b | 0 <= a < b < |formed|
      ensures Holds(formed[a], formed[b]) ==> formed[a].image || formed[b].image
      ensures Holds(formed[b], formed[a]) ==> formed[a].image || formed[b].image
      ensures Holds(formed[b], formed[a]) || formed[a].after <= formed[b].from
    {
      assert Laminar(formed[a], formed[b]);
      assert formed[a] in formed && formed[b] in formed;
    }
  }

  /** In the page of a text no link reaches from its `]` over a separator of a table. */
  lemma TailInOneCell(text: string, facts: TableSeparators.Recognizer, boundary: nat -> bool,
                        alpha: char -> bool, alnum: char -> bool, f: Formed, p: nat)
    requires f in Run(PageOf(text, facts, boundary, alpha, alnum), START).formed
    requires TableSeparators.IsSeparator(TableSeparators.LinesOf(text, facts), p)
    ensures p < f.close || f.after - 1 <= p
  {
    hide Run, TableSeparators.SeparatorIndex, TableSeparators.IsSeparator, TableSeparators.Partition;
    var page := PageOf(text, facts, boundary, alpha, alnum);
    FormedLinksShaped(page);
    TableSeparators.LinesPartition(text, 0, facts);
    TableSeparators.SeparatorsExact(text, TableSeparators.LinesOf(text, facts));
    assert !SeparatorIn(page, f.close, f.after - 1);
    assert p in page.separators;
  }
}
