/**
  * Links and table cells in the comment stripper (scripts/check_verity_provenance.py):
  * a link should lie in one cell. Which separators it can reach over all the same, and
  * texts without such links.
  */
module HtmlCells {

  import opened HtmlScan
  import opened GfmLines
  import opened HtmlStrip
  import opened HtmlStripFacts
  import GfmTables
  import TableSeparators

  // ----- What is read as one piece -----------------------------------------

  /** A stretch of the text. */
  datatype Stretch = Stretch(from: nat, after: nat)

  /** A code span, a comment or a tag begins, whatever labels are open. */
  ghost predicate Solid(p: Page, i: nat)
    requires i < |p.text|
  {
    var kind := KindAt(p, i, []);
    kind.Backtick? || kind.Comment? || kind.Markup?
  }

  /** The code span, comment or tag that begins at `i`, as far as it is read in one go. */
  ghost function SolidAt(p: Page, i: nat): Stretch
    requires i < |p.text|
  {
    Stretch(i, PieceAt(p, i, []).after)
  }

  /** The code spans, comments and tags that the run from `s` reads. */
  ghost function Solids(p: Page, s: State): seq<Stretch>
    requires s.i <= |p.text|
    decreases |p.text| - s.i
  {
    if s.i == |p.text| then []
    else Read(p, s.i) + Solids(p, Step(p, s))
  }

  predicate Covers(r: Stretch, k: nat) { r.from < k < r.after }

  /** Labels make no difference to code spans, comments and tags. */
  lemma LabelsAside(p: Page, i: nat, labels: seq<Opener>)
    requires i < |p.text|
    ensures Solid(p, i) <==> KindAt(p, i, labels) in {Kind.Backtick, Kind.Comment, Kind.Markup}
    ensures Solid(p, i) ==>
              KindAt(p, i, labels) == KindAt(p, i, []) && PieceAt(p, i, labels).after == SolidAt(p, i).after
  {
    hide EscapedAt, EndsInlines, OpensTag, CodeSpan, Tag, CommentPiece, Tail;
  }

  /** A separator the loop looks at, between cells or at a line feed. */
  predicate Marks(p: Page, k: nat) { k < |p.text| && p.text[k] in "\n|" }

  // ----- The invariant -----------------------------------------------------

  /** Every separator strictly between the two offsets is passed by inside one of the stretches. */
  predicate PassedBy(p: Page, solids: seq<Stretch>, low: nat, high: nat) {
    forall k :: k in p.separators && low < k < high && Marks(p, k) ==> Inside(solids, low, k, high)
  }

  /** One of the stretches lies between `low` and `high` and has `k` strictly inside. */
  predicate Inside(solids: seq<Stretch>, low: nat, k: nat, high: nat) {
    exists r :: r in solids && low < r.from && r.after <= high && Covers(r, k)
  }

  ghost predicate Passing(p: Page, s: State, solids: seq<Stretch>) {
    && (forall o :: o in s.labels ==> o.at < s.i && PassedBy(p, solids, o.at, s.i))
    && (forall f :: f in s.formed ==> PassedBy(p, solids, f.from, f.close))
  }

  lemma MoreStretches(p: Page, solids: seq<Stretch>, more: seq<Stretch>, low: nat, high: nat)
    requires PassedBy(p, solids, low, high)
    ensures PassedBy(p, solids + more, low, high)
  {
    forall k | k in p.separators && low < k < high && Marks(p, k) ensures Inside(solids + more, low, k, high) {
      var r :| r in solids && low < r.from && r.after <= high && Covers(r, k);
      assert r in solids + more;
    }
  }

  /** Where openers stay, the piece that is read holds no separator but inside a stretch. */
  lemma StepPasses(p: Page, s: State, k: nat)
    requires s.i < |p.text| && LabelsAfter(p, s.i, s.labels) != []
    requires k in p.separators && Marks(p, k) && s.i <= k < PieceAt(p, s.i, s.labels).after
    ensures Solid(p, s.i) && Covers(SolidAt(p, s.i), k)
  {
    hide EscapedAt, OpensTag, CodeSpan, Tag, CommentPiece, LinkTail;
    LabelsAside(p, s.i, s.labels);
    if k == s.i { SeparatorClears(p, s.i, s.labels); }
    if Forms(p, s.i, s.labels) { TailShape(p, s.i); }
  }

  lemma SeparatorClears(p: Page, i: nat, labels: seq<Opener>)
    requires i < |p.text| && i in p.separators && Marks(p, i)
    ensures KindAt(p, i, labels) == Boundary
  {
    hide EscapedAt;
    NoComment(p.text, i);
    assert SeparatorIn(p, i, i + 1);
  }

  lemma OneStep(p: Page, s: State, solids: seq<Stretch>, low: nat)
    requires s.i < |p.text| && LabelsAfter(p, s.i, s.labels) != []
    requires low < s.i && PassedBy(p, solids, low, s.i)
    ensures PassedBy(p, solids + Read(p, s.i), low, Step(p, s).i)
  {
    hide LabelsAfter, Marks, Covers, PieceAt, Solid;
    var all := solids + Read(p, s.i);
    LabelsAside(p, s.i, s.labels);
    forall k | k in p.separators && low < k < Step(p, s).i && Marks(p, k) ensures Inside(all, low, k, Step(p, s).i) {
      if k < s.i {
        var r :| r in solids && low < r.from && r.after <= s.i && Covers(r, k);
        assert r in all;
      } else {
        StepPasses(p, s, k);
        assert SolidAt(p, s.i) in all;
      }
    }
  }

  ghost function Read(p: Page, i: nat): seq<Stretch>
    requires i < |p.text|
  {
    if Solid(p, i) then [SolidAt(p, i)] else []
  }

  lemma StepPassing(p: Page, s: State, solids: seq<Stretch>)
    requires s.i < |p.text| && Passing(p, s, solids)
    ensures Passing(p, Step(p, s), solids + Read(p, s.i))
  {
    hide PassedBy, Read, PieceAt;
    var s', all := Step(p, s), solids + Read(p, s.i);
    LabelOrigins(p, s.i, s.labels);
    forall o | o in s'.labels ensures o.at < s'.i && PassedBy(p, all, o.at, s'.i) {
      if o.at == s.i {
        OpenerPasses(p, s, all);
      } else {
        var b :| b in s.labels && b.at == o.at;
        OneStep(p, s, solids, o.at);
      }
    }
    forall f | f in s'.formed ensures PassedBy(p, all, f.from, f.close) {
      FormedOrigins(p, s, f);
      if f in s.formed {
        MoreStretches(p, solids, Read(p, s.i), f.from, f.close);
      } else {
        var o :| o in s.labels && o.at == f.from;
        MoreStretches(p, solids, Read(p, s.i), o.at, s.i);
      }
    }
  }

  /** An open label was open before, or its bracket has just been read. */
  lemma LabelOrigins(p: Page, i: nat, labels: seq<Opener>)
    requires i < |p.text|
    ensures forall o :: o in LabelsAfter(p, i, labels) ==>
              (o.at == i && KindAt(p, i, labels).Open?) || exists b :: b in labels && b.at == o.at
  {
    hide KindAt, Forms;
    KindChar(p, i, labels);
    var after := LabelsAfter(p, i, labels);
    forall o | o in after
      ensures (o.at == i && KindAt(p, i, labels).Open?) || exists b :: b in labels && b.at == o.at
    {
      var k :| 0 <= k < |after| && after[k] == o;
      if k < |labels| {
        if |after| < |labels| { assert labels[..|labels| - 1][k] == labels[k]; }
        assert labels[k] in labels && labels[k].at == o.at;
      }
    }
  }

  lemma OpenerPasses(p: Page, s: State, solids: seq<Stretch>)
    requires s.i < |p.text| && KindAt(p, s.i, s.labels).Open?
    ensures Step(p, s).i == s.i + 1 && PassedBy(p, solids, s.i, s.i + 1)
  {
    hide KindAt;
  }

  lemma FormedOrigins(p: Page, s: State, f: Formed)
    requires s.i < |p.text| && f in Step(p, s).formed
    ensures f in s.formed || (f.close == s.i && exists o :: o in s.labels && o.at == f.from)
  {
    hide PieceAt, LabelsAfter;
    if f !in s.formed {
      assert f in FormedAt(p, s.i, s.labels);
      KindChar(p, s.i, s.labels);
      assert s.labels[|s.labels| - 1] in s.labels;
    }
  }

  lemma {:induction false} RunPassing(p: Page, s: State, solids: seq<Stretch>)
    requires s.i <= |p.text| && Passing(p, s, solids)
    ensures Passing(p, Run(p, s), solids + Solids(p, s))
    decreases |p.text| - s.i
  {
    hide Passing, Step, Read;
    if s.i == |p.text| {
      assert solids + [] == solids;
    } else {
      StepPassing(p, s, solids);
      RunPassing(p, Step(p, s), solids + Read(p, s.i));
      assert solids + (Read(p, s.i) + Solids(p, Step(p, s))) == (solids + Read(p, s.i)) + Solids(p, Step(p, s));
    }
  }

  // ----- Main results ------------------------------------------------------

  /** Each stretch is one of the text's code spans, comments and tags. */
  lemma {:induction false} SolidsOfText(p: Page, s: State, r: Stretch)
    requires s.i <= |p.text| && r in Solids(p, s)
    ensures r.from < |p.text| && Solid(p, r.from) && r == SolidAt(p, r.from)
    decreases |p.text| - s.i
  {
    hide Solid, PieceAt, LabelsAfter, FormedAt;
    assert s.i < |p.text|;
    assert Solids(p, s) == Read(p, s.i) + Solids(p, Step(p, s));
    if r !in Read(p, s.i) { SolidsOfText(p, Step(p, s), r); }
  }

  /**
    * A separator that the loop looks at lies between the brackets and parentheses of a
    * formed link exactly where the link's label has it inside a code span, a comment or a
    * tag that was read in one go.
    */
  lemma ReachedExactly(p: Page, f: Formed, k: nat)
    requires f in Run(p, START).formed && k in p.separators && Marks(p, k)
    ensures f.from <= k < f.after <==> Inside(Solids(p, START), f.from, k, f.close)
  {
    hide Run, Solids;
    assert Passing(p, START, []);
    RunPassing(p, START, []);
    assert [] + Solids(p, START) == Solids(p, START);
    FormedLinksShaped(p);
    assert PassedBy(p, Solids(p, START), f.from, f.close);
    ShapeMarks(p, f, k);
  }

  lemma ShapeMarks(p: Page, f: Formed, k: nat)
    requires Shaped(p, f) && k in p.separators && Marks(p, k)
    ensures f.from <= k < f.after <==> f.from < k < f.close
  {
    hide EscapedAt, OpensImage;
  }

  /** The tables' separators are pipes and line ends. */
  lemma SeparatorChars(text: string, facts: TableSeparators.Recognizer, k: nat)
    requires TableSeparators.IsSeparator(TableSeparators.LinesOf(text, facts), k)
    ensures k < |text| && text[k] in "|\n\r"
    ensures k in TableSeparators.SeparatorIndex(TableSeparators.LinesOf(text, facts))
  {
    hide TableSeparators.SeparatorIndex, TableSeparators.LinesFrom, TableSeparators.LineText,
      TableSeparators.SeparatesIn, GfmTables.Scan;
    var lines := TableSeparators.LinesOf(text, facts);
    TableSeparators.LinesPartition(text, 0, facts);
    TableSeparators.SeparatorsExact(text, lines);
    var j :| 0 <= j < |lines| && TableSeparators.SeparatesIn(lines[j], k);
    SeparatorOfLine(text, lines[j], k);
  }

  lemma SeparatorOfLine(text: string, l: Line, k: nat)
    requires TableSeparators.LineText(text, l) && l.start < l.end && TableSeparators.SeparatesIn(l, k)
    ensures k < |text| && text[k] in "|\n\r"
  {
    if k < l.start + |l.text| { assert text[l.start..l.end][k - l.start] == l.text[k - l.start]; }
  }

  /** No separator of a table stands between a link's brackets and parentheses. */
  ghost predicate OneCell(lines: seq<Line>, f: Formed) {
    forall k: nat :: TableSeparators.IsSeparator(lines, k) ==> !(f.from <= k < f.after)
  }

  /**
    * A formed link reaches over a separator of a table exactly where its label has the
    * separator inside a code span, a comment or a tag, or where that separator is the
    * carriage return that ends a row.
    */
  lemma CrossedExactly(text: string, facts: TableSeparators.Recognizer, boundary: nat -> bool,
                       alpha: char -> bool, alnum: char -> bool, f: Formed, k: nat)
    requires f in Run(PageOf(text, facts, boundary, alpha, alnum), START).formed
    requires TableSeparators.IsSeparator(TableSeparators.LinesOf(text, facts), k)
    ensures k < |text|
    ensures f.from <= k < f.after
       <==> || Inside(Solids(PageOf(text, facts, boundary, alpha, alnum), START), f.from, k, f.close)
            || (text[k] == '\r' && f.from < k < f.close)
  {
    hide Run, TableSeparators.SeparatorIndex, TableSeparators.IsSeparator, Solids;
    var page := PageOf(text, facts, boundary, alpha, alnum);
    SeparatorChars(text, facts, k);
    FormedLinksShaped(page);
    if text[k] == '\r' { ShapeReturns(page, f, k); } else { ReachedExactly(page, f, k); }
  }

  lemma ShapeReturns(p: Page, f: Formed, k: nat)
    requires Shaped(p, f) && k in p.separators && k < |p.text| && p.text[k] == '\r'
    ensures f.from <= k < f.after <==> f.from < k < f.close
  {
    hide EscapedAt, OpensImage;
  }

  /** So a link lies in one cell exactly where no such piece, and no such carriage return, is in its label. */
  lemma OneCellExactly(text: string, facts: TableSeparators.Recognizer, boundary: nat -> bool,
                       alpha: char -> bool, alnum: char -> bool, f: Formed)
    requires f in Run(PageOf(text, facts, boundary, alpha, alnum), START).formed
    ensures var lines, page := TableSeparators.LinesOf(text, facts), PageOf(text, facts, boundary, alpha, alnum);
            (OneCell(lines, f)
             <==> forall k: nat :: TableSeparators.IsSeparator(lines, k) && f.from < k < f.close ==>
                    k < |text| && text[k] != '\r' && !Inside(Solids(page, START), f.from, k, f.close))
  {
    hide Run, TableSeparators.SeparatorIndex, TableSeparators.IsSeparator, Solids, TableSeparators.LinesFrom;
    var lines, page := TableSeparators.LinesOf(text, facts), PageOf(text, facts, boundary, alpha, alnum);
    forall k: nat | TableSeparators.IsSeparator(lines, k)
      ensures k < |text|
      ensures f.from <= k < f.after
         <==> || Inside(Solids(page, START), f.from, k, f.close)
              || (text[k] == '\r' && f.from < k < f.close)
    {
      CrossedExactly(text, facts, boundary, alpha, alnum, f, k);
    }
  }

  /**
    * Where no code span, comment or tag of the text holds a separator and no row ends in a
    * carriage return, every link that forms lies in one cell.
    */
  lemma OneCellByText(text: string, facts: TableSeparators.Recognizer, boundary: nat -> bool,
                      alpha: char -> bool, alnum: char -> bool)
    requires forall k: nat :: TableSeparators.IsSeparator(TableSeparators.LinesOf(text, facts), k) ==>
               k < |text| && text[k] != '\r' && !HeldSomewhere(PageOf(text, facts, boundary, alpha, alnum), k)
    ensures forall f :: f in Run(PageOf(text, facts, boundary, alpha, alnum), START).formed ==>
              OneCell(TableSeparators.LinesOf(text, facts), f)
  {
    hide Run, TableSeparators.SeparatorIndex, TableSeparators.IsSeparator, TableSeparators.LinesFrom, Solids, SolidAt,
      Solid;
    var lines, page := TableSeparators.LinesOf(text, facts), PageOf(text, facts, boundary, alpha, alnum);
    forall f | f in Run(page, START).formed ensures OneCell(lines, f) {
      OneCellExactly(text, facts, boundary, alpha, alnum, f);
      forall k: nat | TableSeparators.IsSeparator(lines, k) ensures !Inside(Solids(page, START), f.from, k, f.close) {
        if Inside(Solids(page, START), f.from, k, f.close) {
          var r :| r in Solids(page, START) && Covers(r, k);
          SolidsOfText(page, START, r);
        }
      }
    }
  }

  /** Some code span, comment or tag of the text has the offset strictly inside. */
  ghost predicate HeldSomewhere(p: Page, k: nat) {
    exists i: nat :: i < |p.text| && Solid(p, i) && Covers(SolidAt(p, i), k)
  }
}
