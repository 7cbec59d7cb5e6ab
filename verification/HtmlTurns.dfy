/**
  * What the comment stripper (scripts/check_verity_provenance.py) prints: each turn of its
  * loop as the text alone determines it, and every run as a chain of such turns.
  */
module HtmlTurns {

  import opened Wrappers
  import opened HtmlScan
  import opened HtmlConstructs
  import opened HtmlStrip
  import HtmlStripFacts
  import opened HtmlPatterns
  import opened HtmlTails

  // ----- One turn, from the text -------------------------------------------

  /** The state after `out` is printed for the stretch up to `e`. */
  function Printed(a: State, e: nat, out: string): State { State(e, a.out + out, a.labels, a.formed) }

  /** The characters of the mark stand at `i`. */
  predicate Reads(t: string, i: nat, mark: string) {
    forall k :: 0 <= k < |mark| ==> i + k < |t| && t[i + k] == mark[k]
  }

  /** The first run of just `length` backticks from `from` on. */
  predicate FirstRun(t: string, from: nat, c: nat, length: nat) {
    RunAt(t, from, c, length) && forall k :: from <= k < c ==> !RunAt(t, from, k, length)
  }

  /** A run of backticks up to `j`: a code span up to the first run as long, or the run alone. */
  ghost predicate SpanTurn(t: string, a: State, b: State, j: nat, m: nat)
    requires a.i <= j <= |t|
  {
    && (forall c: nat :: FirstRun(t, j, c, m) ==> SpanPrinted(t, a, b, j, c))
    && ((forall c: nat :: !FirstRun(t, j, c, m)) ==> b == Printed(a, j, t[a.i..j]))
  }

  /** A span on one line is printed whole; of one over several lines only the line ends. */
  predicate SpanPrinted(t: string, a: State, b: State, j: nat, c: nat) {
    var e := c + (j - a.i);
    && a.i <= j <= c && e <= |t|
    && b == Printed(a, e, if '\n' in t[j..c] then LineEnds(t[a.i..e]) else t[a.i..e])
  }

  ghost predicate TickTurn(t: string, a: State, b: State)
    requires a.i <= |t|
  {
    if EscapedAt(t, a.i) then b == Printed(a, a.i + 1, "`")
    else exists j: nat :: SpanFrom(t, a, b, j)
  }

  ghost predicate SpanFrom(t: string, a: State, b: State, j: nat) {
    a.i < j && RunAt(t, a.i, a.i, j - a.i) && SpanTurn(t, a, b, j, j - a.i)
  }

  predicate FirstMark(t: string, from: nat, end: nat) {
    from <= end && Reads(t, end, "-->") && forall k :: from <= k < end ==> !Reads(t, k, "-->")
  }

  /** A comment prints its line ends; one that never ends prints nothing, and nothing follows. */
  ghost predicate CommentTo(t: string, a: State, b: State, from: nat) {
    && (forall end: nat :: FirstMark(t, from, end) ==>
          a.i <= end && end + 3 <= |t| && b == Printed(a, end + 3, LineEnds(t[a.i..end + 3])))
    && ((forall end: nat :: !FirstMark(t, from, end)) ==> b == Printed(a, |t|, ""))
  }

  ghost predicate CommentTurn(t: string, a: State, b: State)
    requires a.i <= |t|
  {
    if EscapedAt(t, a.i) then b == Printed(a, a.i + 1, "<") else CommentTo(t, a, b, a.i + 4)
  }

  /** A tag up to its end prints everything but the values over several lines; without one, its bracket. */
  ghost predicate TagTo(t: string, a: State, b: State, from: nat, e: nat) {
    && a.i <= from <= e <= |t| && TagEnds(t, from, Some(e))
    && b == Printed(a, e, t[a.i..from] + Shown(t, from, from, e))
  }

  ghost predicate TagTurn(p: Page, a: State, b: State) {
    exists from: nat :: NameReaches(p.text, a.i, from, p.alnum) &&
      ((TagEnds(p.text, from, None) && b == Printed(a, a.i + 1, "<")) || exists e: nat :: TagTo(p.text, a, b, from, e))
  }

  /** The tail is written after the `]` at `i`, and no separator stands before its parenthesis. */
  ghost predicate Links(p: Page, i: nat, e: nat, out: string) {
    && i + 1 < |p.text| && p.text[i + 1] == '(' && IsTail(p.text, i, e, out)
    && forall k :: k in p.separators ==> !(i <= k < e - 1)
  }

  /** After a link only images can form. */
  predicate Silenced(labels: seq<Opener>, r: seq<Opener>) {
    && |r| == |labels|
    && forall k :: 0 <= k < |r| ==>
         r[k] == Opener(labels[k].image, labels[k].active && labels[k].image, labels[k].at)
  }

  /** A link or image forms, up to `e`. */
  ghost predicate Forming(p: Page, a: State, b: State, e: nat, out: string)
    requires a.labels != []
  {
    var rest, top := a.labels[..|a.labels| - 1], a.labels[|a.labels| - 1];
    && Links(p, a.i, e, out)
    && b.i == e && b.out == a.out + out && b.formed == a.formed + [Formed(top.image, top.at, a.i, e)]
    && (if top.image then b.labels == rest else Silenced(rest, b.labels))
  }

  /** A closing bracket takes the last label. */
  ghost predicate CloseTurn(p: Page, a: State, b: State)
    requires a.labels != []
  {
    var rest, top := a.labels[..|a.labels| - 1], a.labels[|a.labels| - 1];
    if top.active && exists e, out :: Links(p, a.i, e, out) then exists e: nat, out :: Forming(p, a, b, e, out)
    else b == State(a.i + 1, a.out + "]", rest, a.formed)
  }

  predicate BeginsTag(p: Page, i: nat) {
    i + 1 < |p.text| && p.text[i] == '<' && (p.alpha(p.text[i + 1]) || p.text[i + 1] == '/')
  }

  predicate Divides(p: Page, i: nat) {
    i < |p.text| &&
    ((p.text[i] == '|' && i in p.separators) || (p.text[i] == '\n' && (i in p.separators || p.boundary(i))))
  }

  /** From `a` the loop goes on to `b`. */
  ghost predicate Turned(p: Page, a: State, b: State) {
    var t, i := p.text, a.i;
    && i < |t|
    && if t[i] == '`' then TickTurn(t, a, b)
       else if Reads(t, i, "<!--") then CommentTurn(t, a, b)
       else if BeginsTag(p, i) then TagTurn(p, a, b)
       else if Live(t, i, '[') then
         b == State(i + 1, a.out + "[",
                    a.labels + [Opener(i > 0 && Live(t, i - 1, '!'), true, i)], a.formed)
       else if Divides(p, i) then b == State(i + 1, a.out + [t[i]], [], a.formed)
       else if Live(t, i, ']') && a.labels != [] then CloseTurn(p, a, b)
       else b == Printed(a, i + 1, [t[i]])
  }

  // ----- The loop takes these turns ----------------------------------------

  lemma ReadsBegins(t: string, i: nat, mark: string)
    requires mark != ""
    ensures Reads(t, i, mark) <==> Begins(t, i, mark)
  {
    if Reads(t, i, mark) {
      var last := mark[|mark| - 1];
      assert i + (|mark| - 1) < |t| && t[i + (|mark| - 1)] == last;
      assert t[i..i + |mark|] == mark;
    }
    if Begins(t, i, mark) {
      forall k | 0 <= k < |mark| ensures t[i + k] == mark[k] { assert t[i..i + |mark|][k] == t[i + k]; }
    }
  }

  lemma TickStep(t: string, a: State)
    requires a.i < |t| && t[a.i] == '`' && !EscapedAt(t, a.i)
    ensures TickTurn(t, a, Printed(a, CodeSpan(t, a.i).after, CodeSpan(t, a.i).out))
  {
    hide RunEnd, CloserFrom, OnlyNewlines, LineEnds, SpanTurn, CodeSpan, EscapedAt;
    RunEndExact(t, a.i);
    var j := RunEnd(t, a.i);
    assert RunAt(t, a.i, a.i, j - a.i);
    SpanStep(t, a, j);
    assert SpanFrom(t, a, Printed(a, CodeSpan(t, a.i).after, CodeSpan(t, a.i).out), j);
  }

  lemma SpanStep(t: string, a: State, j: nat)
    requires a.i < |t| && t[a.i] == '`' && j == RunEnd(t, a.i)
    ensures SpanTurn(t, a, Printed(a, CodeSpan(t, a.i).after, CodeSpan(t, a.i).out), j, j - a.i)
  {
    hide RunEnd, CloserFrom, RunAt, CodeSpan;
    RunEndExact(t, a.i);
    var m := j - a.i;
    CloserExact(t, j, j, m);
    SpanPiece(t, a, j);
    match CloserFrom(t, j, m) {
      case None =>
        forall c: nat ensures !FirstRun(t, j, c, m) { RunInText(t, j, c, m); }
      case Some(k) =>
        RunInText(t, j, k, m);
        assert FirstRun(t, j, k, m);
        forall c: nat ensures FirstRun(t, j, c, m) ==> c == k {
          if FirstRun(t, j, c, m) { OneFirstRun(t, j, c, k, m); }
        }
    }
  }

  lemma SpanPiece(t: string, a: State, j: nat)
    requires a.i < |t| && t[a.i] == '`' && j == RunEnd(t, a.i)
    ensures var b := Printed(a, CodeSpan(t, a.i).after, CodeSpan(t, a.i).out);
            match CloserFrom(t, j, j - a.i)
            case None => b == Printed(a, j, t[a.i..j])
            case Some(k) => SpanPrinted(t, a, b, j, k)
  {
    hide RunEnd, CloserFrom, OnlyNewlines, LineEnds;
    match CloserFrom(t, j, j - a.i) {
      case None =>
      case Some(k) => OnlyLineEnds(t[a.i..k + (j - a.i)]);
    }
  }

  lemma RunInText(t: string, from: nat, c: nat, m: nat)
    ensures RunAt(t, from, c, m) ==> from <= c <= |t|
  {
  }

  lemma OneFirstRun(t: string, from: nat, c: nat, k: nat, m: nat)
    requires FirstRun(t, from, c, m) && FirstRun(t, from, k, m)
    ensures c == k
  {
    hide RunAt;
    RunInText(t, from, c, m);
    RunInText(t, from, k, m);
  }

  lemma CommentStep(t: string, a: State)
    requires a.i < |t|
    ensures CommentTo(t, a, Printed(a, CommentPiece(t, a.i).after, CommentPiece(t, a.i).out), a.i + 4)
  {
    hide Begins, CommentEnd, OnlyNewlines, LineEnds, Reads;
    var from := a.i + 4;
    CommentEndFirst(t, from);
    forall k: nat ensures Reads(t, k, "-->") <==> Begins(t, k, "-->") { ReadsBegins(t, k, "-->"); }
    match CommentEnd(t, from) {
      case None =>
        forall end: nat ensures !FirstMark(t, from, end) {
        }
      case Some(end) =>
        OnlyLineEnds(t[a.i..end + 3]);
        assert FirstMark(t, from, end);
        forall other: nat ensures FirstMark(t, from, other) ==> other == end {
        }
    }
  }

  lemma TagStep(p: Page, a: State)
    requires BeginsTag(p, a.i)
    ensures TagTurn(p, a, match Tag(p.text, a.i, p.alnum)
                          case Some(q) => Printed(a, q.after, q.out)
                          case None => Printed(a, a.i + 1, "<"))
  {
    hide Tag, TagEnds, Shown, NameEnd;
    var from := NameEnd(p.text, a.i + 1, p.alnum);
    NameEndExact(p.text, a.i + 1, p.alnum);
    TagExactly(p.text, a.i, from, p.alnum);
    if Tag(p.text, a.i, p.alnum).Some? {
      var q := Tag(p.text, a.i, p.alnum).value;
      assert TagTo(p.text, a, Printed(a, q.after, q.out), from, q.after);
    }
  }

  lemma TailStep(p: Page, i: nat)
    requires i < |p.text|
    ensures forall e, out :: Links(p, i, e, out) <==> Tail(p, i) == Some(Piece(e, out))
  {
    hide LinkTail, IsTail;
    forall e, out ensures Links(p, i, e, out) <==> Tail(p, i) == Some(Piece(e, out)) {
      if i + 1 < |p.text| { TailExactly(p.text, i, e, out); }
    }
  }

  lemma CloseStep(p: Page, a: State)
    requires a.i < |p.text| && KindAt(p, a.i, a.labels) == Close
    ensures a.labels != [] && p.text[a.i] == ']' && CloseTurn(p, a, Step(p, a))
  {
    hide KindAt, Tail, Links;
    KindChar(p, a.i, a.labels);
    TailStep(p, a.i);
    var rest, top := a.labels[..|a.labels| - 1], a.labels[|a.labels| - 1];
    if Forms(p, a.i, a.labels) {
      var q := Tail(p, a.i).value;
      assert PieceAt(p, a.i, a.labels) == q;
      assert Links(p, a.i, q.after, q.out);
      assert Forming(p, a, Step(p, a), q.after, q.out);
    } else {
      assert a.formed + [] == a.formed;
      if top.active {
        forall e, out ensures !Links(p, a.i, e, out) {
          assert Links(p, a.i, e, out) <==> Tail(p, a.i) == Some(Piece(e, out));
        }
      }
    }
  }

  lemma DividesExactly(p: Page, i: nat)
    requires i < |p.text|
    ensures Divides(p, i) <==> EndsInlines(p, i)
  {
  }

  /** Which turn it is, read from the text. */
  lemma KindStep(p: Page, a: State)
    requires a.i < |p.text|
    ensures var t, i := p.text, a.i;
      KindAt(p, i, a.labels)
      == if t[i] == '`' then Backtick
         else if Reads(t, i, "<!--") then Comment
         else if BeginsTag(p, i) then Markup
         else if Live(t, i, '[') then Open
         else if Divides(p, i) then Boundary
         else if Live(t, i, ']') && a.labels != [] then Close
         else Plain
  {
    hide EscapedAt, EndsInlines, Divides, Reads, Begins;
    ReadsBegins(p.text, a.i, "<!--");
    DividesExactly(p, a.i);
  }

  /** Every turn of the loop is the one the text determines. */
  lemma StepTurned(p: Page, a: State)
    requires a.i < |p.text|
    ensures Turned(p, a, Step(p, a))
  {
    hide KindAt, TickTurn, CommentTo, TagTurn, CloseTurn, Divides, Reads, CodeSpan, Tag, CommentPiece, EscapedAt;
    KindStep(p, a);
    match KindAt(p, a.i, a.labels) {
      case Close => CloseStep(p, a);
      case Backtick => BacktickStep(p, a);
      case Comment =>
        assert p.text[a.i] == '<' by { CommentChar(p.text, a.i); }
        CommentKindStep(p, a);
      case Markup => MarkupStep(p, a);
      case _ => OneStep(p, a);
    }
  }

  lemma CommentChar(t: string, i: nat)
    requires Reads(t, i, "<!--")
    ensures i < |t| && t[i] == '<'
  {
    var mark := "<!--";
    ReadsBegins(t, i, mark);
    assert t[i..i + |mark|][0] == mark[0];
  }

  /** Turns that touch no label. */
  lemma Unlabelled(p: Page, a: State)
    requires a.i < |p.text|
    requires var k := KindAt(p, a.i, a.labels); k.Backtick? || k.Comment? || k.Markup? || k.Plain?
    ensures Step(p, a) == Printed(a, PieceAt(p, a.i, a.labels).after, PieceAt(p, a.i, a.labels).out)
  {
    hide KindAt, PieceAt;
    assert a.formed + [] == a.formed;
  }

  lemma BacktickStep(p: Page, a: State)
    requires a.i < |p.text| && KindAt(p, a.i, a.labels) == Backtick
    ensures TickTurn(p.text, a, Step(p, a))
  {
    hide KindAt, CodeSpan, EscapedAt, RunAt, SpanTurn;
    Unlabelled(p, a);
    KindChar(p, a.i, a.labels);
    if !EscapedAt(p.text, a.i) { TickStep(p.text, a); }
  }

  lemma CommentKindStep(p: Page, a: State)
    requires a.i < |p.text| && p.text[a.i] == '<' && KindAt(p, a.i, a.labels) == Comment
    ensures CommentTurn(p.text, a, Step(p, a))
  {
    hide KindAt, CommentPiece, CommentTo, EscapedAt;
    Unlabelled(p, a);
    if !EscapedAt(p.text, a.i) { CommentStep(p.text, a); }
  }

  lemma MarkupStep(p: Page, a: State)
    requires a.i < |p.text| && BeginsTag(p, a.i) && KindAt(p, a.i, a.labels) == Markup
    ensures TagTurn(p, a, Step(p, a))
  {
    hide KindAt, Tag, TagTurn;
    Unlabelled(p, a);
    TagStep(p, a);
  }

  /** Brackets that open, separators, and everything else. */
  lemma OneStep(p: Page, a: State)
    requires a.i < |p.text|
    ensures var t, i := p.text, a.i;
      match KindAt(p, i, a.labels)
      case Open =>
        Step(p, a) == State(i + 1, a.out + [t[i]],
                            a.labels + [Opener(i > 0 && Live(t, i - 1, '!'), true, i)], a.formed)
      case Boundary => Step(p, a) == State(i + 1, a.out + [t[i]], [], a.formed)
      case Plain => Step(p, a) == Printed(a, i + 1, [t[i]])
      case _ => true
  {
    hide KindAt, EscapedAt;
    assert a.formed + [] == a.formed;
  }

  // ----- Whole runs --------------------------------------------------------

  /** The states of a run over the whole text, one turn after the other. */
  ghost predicate IsRun(p: Page, states: seq<State>, from: State) {
    && states != [] && states[0] == from && states[|states| - 1].i == |p.text|
    && forall k :: 0 <= k < |states| - 1 ==> Turned(p, states[k], states[k + 1])
  }

  lemma {:induction false} RunTurns(p: Page, s: State) returns (states: seq<State>)
    requires s.i <= |p.text|
    ensures IsRun(p, states, s) && states[|states| - 1] == Run(p, s)
    decreases |p.text| - s.i
  {
    hide Step, Turned;
    if s.i == |p.text| {
      states := [s];
    } else {
      StepTurned(p, s);
      var rest := RunTurns(p, Step(p, s));
      states := [s] + rest;
      forall k | 0 <= k < |states| - 1 ensures Turned(p, states[k], states[k + 1]) {
        assert states[k + 1] == rest[k];
        assert k > 0 ==> states[k] == rest[k - 1];
      }
    }
  }

  /** The text prints this: some chain of turns from the first offset to the last does. */
  ghost predicate Prints(p: Page, out: string) {
    exists states: seq<State> ::
      IsRun(p, states, State(0, "", [], [])) && states[|states| - 1].out == out
  }

  /** The output is that of a chain of turns, each of them determined by the text. */
  lemma PrintedExactly(p: Page)
    ensures Prints(p, Run(p, START).out)
  {
    hide Run;
    var states := RunTurns(p, START);
  }

  // ----- Comments and code spans of any run --------------------------------

  /** `mark` stands at `i`, then `c`, then `end`. */
  predicate Encloses(t: string, i: nat, mark: string, c: string, end: string) {
    i + |mark| + |c| + |end| <= |t| && t[i..i + |mark| + |c| + |end|] == mark + c + end
  }

  lemma EnclosedAt(t: string, i: nat, mark: string, c: string, end: string)
    requires Encloses(t, i, mark, c, end)
    ensures forall k :: 0 <= k < |mark| ==> t[i + k] == mark[k]
    ensures forall k :: 0 <= k < |c| ==> t[i + |mark| + k] == c[k]
    ensures forall k :: 0 <= k < |end| ==> t[i + |mark| + |c| + k] == end[k]
  {
    var s := t[i..i + |mark| + |c| + |end|];
    forall k | 0 <= k < |mark| ensures t[i + k] == mark[k] { assert s[k] == t[i + k]; }
    forall k | 0 <= k < |c| ensures t[i + |mark| + k] == c[k] { assert s[|mark| + k] == t[i + |mark| + k]; }
    forall k | 0 <= k < |end| ensures t[i + |mark| + |c| + k] == end[k] {
      assert s[|mark| + |c| + k] == t[i + |mark| + |c| + k];
    }
  }

  /** The end mark cannot begin inside the comment and end in the mark that closes it. */
  lemma FirstEnd(t: string, i: nat, c: string)
    requires Encloses(t, i, "<!--", c, "-->") && forall k :: 0 <= k < |c| ==> !Reads(c, k, "-->")
    ensures FirstMark(t, i + 4, i + 4 + |c|)
  {
    EnclosedAt(t, i, "<!--", c, "-->");
    var e := i + 4 + |c|;
    assert t[e + 0] == '-' && t[e + 1] == '-' && t[e + 2] == '>';
    assert Reads(t, e, "-->");
    assert forall n :: 0 <= n < |c| ==> t[(i + 4) + n] == c[n];
    forall k | i + 4 <= k < e ensures !Reads(t, k, "-->") {
      if Reads(t, k, "-->") { EndInside(t, i + 4, c, k); }
    }
  }

  lemma EndInside(t: string, from: nat, c: string, k: nat)
    requires from + |c| + 3 <= |t| && from <= k < from + |c| && Reads(t, k, "-->")
    requires forall n :: 0 <= n < |c| ==> t[from + n] == c[n]
    requires t[from + |c|] == '-' && t[from + |c| + 1] == '-'
    ensures Reads(c, k - from, "-->")
  {
    var m := k - from;
    var mark := "-->";
    assert t[k + 0] == mark[0] && t[k + 1] == mark[1] && t[k + 2] == mark[2];
    assert m + 2 < |c|;
    assert t[from + m] == c[m] && t[from + (m + 1)] == c[m + 1] && t[from + (m + 2)] == c[m + 2];
  }

  /** A comment the run comes to is replaced by its line ends. */
  lemma CommentStripped(p: Page, s: State, c: string)
    requires Encloses(p.text, s.i, "<!--", c, "-->") && forall k :: 0 <= k < |c| ==> !Reads(c, k, "-->")
    requires !EscapedAt(p.text, s.i)
    ensures Run(p, s) == Run(p, State(s.i + 7 + |c|, s.out + LineEnds(c), s.labels, s.formed))
  {
    hide Run, Step, EscapedAt, FirstMark, LineEnds, CommentTo;
    var t, i := p.text, s.i;
    assert t[i] == '<' && Reads(t, i, "<!--") by { CommentOpens(t, i, c); }
    StepTurned(p, s);
    CommentNext(t, s, Step(p, s), c);
    NextTurn(p, s);
  }

  lemma CommentOpens(t: string, i: nat, c: string)
    requires Encloses(t, i, "<!--", c, "-->")
    ensures t[i] == '<' && Reads(t, i, "<!--")
  {
    EnclosedAt(t, i, "<!--", c, "-->");
    assert t[i + 0] == '<';
  }

  lemma CommentNext(t: string, a: State, b: State, c: string)
    requires Encloses(t, a.i, "<!--", c, "-->") && forall k :: 0 <= k < |c| ==> !Reads(c, k, "-->")
    requires CommentTo(t, a, b, a.i + 4)
    ensures b == Printed(a, a.i + 7 + |c|, LineEnds(c))
  {
    hide FirstMark, LineEnds, Reads;
    FirstEnd(t, a.i, c);
    MarksHoldNoLineEnd("<!--", c, "-->");
    assert t[a.i..a.i + 4 + |c| + 3] == "<!--" + c + "-->";
  }

  lemma MarksHoldNoLineEnd(a: string, c: string, b: string)
    requires '\n' !in a && '\n' !in b
    ensures LineEnds(a + c + b) == LineEnds(c)
  {
    assert multiset(a + c + b) == multiset(a) + multiset(c) + multiset(b);
  }

  lemma NextTurn(p: Page, s: State)
    requires s.i < |p.text|
    ensures Run(p, s) == Run(p, Step(p, s))
  {
    hide Step;
  }

  function Ticks(m: nat): (s: string)
    ensures |s| == m && forall k :: 0 <= k < m ==> s[k] == '`'
  {
    seq(m, _ => '`')
  }

  lemma SpanRuns(t: string, i: nat, m: nat, c: string, from: nat)
    requires m > 0 && c != "" && c[0] != '`' && c[|c| - 1] != '`' && from == i + m
    requires Encloses(t, i, Ticks(m), c, Ticks(m)) && (from + |c| + m < |t| ==> t[from + |c| + m] != '`')
    requires forall k :: 0 <= k < |c| ==> !RunAt(c, 0, k, m)
    ensures RunAt(t, i, i, m) && FirstRun(t, from, from + |c|, m)
  {
    EnclosedAt(t, i, Ticks(m), c, Ticks(m));
    var e := from + |c|;
    assert t[i + m + 0] == c[0] && t[i + m + (|c| - 1)] == c[|c| - 1];
    forall k | i <= k < from ensures t[k] == '`' { assert t[i + (k - i)] == Ticks(m)[k - i]; }
    forall k | e <= k < e + m ensures t[k] == '`' { assert t[e + (k - e)] == Ticks(m)[k - e]; }
    assert forall n :: 0 <= n < |c| ==> t[from + n] == c[n];
    forall k: nat | from <= k < e ensures !RunAt(t, from, k, m) {
      if RunAt(t, from, k, m) { RunInside(t, from, k, m, c); }
    }
  }

  lemma OneLength(t: string, i: nat, m: nat, n: nat)
    requires m > 0 && n > 0 && RunAt(t, i, i, m) && RunAt(t, i, i, n)
    ensures m == n
  {
  }

  /** A run that begins in the content is a run of the content. */
  lemma RunInside(t: string, from: nat, k: nat, m: nat, c: string)
    requires m > 0 && from <= k < from + |c| <= |t| && RunAt(t, from, k, m) && c != "" && c[|c| - 1] != '`'
    requires forall n :: 0 <= n < |c| ==> t[from + n] == c[n]
    ensures RunAt(c, 0, k - from, m)
  {
    var n := k - from;
    RunStops(t, from, k, m, c);
    forall x | n <= x < n + m ensures c[x] == '`' { assert t[from + x] == '`'; }
    assert n > 0 ==> t[from + (n - 1)] == c[n - 1];
    assert t[from + (n + m)] == c[n + m];
  }

  lemma RunStops(t: string, from: nat, k: nat, m: nat, c: string)
    requires m > 0 && from <= k < from + |c| <= |t| && RunAt(t, from, k, m) && c != "" && c[|c| - 1] != '`'
    requires forall n :: 0 <= n < |c| ==> t[from + n] == c[n]
    ensures k - from + m < |c|
  {
    assert t[from + (|c| - 1)] == c[|c| - 1];
  }

  /** A code span the run comes to is printed whole on one line, and as its line ends over several. */
  lemma SpanShown(p: Page, s: State, m: nat, c: string)
    requires m > 0 && c != "" && c[0] != '`' && c[|c| - 1] != '`'
    requires Encloses(p.text, s.i, Ticks(m), c, Ticks(m)) && !EscapedAt(p.text, s.i)
    requires s.i + m + |c| + m < |p.text| ==> p.text[s.i + m + |c| + m] != '`'
    requires forall k :: 0 <= k < |c| ==> !RunAt(c, 0, k, m)
    ensures Run(p, s)
         == Run(p, State(s.i + m + |c| + m, s.out + if '\n' in c then LineEnds(c) else Ticks(m) + c + Ticks(m),
                         s.labels, s.formed))
  {
    hide Run, Step, EscapedAt, LineEnds, RunAt;
    NextTurn(p, s);
    SpanNext(p, s, m, c);
  }

  lemma SpanNext(p: Page, s: State, m: nat, c: string)
    requires m > 0 && c != "" && c[0] != '`' && c[|c| - 1] != '`'
    requires Encloses(p.text, s.i, Ticks(m), c, Ticks(m)) && !EscapedAt(p.text, s.i)
    requires s.i + m + |c| + m < |p.text| ==> p.text[s.i + m + |c| + m] != '`'
    requires forall k :: 0 <= k < |c| ==> !RunAt(c, 0, k, m)
    ensures Step(p, s)
         == Printed(s, s.i + m + |c| + m, if '\n' in c then LineEnds(c) else Ticks(m) + c + Ticks(m))
  {
    hide Step, EscapedAt, FirstRun, LineEnds, RunAt, SpanPrinted, Turned, Ticks, TickTurn, Encloses;
    SpanRuns(p.text, s.i, m, c, s.i + m);
    SpanTick(p, s, m, c);
    SpanTaken(p.text, s, Step(p, s), m, s.i + m + |c|);
    SpanResult(p.text, s, Step(p, s), m, c);
  }

  lemma SpanTick(p: Page, s: State, m: nat, c: string)
    requires m > 0 && Encloses(p.text, s.i, Ticks(m), c, Ticks(m))
    ensures TickTurn(p.text, s, Step(p, s))
  {
    hide Step, TickTurn, EscapedAt;
    EnclosedAt(p.text, s.i, Ticks(m), c, Ticks(m));
    assert p.text[s.i + 0] == Ticks(m)[0];
    StepTurned(p, s);
  }

  lemma SpanTaken(t: string, a: State, b: State, m: nat, c: nat)
    requires m > 0 && a.i <= |t| && !EscapedAt(t, a.i) && TickTurn(t, a, b)
    requires RunAt(t, a.i, a.i, m) && FirstRun(t, a.i + m, c, m)
    ensures SpanPrinted(t, a, b, a.i + m, c)
  {
    hide EscapedAt, RunAt, FirstRun, SpanPrinted;
    var j: nat :| SpanFrom(t, a, b, j);
    OneLength(t, a.i, m, j - a.i);
  }

  lemma SpanResult(t: string, a: State, b: State, m: nat, c: string)
    requires Encloses(t, a.i, Ticks(m), c, Ticks(m)) && SpanPrinted(t, a, b, a.i + m, a.i + m + |c|)
    ensures b == Printed(a, a.i + m + |c| + m, if '\n' in c then LineEnds(c) else Ticks(m) + c + Ticks(m))
  {
    hide LineEnds, Ticks, Encloses;
    SpanParts(t, a.i, m, c);
    MarksHoldNoLineEnd(Ticks(m), c, Ticks(m));
  }

  lemma SpanParts(t: string, i: nat, m: nat, c: string)
    requires Encloses(t, i, Ticks(m), c, Ticks(m))
    ensures t[i + m..i + m + |c|] == c && t[i..i + m + |c| + m] == Ticks(m) + c + Ticks(m)
  {
    EnclosedAt(t, i, Ticks(m), c, Ticks(m));
  }
}
