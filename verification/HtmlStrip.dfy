/**
  * `_strip_html_comments` (scripts/check_verity_provenance.py): one loop over the
  * text with a stack of open labels. Here as a machine that takes one construct at a
  * time, and as the loop, which keeps the same stack.
  *
  * Where the newline of a line ends a leaf block, and which characters count as
  * letters, are parameters; the separators are those of the tables of the text.
  */
module HtmlStrip {

  import opened Wrappers
  import opened HtmlScan
  import TableSeparators

  datatype Page = Page(
    text: string,
    separators: seq<nat>,
    boundary: nat -> bool,
    alpha: char -> bool,
    alnum: char -> bool)

  /** An entry of `open_labels`, with the offset of its `[`. */
  datatype Opener = Opener(image: bool, active: bool, at: nat)

  /** A formed link or image: its `[`, its `]`, and the offset after its `)`. */
  datatype Formed = Formed(image: bool, from: nat, close: nat, after: nat)

  datatype State = State(i: nat, out: string, labels: seq<Opener>, formed: seq<Formed>)

  ghost predicate SeparatorIn(p: Page, low: nat, high: nat) {
    exists s :: s in p.separators && low <= s < high
  }

  ghost predicate EndsInlines(p: Page, i: nat)
    requires i < |p.text|
  {
    p.text[i] in "\n|"
    && (SeparatorIn(p, i, i + 1) || (p.text[i] == '\n' && p.boundary(i)))
  }

  predicate OpensTag(p: Page, i: nat)
    requires i < |p.text|
  {
    p.text[i] == '<' && i + 1 < |p.text| && (p.alpha(p.text[i + 1]) || p.text[i + 1] == '/')
  }

  /** The tail of a link whose `]` is at `i`, when no separator keeps it from forming. */
  ghost function Tail(p: Page, i: nat): (r: Option<Piece>)
    requires i < |p.text|
    ensures r.Some? ==> i + 2 < r.value.after <= |p.text|
  {
    if i + 1 < |p.text| && p.text[i + 1] == '(' then
      match LinkTail(p.text, i)
      case None => None
      case Some(q) => if SeparatorIn(p, i, q.after - 1) then None else Some(q)
    else None
  }

  // ----- One construct -----------------------------------------------------

  datatype Kind = Backtick | Comment | Markup | Open | Boundary | Close | Plain

  /** Which branch of the loop an offset takes. */
  ghost function KindAt(p: Page, i: nat, labels: seq<Opener>): Kind
    requires i < |p.text|
  {
    var c := p.text[i];
    if c == '`' then Backtick
    else if Begins(p.text, i, "<!--") then Comment
    else if OpensTag(p, i) then Markup
    else if c == '[' && !EscapedAt(p.text, i) then Open
    else if EndsInlines(p, i) then Boundary
    else if c == ']' && !EscapedAt(p.text, i) && labels != [] then Close
    else Plain
  }

  function One(t: string, i: nat): (q: Piece)
    requires i < |t|
    ensures q.after == i + 1
  {
    Piece(i + 1, [t[i]])
  }

  function CommentPiece(t: string, i: nat): (q: Piece)
    requires i < |t|
    ensures i < q.after <= |t|
  {
    match CommentEnd(t, i + 4)
    case Some(end) => Piece(end + 3, OnlyNewlines(t[i..end + 3]))
    case None => Piece(|t|, "")
  }

  /** The stretch read at `i`, and what it prints. */
  ghost function PieceAt(p: Page, i: nat, labels: seq<Opener>): (q: Piece)
    requires i < |p.text|
    ensures i < q.after <= |p.text|
  {
    match KindAt(p, i, labels)
    case Backtick => if EscapedAt(p.text, i) then One(p.text, i) else CodeSpan(p.text, i)
    case Comment => if EscapedAt(p.text, i) then One(p.text, i) else CommentPiece(p.text, i)
    case Markup =>
      (match Tag(p.text, i, p.alnum) case Some(q) => q case None => One(p.text, i))
    case Close =>
      if Forms(p, i, labels) then Tail(p, i).value else One(p.text, i)
    case _ => One(p.text, i)
  }

  /** A link or image forms at `i`. */
  ghost predicate Forms(p: Page, i: nat, labels: seq<Opener>)
    requires i < |p.text|
  {
    && KindAt(p, i, labels) == Close
    && labels[|labels| - 1].active
    && Tail(p, i).Some?
  }

  /** Links may not contain links, so forming one leaves only the images able to form. */
  function Deactivated(labels: seq<Opener>): (r: seq<Opener>)
    ensures |r| == |labels|
    ensures forall k :: 0 <= k < |r| ==> r[k] == labels[k].(active := labels[k].active && labels[k].image)
  {
    seq(|labels|, k requires 0 <= k < |labels| => labels[k].(active := labels[k].active && labels[k].image))
  }

  predicate OpensImage(t: string, i: nat)
    requires i < |t|
  {
    i > 0 && t[i - 1] == '!' && !EscapedAt(t, i - 1)
  }

  ghost function LabelsAfter(p: Page, i: nat, labels: seq<Opener>): seq<Opener>
    requires i < |p.text|
  {
    match KindAt(p, i, labels)
    case Open => labels + [Opener(OpensImage(p.text, i), true, i)]
    case Boundary => []
    case Close =>
      var rest, top := labels[..|labels| - 1], labels[|labels| - 1];
      if Forms(p, i, labels) && !top.image then Deactivated(rest) else rest
    case _ => labels
  }

  ghost function FormedAt(p: Page, i: nat, labels: seq<Opener>): seq<Formed>
    requires i < |p.text|
  {
    if Forms(p, i, labels) then
      var top := labels[|labels| - 1];
      [Formed(top.image, top.at, i, PieceAt(p, i, labels).after)]
    else []
  }

  ghost function Step(p: Page, s: State): (s': State)
    requires s.i < |p.text|
    ensures s.i < s'.i <= |p.text|
  {
    var q := PieceAt(p, s.i, s.labels);
    State(q.after, s.out + q.out, LabelsAfter(p, s.i, s.labels), s.formed + FormedAt(p, s.i, s.labels))
  }

  ghost function Run(p: Page, s: State): State
    requires s.i <= |p.text|
    decreases |p.text| - s.i
  {
    if s.i == |p.text| then s else Run(p, Step(p, s))
  }

  const START: State := State(0, "", [], [])

  // ----- The loop ----------------------------------------------------------

  datatype Label = Label(image: bool, active: bool)

  function Erased(labels: seq<Opener>): (r: seq<Label>)
    ensures |r| == |labels|
    ensures forall k :: 0 <= k < |r| ==> r[k] == Label(labels[k].image, labels[k].active)
  {
    seq(|labels|, k requires 0 <= k < |labels| => Label(labels[k].image, labels[k].active))
  }

  method Deactivate(labels: seq<Label>) returns (r: seq<Label>)
    ensures |r| == |labels|
    ensures forall k :: 0 <= k < |r| ==> r[k] == Label(labels[k].image, labels[k].active && labels[k].image)
  {
    r := [];
    for k := 0 to |labels|
      invariant |r| == k
      invariant forall j :: 0 <= j < k ==> r[j] == Label(labels[j].image, labels[j].active && labels[j].image)
    {
      r := r + [Label(labels[k].image, labels[k].active && labels[k].image)];
    }
  }

  /** `_separator_in` over the separators of the page. */
  method CrossesSeparator(p: Page, low: nat, high: nat) returns (found: bool)
    requires TableSeparators.Ascending(p.separators)
    ensures found == SeparatorIn(p, low, high)
  {
    found := TableSeparators.SeparatorIn(p.separators, low, high);
  }

  /** An unescaped `]` with a live opener: the link's text, when one forms. */
  method FormLink(p: Page, i: nat) returns (valid: bool, after: nat, buffer: string)
    requires TableSeparators.Ascending(p.separators)
    requires i < |p.text| && p.text[i] == ']'
    ensures (if valid then Some(Piece(after, buffer)) else None) == Tail(p, i)
  {
    hide LinkTail, SeparatorIn;
    if i + 1 >= |p.text| || p.text[i + 1] != '(' { return false, i, ""; }
    valid, after, buffer := ScanLinkTail(p.text, i);
    if valid {
      var crosses := CrossesSeparator(p, i, after - 1);
      valid := !crosses;
    }
  }

  /** Which branch comes next, with the conditions read in the order the loop reads them. */
  method Branch(p: Page, i: nat, labels: seq<Label>, ghost openers: seq<Opener>) returns (kind: Kind)
    requires TableSeparators.Ascending(p.separators)
    requires i < |p.text| && labels == Erased(openers)
    ensures kind == KindAt(p, i, openers)
  {
    hide EscapedAt, SeparatorIn;
    var c := p.text[i];
    if c == '`' { return Backtick; }
    if Begins(p.text, i, "<!--") { return Comment; }
    if OpensTag(p, i) { return Markup; }
    var escaped := Escaped(p.text, i);
    if c == '[' && !escaped { return Open; }
    if c == '\n' || c == '|' {
      var separates := CrossesSeparator(p, i, i + 1);
      if separates || (c == '\n' && p.boundary(i)) { return Boundary; }
    }
    if c == ']' && !escaped && labels != [] { return Close; }
    return Plain;
  }

  /** The branches that print more than one character or drop some, but for links. */
  method PlainPiece(p: Page, i: nat, kind: Kind) returns (after: nat, out: string)
    requires i < |p.text| && kind != Close
    requires kind == Backtick ==> p.text[i] == '`'
    ensures Piece(after, out)
         == if kind == Backtick && !EscapedAt(p.text, i) then CodeSpan(p.text, i)
            else if kind == Comment && !EscapedAt(p.text, i) then CommentPiece(p.text, i)
            else if kind == Markup && Tag(p.text, i, p.alnum).Some? then Tag(p.text, i, p.alnum).value
            else One(p.text, i)
  {
    hide EscapedAt, CodeSpan, Tag, CommentEnd, OnlyNewlines;
    match kind {
      case Backtick =>
        var escaped := Escaped(p.text, i);
        if !escaped {
          after, out := ScanCodeSpan(p.text, i);
          return;
        }
      case Comment =>
        var escaped := Escaped(p.text, i);
        if !escaped {
          var end := CommentEnd(p.text, i + 4);
          if end.None? { return |p.text|, ""; }
          return end.value + 3, OnlyNewlines(p.text[i..end.value + 3]);
        }
      case Markup =>
        var valid;
        valid, after, out := ScanTag(p.text, i, p.alnum);
        if valid { return; }
      case _ =>
    }
    return i + 1, [p.text[i]];
  }

  method OpensAnImage(t: string, i: nat) returns (image: bool)
    requires i < |t|
    ensures image == OpensImage(t, i)
  {
    if i > 0 && t[i - 1] == '!' {
      var escaped := Escaped(t, i - 1);
      return !escaped;
    }
    return false;
  }

  /** One turn of the loop: `labels` is what the source keeps of the machine's openers. */
  method Turn(p: Page, i: nat, labels: seq<Label>, ghost openers: seq<Opener>)
    returns (after: nat, out: string, labels': seq<Label>)
    requires TableSeparators.Ascending(p.separators)
    requires i < |p.text| && labels == Erased(openers)
    ensures Piece(after, out) == PieceAt(p, i, openers)
    ensures labels' == Erased(LabelsAfter(p, i, openers))
  {
    hide EscapedAt, CodeSpan, Tag, CommentPiece, Tail, KindAt;
    var kind := Branch(p, i, labels, openers);
    assert kind == Backtick ==> p.text[i] == '`' by { KindChar(p, i, openers); }
    if kind != Close {
      after, out := PlainPiece(p, i, kind);
      labels' := labels;
      if kind == Open {
        var image := OpensAnImage(p.text, i);
        labels' := labels + [Label(image, true)];
      } else if kind == Boundary {
        labels' := [];
      }
    } else {
      assert p.text[i] == ']' && openers != [] by { KindChar(p, i, openers); }
      var top := labels[|labels| - 1];
      labels' := labels[..|labels| - 1];
      if top.active {
        var valid;
        valid, after, out := FormLink(p, i);
        if valid {
          if !top.image { labels' := Deactivate(labels'); }
          return;
        }
      }
      after, out := i + 1, [p.text[i]];
    }
  }

  lemma KindChar(p: Page, i: nat, openers: seq<Opener>)
    requires i < |p.text|
    ensures KindAt(p, i, openers) == Backtick ==> p.text[i] == '`'
    ensures KindAt(p, i, openers) == Close ==> p.text[i] == ']' && openers != []
    ensures KindAt(p, i, openers) == Open ==> p.text[i] == '['
  {
    hide EscapedAt, EndsInlines, OpensTag;
  }

  method StripHtmlComments(p: Page) returns (result: string)
    requires TableSeparators.Ascending(p.separators)
    ensures result == Run(p, START).out
  {
    hide PieceAt, LabelsAfter, FormedAt;
    ghost var s := START;
    result := "";
    var i := 0;
    var labels: seq<Label> := [];
    while i < |p.text|
      invariant s.i == i <= |p.text| && s.out == result && Erased(s.labels) == labels
      invariant Run(p, s) == Run(p, START)
      decreases |p.text| - i
    {
      var after, out, labels' := Turn(p, i, labels, s.labels);
      s := Step(p, s);
      result := result + out;
      i, labels := after, labels';
    }
  }

  /** The page of a text: its separators are those of the tables found in it. */
  function PageOf(text: string, facts: TableSeparators.Recognizer, boundary: nat -> bool,
                  alpha: char -> bool, alnum: char -> bool): Page {
    Page(text, TableSeparators.SeparatorIndex(TableSeparators.LinesOf(text, facts)), boundary, alpha, alnum)
  }

  /** The function from the text alone: tables, then their separators, then the scan. */
  method StripText(text: string, facts: TableSeparators.Recognizer, boundary: nat -> bool,
                   alpha: char -> bool, alnum: char -> bool) returns (result: string)
    ensures result == Run(PageOf(text, facts, boundary, alpha, alnum), START).out
  {
    hide Run, TableSeparators.SeparatorIndex;
    var separators := TableSeparators.Index(text, facts);
    result := StripHtmlComments(Page(text, separators, boundary, alpha, alnum));
  }
}
