/**
  * Which documents print no link definition, and a document beyond either limit of
  * `visible_text` (scripts/markdown_text.py).
  */
module VisibleLimits {

  import opened Sequences
  import opened Wrappers
  import opened VisibleText
  import opened VisibleDocuments
  import LinkDefinitions

  // ----- Documents without definitions -------------------------------------

  /** Neither brackets nor backslashes. */
  predicate Bare(s: string) {
    forall i :: 0 <= i < |s| ==> s[i] !in "[]\\"
  }

  /** Texts, targets and references hold neither brackets nor backslashes. */
  predicate BareDoc(d: Doc) {
    match d
    case End => true
    case Text(s, rest) => Bare(s) && BareDoc(rest)
    case Link(shown, to, rest) => BareDoc(shown) && Bare(PrintDestination(to)) && BareDoc(rest)
    case Reference(shown, ref, rest) => BareDoc(shown) && Bare(ref) && BareDoc(rest)
  }

  /** No bracket opens a definition's label, but perhaps one right after a closing bracket. */
  predicate Quiet(s: string, prev: char) {
    s != "" ==>
      && (s[0] == '[' && prev != ']' ==> !LinkDefinitions.LabelCloses(s[1..], '['))
      && Quiet(s[1..], s[0])
  }

  lemma QuietAfter(s: string, p: char)
    requires Quiet(s, 'x')
    ensures Quiet(s, p)
  {
  }

  lemma {:induction false} QuietBefore(s: string, after: string)
    requires Bare(s) && Quiet(after, 'x')
    ensures Quiet(s + after, 'x')
  {
    hide LinkDefinitions.LabelCloses;
    if s == "" {
      assert s + after == after;
    } else {
      assert (s + after)[1..] == s[1..] + after;
      QuietBefore(s[1..], after);
      QuietAfter(s[1..] + after, s[0]);
    }
  }

  /** A label's own closing bracket, with what follows it, makes no definition. */
  predicate Continues(s: string) {
    |s| > 1 && s[0] == ']' && s[1] in "(["
  }

  lemma {:induction false} OpenAfterText(s: string, after: string, prev: char)
    requires Bare(s) && prev != '\\'
    requires forall p :: p != '\\' ==> !LinkDefinitions.LabelCloses(after, p)
    ensures !LinkDefinitions.LabelCloses(s + after, prev)
  {
    if s == "" {
      assert s + after == after;
    } else {
      assert (s + after)[1..] == s[1..] + after;
      OpenAfterText(s[1..], after, s[0]);
    }
  }

  /** Inside a label of such a document no colon follows the bracket that closes it. */
  lemma {:induction false} LabelOpen(d: Doc, after: string, prev: char)
    requires BareDoc(d) && Continues(after) && prev != '\\'
    ensures !LinkDefinitions.LabelCloses(Print(d) + after, prev)
    decreases d
  {
    match d
    case End =>
      assert Print(d) + after == after;
      NoColon(after);
    case Text(s, rest) =>
      forall p | p != '\\' ensures !LinkDefinitions.LabelCloses(Print(rest) + after, p) {
        LabelOpen(rest, after, p);
      }
      OpenAfterText(s, Print(rest) + after, prev);
      Associative(s, Print(rest), after);
    case Link(_, _, rest) =>
      WholeOpens(d);
      assert (Print(d) + after)[0] == '[';
    case Reference(_, _, rest) =>
      WholeOpens(d);
      assert (Print(d) + after)[0] == '[';
  }

  lemma NoColon(s: string)
    requires Continues(s)
    ensures !LinkDefinitions.ColonNext(s[1..])
  {
    assert s[1..][0] == s[1];
  }

  lemma WholeOpens(d: Doc)
    requires d.Link? || d.Reference?
    ensures Whole(d) != "" && Whole(d)[0] == '['
  {
  }

  lemma QuietLabel(d: Doc, after: string)
    requires BareDoc(d) && Continues(after) && Quiet(Print(d) + after, 'x')
    ensures Quiet("[" + (Print(d) + after), 'x')
  {
    hide Print, LinkDefinitions.LabelCloses, BareDoc;
    LabelOpen(d, after, '[');
    var s := "[" + (Print(d) + after);
    assert s[1..] == Print(d) + after;
    QuietAfter(Print(d) + after, '[');
  }

  /** What closes a link's label and follows it. */
  function RestOf(d: Doc): string
    requires d.Link? || d.Reference?
  {
    match d
    case Link(_, to, _) => "](" + (PrintDestination(to) + ")")
    case Reference(_, ref, _) => "][" + (ref + "]")
  }

  lemma QuietRest(d: Doc, after: string)
    requires (d.Link? || d.Reference?) && BareDoc(d) && Quiet(after, 'x')
    ensures Continues(RestOf(d) + after) && Quiet(RestOf(d) + after, 'x')
  {
    hide LinkDefinitions.LabelCloses, PrintDestination;
    match d
    case Link(_, to, _) =>
      QuietClosed("](", PrintDestination(to), ")", after);
    case Reference(_, ref, _) =>
      QuietClosed("][", ref, "]", after);
  }

  lemma QuietOne(c: char, s: string, prev: char)
    requires Quiet(s, 'x') && (c == '[' ==> prev == ']')
    ensures Quiet([c] + s, prev)
  {
    hide LinkDefinitions.LabelCloses;
    assert ([c] + s)[1..] == s;
    QuietAfter(s, c);
  }

  lemma QuietTwo(c: char, d: char, s: string)
    requires Quiet(s, 'x') && c == ']'
    ensures Quiet([c] + ([d] + s), 'x')
  {
    hide LinkDefinitions.LabelCloses;
    QuietOne(d, s, c);
    assert ([c] + ([d] + s))[1..] == [d] + s;
  }

  lemma QuietClosed(opening: string, inner: string, close: string, after: string)
    requires |opening| == 2 && opening[0] == ']'
    requires |close| == 1 && close[0] != '['
    requires Bare(inner) && Quiet(after, 'x')
    ensures Quiet((opening + (inner + close)) + after, 'x')
  {
    hide Quiet, Bare;
    QuietOne(close[0], after, 'x');
    assert close == [close[0]];
    QuietBefore(inner, close + after);
    QuietTwo(opening[0], opening[1], inner + (close + after));
    assert (opening + (inner + close)) + after == [opening[0]] + ([opening[1]] + (inner + (close + after)));
  }

  lemma {:induction false} QuietDoc(d: Doc, after: string)
    requires BareDoc(d) && Quiet(after, 'x')
    ensures Quiet(Print(d) + after, 'x')
    decreases d
  {
    hide Quiet, Bare, PrintDestination;
    match d
    case End => assert Print(d) + after == after;
    case Text(s, rest) =>
      QuietDoc(rest, after);
      QuietBefore(s, Print(rest) + after);
      Associative(s, Print(rest), after);
    case Link(shown, _, rest) => QuietLink(d, after);
    case Reference(shown, _, rest) => QuietLink(d, after);
  }

  lemma QuietLink(d: Doc, after: string)
    requires (d.Link? || d.Reference?) && BareDoc(d) && Quiet(after, 'x')
    ensures Quiet(Print(d) + after, 'x')
    decreases d, 0
  {
    hide Quiet, Bare, PrintDestination, Print, RestOf, Continues;
    var tail := Print(d.rest) + after;
    QuietDoc(d.rest, after);
    QuietRest(d, tail);
    QuietDoc(d.shown, RestOf(d) + tail);
    QuietLabel(d.shown, RestOf(d) + tail);
    LinkText(d, after);
  }

  lemma LinkText(d: Doc, after: string)
    requires d.Link? || d.Reference?
    ensures Print(d) + after == "[" + (Print(d.shown) + (RestOf(d) + (Print(d.rest) + after)))
  {
    hide RestOf, Whole;
    WholeParts(d);
    assert Print(d) == Whole(d) + Print(d.rest);
    Regroup("[", Print(d.shown), RestOf(d), Print(d.rest), after);
  }

  lemma WholeParts(d: Doc)
    requires d.Link? || d.Reference?
    ensures Whole(d) == "[" + (Print(d.shown) + RestOf(d))
  {
    hide Print, PrintDestination;
    var p := Print(d.shown);
    match d
    case Link(_, to, _) =>
      assert "[" + p + "](" + PrintDestination(to) + ")" == "[" + (p + ("](" + (PrintDestination(to) + ")")));
    case Reference(_, ref, _) =>
      assert "[" + p + "][" + ref + "]" == "[" + (p + ("][" + (ref + "]")));
  }

  lemma Regroup(a: string, b: string, c: string, d: string, e: string)
    ensures ((a + (b + c)) + d) + e == a + (b + (c + (d + e)))
  {
    Associative(a + (b + c), d, e);
    Associative(a, b + c, d + e);
    Associative(b, c, d + e);
  }

  lemma {:induction false} QuietMarkers(s: string, prev: char) returns (p: char)
    requires Quiet(s, prev) && prev != ']'
    ensures p != ']' && Quiet(LinkDefinitions.SkipMarkers(s), p)
  {
    hide LinkDefinitions.LabelCloses;
    p := prev;
    if LinkDefinitions.SkipMarkers(s) != s {
      assert !LinkDefinitions.Blank(']');
      p := QuietMarkers(s[1..], s[0]);
    }
  }

  lemma {:induction false} QuietLines(s: string, n: nat)
    requires Quiet(s, 'x') && n <= |s|
    ensures Quiet(s[n..], if n == 0 then 'x' else s[n - 1])
  {
    hide LinkDefinitions.LabelCloses;
    if n > 0 {
      QuietLines(s, n - 1);
      assert s[n - 1..][1..] == s[n..];
    } else {
      assert s[0..] == s;
    }
  }

  lemma QuietFrom(s: string, p: char)
    requires Quiet(s, p) && p != ']'
    ensures Quiet(s, 'x')
  {
  }

  lemma {:induction false} LineEndsLast(s: string)
    requires s != ""
    ensures LinkDefinitions.LineEnd(s) < |s| ==> s[LinkDefinitions.LineEnd(s) - 1] == '\n'
  {
    if s[0] != '\n' && s[1..] != "" { LineEndsLast(s[1..]); }
  }

  lemma {:induction false} QuietHasNone(s: string)
    requires Quiet(s, 'x')
    ensures LinkDefinitions.NoDefinition(s)
    decreases |s|
  {
    hide LinkDefinitions.LabelCloses, LinkDefinitions.SkipMarkers, LinkDefinitions.LineEnd;
    if s != "" {
      var p := QuietMarkers(s, 'x');
      var n := LinkDefinitions.LineEnd(s);
      QuietLines(s, n);
      LineEndsLast(s);
      if n < |s| { QuietFrom(s[n..], '\n'); }
      QuietHasNone(s[n..]);
    }
  }

  /** A document without brackets or backslashes of its own prints no definition. */
  lemma BareHasNone(d: Doc)
    requires BareDoc(d)
    ensures LinkDefinitions.NoDefinition(Print(d))
  {
    hide Print, BareDoc, LinkDefinitions.NoDefinition;
    QuietDoc(d, "");
    assert Print(d) + "" == Print(d);
    QuietHasNone(Print(d));
  }

  // ----- The two conditions are needed -------------------------------------

  /** `n` links, one in the other. */
  function Deep(n: nat): Doc {
    if n == 0 then Text("x", End)
    else Link(Deep(n - 1), Destination("", None, Plain('u', Done)), End)
  }

  lemma {:induction false} NoLineClear(s: string)
    requires forall i :: 0 <= i < |s| ==> s[i] != '\n'
    ensures Clear(s, |s|)
  {
    if s != "" { NoLineClear(s[1..]); }
  }

  lemma {:induction false} BareIsFree(s: string)
    requires Bare(s)
    ensures Free(s, "[") && Free(s, "[]") && Nest(s, 0) == Some(0)
  {
    if s != "" { BareIsFree(s[1..]); }
  }

  lemma {:induction false} DeepFacts(n: nat)
    ensures Depth(Deep(n)) == n && BareDoc(Deep(n)) && NoBrackets(Deep(n)) && WellFormed(Deep(n))
    ensures forall i :: 0 <= i < |Print(Deep(n))| ==> Print(Deep(n))[i] != '\n'
  {
    hide Nest, Clear, Free, BalancedBrackets;
    if n == 0 {
      BareIsFree("x");
    } else {
      DeepFacts(n - 1);
      LabelsBalance(Deep(n - 1));
      DeepStep(Deep(n - 1));
    }
  }

  lemma LabelsBalance(d: Doc)
    requires NoBrackets(d)
    ensures BalancedBrackets(Print(d))
  {
    hide Print, NoBrackets, Nest;
    NoBracketsBalance(d, 0);
  }

  lemma DeepStep(d: Doc)
    requires WellFormed(d) && BareDoc(d) && NoBrackets(d) && BalancedBrackets(Print(d))
    requires forall i :: 0 <= i < |Print(d)| ==> Print(d)[i] != '\n'
    ensures var e := Link(d, Destination("", None, Plain('u', Done)), End);
            && WellFormed(e) && BareDoc(e) && NoBrackets(e)
            && forall i :: 0 <= i < |Print(e)| ==> Print(e)[i] != '\n'
  {
    hide Clear, BalancedBrackets, Free, Print, DestinationOk, PrintDestination;
    var to := Destination("", None, Plain('u', Done));
    var e := Link(d, to, End);
    assert PrintDestination(to) == "u" && DestinationOk(to) by { ShortTarget(); }
    BareIsFree("u");
    assert Whole(e) == "[" + Print(d) + "](u)";
    PrintOne(e);
    NoLineClear(Whole(e));
    assert Free(PrintDestination(to), "[]") && Bare(PrintDestination(to));
    assert WellFormed(e);
    assert BareDoc(e);
    assert NoBrackets(e);
  }

  lemma ShortTarget()
    ensures PrintDestination(Destination("", None, Plain('u', Done))) == "u"
    ensures DestinationOk(Destination("", None, Plain('u', Done)))
  {
    assert PrintTarget(Plain('u', Done)) == "u";
  }

  lemma PrintOne(d: Doc)
    requires d.Link? && d.rest == End
    ensures Print(d) == Whole(d)
  {
    hide PrintDestination;
    assert Whole(d) + "" == Whole(d);
  }

  /** Nine deep is one too many. */
  lemma NineDeep()
    ensures WellFormed(Deep(9)) && LinkDefinitions.NoDefinition(Print(Deep(9)))
    ensures LinkDefinitions.Visible(Print(Deep(9))) != Leaves(Deep(9))
  {
    hide Print, Leaves, WellFormed, LinkDefinitions.Visible, LinkDefinitions.NoDefinition, Deep;
    DeepFacts(9);
    BareHasNone(Deep(9));
    VisibleExactly(Deep(9));
  }

  /** `[x\]: y](u)`: a link to this scan, a definition to the pattern, which takes the line. */
  const AMBIGUOUS: Doc := Link(Text("x\\]: y", End), Destination("", None, Plain('u', Done)), End)

  lemma DefinitionTakesLink()
    ensures WellFormed(AMBIGUOUS) && Depth(AMBIGUOUS) == 1
    ensures LinkDefinitions.Visible(Print(AMBIGUOUS)) == "" != Leaves(AMBIGUOUS)
  {
    hide LinkDefinitions.IsDefinition, LinkDefinitions.LineEnd, Passes, WellFormed;
    assert WellFormed(AMBIGUOUS) by { AmbiguousFormed(); }
    AmbiguousPrint();
    var t := Print(AMBIGUOUS);
    AmbiguousDefinition();
    assert t[|t|..] == "";
    Settled("", MAX_PASSES) by { StripNothing(); }
  }

  lemma AmbiguousPrint()
    ensures Print(AMBIGUOUS) == "[x\\]: y](u)" && Leaves(AMBIGUOUS) == "x\\]: y" && Depth(AMBIGUOUS) == 1
  {
    var to := Destination("", None, Plain('u', Done));
    assert PrintDestination(to) == "u";
    assert Print(Text("x\\]: y", End)) == "x\\]: y";
    assert Whole(AMBIGUOUS) == "[x\\]: y](u)";
  }

  lemma AmbiguousFormed()
    ensures WellFormed(AMBIGUOUS)
  {
    hide Clear, Free, Nest, Print;
    AmbiguousPrint();
    AmbiguousText();
    assert PrintTarget(Plain('u', Done)) == "u";
    PrintText("x\\]: y");
    PrintOne(AMBIGUOUS);
    NoLineClear(Whole(AMBIGUOUS));
  }

  lemma PrintText(s: string)
    ensures Print(Text(s, End)) == s
  {
    assert s + "" == s;
  }

  lemma AmbiguousText()
    ensures Free("x\\]: y", "[") && Nest("x\\]: y", 0) == Some(0)
  {
    var s := "x\\]: y";
    assert s[1..] == "\\]: y" && s[1..][2..] == ": y";
    BareIsFree(": y");
  }

  lemma AmbiguousDefinition()
    ensures var t := "[x\\]: y](u)"; LinkDefinitions.IsDefinition(t) && LinkDefinitions.LineEnd(t) == |t|
  {
    hide LinkDefinitions.LabelCloses, LinkDefinitions.ColonNext, LinkDefinitions.SkipMarkers, LinkDefinitions.LineEnd;
    var t, d := "[x\\]: y](u)", ": y](u)";
    assert t == ['['] + (['x'] + (['\\'] + ([']'] + d)));
    AtColon(d);
    AtBracket(d);
    PastCharacter('\\', [']'] + d, 'x');
    PastCharacter('x', ['\\'] + ([']'] + d), '[');
    AtLabel(['x'] + (['\\'] + ([']'] + d)));
    OneLine(t);
  }

  lemma AtLabel(s: string)
    requires LinkDefinitions.LabelCloses(s, '[')
    ensures LinkDefinitions.IsDefinition(['['] + s)
  {
    hide LinkDefinitions.LabelCloses;
    assert !LinkDefinitions.Blank('[');
    assert (['['] + s)[1..] == s;
  }

  lemma AtColon(s: string)
    requires s != "" && s[0] == ':'
    ensures LinkDefinitions.ColonNext(s)
  {
  }

  lemma AtBracket(s: string)
    requires LinkDefinitions.ColonNext(s)
    ensures LinkDefinitions.LabelCloses([']'] + s, '\\')
  {
    assert ([']'] + s)[1..] == s;
  }

  lemma PastCharacter(c: char, s: string, prev: char)
    requires c !in "[]\n"
    ensures LinkDefinitions.LabelCloses([c] + s, prev) == LinkDefinitions.LabelCloses(s, c)
  {
    assert ([c] + s)[1..] == s;
  }

  lemma {:induction false} OneLine(s: string)
    requires forall i :: 0 <= i < |s| ==> s[i] != '\n'
    ensures LinkDefinitions.LineEnd(s) == |s|
  {
    if s != "" { OneLine(s[1..]); }
  }
}
