/**
  * Documents of text and nested links, and what eight passes make of them.
  */
module VisibleDocuments {

  import opened Sequences
  import opened Wrappers
  import opened VisibleText
  import LinkDefinitions

  // ----- Documents ---------------------------------------------------------

  /** What stands between a link's parentheses after its destination in `<`…`>`, if any. */
  datatype Target =
    | Done
    | Plain(c: char, rest: Target)
    | Escaped(c: char, rest: Target)
    | Group(inner: Target, rest: Target)
    | Title(quote: char, body: string, rest: Target)

  datatype Destination = Destination(blanks: string, angle: Option<string>, target: Target)

  datatype Doc =
    | End
    | Text(s: string, rest: Doc)
    | Link(shown: Doc, to: Destination, rest: Doc)
    | Reference(shown: Doc, ref: string, rest: Doc)

  function PrintTarget(t: Target): string {
    match t
    case Done => ""
    case Plain(c, rest) => [c] + PrintTarget(rest)
    case Escaped(c, rest) => ['\\', c] + PrintTarget(rest)
    case Group(inner, rest) => "(" + PrintTarget(inner) + ")" + PrintTarget(rest)
    case Title(quote, body, rest) => [quote] + body + [quote] + PrintTarget(rest)
  }

  function PrintDestination(to: Destination): string {
    to.blanks
    + (match to.angle case None => "" case Some(body) => "<" + body + ">")
    + PrintTarget(to.target)
  }

  /** The link itself, with its brackets and its parentheses. */
  function Whole(d: Doc): string
    requires d.Link? || d.Reference?
    decreases d, 0
  {
    match d
    case Link(shown, to, _) => "[" + Print(shown) + "](" + PrintDestination(to) + ")"
    case Reference(shown, ref, _) => "[" + Print(shown) + "][" + ref + "]"
  }

  function Print(d: Doc): string
    decreases d, 1
  {
    match d
    case End => ""
    case Text(s, rest) => s + Print(rest)
    case Link(_, _, rest) => Whole(d) + Print(rest)
    case Reference(_, _, rest) => Whole(d) + Print(rest)
  }

  /** What a reader is shown. */
  function Leaves(d: Doc): string {
    match d
    case End => ""
    case Text(s, rest) => s + Leaves(rest)
    case Link(shown, _, rest) => Leaves(shown) + Leaves(rest)
    case Reference(shown, _, rest) => Leaves(shown) + Leaves(rest)
  }

  /** How deep links nest. */
  function Depth(d: Doc): nat {
    match d
    case End => 0
    case Text(_, rest) => Depth(rest)
    case Link(shown, _, rest) => Max(1 + Depth(shown), Depth(rest))
    case Reference(shown, _, rest) => Max(1 + Depth(shown), Depth(rest))
  }

  function Max(a: nat, b: nat): nat { if a < b then b else a }

  // ----- Which documents these are -----------------------------------------

  /** No character of `stops` without a backslash before it, and no backslash left over. */
  predicate Free(s: string, stops: string)
    decreases |s|
  {
    s != "" ==>
      if s[0] == '\\' then |s| > 1 && Free(s[2..], stops)
      else s[0] !in stops && Free(s[1..], stops)
  }

  predicate Solid(c: char) { c != ' ' && c != '\t' && c != '\n' }

  predicate AllBlank(s: string) { forall i :: 0 <= i < |s| ==> s[i] == ' ' || s[i] == '\t' }

  /** Bracket depth after `s`; `None` when one closes that was not opened, or a backslash is left. */
  function Nest(s: string, depth: nat): Option<nat>
    decreases |s|
  {
    if s == "" then Some(depth)
    else if s[0] == '\\' then if |s| > 1 then Nest(s[2..], depth) else None
    else if s[0] == '[' then Nest(s[1..], depth + 1)
    else if s[0] == ']' then if depth == 0 then None else Nest(s[1..], depth - 1)
    else Nest(s[1..], depth)
  }

  predicate BalancedBrackets(s: string) { Nest(s, 0) == Some(0) }

  /** No blank line begins at the first `n` offsets. */
  predicate Clear(s: string, n: nat)
    requires n <= |s|
  {
    n == 0 || (!BlankLine(s) && Clear(s[1..], n - 1))
  }

  predicate TargetOk(t: Target) {
    match t
    case Done => true
    case Plain(c, rest) => c !in "\\\"'()" && TargetOk(rest)
    case Escaped(_, rest) => TargetOk(rest)
    case Group(inner, rest) => TargetOk(inner) && TargetOk(rest)
    case Title(quote, body, rest) => quote in "\"'" && Free(body, [quote]) && TargetOk(rest)
  }

  predicate DestinationOk(to: Destination) {
    && AllBlank(to.blanks)
    && TargetOk(to.target)
    && match to.angle
       case Some(body) => Free(body, ">\n")
       case None =>
         var p := PrintTarget(to.target);
         p != "" ==> p[0] !in " \t<"
  }

  /**
    * Text without an opening bracket of its own; labels whose brackets balance;
    * parentheses that balance outside titles; no blank line inside a link.
    */
  predicate WellFormed(d: Doc) {
    match d
    case End => true
    case Text(s, rest) => Free(s, "[") && WellFormed(rest)
    case Link(shown, to, rest) =>
      && WellFormed(shown) && BalancedBrackets(Print(shown))
      && DestinationOk(to)
      && Clear(Whole(d), |Whole(d)|)
      && WellFormed(rest)
    case Reference(shown, ref, rest) =>
      && WellFormed(shown) && BalancedBrackets(Print(shown))
      && BalancedBrackets(ref)
      && Clear(Whole(d), |Whole(d)|)
      && WellFormed(rest)
  }

  // ----- Blank lines -------------------------------------------------------

  lemma {:induction false} BlanksConcat(a: string, b: string)
    requires a != "" && Solid(a[|a| - 1])
    ensures Blanks(a + b) == Blanks(a) < |a|
  {
    assert (a + b)[1..] == a[1..] + b;
    if a[0] == ' ' || a[0] == '\t' { BlanksConcat(a[1..], b); }
  }

  /** What follows a character that is not blank cannot make a blank line before it. */
  lemma BlankStays(a: string, b: string)
    requires a != "" && Solid(a[|a| - 1])
    ensures BlankLine(a + b) == BlankLine(a)
  {
    if a[0] == '\n' {
      assert (a + b)[1..] == a[1..] + b;
      BlanksConcat(a[1..], b);
    }
  }

  lemma {:induction false} ClearConcat(a: string, b: string, n: nat)
    requires n <= |a| && Clear(a, n)
    requires a != "" ==> Solid(a[|a| - 1])
    ensures Clear(a + b, n)
  {
    if n > 0 {
      BlankStays(a, b);
      assert (a + b)[1..] == a[1..] + b;
      ClearConcat(a[1..], b, n - 1);
    }
  }

  lemma {:induction false} ClearFrom(s: string, n: nat, k: nat)
    requires k <= n <= |s| && Clear(s, n)
    ensures Clear(s[k..], n - k)
  {
    if k > 0 {
      ClearFrom(s[1..], n - 1, k - 1);
      assert s[1..][k - 1..] == s[k..];
    } else {
      assert s[0..] == s;
    }
  }

  lemma {:induction false} ClearLess(s: string, n: nat, m: nat)
    requires m <= n <= |s| && Clear(s, n)
    ensures Clear(s, m)
  {
    if m > 0 { ClearLess(s[1..], n - 1, m - 1); }
  }

  // ----- Each scan over what it is meant for -------------------------------

  lemma ShiftTwice(m: nat, n: nat, r: Option<nat>)
    ensures Shift(m, Shift(n, r)) == Shift(m + n, r)
  {
  }

  function Width(c: char): nat { if c == '\\' then 2 else 1 }

  function Deeper(c: char, d: int): int {
    if c == '[' then d + 1 else if c == ']' then d - 1 else d
  }

  lemma NestStep(a: string, d: nat)
    requires a != "" && Nest(a, d).Some?
    ensures Width(a[0]) <= |a| && Deeper(a[0], d) >= 0
    ensures Nest(a, d) == Nest(a[Width(a[0])..], Deeper(a[0], d))
  {
  }

  lemma BracketStep(s: string, depth: int)
    requires s != "" && !BlankLine(s) && Width(s[0]) <= |s| && Deeper(s[0], depth) >= 1
    ensures Bracket(s, depth) == Shift(Width(s[0]), Bracket(s[Width(s[0])..], Deeper(s[0], depth)))
  {
    hide BlankLine;
  }

  lemma ClearStep(s: string, n: nat)
    requires 0 < n <= |s| && Clear(s, n)
    ensures !BlankLine(s) && Clear(s[1..], n - 1)
  {
  }

  lemma Tail(a: string, b: string, k: nat)
    requires k <= |a|
    ensures (a + b)[k..] == a[k..] + b
  {
  }

  /** The scan's first step over `a` is the step `Nest` takes. */
  lemma BracketFirst(a: string, b: string, d: nat, depth: int)
    requires a != "" && Nest(a, d).Some? && depth >= 1
    requires Clear(a + b, |a|)
    ensures var k, e := Width(a[0]), Deeper(a[0], d);
            && 0 < k <= |a| && e >= 0
            && Nest(a, d) == Nest(a[k..], e)
            && Clear(a[k..] + b, |a| - k)
            && Bracket(a + b, depth + d) == Shift(k, Bracket(a[k..] + b, depth + e))
  {
    hide BlankLine, Bracket, Clear, Nest, Width, Deeper, Shift;
    var s, k, e := a + b, Width(a[0]), Deeper(a[0], d);
    assert k <= |a| && e >= 0 && Nest(a, d) == Nest(a[k..], e) by { NestStep(a, d); }
    assert 0 < k && Deeper(s[0], depth + d) == depth + e by { Widths(a[0], d, depth); }
    assert s[k..] == a[k..] + b by { Tail(a, b, k); }
    assert !BlankLine(s) by { ClearStep(s, |a|); }
    assert Clear(a[k..] + b, |a| - k) by { ClearFrom(s, |a|, k); }
    BracketStep(s, depth + d);
  }

  /** The bracket scan passes over balanced text. */
  lemma {:induction false} BracketThrough(a: string, b: string, d: nat, depth: int)
    requires Nest(a, d).Some? && depth >= 1
    requires Clear(a + b, |a|)
    ensures Bracket(a + b, depth + d) == Shift(|a|, Bracket(b, depth + Nest(a, d).value))
    decreases |a|
  {
    hide BlankLine, Bracket, Clear, Nest, Width, Deeper;
    if a == "" {
      assert a + b == b;
      NestNothing(d);
    } else {
      var k, e := Width(a[0]), Deeper(a[0], d);
      BracketFirst(a, b, d, depth);
      BracketThrough(a[k..], b, e, depth);
      ShiftTwice(k, |a| - k, Bracket(b, depth + Nest(a, d).value));
    }
  }

  lemma Widths(c: char, d: int, depth: int)
    ensures Width(c) > 0 && Deeper(c, depth + d) == depth + Deeper(c, d)
  {
  }

  /** A label between its brackets. */
  lemma LabelFound(inner: string, after: string)
    requires BalancedBrackets(inner)
    requires Clear("[" + inner + "]" + after, |inner| + 2)
    ensures Bracket("[" + inner + "]" + after, 0) == Some(|inner| + 1)
  {
    hide BlankLine, Nest, Clear;
    var s := "[" + inner + "]" + after;
    assert s[1..] == inner + ("]" + after);
    ClearFrom(s, |inner| + 2, 1);
    ClearLess(s[1..], |inner| + 1, |inner|);
    BracketThrough(inner, "]" + after, 0, 1);
    assert Bracket("]" + after, 1) == Some(0);
  }

  lemma {:induction false} QuoteFound(body: string, quote: char, after: string)
    requires quote in "\"'" && Free(body, [quote])
    requires Clear(body + ([quote] + after), |body|)
    ensures QuoteEnd(body + ([quote] + after), quote) == Some(|body| + 1)
    decreases |body|
  {
    hide BlankLine;
    var s := body + ([quote] + after);
    if body == "" {
      assert s == [quote] + after;
    } else {
      assert s[1..] == body[1..] + ([quote] + after);
      if body[0] == '\\' {
        assert s[2..] == body[2..] + ([quote] + after) == s[1..][1..];
        QuoteFound(body[2..], quote, after);
      } else {
        QuoteFound(body[1..], quote, after);
      }
    }
  }

  lemma {:induction false} AngleFound(body: string, after: string)
    requires Free(body, ">\n")
    ensures AngleEnd(body + (">" + after)) == Some(|body| + 1)
    decreases |body|
  {
    var s := body + (">" + after);
    if body == "" {
      assert s == ">" + after;
    } else {
      assert s[1..] == body[1..] + (">" + after);
      if body[0] == '\\' {
        assert s[2..] == body[2..] + (">" + after);
        AngleFound(body[2..], after);
      } else {
        AngleFound(body[1..], after);
      }
    }
  }

  /** The parenthesis scan passes over a target, whatever its titles hold. */
  lemma {:induction false} BalanceThrough(t: Target, after: string, depth: int)
    requires TargetOk(t) && depth >= 1
    requires Clear(PrintTarget(t) + after, |PrintTarget(t)|)
    ensures Balance(PrintTarget(t) + after, depth) == Shift(|PrintTarget(t)|, Balance(after, depth))
    decreases t
  {
    hide BlankLine, Balance, Clear;
    var s := PrintTarget(t) + after;
    match t
    case Done =>
      assert s == after;
    case Plain(c, rest) =>
      assert s[1..] == PrintTarget(rest) + after;
      ClearFrom(s, |PrintTarget(t)|, 1);
      BalanceThrough(rest, after, depth);
      PlainStep(s, depth, |PrintTarget(t)|);
    case Escaped(c, rest) =>
      assert s[2..] == PrintTarget(rest) + after;
      ClearFrom(s, |PrintTarget(t)|, 2);
      BalanceThrough(rest, after, depth);
      EscapeStep(s, depth);
    case Group(inner, rest) =>
      GroupThrough(inner, rest, after, depth);
    case Title(quote, body, rest) =>
      TitleThrough(quote, body, rest, after, depth);
  }

  lemma PlainStep(s: string, depth: int, n: nat)
    requires 0 < n <= |s| && s[0] !in "\\\"'()" && Clear(s, n)
    ensures Balance(s, depth) == Shift(1, Balance(s[1..], depth))
  {
    hide BlankLine;
  }

  lemma EscapeStep(s: string, depth: int)
    requires |s| > 1 && s[0] == '\\'
    ensures Balance(s, depth) == Shift(2, Balance(s[2..], depth))
  {
  }

  lemma OpenStep(s: string, depth: int)
    requires s != "" && s[0] == '('
    ensures Balance(s, depth) == Shift(1, Balance(s[1..], depth + 1))
  {
  }

  lemma CloseStep(s: string, depth: int)
    requires s != "" && s[0] == ')'
    ensures Balance(s, depth) == if depth == 1 then Some(1) else Shift(1, Balance(s[1..], depth - 1))
  {
  }

  lemma TitleStep(s: string, depth: int, n: nat)
    requires s != "" && s[0] in "\"'" && QuoteEnd(s[1..], s[0]) == Some(n)
    ensures Balance(s, depth) == Shift(1 + n, Balance(s[1 + n..], depth))
  {
    hide QuoteEnd;
  }

  /** Where the parts of `open + body + close + rest + after` begin. */
  lemma Parts(first: char, body: string, close: char, rest: string, after: string)
    ensures var s := ([first] + body + [close] + rest) + after;
            var tail := [close] + (rest + after);
            && s[0] == first && s[1..] == body + tail
            && tail[0] == close && tail[1..] == rest + after
            && s[|body| + 2..] == rest + after
            && |s| == |body| + 2 + |rest| + |after|
  {
  }

  lemma GroupSteps(s: string, depth: int, i: nat, tail: string, r: nat, after: Option<nat>)
    requires depth >= 1
    requires s != "" && s[0] == '(' && Balance(s[1..], depth + 1) == Shift(i, Balance(tail, depth + 1))
    requires tail != "" && tail[0] == ')' && Balance(tail[1..], depth) == Shift(r, after)
    ensures Balance(s, depth) == Shift(i + r + 2, after)
  {
    hide Balance;
    OpenStep(s, depth);
    CloseStep(tail, depth + 1);
  }

  lemma GroupThrough(inner: Target, rest: Target, after: string, depth: int)
    requires TargetOk(inner) && TargetOk(rest) && depth >= 1
    requires var p := PrintTarget(Group(inner, rest)); Clear(p + after, |p|)
    ensures var p := PrintTarget(Group(inner, rest));
            Balance(p + after, depth) == Shift(|p|, Balance(after, depth))
    decreases Group(inner, rest), 0
  {
    hide BlankLine, Balance, Clear, TargetOk, PrintTarget, Shift;
    var p, i, r := PrintTarget(Group(inner, rest)), PrintTarget(inner), PrintTarget(rest);
    var s := p + after;
    var tail := [')'] + (r + after);
    assert |p| == |i| + |r| + 2 && s == (['('] + i + [')'] + r) + after by { PrintGroup(inner, rest); }
    assert s[0] == '(' && s[1..] == i + tail && tail[1..] == r + after
        && s[|i| + 2..] == r + after by { Parts('(', i, ')', r, after); }
    assert Clear(i + tail, |i|) by {
      ClearFrom(s, |p|, 1);
      ClearLess(s[1..], |p| - 1, |i|);
    }
    BalanceThrough(inner, tail, depth + 1);
    assert Clear(r + after, |r|) by { ClearFrom(s, |p|, |i| + 2); }
    BalanceThrough(rest, after, depth);
    GroupSteps(s, depth, |i|, tail, |r|, Balance(after, depth));
  }

  lemma PrintGroup(inner: Target, rest: Target)
    ensures PrintTarget(Group(inner, rest))
         == ['('] + PrintTarget(inner) + [')'] + PrintTarget(rest)
  {
  }

  lemma TitleThrough(quote: char, body: string, rest: Target, after: string, depth: int)
    requires quote in "\"'" && Free(body, [quote]) && TargetOk(rest) && depth >= 1
    requires var p := PrintTarget(Title(quote, body, rest)); Clear(p + after, |p|)
    ensures var p := PrintTarget(Title(quote, body, rest));
            Balance(p + after, depth) == Shift(|p|, Balance(after, depth))
    decreases Title(quote, body, rest), 0
  {
    hide BlankLine, Balance, Clear, Free, QuoteEnd, TargetOk, PrintTarget;
    var p, r := PrintTarget(Title(quote, body, rest)), PrintTarget(rest);
    var s := p + after;
    var tail := [quote] + (r + after);
    assert |p| == |body| + |r| + 2 && s == ([quote] + body + [quote] + r) + after by {
      PrintTitle(quote, body, rest);
    }
    assert s[0] == quote && s[1..] == body + tail && s[|body| + 2..] == r + after by {
      Parts(quote, body, quote, r, after);
    }
    assert Clear(body + tail, |body|) by {
      ClearFrom(s, |p|, 1);
      ClearLess(s[1..], |p| - 1, |body|);
    }
    QuoteFound(body, quote, r + after);
    assert Clear(r + after, |r|) by { ClearFrom(s, |p|, |body| + 2); }
    BalanceThrough(rest, after, depth);
    assert s[1 + (|body| + 1)..] == r + after;
    TitleStep(s, depth, |body| + 1);
  }

  lemma PrintTitle(quote: char, body: string, rest: Target)
    ensures PrintTarget(Title(quote, body, rest)) == [quote] + body + [quote] + PrintTarget(rest)
  {
  }

  lemma {:induction false} BlanksFound(blanks: string, after: string)
    requires AllBlank(blanks)
    requires after == "" || after[0] !in " \t"
    ensures Blanks(blanks + after) == |blanks|
  {
    var s := blanks + after;
    if blanks == "" {
      assert s == after;
    } else {
      assert s[1..] == blanks[1..] + after;
      BlanksFound(blanks[1..], after);
    }
  }

  lemma InsidePlain(blanks: string, rest: string)
    requires AllBlank(blanks) && rest != "" && rest[0] !in " \t<"
    ensures Inside(blanks + rest) == Shift(|blanks|, Balance(rest, 1))
  {
    hide Balance, Blanks;
    BlanksFound(blanks, rest);
    assert (blanks + rest)[|blanks|..] == rest;
  }

  lemma InsideStep(s: string, b: nat, n: nat, inside: string, rest: string)
    requires b == Blanks(s) && b + 1 + n <= |s| && s[b] == '<'
    requires s[b + 1..] == inside && AngleEnd(inside) == Some(n)
    requires s[b + 1 + n..] == rest
    ensures Inside(s) == Shift(b + 1 + n, Balance(rest, 1))
  {
    hide Balance, Blanks, AngleEnd, Inside, Shift;
    InsideUnfold(s);
  }

  lemma AngleParts(blanks: string, body: string, rest: string)
    ensures var tail := "<" + (body + (">" + rest));
            var s := blanks + tail;
            && s[|blanks|] == '<' == tail[0]
            && s[|blanks| + 1..] == body + (">" + rest)
            && |s| == |blanks| + |body| + 2 + |rest|
            && s[|blanks| + |body| + 2..] == rest
  {
    var tail := "<" + (body + (">" + rest));
    var s := blanks + tail;
    assert s[|blanks| + 1..] == tail[1..];
    assert s[|blanks| + |body| + 2..] == (body + (">" + rest))[|body| + 1..];
    assert (body + (">" + rest))[|body| + 1..] == (">" + rest)[1..];
  }

  lemma InsideAngle(blanks: string, body: string, rest: string)
    requires AllBlank(blanks) && Free(body, ">\n")
    ensures Inside(blanks + ("<" + (body + (">" + rest))))
         == Shift(|blanks| + |body| + 2, Balance(rest, 1))
  {
    hide Balance, Blanks, AngleEnd, Free, Inside, AllBlank;
    var tail := "<" + (body + (">" + rest));
    var s := blanks + tail;
    AngleParts(blanks, body, rest);
    BlanksFound(blanks, tail);
    AngleFound(body, rest);
    InsideStep(s, |blanks|, |body| + 1, body + (">" + rest), rest);
  }

  /** A destination between its parentheses. */
  lemma DestinationFound(to: Destination, after: string)
    requires DestinationOk(to)
    requires var p := PrintDestination(to); Clear(p + (")" + after), |p|)
    ensures Inside(PrintDestination(to) + (")" + after)) == Some(|PrintDestination(to)| + 1)
  {
    hide BlankLine, Balance, Clear, Free, AllBlank, TargetOk, PrintTarget, Inside, PrintDestination;
    var p, t := PrintDestination(to), PrintTarget(to.target);
    var tail := ")" + after;
    var s := p + tail;
    DestinationParts(to, tail);
    assert Clear(t + tail, |t|) by { ClearFrom(s, |p|, |p| - |t|); }
    BalanceThrough(to.target, tail, 1);
    CloseStep(tail, 1);
    match to.angle
    case None => InsidePlain(to.blanks, t + tail);
    case Some(body) => InsideAngle(to.blanks, body, t + tail);
  }

  /** Where the parts of a destination stand. */
  lemma DestinationParts(to: Destination, tail: string)
    ensures var p, t := PrintDestination(to), PrintTarget(to.target);
            && |p| >= |t| && (p + tail)[|p| - |t|..] == t + tail
            && match to.angle
               case None => |p| == |to.blanks| + |t| && p + tail == to.blanks + (t + tail)
               case Some(body) =>
                 && |p| == |to.blanks| + |body| + 2 + |t|
                 && p + tail == to.blanks + ("<" + (body + (">" + (t + tail))))
  {
    hide PrintTarget;
    var t := PrintTarget(to.target);
    match to.angle
    case None =>
      assert to.blanks + "" == to.blanks;
      Associative(to.blanks, t, tail);
    case Some(body) =>
      Associative("<", body, ">");
      Associative(to.blanks + ("<" + body + ">"), t, tail);
      Associative(to.blanks, "<" + body + ">", t + tail);
      Associative("<", body + ">", t + tail);
      Associative(body, ">", t + tail);
  }

  // ----- One pass unwraps one level ----------------------------------------

  lemma LinkFound(shown: Doc, to: Destination, after: string)
    requires BalancedBrackets(Print(shown)) && DestinationOk(to)
    requires var w := Whole(Link(shown, to, End)); Clear(w, |w|)
    ensures var w := Whole(Link(shown, to, End));
            LinkAt(w + after) == Some(Extent(|Print(shown)| + 1, |w|))
  {
    hide BlankLine, Bracket, Inside, Clear, Nest, Print, PrintDestination, Closing;
    var p, q := Print(shown), PrintDestination(to);
    var w := Whole(Link(shown, to, End));
    var s, inner := w + after, q + (")" + after);
    assert Clear(s, |w|) by { ClearConcat(w, after, |w|); }
    LinkParts(p, q, after);
    assert Bracket(s, 0) == Some(|p| + 1) by {
      ClearLess(s, |w|, |p| + 2);
      LabelFound(p, "(" + q + ")" + after);
    }
    assert Inside(inner) == Some(|q| + 1) by {
      ClearFrom(s, |w|, |p| + 3);
      ClearLess(inner, |q| + 1, |q|);
      DestinationFound(to, after);
    }
    assert Closing("(" + inner) == Some(|q| + 2) by {
      assert ("(" + inner)[1..] == inner;
      ClosingUnfold("(" + inner);
    }
  }

  lemma ClosingUnfold(s: string)
    requires s != ""
    ensures Closing(s) == Shift(1, Inside(s[1..]))
  {
    hide Inside;
  }

  /** Where the parts of a link begin. */
  lemma LinkParts(p: string, q: string, after: string)
    ensures var w := "[" + p + "](" + q + ")";
            var s, inner := w + after, q + (")" + after);
            && s == "[" + p + "]" + ("(" + q + ")" + after)
            && s[|p| + 2..] == "(" + inner && s[|p| + 3..] == inner && s[0] == '['
            && |w| == |p| + |q| + 4 && |p| + 2 < |s| && s[|p| + 2] == '('
  {
    var inner := q + (")" + after);
    var s := ("[" + p + "](" + q + ")") + after;
    assert s == ("[" + p + "]") + ("(" + inner);
    assert "(" + inner == "(" + q + ")" + after;
  }

  lemma ReferenceFound(shown: Doc, ref: string, after: string)
    requires BalancedBrackets(Print(shown)) && BalancedBrackets(ref)
    requires var w := Whole(Reference(shown, ref, End)); Clear(w, |w|)
    ensures var w := Whole(Reference(shown, ref, End));
            LinkAt(w + after) == Some(Extent(|Print(shown)| + 1, |w|))
  {
    hide BlankLine, Bracket, Inside, Clear, Nest, Print;
    var p := Print(shown);
    var w := Whole(Reference(shown, ref, End));
    var s := w + after;
    ClearConcat(w, after, |w|);
    assert s == "[" + p + "]" + ("[" + ref + "]" + after);
    ClearLess(s, |w|, |p| + 2);
    LabelFound(p, "[" + ref + "]" + after);
    assert s[|p| + 2..] == "[" + ref + "]" + after;
    ClearFrom(s, |w|, |p| + 2);
    LabelFound(ref, after);
  }

  lemma {:induction false} TextKept(s: string, after: string)
    requires Free(s, "[")
    ensures Strip(s + after) == s + Strip(after)
    decreases |s|
  {
    hide LinkAt, Strip;
    if s == "" {
      assert s + after == after;
    } else if s[0] == '\\' {
      TextKept(s[2..], after);
      StripEscape(s + after);
      assert (s + after)[2..] == s[2..] + after;
      assert (s + after)[..2] + (s[2..] + Strip(after)) == s + Strip(after);
    } else {
      TextKept(s[1..], after);
      NoLink(s + after);
      StripPlain(s + after);
      assert (s + after)[1..] == s[1..] + after;
      assert [s[0]] + (s[1..] + Strip(after)) == s + Strip(after);
    }
  }

  lemma StripEscape(s: string)
    requires Escaping(s)
    ensures Strip(s) == s[..2] + Strip(s[2..])
  {
    hide LinkAt;
  }

  lemma StripPlain(s: string)
    requires s != "" && !Escaping(s) && LinkAt(s).None?
    ensures Strip(s) == [s[0]] + Strip(s[1..])
  {
    hide LinkAt;
  }

  lemma StripLink(whole: string, after: string, shown: string)
    requires LinkAt(whole + after) == Some(Extent(|shown| + 1, |whole|))
    requires |shown| + 1 < |whole| && whole[0] == '[' && whole[1..|shown| + 1] == shown
    ensures Strip(whole + after) == shown + Strip(after)
  {
    hide LinkAt;
    var s := whole + after;
    assert s[1..|shown| + 1] == shown;
    assert s[|whole|..] == after;
  }

  function Append(a: Doc, b: Doc): Doc {
    match a
    case End => b
    case Text(s, rest) => Text(s, Append(rest, b))
    case Link(shown, to, rest) => Link(shown, to, Append(rest, b))
    case Reference(shown, ref, rest) => Reference(shown, ref, Append(rest, b))
  }

  /** Each outermost link replaced by what it shows. */
  function Unwrap(d: Doc): Doc {
    match d
    case End => End
    case Text(s, rest) => Text(s, Unwrap(rest))
    case Link(shown, _, rest) => Append(shown, Unwrap(rest))
    case Reference(shown, _, rest) => Append(shown, Unwrap(rest))
  }

  lemma AppendFacts(a: Doc, b: Doc)
    ensures Print(Append(a, b)) == Print(a) + Print(b)
    ensures Leaves(Append(a, b)) == Leaves(a) + Leaves(b)
    ensures Depth(Append(a, b)) == Max(Depth(a), Depth(b))
  {
    hide Print, Leaves, Depth, Append;
    AppendPrint(a, b);
    AppendLeaves(a, b);
    AppendDepth(a, b);
  }

  lemma {:induction false} AppendPrint(a: Doc, b: Doc)
    ensures Print(Append(a, b)) == Print(a) + Print(b)
  {
    hide Whole;
    match a
    case End =>
    case Text(s, rest) =>
      AppendPrint(rest, b);
      Associative(s, Print(rest), Print(b));
    case Link(_, _, rest) =>
      AppendPrint(rest, b);
      assert Whole(Append(a, b)) == Whole(a) by { SameWhole(a, b); }
      Associative(Whole(a), Print(rest), Print(b));
    case Reference(_, _, rest) =>
      AppendPrint(rest, b);
      assert Whole(Append(a, b)) == Whole(a) by { SameWhole(a, b); }
      Associative(Whole(a), Print(rest), Print(b));
  }

  lemma SameWhole(a: Doc, b: Doc)
    requires a.Link? || a.Reference?
    ensures Whole(Append(a, b)) == Whole(a)
  {
    hide Print, PrintDestination;
  }

  lemma {:induction false} AppendLeaves(a: Doc, b: Doc)
    ensures Leaves(Append(a, b)) == Leaves(a) + Leaves(b)
  {
    match a
    case End =>
    case Text(s, rest) =>
      AppendLeaves(rest, b);
      Associative(s, Leaves(rest), Leaves(b));
    case Link(shown, _, rest) =>
      AppendLeaves(rest, b);
      Associative(Leaves(shown), Leaves(rest), Leaves(b));
    case Reference(shown, _, rest) =>
      AppendLeaves(rest, b);
      Associative(Leaves(shown), Leaves(rest), Leaves(b));
  }

  lemma {:induction false} AppendDepth(a: Doc, b: Doc)
    ensures Depth(Append(a, b)) == Max(Depth(a), Depth(b))
  {
    if !a.End? { AppendDepth(a.rest, b); }
  }

  lemma {:induction false} AppendWellFormed(a: Doc, b: Doc)
    requires WellFormed(a) && WellFormed(b)
    ensures WellFormed(Append(a, b))
  {
    hide Free, BalancedBrackets, DestinationOk, Clear;
    match a
    case End =>
    case Text(_, rest) => AppendWellFormed(rest, b);
    case Link(_, _, rest) => AppendWellFormed(rest, b);
    case Reference(_, _, rest) => AppendWellFormed(rest, b);
  }

  lemma {:induction false} UnwrapFacts(d: Doc)
    requires WellFormed(d)
    ensures WellFormed(Unwrap(d))
    ensures Leaves(Unwrap(d)) == Leaves(d)
    ensures Depth(Unwrap(d)) == if Depth(d) == 0 then 0 else Depth(d) - 1
  {
    hide Free, BalancedBrackets, DestinationOk, Clear, Print, Append;
    match d
    case End =>
    case Text(_, rest) => UnwrapFacts(rest);
    case Link(shown, _, rest) =>
      UnwrapFacts(rest);
      AppendFacts(shown, Unwrap(rest));
      AppendWellFormed(shown, Unwrap(rest));
    case Reference(shown, _, rest) =>
      UnwrapFacts(rest);
      AppendFacts(shown, Unwrap(rest));
      AppendWellFormed(shown, Unwrap(rest));
  }

  lemma WholeLabel(d: Doc)
    requires d.Link? || d.Reference?
    ensures |Print(d.shown)| + 1 < |Whole(d)| && Whole(d)[0] == '['
    ensures Whole(d)[1..|Print(d.shown)| + 1] == Print(d.shown)
  {
    hide Print, PrintDestination;
    var p := Print(d.shown);
    match d
    case Link(_, to, _) =>
      assert Whole(d) == "[" + (p + ("](" + PrintDestination(to) + ")"));
    case Reference(_, ref, _) =>
      assert Whole(d) == "[" + (p + ("][" + ref + "]"));
  }

  /** A pass over a printed document prints the document with one level unwrapped. */
  lemma {:induction false} PassUnwraps(d: Doc)
    requires WellFormed(d)
    ensures Strip(Print(d)) == Print(Unwrap(d))
  {
    hide Free, BalancedBrackets, DestinationOk, Clear, Strip, LinkAt, Append, PrintDestination;
    match d
    case End => StripNothing();
    case Text(s, rest) =>
      PassUnwraps(rest);
      TextKept(s, Print(rest));
    case Link(shown, to, rest) =>
      PassUnwraps(rest);
      assert Whole(d) == Whole(Link(shown, to, End));
      LinkFound(shown, to, Print(rest));
      WholeLabel(d);
      StripLink(Whole(d), Print(rest), Print(shown));
      AppendFacts(shown, Unwrap(rest));
    case Reference(shown, ref, rest) =>
      PassUnwraps(rest);
      assert Whole(d) == Whole(Reference(shown, ref, End));
      ReferenceFound(shown, ref, Print(rest));
      WholeLabel(d);
      StripLink(Whole(d), Print(rest), Print(shown));
      AppendFacts(shown, Unwrap(rest));
  }

  lemma StripNothing()
    ensures Strip("") == ""
  {
  }

  // ----- Main results ------------------------------------------------------

  /** A document prints as its leaves exactly when it has no link. */
  lemma {:induction false} PrintedLeaves(d: Doc)
    ensures |Print(d)| >= |Leaves(d)|
    ensures if Depth(d) == 0 then Print(d) == Leaves(d) else |Print(d)| >= |Leaves(d)| + 4
  {
    match d
    case End =>
    case Text(_, rest) => PrintedLeaves(rest);
    case Link(shown, _, rest) => PrintedLeaves(shown); PrintedLeaves(rest);
    case Reference(shown, _, rest) => PrintedLeaves(shown); PrintedLeaves(rest);
  }

  /** After `n` passes just the leaves are left exactly when links nest `n` deep at most. */
  lemma {:induction false} LeavesAfter(d: Doc, n: nat)
    requires WellFormed(d)
    ensures Passes(Print(d), n) == Leaves(d) <==> Depth(d) <= n
    decreases n
  {
    hide Strip, Print, Leaves, Depth, Unwrap, WellFormed;
    if n == 0 {
      PrintedLeaves(d);
    } else {
      PassUnwraps(d);
      UnwrapFacts(d);
      LeavesAfter(Unwrap(d), n - 1);
    }
  }

  /**
    * `visible_text`, definitions and all: where no printed line is a link definition,
    * just the text is left if and only if links nest eight deep at most.
    */
  lemma VisibleExactly(d: Doc)
    requires WellFormed(d) && LinkDefinitions.NoDefinition(Print(d))
    ensures LinkDefinitions.Visible(Print(d)) == Leaves(d) <==> Depth(d) <= 8
  {
    hide Passes, Print, Leaves, Depth, WellFormed, LinkDefinitions.NoDefinition, LinkDefinitions.RemoveDefinitions;
    LinkDefinitions.RemovalExactly(Print(d));
    LeavesAfter(d, MAX_PASSES);
  }

  /** No brackets of their own in texts, targets and references. */
  predicate NoBrackets(d: Doc) {
    match d
    case End => true
    case Text(s, rest) => Free(s, "[]") && NoBrackets(rest)
    case Link(shown, to, rest) =>
      NoBrackets(shown) && Free(PrintDestination(to), "[]") && NoBrackets(rest)
    case Reference(shown, ref, rest) =>
      NoBrackets(shown) && Free(ref, "[]") && NoBrackets(rest)
  }

  lemma {:induction false} NestThrough(a: string, b: string, depth: nat)
    requires Nest(a, depth).Some?
    ensures Nest(a + b, depth) == Nest(b, Nest(a, depth).value)
    decreases |a|
  {
    if a == "" {
      assert a + b == b;
    } else {
      assert (a + b)[1..] == a[1..] + b;
      if a[0] == '\\' {
        assert (a + b)[2..] == a[2..] + b;
        NestThrough(a[2..], b, depth);
      } else if a[0] == '[' {
        NestThrough(a[1..], b, depth + 1);
      } else if a[0] == ']' {
        NestThrough(a[1..], b, depth - 1);
      } else {
        NestThrough(a[1..], b, depth);
      }
    }
  }

  lemma {:induction false} NestFree(s: string, depth: nat)
    requires Free(s, "[]")
    ensures Nest(s, depth) == Some(depth)
    decreases |s|
  {
    if s != "" { NestFree(if s[0] == '\\' then s[2..] else s[1..], depth); }
  }

  lemma NestBetween(a: string, depth: nat)
    requires Nest(a, depth + 1) == Some(depth + 1)
    ensures Nest("[" + a + "]", depth) == Some(depth)
  {
    hide Nest;
    NestThrough("[", a + "]", depth) by { NestOpens(depth); }
    NestOpens(depth);
    NestThrough(a, "]", depth + 1);
    NestCloses(depth);
    Associative("[", a, "]");
  }

  lemma NestOpens(depth: nat)
    ensures Nest("[", depth) == Some(depth + 1)
  {
  }

  lemma NestCloses(depth: nat)
    ensures Nest("]", depth + 1) == Some(depth)
  {
  }

  /** Such documents have labels that balance, however deep they nest. */
  lemma {:induction false} NoBracketsBalance(d: Doc, depth: nat)
    requires NoBrackets(d)
    ensures Nest(Print(d), depth) == Some(depth)
    decreases d
  {
    hide Nest, Free, PrintDestination;
    match d
    case End => NestNothing(depth);
    case Text(s, rest) =>
      NestFree(s, depth);
      NoBracketsBalance(rest, depth);
      NestThrough(s, Print(rest), depth);
    case Link(shown, to, rest) =>
      NoBracketsBalance(shown, depth + 1);
      NoBracketsBalance(rest, depth);
      var p, q := Print(shown), PrintDestination(to);
      NestBetween(p, depth);
      NestFree(q, depth);
      NestParens(depth);
      NestThrough("(", q + ")", depth);
      NestThrough(q, ")", depth);
      NestThrough("[" + p + "]", "(" + (q + ")"), depth);
      assert Whole(d) == ("[" + p + "]") + ("(" + (q + ")"));
      NestThrough(Whole(d), Print(rest), depth);
    case Reference(shown, ref, rest) =>
      NoBracketsBalance(shown, depth + 1);
      NoBracketsBalance(rest, depth);
      var p := Print(shown);
      NestBetween(p, depth);
      NestFree(ref, depth + 1);
      NestBetween(ref, depth);
      NestThrough("[" + p + "]", "[" + ref + "]", depth);
      assert Whole(d) == ("[" + p + "]") + ("[" + ref + "]");
      NestThrough(Whole(d), Print(rest), depth);
  }

  lemma NestNothing(depth: nat)
    ensures Nest("", depth) == Some(depth)
  {
  }

  lemma NestParens(depth: nat)
    ensures Nest("(", depth) == Some(depth) && Nest(")", depth) == Some(depth)
  {
  }
}
