/**
  * Links reduced to what a reader is shown, in scripts/markdown_text.py:
  * `_matching_bracket`, `_closing_parenthesis`, `_strip_inline_links` and the
  * pass loop of `visible_text`.
  *
  * Each scan looks only forward, so what it finds is a function of the rest of
  * the text; offsets are counted from where the scan starts.
  */
module VisibleText {

  import opened Sequences
  import opened Wrappers
  import opened Subsequences

  const MAX_PASSES: nat := 8

  // ----- The scans, as functions of the rest of the text --------------------

  function Shift(n: nat, r: Option<nat>): Option<nat> {
    match r case None => None case Some(k) => Some(n + k)
  }

  /** How many spaces and tabs the text begins with. */
  function Blanks(s: string): (n: nat)
    ensures n <= |s|
  {
    if s != "" && (s[0] == ' ' || s[0] == '\t') then 1 + Blanks(s[1..]) else 0
  }

  /** A line ends here and the next one is blank. */
  predicate BlankLine(s: string) {
    && s != "" && s[0] == '\n'
    && var n := 1 + Blanks(s[1..]);
       n < |s| && s[n] == '\n'
  }

  predicate Escaping(s: string) { |s| > 1 && s[0] == '\\' }

  /** `_matching_bracket`. */
  function Bracket(s: string, depth: int): (r: Option<nat>)
    ensures r.Some? ==> r.value < |s| && s[r.value] == ']'
  {
    if s == "" then None
    else if Escaping(s) then Shift(2, Bracket(s[2..], depth))
    else if s[0] == '[' then Shift(1, Bracket(s[1..], depth + 1))
    else if s[0] == ']' then
      if depth == 1 then Some(0) else Shift(1, Bracket(s[1..], depth - 1))
    else if BlankLine(s) then None
    else Shift(1, Bracket(s[1..], depth))
  }

  /** Just past the `>` that ends a destination in angle brackets. */
  function AngleEnd(s: string): (r: Option<nat>)
    ensures r.Some? ==> 0 < r.value <= |s|
  {
    if s == "" || s[0] == '\n' then None
    else if s[0] == '>' then Some(1)
    else if Escaping(s) then Shift(2, AngleEnd(s[2..]))
    else Shift(1, AngleEnd(s[1..]))
  }

  /** Just past the quote that ends a title. */
  function QuoteEnd(s: string, quote: char): (r: Option<nat>)
    ensures r.Some? ==> 0 < r.value <= |s|
  {
    if s == "" then None
    else if Escaping(s) then Shift(2, QuoteEnd(s[2..], quote))
    else if s[0] == quote then Some(1)
    else if BlankLine(s) then None
    else Shift(1, QuoteEnd(s[1..], quote))
  }

  /** Just past the parenthesis that brings the balance to nothing. */
  function Balance(s: string, depth: int): (r: Option<nat>)
    ensures r.Some? ==> 0 < r.value <= |s|
    decreases |s|
  {
    if s == "" then None
    else if Escaping(s) then Shift(2, Balance(s[2..], depth))
    else if s[0] == '\"' || s[0] == '\'' then
      match QuoteEnd(s[1..], s[0])
      case None => None
      case Some(n) => Shift(1 + n, Balance(s[1 + n..], depth))
    else if s[0] == '(' then Shift(1, Balance(s[1..], depth + 1))
    else if s[0] == ')' then
      if depth == 1 then Some(1) else Shift(1, Balance(s[1..], depth - 1))
    else if BlankLine(s) then None
    else Shift(1, Balance(s[1..], depth))
  }

  /** After the opening parenthesis: blanks, a destination in `<`…`>` if there is one, the rest. */
  function Inside(s: string): (r: Option<nat>)
    ensures r.Some? ==> 0 < r.value <= |s|
  {
    var b := Blanks(s);
    if b < |s| && s[b] == '<' then
      match AngleEnd(s[b + 1..])
      case None => None
      case Some(n) => Shift(b + 1 + n, Balance(s[b + 1 + n..], 1))
    else Shift(b, Balance(s[b..], 1))
  }

  /** `_closing_parenthesis`, from the `(` itself. */
  function Closing(s: string): (r: Option<nat>)
    requires s != ""
    ensures r.Some? ==> 1 < r.value <= |s|
  {
    Shift(1, Inside(s[1..]))
  }

  /** What the scan does with a character that opens no title. */
  lemma BalanceStep(s: string, depth: int)
    requires s != "" && !Escaping(s) && s[0] != '\"' && s[0] != '\''
    ensures var next := if s[0] == '(' then depth + 1 else if s[0] == ')' then depth - 1 else depth;
            || Balance(s, depth) == None
            || (s[0] == ')' && Balance(s, depth) == Some(1))
            || Balance(s, depth) == Shift(1, Balance(s[1..], next))
  {
    hide BlankLine, QuoteEnd, Shift;
  }

  /** The balance ends right after a closing parenthesis. */
  lemma {:induction false} BalanceEnds(s: string, depth: int)
    ensures Balance(s, depth).Some? ==> s[Balance(s, depth).value - 1] == ')'
    decreases |s|
  {
    hide BlankLine, QuoteEnd, Balance;
    if s == "" {
      BalanceNothing(depth);
    } else if Escaping(s) {
      BalanceEscape(s, depth);
      BalanceEnds(s[2..], depth);
    } else if s[0] == '\"' || s[0] == '\'' {
      BalanceUnfold(s, depth);
      match QuoteEnd(s[1..], s[0])
      case None =>
      case Some(n) => BalanceEnds(s[1 + n..], depth);
    } else {
      BalanceStep(s, depth);
      BalanceEnds(s[1..], if s[0] == '(' then depth + 1 else if s[0] == ')' then depth - 1 else depth);
    }
  }

  lemma BalanceNothing(depth: int)
    ensures Balance("", depth) == None
  {
  }

  lemma BalanceEscape(s: string, depth: int)
    requires Escaping(s)
    ensures Balance(s, depth) == Shift(2, Balance(s[2..], depth))
  {
    hide Shift;
  }

  /** And so does a link. */
  lemma ClosingEnds(s: string)
    requires s != ""
    ensures Closing(s).Some? ==> s[Closing(s).value - 1] == ')'
  {
    hide Balance, AngleEnd, Blanks;
    var t := s[1..];
    var b := Blanks(t);
    if b < |t| && t[b] == '<' {
      match AngleEnd(t[b + 1..])
      case None =>
      case Some(n) => BalanceEnds(t[b + 1 + n..], 1);
    } else {
      BalanceEnds(t[b..], 1);
    }
  }

  /** Where a link's label ends and where the link itself ends, when one begins here. */
  datatype Extent = Extent(close: nat, after: nat)

  function LinkAt(s: string): (r: Option<Extent>)
    ensures r.Some? ==> 0 < r.value.close && r.value.close + 3 <= r.value.after <= |s|
  {
    if s == "" || s[0] != '[' then None
    else
      match Bracket(s, 0)
      case None => None
      case Some(close) =>
        if close + 1 < |s| && s[close + 1] == '(' then
          match Closing(s[close + 1..])
          case None => None
          case Some(n) => Some(Extent(close, close + 1 + n))
        else if close + 1 < |s| && s[close + 1] == '[' then
          match Bracket(s[close + 1..], 0)
          case None => None
          case Some(n) => NotAtOnce(s[close + 1..]); Some(Extent(close, close + 1 + n + 1))
        else None
  }

  /** The bracket that closes is not the one that opens. */
  lemma NotAtOnce(s: string)
    requires s != "" && s[0] == '['
    ensures Bracket(s, 0).Some? ==> 0 < Bracket(s, 0).value
  {
  }

  /** `_strip_inline_links`. */
  function Strip(s: string): string
    decreases |s|
  {
    if s == "" then ""
    else if Escaping(s) then s[..2] + Strip(s[2..])
    else
      match LinkAt(s)
      case Some(e) => s[1..e.close] + Strip(s[e.after..])
      case None => [s[0]] + Strip(s[1..])
  }

  function Passes(s: string, n: nat): string
    decreases n
  {
    if n == 0 then s else Passes(Strip(s), n - 1)
  }

  // ----- The same scans as the loops that run them -------------------------

  function Offset(start: nat, r: Option<nat>): int {
    match r case None => -1 case Some(k) => start + k
  }

  lemma Suffix(s: string, i: nat, n: nat)
    requires i + n <= |s|
    ensures s[i..][n..] == s[i + n..]
  {
  }

  method AtBlankLine(text: string, index: nat) returns (blank: bool)
    requires index < |text|
    ensures blank == BlankLine(text[index..])
  {
    if text[index] != '\n' { return false; }
    Suffix(text, index, 1);
    var i := SkipBlanks(text, index + 1);
    blank := i < |text| && text[i] == '\n';
  }

  method SkipBlanks(text: string, start: nat) returns (index: nat)
    requires start <= |text|
    ensures index == start + Blanks(text[start..])
  {
    index := start;
    while index < |text| && (text[index] == ' ' || text[index] == '\t')
      invariant start <= index <= |text|
      invariant start + Blanks(text[start..]) == index + Blanks(text[index..])
    {
      Suffix(text, index, 1);
      index := index + 1;
    }
  }

  lemma BracketAt(text: string, i: nat, depth: int)
    requires i < |text|
    ensures var r, c, next := Bracket(text[i..], depth), text[i], text[i + 1..];
            if c == '\\' && i + 1 < |text| then r == Shift(2, Bracket(text[i + 2..], depth))
            else if c == '[' then r == Shift(1, Bracket(next, depth + 1))
            else if c == ']' then r == if depth == 1 then Some(0) else Shift(1, Bracket(next, depth - 1))
            else r == if BlankLine(text[i..]) then None else Shift(1, Bracket(next, depth))
  {
    hide BlankLine;
    Suffix(text, i, 1);
    if i + 1 < |text| { Suffix(text, i, 2); }
  }

  method MatchingBracket(text: string, start: nat) returns (found: int)
    requires start <= |text|
    ensures found == Offset(start, Bracket(text[start..], 0))
  {
    hide BlankLine, Bracket;
    var depth := 0;
    var index := start;
    while index < |text|
      invariant start <= index <= |text|
      invariant Offset(start, Bracket(text[start..], 0)) == Offset(index, Bracket(text[index..], depth))
      decreases |text| - index
    {
      var c := text[index];
      BracketAt(text, index, depth);
      if c == '\\' && index + 1 < |text| {
        index := index + 2;
        continue;
      }
      if c == '[' {
        depth := depth + 1;
      } else if c == ']' {
        depth := depth - 1;
        if depth == 0 { return index; }
      } else {
        var blank := AtBlankLine(text, index);
        if blank { return -1; }
      }
      index := index + 1;
    }
    NothingLeft(text);
    return -1;
  }

  lemma NothingLeft(text: string)
    ensures Bracket(text[|text|..], 0) == None
    ensures forall depth :: Bracket(text[|text|..], depth) == None
    ensures forall depth :: Balance(text[|text|..], depth) == None
    ensures Strip(text[|text|..]) == ""
  {
  }

  /** The two nested loops of `_closing_parenthesis`: from here to the end of the title. */
  method SkipQuoted(text: string, start: nat, quote: char) returns (found: int)
    requires start <= |text|
    ensures found == Offset(start, QuoteEnd(text[start..], quote))
  {
    hide BlankLine;
    var index := start;
    while index < |text|
      invariant start <= index <= |text|
      invariant Offset(start, QuoteEnd(text[start..], quote)) == Offset(index, QuoteEnd(text[index..], quote))
      decreases |text| - index
    {
      Suffix(text, index, 1);
      if text[index] == '\\' && index + 1 < |text| {
        Suffix(text, index, 2);
        index := index + 2;
        continue;
      }
      if text[index] == quote { return index + 1; }
      var blank := AtBlankLine(text, index);
      if blank { return -1; }
      index := index + 1;
    }
    return -1;
  }

  method SkipAngle(text: string, start: nat) returns (found: int)
    requires start <= |text|
    ensures found == Offset(start, AngleEnd(text[start..]))
  {
    var index := start;
    while index < |text| && text[index] != '>' && text[index] != '\n'
      invariant start <= index <= |text|
      invariant Offset(start, AngleEnd(text[start..])) == Offset(index, AngleEnd(text[index..]))
      decreases |text| - index
    {
      var n := if text[index] == '\\' && index + 1 < |text| then 2 else 1;
      Suffix(text, index, n);
      index := index + n;
    }
    if index >= |text| || text[index] == '\n' { return -1; }
    return index + 1;
  }

  lemma BalanceAt(text: string, i: nat, depth: int)
    requires i < |text|
    requires Escaping(text[i..]) || text[i] !in "\"'"
    ensures var r, c, next := Balance(text[i..], depth), text[i], text[i + 1..];
            if c == '\\' && i + 1 < |text| then r == Shift(2, Balance(text[i + 2..], depth))
            else if c == '(' then r == Shift(1, Balance(next, depth + 1))
            else if c == ')' then r == if depth == 1 then Some(1) else Shift(1, Balance(next, depth - 1))
            else r == if BlankLine(text[i..]) then None else Shift(1, Balance(next, depth))
  {
    hide BlankLine, QuoteEnd;
    Suffix(text, i, 1);
    if i + 1 < |text| { Suffix(text, i, 2); }
  }

  lemma BalanceUnfold(s: string, depth: int)
    requires s != "" && (s[0] == '\"' || s[0] == '\'')
    ensures match QuoteEnd(s[1..], s[0])
            case None => Balance(s, depth) == None
            case Some(n) => Balance(s, depth) == Shift(1 + n, Balance(s[1 + n..], depth))
  {
    hide BlankLine, QuoteEnd, Shift;
  }

  lemma BalanceAtQuote(text: string, i: nat, depth: int)
    requires i < |text| && (text[i] == '\"' || text[i] == '\'')
    ensures match QuoteEnd(text[i + 1..], text[i])
            case None => Balance(text[i..], depth) == None
            case Some(n) =>
              Balance(text[i..], depth) == Shift(1 + n, Balance(text[i + 1 + n..], depth))
  {
    hide BlankLine, QuoteEnd, Balance, Shift;
    BalanceUnfold(text[i..], depth);
    Suffix(text, i, 1);
    match QuoteEnd(text[i + 1..], text[i])
    case None =>
    case Some(n) => Suffix(text, i, 1 + n);
  }

  method Balanced(text: string, start: nat) returns (found: int)
    requires start <= |text|
    ensures found == Offset(start, Balance(text[start..], 1))
  {
    hide BlankLine, Balance, QuoteEnd;
    var depth := 1;
    var index := start;
    while index < |text|
      invariant start <= index <= |text|
      invariant Offset(start, Balance(text[start..], 1)) == Offset(index, Balance(text[index..], depth))
      decreases |text| - index
    {
      var c := text[index];
      if c == '\\' && index + 1 < |text| {
        BalanceAt(text, index, depth);
        index := index + 2;
        continue;
      }
      if c == '\"' || c == '\'' {
        BalanceAtQuote(text, index, depth);
        var past := SkipQuoted(text, index + 1, c);
        if past == -1 { return -1; }
        index := past;
        continue;
      }
      BalanceAt(text, index, depth);
      if c == '(' {
        depth := depth + 1;
      } else if c == ')' {
        depth := depth - 1;
        if depth == 0 { return index + 1; }
      } else {
        var blank := AtBlankLine(text, index);
        if blank { return -1; }
      }
      index := index + 1;
    }
    NothingLeft(text);
    return -1;
  }

  lemma InsideUnfold(s: string)
    ensures var b := Blanks(s);
            if b < |s| && s[b] == '<' then
              (match AngleEnd(s[b + 1..])
               case None => Inside(s) == None
               case Some(n) => Inside(s) == Shift(b + 1 + n, Balance(s[b + 1 + n..], 1)))
            else Inside(s) == Shift(b, Balance(s[b..], 1))
  {
    hide Balance, AngleEnd, Blanks, Shift;
  }

  lemma InsideAt(text: string, i: nat, b: nat)
    requires i <= |text| && b == i + Blanks(text[i..])
    ensures b <= |text|
    ensures var r := Offset(i, Inside(text[i..]));
            if b < |text| && text[b] == '<' then
              (match AngleEnd(text[b + 1..])
               case None => r == -1
               case Some(n) => r == Offset(b + 1 + n, Balance(text[b + 1 + n..], 1)))
            else r == Offset(b, Balance(text[b..], 1))
  {
    hide Balance, AngleEnd, Blanks, Inside, Offset;
    if b < |text| && text[b] == '<' {
      InsideAtAngle(text, i, b);
    } else {
      InsideAtBare(text, i, b);
    }
  }

  lemma InsideAtBare(text: string, i: nat, b: nat)
    requires i <= |text| && b == i + Blanks(text[i..])
    requires b < |text| ==> text[b] != '<'
    ensures Offset(i, Inside(text[i..])) == Offset(b, Balance(text[b..], 1))
  {
    hide Balance, AngleEnd, Blanks, Inside, Shift, Offset;
    var s, n := text[i..], b - i;
    assert b < |text| ==> s[n] == text[b];
    assert s[n..] == text[b..] by { Suffix(text, i, n); }
    InsideUnfold(s);
    ShiftOffset(i, n, Balance(text[b..], 1));
  }

  lemma InsideAtAngle(text: string, i: nat, b: nat)
    requires i <= b < |text| && b == i + Blanks(text[i..]) && text[b] == '<'
    ensures Offset(i, Inside(text[i..]))
         == match AngleEnd(text[b + 1..])
            case None => -1
            case Some(n) => Offset(b + 1 + n, Balance(text[b + 1 + n..], 1))
  {
    hide Balance, AngleEnd, Blanks, Inside, Shift, Offset;
    var s, n := text[i..], b - i;
    assert s[n] == text[b];
    assert s[n + 1..] == text[b + 1..] by { Suffix(text, i, n + 1); }
    InsideUnfold(s);
    match AngleEnd(text[b + 1..])
    case None =>
      assert Offset(i, None) == -1 by { NoOffset(i); }
    case Some(k) =>
      assert s[n + 1 + k..] == text[b + 1 + k..] by { Suffix(text, i, n + 1 + k); }
      ShiftOffset(i, n + 1 + k, Balance(text[b + 1 + k..], 1));
  }

  lemma NoOffset(i: nat)
    ensures Offset(i, None) == -1
  {
  }

  lemma ShiftOffset(i: nat, n: nat, r: Option<nat>)
    ensures Offset(i, Shift(n, r)) == Offset(i + n, r)
  {
  }

  lemma ClosingAt(text: string, start: nat)
    requires start < |text|
    ensures Offset(start, Closing(text[start..])) == Offset(start + 1, Inside(text[start + 1..]))
  {
    hide Inside;
    Suffix(text, start, 1);
  }

  method ClosingParenthesis(text: string, start: nat) returns (found: int)
    requires start < |text|
    ensures found == Offset(start, Closing(text[start..]))
  {
    hide Balance, AngleEnd, Blanks, Closing, Inside;
    var index := SkipBlanks(text, start + 1);
    ClosingAt(text, start);
    InsideAt(text, start + 1, index);
    if index < |text| && text[index] == '<' {
      var past := SkipAngle(text, index + 1);
      if past == -1 { return -1; }
      index := past;
    }
    found := Balanced(text, index);
  }

  /** The three ways to go on from one offset. */
  lemma StripAt(text: string, i: nat)
    requires i < |text|
    ensures var r, e := Strip(text[i..]), LinkAt(text[i..]);
            if text[i] == '\\' && i + 1 < |text| then r == text[i..i + 2] + Strip(text[i + 2..])
            else if e.Some? then
              && i + e.value.after <= |text|
              && r == text[i + 1..i + e.value.close] + Strip(text[i + e.value.after..])
            else r == [text[i]] + Strip(text[i + 1..])
  {
    hide LinkAt;
    var s := text[i..];
    Suffix(text, i, 1);
    if i + 1 < |text| {
      Suffix(text, i, 2);
      assert s[..2] == text[i..i + 2];
    }
    if LinkAt(s).Some? {
      var e := LinkAt(s).value;
      Suffix(text, i, e.after);
      assert s[1..e.close] == text[i + 1..i + e.close];
    }
  }

  /** The link at an offset, as the two scans find it. */
  lemma LinkExtent(text: string, i: nat)
    requires i < |text| && text[i] == '['
    ensures var e, close := LinkAt(text[i..]), Offset(i, Bracket(text[i..], 0));
            if close == -1 then e == None
            else
              && i < close < |text|
              && if close + 1 < |text| && text[close + 1] == '(' then
                   var after := Offset(close + 1, Closing(text[close + 1..]));
                   e == if after == -1 then None else Some(Extent(close - i, after - i))
                 else if close + 1 < |text| && text[close + 1] == '[' then
                   var reference := Offset(close + 1, Bracket(text[close + 1..], 0));
                   e == if reference == -1 then None else Some(Extent(close - i, reference + 1 - i))
                 else e == None
  {
    hide Bracket, Closing;
    NotAtOnce(text[i..]);
    var close := Offset(i, Bracket(text[i..], 0));
    if close != -1 && close + 1 < |text| {
      Suffix(text, i, close + 1 - i);
    }
  }

  /** The two kinds of link, tried at an offset; `after` is -1 where there is none. */
  method FindLink(text: string, index: nat) returns (close: int, after: int)
    requires index < |text|
    ensures match LinkAt(text[index..])
            case None => after == -1
            case Some(e) => close == index + e.close && after == index + e.after
  {
    hide LinkAt, Bracket, Closing;
    if text[index] != '[' {
      NoLink(text[index..]);
      return -1, -1;
    }
    LinkExtent(text, index);
    close := MatchingBracket(text, index);
    if close != -1 && close + 1 < |text| && text[close + 1] == '(' {
      after := ClosingParenthesis(text, close + 1);
      if after != -1 { return; }
    }
    if close != -1 && close + 1 < |text| && text[close + 1] == '[' {
      var reference := MatchingBracket(text, close + 1);
      if reference != -1 { return close, reference + 1; }
    }
    return close, -1;
  }

  method StripInlineLinks(text: string) returns (out: string)
    ensures out == Strip(text)
  {
    hide Strip, LinkAt;
    out := "";
    var index := 0;
    assert text[0..] == text;
    while index < |text|
      invariant index <= |text|
      invariant Strip(text) == out + Strip(text[index..])
      decreases |text| - index
    {
      StripAt(text, index);
      var piece, next := [text[index]], index + 1;
      if text[index] == '\\' && index + 1 < |text| {
        piece, next := text[index..index + 2], index + 2;
      } else {
        var close, after := FindLink(text, index);
        if after != -1 {
          // The label is what a reader is shown.
          piece, next := text[index + 1..close], after;
        }
      }
      Associative(out, piece, Strip(text[next..]));
      out := out + piece;
      index := next;
    }
    NothingLeft(text);
  }

  lemma NoLink(s: string)
    requires s == "" || s[0] != '['
    ensures LinkAt(s) == None
  {
  }

  /** The pass loop of `visible_text`, after link definitions are gone. */
  method ReduceLinks(source: string) returns (text: string)
    ensures text == Passes(source, MAX_PASSES)
  {
    hide Strip;
    text := source;
    for i := 0 to MAX_PASSES
      invariant Passes(text, MAX_PASSES - i) == Passes(source, MAX_PASSES)
    {
      var reduced := StripInlineLinks(text);
      if reduced == text {
        Settled(text, MAX_PASSES - i);
        break;
      }
      text := reduced;
    }
  }

  lemma {:induction false} Settled(s: string, n: nat)
    requires Strip(s) == s
    ensures Passes(s, n) == s
  {
    if n > 0 { Settled(s, n - 1); }
  }

  // ----- Any text at all ---------------------------------------------------

  /** A pass only deletes. */
  lemma {:induction false} StripDeletes(s: string)
    ensures Subsequence(Strip(s), s)
    decreases |s|
  {
    hide Subsequence, LinkAt;
    if s == "" {
      Reflexive(s);
    } else if Escaping(s) {
      StripDeletes(s[2..]);
      Reflexive(s[..2]);
      Concat(s[..2], s[..2], Strip(s[2..]), s[2..]);
      assert s[..2] + s[2..] == s;
    } else if LinkAt(s).Some? {
      var e := LinkAt(s).value;
      StripDeletes(s[e.after..]);
      Stretch(s[..e.after], 1, e.close);
      assert s[..e.after][1..e.close] == s[1..e.close];
      Concat(s[1..e.close], s[..e.after], Strip(s[e.after..]), s[e.after..]);
      assert s[..e.after] + s[e.after..] == s;
    } else {
      StripDeletes(s[1..]);
      Reflexive([s[0]]);
      Concat([s[0]], [s[0]], Strip(s[1..]), s[1..]);
      assert [s[0]] + s[1..] == s;
    }
  }

  /** A link begins at some offset that no escape and no earlier link takes. */
  predicate HasLink(s: string)
    decreases |s|
  {
    s != ""
    && if Escaping(s) then HasLink(s[2..]) else LinkAt(s).Some? || HasLink(s[1..])
  }

  /** A pass that finds no link changes nothing; one that does deletes four characters or more. */
  lemma {:induction false} StripShortens(s: string)
    ensures !HasLink(s) ==> Strip(s) == s
    ensures HasLink(s) ==> |Strip(s)| + 4 <= |s|
    decreases |s|
  {
    hide LinkAt;
    if s == "" {
    } else if Escaping(s) {
      StripShortens(s[2..]);
      assert s[..2] + s[2..] == s;
    } else if LinkAt(s).Some? {
      StripShortens(s[LinkAt(s).value.after..]);
    } else {
      StripShortens(s[1..]);
      assert [s[0]] + s[1..] == s;
    }
  }

  /** So what is printed is the text with stretches deleted, whatever the text. */
  lemma {:induction false} PassesDelete(s: string, n: nat)
    ensures Subsequence(Passes(s, n), s)
    ensures Passes(s, n) == s || |Passes(s, n)| + 4 <= |s|
    decreases n
  {
    hide Strip, Subsequence;
    if n == 0 {
      Reflexive(s);
    } else {
      StripDeletes(s);
      StripShortens(s);
      PassesDelete(Strip(s), n - 1);
      Transitive(Passes(s, n), Strip(s), s);
    }
  }

  /** The eight passes are enough for exactly the texts whose result holds no link. */
  lemma {:induction false} PassesSettle(s: string, n: nat)
    ensures !HasLink(Passes(s, n)) <==> (forall k :: k >= n ==> Passes(s, k) == Passes(s, n))
  {
    hide Strip, HasLink;
    var t := Passes(s, n);
    StripShortens(t);
    if !HasLink(t) {
      forall k | k >= n ensures Passes(s, k) == t {
        PassesAdd(s, n, k - n);
        Settled(t, k - n);
      }
    } else {
      PassesAdd(s, n, 1);
      assert Passes(t, 1) == Passes(Strip(t), 0);
      assert Passes(s, n + 1) != t;
    }
  }

  lemma {:induction false} PassesAdd(s: string, m: nat, n: nat)
    ensures Passes(s, m + n) == Passes(Passes(s, m), n)
    decreases m
  {
    hide Strip;
    if m > 0 { PassesAdd(Strip(s), m - 1, n); }
  }
}
