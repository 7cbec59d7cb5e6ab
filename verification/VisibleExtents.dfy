/**
  * Where labels and links end for `visible_text` (scripts/markdown_text.py), said by a
  * reading of the text character by character instead of its scans.
  */
module VisibleExtents {

  import opened Wrappers
  import opened VisibleText

  // ----- The pattern of a blank line ---------------------------------------

  /** `\n[ \t]*\n` matches at `k`. */
  predicate BlankLineAt(s: string, k: nat) {
    k < |s| && s[k] == '\n' &&
    exists m :: k < m < |s| && s[m] == '\n' && forall j :: k < j < m ==> s[j] == ' ' || s[j] == '\t'
  }

  lemma {:induction false} BlanksCount(s: string)
    ensures forall j :: 0 <= j < Blanks(s) ==> s[j] == ' ' || s[j] == '\t'
    ensures Blanks(s) < |s| ==> s[Blanks(s)] != ' ' && s[Blanks(s)] != '\t'
  {
    if s != "" && (s[0] == ' ' || s[0] == '\t') { BlanksCount(s[1..]); }
  }

  lemma BlankLineExactly(s: string)
    ensures BlankLine(s) <==> BlankLineAt(s, 0)
  {
    if s != "" {
      BlanksCount(s[1..]);
      var n := 1 + Blanks(s[1..]);
      assert forall j :: 0 < j < n ==> s[j] == s[1..][j - 1];
      if BlankLineAt(s, 0) {
        var m :| 0 < m < |s| && s[m] == '\n' && forall j :: 0 < j < m ==> s[j] == ' ' || s[j] == '\t';
        assert s[m] == s[1..][m - 1];
        assert n < |s| ==> s[n] == s[1..][n - 1];
      }
    }
  }

  lemma BlankLineTail(s: string, n: nat, k: nat)
    requires n <= |s|
    ensures BlankLineAt(s[n..], k) <==> BlankLineAt(s, n + k)
  {
    var t := s[n..];
    if BlankLineAt(t, k) {
      var m :| k < m < |t| && t[m] == '\n' && forall j :: k < j < m ==> t[j] == ' ' || t[j] == '\t';
      assert forall j :: n + k < j < n + m ==> s[j] == t[j - n];
      assert s[n + m] == '\n';
    }
    if BlankLineAt(s, n + k) {
      var m :| n + k < m < |s| && s[m] == '\n' && forall j :: n + k < j < m ==> s[j] == ' ' || s[j] == '\t';
      assert forall j :: k < j < m - n ==> t[j] == s[n + j];
      assert t[m - n] == '\n';
    }
  }

  // ----- Reading character by character ------------------------------------

  /** The marks that open and close, and whether quotes hide them. */
  datatype Marks = Marks(open: char, close: char, quotes: bool)

  const BRACKETS := Marks('[', ']', false)
  const PARENTHESES := Marks('(', ')', true)

  /** Whether the next character is escaped, the quote that is open, and how deep the marks are. */
  datatype Reading = Reading(escaped: bool, quote: Option<char>, depth: int)

  function After(r: Reading, c: char, marks: Marks): Reading {
    if r.escaped then r.(escaped := false)
    else if c == '\\' then r.(escaped := true)
    else if r.quote.Some? then (if c == r.quote.value then r.(quote := None) else r)
    else if marks.quotes && (c == '"' || c == '\'') then r.(quote := Some(c))
    else if c == marks.open then r.(depth := r.depth + 1)
    else if c == marks.close then r.(depth := r.depth - 1)
    else r
  }

  function ReadTo(s: string, k: nat, r: Reading, marks: Marks): Reading
    requires k <= |s|
  {
    if k == 0 then r else ReadTo(s[1..], k - 1, After(r, s[0], marks), marks)
  }

  /** The mark at `k` closes what was open. */
  predicate EndsAt(s: string, k: nat, r: Reading, marks: Marks)
    requires k < |s|
  {
    var now := ReadTo(s, k, r, marks);
    !now.escaped && now.quote.None? && now.depth == 1 && s[k] == marks.close
  }

  /** A blank line that no backslash escapes. */
  predicate BreaksAt(s: string, k: nat, r: Reading, marks: Marks)
    requires k < |s|
  {
    !ReadTo(s, k, r, marks).escaped && BlankLineAt(s, k)
  }

  /** The first mark that closes, with no blank line before it. */
  predicate FirstEnd(s: string, k: nat, r: Reading, marks: Marks) {
    && k < |s| && EndsAt(s, k, r, marks)
    && forall m :: 0 <= m < k ==> !EndsAt(s, m, r, marks) && !BreaksAt(s, m, r, marks)
  }

  lemma OneOn(s: string, k: nat, r: Reading, marks: Marks)
    requires 0 < k < |s|
    ensures EndsAt(s, k, r, marks) <==> EndsAt(s[1..], k - 1, After(r, s[0], marks), marks)
    ensures BreaksAt(s, k, r, marks) <==> BreaksAt(s[1..], k - 1, After(r, s[0], marks), marks)
  {
    hide BlankLineAt, After;
    BlankLineTail(s, 1, k - 1);
  }

  /** One character that neither closes nor breaks. */
  lemma FirstEndStep(s: string, k: nat, r: Reading, marks: Marks)
    requires s != ""
    ensures FirstEnd(s, k, r, marks)
       <==> if EndsAt(s, 0, r, marks) then k == 0
            else k > 0 && !BreaksAt(s, 0, r, marks) && FirstEnd(s[1..], k - 1, After(r, s[0], marks), marks)
  {
    hide EndsAt, BreaksAt, After;
    var t, q := s[1..], After(r, s[0], marks);
    if k > 0 {
      forall m | 0 < m < |s|
        ensures EndsAt(s, m, r, marks) <==> EndsAt(t, m - 1, q, marks)
        ensures BreaksAt(s, m, r, marks) <==> BreaksAt(t, m - 1, q, marks)
      {
        OneOn(s, m, r, marks);
      }
      if FirstEnd(s, k, r, marks) {
        forall m | 0 <= m < k - 1 ensures !EndsAt(t, m, q, marks) && !BreaksAt(t, m, q, marks) {
          assert !EndsAt(s, m + 1, r, marks) && !BreaksAt(s, m + 1, r, marks);
        }
      }
    }
  }

  /** Two characters, of which the first escapes the second. */
  lemma FirstEndPair(s: string, k: nat, quote: Option<char>, depth: int, marks: Marks)
    requires Escaping(s) && marks.close != '\\'
    ensures FirstEnd(s, k, Reading(false, quote, depth), marks)
       <==> k > 1 && FirstEnd(s[2..], k - 2, Reading(false, quote, depth), marks)
  {
    hide FirstEnd, BlankLineAt;
    var r := Reading(false, quote, depth);
    FirstEndStep(s, k, r, marks);
    assert !BlankLineAt(s, 0) by { NoLineEnd(s); }
    if k > 0 {
      FirstEndStep(s[1..], k - 1, Reading(true, quote, depth), marks);
      assert s[1..][1..] == s[2..];
    }
  }

  lemma NoLineEnd(s: string)
    requires s != "" && s[0] != '\n'
    ensures !BlankLineAt(s, 0)
  {
  }

  lemma NoEnd(k: nat, r: Reading, marks: Marks)
    ensures !FirstEnd("", k, r, marks)
  {
  }

  /** A lone backslash at the end. */
  lemma NoEndAfterOne(s: string, k: nat, r: Reading, marks: Marks)
    requires |s| == 1 && s[0] == '\\' && marks.close != '\\'
    ensures !FirstEnd(s, k, r, marks)
  {
  }

  // ----- Labels ------------------------------------------------------------

  function Fresh(depth: int): Reading { Reading(false, None, depth) }

  lemma BracketStep(s: string, depth: int)
    requires s != "" && s[0] != '\\'
    ensures Bracket(s, depth)
         == if s[0] == ']' && depth == 1 then Some(0)
            else if BlankLine(s) then None
            else Shift(1, Bracket(s[1..], if s[0] == '[' then depth + 1 else if s[0] == ']' then depth - 1 else depth))
  {
    hide Shift;
  }

  /** A label ends at its first closing bracket, as the reading finds it. */
  lemma {:induction false} BracketExactly(s: string, depth: int, k: nat)
    ensures Bracket(s, depth) == Some(k) <==> FirstEnd(s, k, Fresh(depth), BRACKETS)
    decreases |s|
  {
    hide FirstEnd, Bracket, BlankLine, BlankLineAt;
    if s == "" {
      NoEnd(k, Fresh(depth), BRACKETS);
      assert Bracket(s, depth) == None by { NoBracket(depth); }
    } else if Escaping(s) {
      FirstEndPair(s, k, None, depth, BRACKETS);
      BracketPair(s, depth);
      if k > 1 { BracketExactly(s[2..], depth, k - 2); }
    } else if s[0] == '\\' {
      NoEndAfterOne(s, k, Fresh(depth), BRACKETS);
      assert Bracket(s, depth) == None by { NoBracketAfterOne(s, depth); }
    } else {
      FirstEndStep(s, k, Fresh(depth), BRACKETS);
      BracketStep(s, depth);
      BlankLineExactly(s);
      if k > 0 {
        BracketExactly(s[1..], if s[0] == '[' then depth + 1 else if s[0] == ']' then depth - 1 else depth, k - 1);
      }
    }
  }

  lemma NoBracket(depth: int)
    ensures Bracket("", depth) == None
  {
  }

  lemma NoBracketAfterOne(s: string, depth: int)
    requires |s| == 1 && s[0] == '\\'
    ensures Bracket(s, depth) == None
  {
    assert s[1..] == "";
  }

  lemma BracketPair(s: string, depth: int)
    requires Escaping(s)
    ensures Bracket(s, depth) == Shift(2, Bracket(s[2..], depth))
  {
    hide Shift;
  }

  // ----- Destinations ------------------------------------------------------

  lemma QuoteStep(s: string, quote: char)
    requires s != "" && s[0] != '\\'
    ensures QuoteEnd(s, quote)
         == if s[0] == quote then Some(1) else if BlankLine(s) then None else Shift(1, QuoteEnd(s[1..], quote))
  {
    hide Shift;
  }

  lemma QuotePair(s: string, quote: char)
    requires Escaping(s)
    ensures QuoteEnd(s, quote) == Shift(2, QuoteEnd(s[2..], quote))
  {
    hide Shift;
  }

  lemma NoQuote(s: string, quote: char)
    requires s == "" || (|s| == 1 && s[0] == '\\')
    requires quote != '\\'
    ensures QuoteEnd(s, quote) == None
  {
    if s != "" { assert s[1..] == ""; }
  }

  lemma SliceTwice(s: string, n: nat, m: Option<nat>)
    requires n <= |s| && (m.Some? ==> n + m.value <= |s|)
    ensures m.Some? ==> s[n..][m.value..] == s[n + m.value..]
  {
  }

  /** After an opened quote the reading goes on behind the quote that closes it. */
  lemma {:induction false} QuoteExactly(s: string, quote: char, depth: int, k: nat)
    requires quote == '"' || quote == '\''
    ensures FirstEnd(s, k, Reading(false, Some(quote), depth), PARENTHESES)
       <==> match QuoteEnd(s, quote)
            case None => false
            case Some(n) => k >= n && FirstEnd(s[n..], k - n, Fresh(depth), PARENTHESES)
    decreases |s|
  {
    hide FirstEnd, QuoteEnd, BlankLine, BlankLineAt;
    var r := Reading(false, Some(quote), depth);
    if s == "" {
      NoEnd(k, r, PARENTHESES);
      NoQuote(s, quote);
    } else if Escaping(s) {
      FirstEndPair(s, k, Some(quote), depth, PARENTHESES);
      QuotePair(s, quote);
      if k > 1 {
        QuoteExactly(s[2..], quote, depth, k - 2);
        SliceTwice(s, 2, QuoteEnd(s[2..], quote));
      }
    } else if s[0] == '\\' {
      NoEndAfterOne(s, k, r, PARENTHESES);
      NoQuote(s, quote);
    } else {
      FirstEndStep(s, k, r, PARENTHESES);
      QuoteStep(s, quote);
      BlankLineExactly(s);
      if k > 0 && s[0] != quote {
        QuoteExactly(s[1..], quote, depth, k - 1);
        SliceTwice(s, 1, QuoteEnd(s[1..], quote));
      }
      if s[0] == quote { assert !BlankLineAt(s, 0) by { NoLineEnd(s); } }
    }
  }

  lemma BalanceUnquoted(s: string, depth: int)
    requires s != "" && s[0] != '\\' && s[0] != '"' && s[0] != '\''
    ensures Balance(s, depth)
         == if s[0] == ')' && depth == 1 then Some(1)
            else if BlankLine(s) then None
            else Shift(1, Balance(s[1..], if s[0] == '(' then depth + 1 else if s[0] == ')' then depth - 1 else depth))
  {
    hide Shift, QuoteEnd;
  }

  lemma BalanceQuoted(s: string, depth: int)
    requires s != "" && (s[0] == '"' || s[0] == '\'')
    ensures Balance(s, depth)
         == match QuoteEnd(s[1..], s[0])
            case None => None
            case Some(n) => Shift(1 + n, Balance(s[1 + n..], depth))
  {
    hide Shift, QuoteEnd;
  }

  lemma NoBalance(s: string, depth: int)
    requires s == "" || (|s| == 1 && s[0] == '\\')
    ensures Balance(s, depth) == None
  {
    if s != "" { assert s[1..] == ""; }
  }

  /** A destination with its title ends at the first parenthesis that closes, outside quotes. */
  lemma {:induction false} BalanceExactly(s: string, depth: int, k: nat)
    ensures Balance(s, depth) == Some(k + 1) <==> FirstEnd(s, k, Fresh(depth), PARENTHESES)
    decreases |s|
  {
    hide FirstEnd, Balance, QuoteEnd, BlankLine, BlankLineAt;
    if s == "" {
      NoEnd(k, Fresh(depth), PARENTHESES);
      NoBalance(s, depth);
    } else if Escaping(s) {
      FirstEndPair(s, k, None, depth, PARENTHESES);
      BalanceEscape(s, depth);
      if k > 1 { BalanceExactly(s[2..], depth, k - 2); }
    } else if s[0] == '\\' {
      NoEndAfterOne(s, k, Fresh(depth), PARENTHESES);
      NoBalance(s, depth);
    } else {
      FirstEndStep(s, k, Fresh(depth), PARENTHESES);
      if s[0] == '"' || s[0] == '\'' {
        BalanceQuoted(s, depth);
        assert !BlankLineAt(s, 0) by { NoLineEnd(s); }
        if k > 0 {
          QuoteExactly(s[1..], s[0], depth, k - 1);
          match QuoteEnd(s[1..], s[0]) {
            case None =>
            case Some(n) =>
              assert s[1..][n..] == s[1 + n..];
              if k - 1 >= n { BalanceExactly(s[1 + n..], depth, k - 1 - n); }
          }
        }
      } else {
        BalanceUnquoted(s, depth);
        BlankLineExactly(s);
        if k > 0 {
          BalanceExactly(s[1..], if s[0] == '(' then depth + 1 else if s[0] == ')' then depth - 1 else depth, k - 1);
        }
      }
    }
  }

  // ----- Destinations in angle brackets ------------------------------------

  /** The character at `k` is escaped, when the first one is not. */
  predicate EscapedIn(s: string, k: nat)
    requires k <= |s|
  {
    k > 0 && s[k - 1] == '\\' && !EscapedIn(s, k - 1)
  }

  /** The first live `>` of the line. */
  predicate AngleTo(s: string, k: nat) {
    && k < |s| && s[k] == '>' && !EscapedIn(s, k)
    && forall m :: 0 <= m < k ==> (s[m] == '>' || s[m] == '\n' ==> EscapedIn(s, m))
  }

  lemma {:induction false} EscapedTail(s: string, n: nat, k: nat)
    requires n + k <= |s| && !EscapedIn(s, n)
    ensures EscapedIn(s[n..], k) <==> EscapedIn(s, n + k)
    decreases k
  {
    if k > 0 { EscapedTail(s, n, k - 1); }
  }

  /** Past `n` characters that do not end it. */
  lemma AngleOn(s: string, n: nat, k: nat)
    requires 0 < n <= |s| && !EscapedIn(s, n)
    requires forall m :: 0 <= m < n ==> (s[m] == '>' || s[m] == '\n' ==> EscapedIn(s, m))
    ensures AngleTo(s, k) <==> k >= n && AngleTo(s[n..], k - n)
  {
    var t := s[n..];
    forall m: nat | m <= |t| ensures EscapedIn(t, m) <==> EscapedIn(s, n + m) { EscapedTail(s, n, m); }
    if k >= n && AngleTo(t, k - n) {
      forall m | 0 <= m < k ensures s[m] == '>' || s[m] == '\n' ==> EscapedIn(s, m) {
        if m >= n { assert t[m - n] == s[m]; }
      }
    }
    if AngleTo(s, k) && k >= n {
      forall m | 0 <= m < k - n ensures t[m] == '>' || t[m] == '\n' ==> EscapedIn(t, m) {
        assert t[m] == s[n + m];
      }
    }
  }

  lemma {:induction false} AngleExactly(s: string, k: nat)
    ensures AngleEnd(s) == Some(k + 1) <==> AngleTo(s, k)
    decreases |s|
  {
    hide AngleTo, AngleEnd;
    if s == "" || s[0] == '\n' || s[0] == '>' {
      AngleStops(s, k);
    } else if Escaping(s) {
      AngleSkips(s);
      AngleOn(s, 2, k);
      if k >= 2 { AngleExactly(s[2..], k - 2); }
    } else {
      AngleSkips(s);
      if s[0] == '\\' {
        AngleStops(s, k);
      } else {
        AngleOn(s, 1, k);
        if k >= 1 { AngleExactly(s[1..], k - 1); }
      }
    }
  }

  lemma AngleStops(s: string, k: nat)
    requires s == "" || s[0] == '\n' || s[0] == '>' || (|s| == 1 && s[0] == '\\')
    ensures AngleEnd(s) == Some(k + 1) <==> AngleTo(s, k)
  {
    assert s != "" ==> !EscapedIn(s, 0);
    if |s| == 1 { assert s[1..] == ""; }
  }

  lemma AngleSkips(s: string)
    requires s != "" && s[0] != '\n' && s[0] != '>'
    ensures !EscapedIn(s, 0) && (|s| > 1 ==> (EscapedIn(s, 1) <==> s[0] == '\\'))
    ensures Escaping(s) ==> !EscapedIn(s, 2) && AngleEnd(s) == Shift(2, AngleEnd(s[2..]))
    ensures s[0] != '\\' ==> !EscapedIn(s, 1) && AngleEnd(s) == Shift(1, AngleEnd(s[1..]))
  {
    hide Shift;
  }

  // ----- Links -------------------------------------------------------------

  /** After the parenthesis that opens: `b` blanks, a destination in angle brackets up to `a` or none,
      and the parenthesis that closes at `k`. */
  ghost predicate TailTo(s: string, k: nat) {
    exists b: nat :: TailFrom(s, b, k)
  }

  ghost predicate TailFrom(s: string, b: nat, k: nat) {
    && BlanksTo(s, b) && b <= |s|
    && if b < |s| && s[b] == '<' then exists a: nat :: AngleTail(s, b, a, k)
       else b <= k && FirstEnd(s[b..], k - b, Fresh(1), PARENTHESES)
  }

  predicate BlanksTo(s: string, b: nat) {
    && b <= |s| && (forall j :: 0 <= j < b ==> s[j] == ' ' || s[j] == '\t')
    && (b < |s| ==> s[b] != ' ' && s[b] != '\t')
  }

  /** Past the `<` at `b` a destination of `a` characters, its `>`, and the rest up to `k`. */
  predicate AngleTail(s: string, b: nat, a: nat, k: nat) {
    && b < |s| && AngleTo(s[b + 1..], a) && b + 2 + a <= k
    && b + 2 + a <= |s| && FirstEnd(s[b + 2 + a..], k - (b + 2 + a), Fresh(1), PARENTHESES)
  }

  lemma OneBlanks(s: string, b: nat)
    ensures BlanksTo(s, b) <==> b == Blanks(s)
  {
    BlanksCount(s);
    if BlanksTo(s, b) { SameBlanks(s, b, Blanks(s)); }
  }

  lemma SameBlanks(s: string, b: nat, c: nat)
    requires BlanksTo(s, b) && BlanksTo(s, c)
    ensures b == c
  {
  }

  /** The parenthesis found is the one the text closes with. */
  lemma InsideExactly(s: string, k: nat)
    ensures Inside(s) == Some(k + 1) <==> TailTo(s, k)
  {
    hide Blanks, AngleEnd, Balance, FirstEnd, AngleTo, BlanksTo, Inside, AngleTail;
    var b := Blanks(s);
    OneBlanks(s, b);
    forall c: nat ensures TailFrom(s, c, k) ==> c == b { if TailFrom(s, c, k) { OneBlanks(s, c); } }
    assert TailTo(s, k) <==> TailFrom(s, b, k);
    if b < |s| && s[b] == '<' {
      InsideAngle(s, b, k);
    } else {
      if b <= k { BalanceExactly(s[b..], 1, k - b); }
      InsideBare(s, b);
    }
  }

  lemma InsideBare(s: string, b: nat)
    requires b == Blanks(s) && !(b < |s| && s[b] == '<')
    ensures Inside(s) == Shift(b, Balance(s[b..], 1))
  {
    hide Balance, Blanks, Shift;
  }

  lemma InsideAngleIs(s: string, b: nat)
    requires b == Blanks(s) && b < |s| && s[b] == '<'
    ensures Inside(s)
         == match AngleEnd(s[b + 1..])
            case None => None
            case Some(n) => Shift(b + 1 + n, Balance(s[b + 1 + n..], 1))
  {
    hide Balance, Blanks, Shift, AngleEnd;
  }

  lemma InsideAngle(s: string, b: nat, k: nat)
    requires b == Blanks(s) && b < |s| && s[b] == '<'
    ensures Inside(s) == Some(k + 1) <==> exists a: nat :: AngleTail(s, b, a, k)
  {
    hide Blanks, AngleEnd, Balance, FirstEnd, AngleTo, Inside;
    InsideAngleIs(s, b);
    var t := s[b + 1..];
    forall a: nat ensures AngleTo(t, a) <==> AngleEnd(t) == Some(a + 1) { AngleExactly(t, a); }
    match AngleEnd(s[b + 1..]) {
      case None =>
        forall a: nat ensures !AngleTail(s, b, a, k) {
        }
      case Some(n) =>
        if b + 1 + n <= k { BalanceExactly(s[b + 1 + n..], 1, k - (b + 1 + n)); }
        forall a: nat ensures AngleTail(s, b, a, k) ==> a == n - 1 {
        }
        assert AngleTail(s, b, n - 1, k) <==> Inside(s) == Some(k + 1);
    }
  }

  /** A label up to `close`, then a tail in parentheses or a second label, up to `after`. */
  ghost predicate LinkWritten(s: string, close: nat, after: nat) {
    && s != "" && s[0] == '[' && FirstEnd(s, close, Fresh(0), BRACKETS)
    && close + 1 < |s| && close + 2 < after
    && ((s[close + 1] == '(' && TailTo(s[close + 2..], after - close - 3))
        || (s[close + 1] == '[' && FirstEnd(s[close + 1..], after - close - 2, Fresh(0), BRACKETS)))
  }

  lemma LinkParts(s: string, close: nat)
    requires s != "" && s[0] == '[' && Bracket(s, 0) == Some(close) && close + 1 < |s|
    ensures s[close + 1] == '(' ==>
              LinkAt(s) == match Inside(s[close + 2..])
                           case None => None
                           case Some(n) => Some(Extent(close, close + 2 + n))
    ensures s[close + 1] == '[' ==>
              LinkAt(s) == match Bracket(s[close + 1..], 0)
                           case None => None
                           case Some(n) => Some(Extent(close, close + 2 + n))
    ensures s[close + 1] != '(' && s[close + 1] != '[' ==> LinkAt(s) == None
  {
    hide Bracket, Inside;
    assert s[close + 1..][1..] == s[close + 2..];
  }

  /** A link is found exactly where one is written, with its extent. */
  lemma LinkExactly(s: string, close: nat, after: nat)
    ensures LinkAt(s) == Some(Extent(close, after)) <==> LinkWritten(s, close, after)
  {
    hide Bracket, Inside, FirstEnd, TailTo, LinkAt;
    if s != "" && s[0] == '[' {
      BracketExactly(s, 0, close);
      if Bracket(s, 0) == Some(close) && close + 1 < |s| {
        LinkParts(s, close);
        if close + 2 < after {
          InsideExactly(s[close + 2..], after - close - 3);
          BracketExactly(s[close + 1..], 0, after - close - 2);
          NotHere(s[close + 1..]);
        }
      }
      LinkNeeds(s);
    } else {
      NoLink(s);
    }
  }

  lemma NotHere(s: string)
    ensures s != "" && s[0] == '[' ==> Bracket(s, 0) != Some(0)
  {
    if s != "" && s[0] == '[' { NotAtOnce(s); }
  }

  lemma NoLink(s: string)
    requires s == "" || s[0] != '['
    ensures LinkAt(s) == None
  {
  }

  lemma LinkNeeds(s: string)
    requires s != "" && s[0] == '['
    ensures LinkAt(s).Some? ==>
              Bracket(s, 0) == Some(LinkAt(s).value.close) && LinkAt(s).value.close + 3 <= LinkAt(s).value.after
  {
    hide Bracket, Closing;
  }

  /** No label goes over a blank line, unless a backslash escapes its line end. */
  lemma LabelUnbroken(s: string, m: nat)
    requires LinkAt(s).Some? && m < LinkAt(s).value.close && BlankLineAt(s, m)
    ensures ReadTo(s, m, Fresh(0), BRACKETS).escaped
  {
    hide LinkAt, BlankLineAt, TailTo;
    var e := LinkAt(s).value;
    LinkExactly(s, e.close, e.after);
    assert !BreaksAt(s, m, Fresh(0), BRACKETS);
  }
}
