/**
  * The link definitions that `visible_text` (scripts/markdown_text.py) removes before
  * its passes. The pattern is read here as it is written there: on each line, block
  * quote markers and blanks, a label in brackets, blanks, and a colon.
  */
module LinkDefinitions {

  import opened Whitespace
  import opened Subsequences
  import VisibleText

  // ----- The pattern -------------------------------------------------------

  /** White space inside a line. */
  predicate Blank(c: char) { IsSpace(c) && c != '\n' }

  /** Past the markers and blanks a line begins with. */
  function SkipMarkers(s: string): string {
    if s != "" && (Blank(s[0]) || s[0] == '>') then SkipMarkers(s[1..]) else s
  }

  /** Blanks, then a colon. */
  predicate ColonNext(s: string) {
    s != "" && (s[0] == ':' || (Blank(s[0]) && ColonNext(s[1..])))
  }

  /** The label, read as the pattern writes it: no bracket and no line end, or a backslash with what follows it. */
  predicate Label(s: string)
    decreases |s|
  {
    || s == ""
    || (s[0] !in "[]\n" && Label(s[1..]))
    || (|s| > 1 && s[0] == '\\' && s[1] != '\n' && Label(s[2..]))
  }

  /** A definition begins at the start of `s`: some way to read the pattern succeeds. */
  ghost predicate Matches(s: string) {
    var r := SkipMarkers(s);
    r != "" && r[0] == '[' && exists b: nat :: ClosesAt(r[1..], b)
  }

  ghost predicate ClosesAt(s: string, b: nat) {
    b < |s| && Label(s[..b]) && s[b] == ']' && ColonNext(s[b + 1..])
  }

  /** The same without guessing: a bracket in the label must follow a backslash directly. */
  predicate LabelCloses(s: string, prev: char) {
    s != "" && s[0] != '\n'
    && if s[0] == ']' then ColonNext(s[1..]) || (prev == '\\' && LabelCloses(s[1..], s[0]))
       else (s[0] == '[' ==> prev == '\\') && LabelCloses(s[1..], s[0])
  }

  predicate IsDefinition(s: string) {
    var r := SkipMarkers(s);
    r != "" && r[0] == '[' && LabelCloses(r[1..], r[0])
  }

  predicate Escaped(s: string, prev: char) {
    s != "" ==> s[0] != '\n' && (s[0] in "[]" ==> prev == '\\') && Escaped(s[1..], s[0])
  }

  /** Only a backslash before it matters. */
  lemma {:induction false} EscapedAfter(s: string, p: char, q: char)
    requires p != '\\'
    ensures Escaped(s, p) ==> Escaped(s, q)
  {
  }

  lemma {:induction false} LabelIsEscaped(s: string)
    ensures Label(s) <==> Escaped(s, '[')
    decreases |s|
  {
    if s != "" {
      LabelIsEscaped(s[1..]);
      EscapedAfter(s[1..], '[', s[0]);
      if s[0] != '\\' { EscapedAfter(s[1..], s[0], '['); }
      if |s| > 1 && s[0] == '\\' {
        LabelIsEscaped(s[2..]);
        assert s[1..][1..] == s[2..];
        EscapedPair(s);
      }
    }
  }

  /** A backslash: either it stands alone or it takes the next character with it. */
  lemma EscapedPair(s: string)
    requires |s| > 1 && s[0] == '\\'
    ensures Escaped(s, '[') <==> Escaped(s[1..], '[') || (s[1] != '\n' && Escaped(s[2..], '['))
  {
    assert s[1..][1..] == s[2..];
    EscapedAfter(s[2..], '[', s[1]);
    if s[1] != '\\' { EscapedAfter(s[2..], s[1], '['); }
    EscapedAfter(s[1..], '[', '\\');
  }

  ghost predicate ClosesEscaped(s: string, prev: char, b: nat) {
    b < |s| && Escaped(s[..b], prev) && s[b] == ']' && ColonNext(s[b + 1..])
  }

  lemma {:induction false} ClosesExactly(s: string, prev: char)
    ensures LabelCloses(s, prev) <==> exists b: nat :: ClosesEscaped(s, prev, b)
  {
    hide ColonNext;
    if s != "" {
      ClosesExactly(s[1..], s[0]);
      if LabelCloses(s, prev) {
        if s[0] == ']' && ColonNext(s[1..]) {
          assert ClosesEscaped(s, prev, 0);
        } else {
          var b: nat :| ClosesEscaped(s[1..], s[0], b);
          ClosesLater(s, prev, b);
          assert ClosesEscaped(s, prev, b + 1);
        }
      }
      if b: nat :| ClosesEscaped(s, prev, b) {
        if b > 0 {
          ClosesLater(s, prev, b - 1);
          assert ClosesEscaped(s[1..], s[0], b - 1);
        }
      }
    }
  }

  lemma ClosesLater(s: string, prev: char, b: nat)
    requires s != ""
    ensures ClosesEscaped(s, prev, b + 1)
       <==> s[0] != '\n' && (s[0] in "[]" ==> prev == '\\') && ClosesEscaped(s[1..], s[0], b)
  {
    hide ColonNext;
    if b + 1 < |s| {
      assert s[..b + 1][1..] == s[1..][..b];
      assert s[1..][b + 1..] == s[b + 2..];
    }
  }

  /** The reading without guessing finds a definition exactly where the pattern matches. */
  lemma DefinitionExactly(s: string)
    ensures IsDefinition(s) <==> Matches(s)
  {
    hide LabelCloses, ColonNext, Label, Escaped;
    var r := SkipMarkers(s);
    if r != "" && r[0] == '[' {
      ClosesExactly(r[1..], '[');
      forall b: nat ensures ClosesAt(r[1..], b) <==> ClosesEscaped(r[1..], '[', b) {
        if b < |r[1..]| { LabelIsEscaped(r[1..][..b]); }
      }
    }
  }

  // ----- Removing them -----------------------------------------------------

  /** Just past the first line end. */
  function LineEnd(s: string): (n: nat)
    ensures n <= |s| && (s != "" ==> n > 0)
  {
    if s == "" then 0 else if s[0] == '\n' then 1 else 1 + LineEnd(s[1..])
  }

  /** Every definition removed with its line. */
  function RemoveDefinitions(s: string): string
    decreases |s|
  {
    if s == "" then ""
    else (if IsDefinition(s) then "" else s[..LineEnd(s)]) + RemoveDefinitions(s[LineEnd(s)..])
  }

  /** No line of the text is a definition. */
  predicate NoDefinition(s: string)
    decreases |s|
  {
    s != "" ==> !IsDefinition(s) && NoDefinition(s[LineEnd(s)..])
  }

  lemma {:induction false} RemovalDeletes(s: string)
    ensures Subsequence(RemoveDefinitions(s), s)
    decreases |s|
  {
    hide IsDefinition, Subsequence, LineEnd;
    if s == "" {
      Reflexive(s);
    } else {
      var n := LineEnd(s);
      RemovalDeletes(s[n..]);
      Reflexive(s[..n]);
      Deleted(s[..n]);
      var kept := if IsDefinition(s) then "" else s[..n];
      Concat(kept, s[..n], RemoveDefinitions(s[n..]), s[n..]);
      assert s[..n] + s[n..] == s;
    }
  }

  /** A text stays as it is exactly when no line of it is a definition. */
  lemma {:induction false} RemovalExactly(s: string)
    ensures |RemoveDefinitions(s)| <= |s|
    ensures RemoveDefinitions(s) == s <==> NoDefinition(s)
    decreases |s|
  {
    hide IsDefinition, LineEnd;
    if s != "" {
      var n := LineEnd(s);
      RemovalExactly(s[n..]);
      assert s == s[..n] + s[n..];
      if !IsDefinition(s) && RemoveDefinitions(s) == s {
        assert RemoveDefinitions(s)[n..] == RemoveDefinitions(s[n..]);
      }
    }
  }

  // ----- The whole function ------------------------------------------------

  function Visible(source: string): string {
    VisibleText.Passes(RemoveDefinitions(source), VisibleText.MAX_PASSES)
  }

  /** `visible_text`. */
  method ReduceText(source: string) returns (text: string)
    ensures text == Visible(source)
  {
    text := VisibleText.ReduceLinks(RemoveDefinitions(source));
  }

  /** Whatever the text, what is shown is the text with characters deleted. */
  lemma VisibleDeletes(source: string)
    ensures Subsequence(Visible(source), source)
  {
    hide Subsequence, RemoveDefinitions, VisibleText.Passes;
    var text := RemoveDefinitions(source);
    RemovalDeletes(source);
    VisibleText.PassesDelete(text, VisibleText.MAX_PASSES);
    Transitive(Visible(source), text, source);
  }
}
