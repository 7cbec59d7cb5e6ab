/**
  * Character literals and escaped identifiers as their patterns write them
  * (scripts/check_proof_escapes.py, scripts/check_report_theorem_inventory.py).
  */
module LeanPatterns {

  import opened Wrappers
  import opened LeanLexers

  /** What stands between the apostrophes: a backslash and one character, or one other character. */
  predicate Content(c: string) {
    || (|c| == 2 && c[0] == '\\' && c[1] != '\n')
    || (|c| == 1 && c[0] != '\\' && c[0] != '\'' && c[0] != '\n')
  }

  /** An apostrophe, the content, an apostrophe that no word character follows. */
  predicate IsLiteral(s: string, c: string, word: WordClass) {
    && Content(c) && "'" + c + "'" <= s && (|s| > |c| + 2 ==> !word(s[|c| + 2]))
  }

  /** The pattern with its lookbehind: neither a word character nor an apostrophe stands before. */
  predicate LiteralAt(prev: Option<char>, s: string, c: string, word: WordClass) {
    IsLiteral(s, c, word) && (prev.Some? ==> !word(prev.value) && prev.value != '\'')
  }

  lemma ShapeFound(s: string, word: WordClass)
    requires LiteralShape(s, word) > 0
    ensures IsLiteral(s, s[1..LiteralShape(s, word) - 1], word)
  {
    var n := LiteralShape(s, word);
    var c := s[1..n - 1];
    assert "'" + c + "'" == s[..n];
  }

  lemma ShapeRead(s: string, c: string, word: WordClass)
    requires IsLiteral(s, c, word)
    ensures LiteralShape(s, word) == |c| + 2
  {
    var t := "'" + c + "'";
    assert s[0] == t[0] && s[1] == t[1] && s[2] == t[2];
    assert |c| == 2 ==> s[3] == t[3];
  }

  /** The scanner finds a literal of `n` characters exactly where the pattern matches one. */
  lemma LiteralExactly(prev: Option<char>, s: string, n: nat, word: WordClass)
    requires n > 0
    ensures CharLiteral(prev, s, word) == n <==> exists c :: LiteralAt(prev, s, c, word) && |c| + 2 == n
  {
    hide LiteralShape, Content;
    if CharLiteral(prev, s, word) == n {
      ShapeFound(s, word);
      var c := s[1..n - 1];
      assert LiteralAt(prev, s, c, word);
    }
    if c :| LiteralAt(prev, s, c, word) && |c| + 2 == n { ShapeRead(s, c, word); }
  }

  /** The second scanner copies an identifier up to its closing guillemet, if that comes on the same line. */
  lemma NameExactly(s: string, n: nat)
    requires s != "" && n > 0
    ensures NameLength(s) == n
       <==> n < |s| && s[n] == '\U{BB}' && forall i :: 1 <= i < n ==> s[i] != '\U{BB}' && s[i] != '\n'
  {
    if n < |s| && s[n] == '\U{BB}' && forall i :: 1 <= i < n ==> s[i] != '\U{BB}' && s[i] != '\n' {
      NameReaches(s, 1, n);
    }
  }

  lemma {:induction false} NameReaches(s: string, k: nat, n: nat)
    requires 1 <= k <= n < |s| && s[n] == CLOSE_NAME
    requires forall i :: 1 <= i < n ==> s[i] != CLOSE_NAME && s[i] != '\n'
    ensures NameLengthFrom(s, k) == n
    decreases n - k
  {
    if k < n { NameReaches(s, k + 1, n); }
  }

  /** In code, where no comment and no string begins, a literal is replaced by as many blanks. */
  lemma LiteralBlanked(prev: Option<char>, s: string, c: string, mask: bool, word: WordClass)
    requires LiteralAt(prev, s, c, word)
    ensures |c| + 2 <= |s|
    ensures Escapes(prev, s, Code, mask, word)
         == seq(|c| + 2, _ => ' ') + Escapes(Some('\''), s[|c| + 2..], Code, mask, word)
  {
    hide Escapes, CharLiteral;
    LiteralExactly(prev, s, |c| + 2, word);
    var t := "'" + c + "'";
    assert s[0] == t[0] && s[|c| + 1] == t[|c| + 1];
    assert EscapesStep(prev, s, Code, mask, word) == Step(|c| + 2, Spaces(|c| + 2), Code);
    Once(prev, s, mask, word);
    assert Spaces(|c| + 2) == seq(|c| + 2, _ => ' ');
  }

  lemma Once(prev: Option<char>, s: string, mask: bool, word: WordClass)
    requires s != ""
    ensures var st := EscapesStep(prev, s, Code, mask, word);
      Escapes(prev, s, Code, mask, word)
      == st.out + Escapes(Some(s[st.width - 1]), s[st.width..], st.next, mask, word)
  {
    hide EscapesStep;
  }
}
